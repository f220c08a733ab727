/** A target that takes its time to program a page, and what the completion check is for. */
module SlowTargets {
  import opened Bits
  import opened Seqs
  import opened SpiBuses
  import opened SpiTarget
  import opened Polling
  import opened IspStreams
  import opened IspProgrammer
  import opened IspRoundTrip

  /** What a page that is being programmed reads as. */
  const BLANK: byte := 0xFF

  /** `busy` is the number of bytes on the bus until the page at `page` is programmed; 0 if none is under way. */
  datatype Slow = Slow(t: Target, busy: nat, page: word)

  function Commit(t: Target, page: word): (r: Target)
    ensures r.ops == t.ops && r.pending == t.pending
  {
    t.(flash := Program(t.flash, t.PageStart(page), t.buffer), buffer := Erased(|t.buffer|))
  }

  /** The target once the page under way is done. */
  function Settled(s: Slow): (r: Target)
    ensures r.ops == s.t.ops && r.pending == s.t.pending
  {
    if s.busy == 0 then s.t else Commit(s.t, s.page)
  }

  /** A busy target hears instructions but carries none out. */
  function SlowTake(latency: nat, s: Slow, b: byte): (r: Slow)
    ensures r.t.ops == s.t.ops
  {
    var t := s.t;
    if s.busy > 0 then
      var heard := t.(pending := if |t.pending| < 3 then t.pending + [b] else []);
      if s.busy == 1 then Slow(Commit(heard, s.page), 0, s.page) else Slow(heard, s.busy - 1, s.page)
    else if |t.pending| == 3 && t.pending[0] == t.ops.commit && latency > 0 then
      Slow(t.(pending := []), latency, Join(t.pending[1], t.pending[2]))
    else Slow(Take(t, b), 0, s.page)
  }

  /** While it is busy it says so to a busy poll, and reads as blank. */
  function SlowAnswer(s: Slow): byte {
    if s.busy == 0 then Answer(s.t)
    else if |s.t.pending| < 3 then 0
    else if s.t.pending[0] == POLL_BUSY_CMD then 1
    else if s.t.ops.IsRead(s.t.pending[0]) then BLANK
    else 0
  }

  function SlowFeed(latency: nat, s: Slow, bytes: seq<byte>): (r: Slow)
    ensures r.t.ops == s.t.ops
  {
    if bytes == [] then s else SlowTake(latency, SlowFeed(latency, s, bytes[..|bytes| - 1]), bytes[|bytes| - 1])
  }

  /** The answer to the last of some bytes. */
  function SlowReply(latency: nat, s: Slow, bytes: seq<byte>): byte
  {
    if bytes == [] then 0 else SlowAnswer(SlowFeed(latency, s, bytes[..|bytes| - 1]))
  }

  function SlowDevice(latency: nat, s: Slow): Device
  {
    (bytes: seq<byte>) => SlowReply(latency, s, bytes)
  }

  lemma SlowOne(latency: nat, s: Slow, bytes: seq<byte>, b: byte)
    ensures SlowFeed(latency, s, bytes + [b]) == SlowTake(latency, SlowFeed(latency, s, bytes), b)
    ensures SlowReply(latency, s, bytes + [b]) == SlowAnswer(SlowFeed(latency, s, bytes))
  {
    ButLastSnoc(bytes, b);
  }

  lemma {:induction false} SlowConcat(latency: nat, s: Slow, a: seq<byte>, b: seq<byte>)
    ensures SlowFeed(latency, s, a + b) == SlowFeed(latency, SlowFeed(latency, s, a), b)
  {
    if b == [] {
      EmptyRight(a);
    } else {
      SlowConcat(latency, s, a, b[..|b| - 1]);
      ButLast(a, b);
    }
  }

  /** The slow target does what the fast one does, only later, if no instruction that matters comes meanwhile. */
  lemma SettledTake(latency: nat, s: Slow, b: byte)
    requires (s.busy > 0 && |s.t.pending| == 3 ==> Harmless(s.t.ops, s.t.pending[0]))
    ensures Settled(SlowTake(latency, s, b)) == Take(Settled(s), b)
  {
    if s.busy > 0 && |s.t.pending| == 3 {
      HarmlessTake(Settled(s), b);
    }
  }

  lemma HarmlessTake(t: Target, b: byte)
    requires |t.pending| == 3 && Harmless(t.ops, t.pending[0])
    ensures Take(t, b) == t.(pending := [])
  {}

  // ----- Before the commit: not busy -----

  /** Three bytes of an instruction are only heard, busy or not. */
  lemma SlowThree(latency: nat, s: Slow, a: byte, b: byte, c: byte)
    requires s.t.pending == []
    ensures var r := SlowFeed(latency, s, [a, b, c]);
            && r.t.pending == [a, b, c] && Settled(r) == Settled(s).(pending := [a, b, c])
            && r.busy == (if s.busy > 3 then s.busy - 3 else 0)
            && (r.busy > 0 ==> r == s.(t := s.t.(pending := [a, b, c]), busy := s.busy - 3))
            && (s.busy == 0 ==> r == s.(t := s.t.(pending := [a, b, c])))
  {
    SlowOne(latency, s, [], a);
    SlowOne(latency, s, [a], b);
    SlowOne(latency, s, [a, b], c);
    EmptyLeft([a]);
    Two(a, b);
    Three(a, b, c);
    HearOne(latency, s, a);
    var s1 := SlowTake(latency, s, a);
    HearOne(latency, s1, b);
    HearOne(latency, SlowTake(latency, s1, b), c);
  }

  lemma HearOne(latency: nat, s: Slow, b: byte)
    requires |s.t.pending| < 3
    ensures var r := SlowTake(latency, s, b);
            && r.t.pending == s.t.pending + [b] && Settled(r) == Settled(s).(pending := s.t.pending + [b])
            && r.busy == (if s.busy > 1 then s.busy - 1 else 0) && r.page == s.page
            && (r.busy > 0 || s.busy == 0 ==> r.t == s.t.(pending := s.t.pending + [b]))
  {}

  lemma SlowInstruction(latency: nat, s: Slow, a: byte, b: byte, c: byte, d: byte)
    requires s.t.pending == [] && s.busy == 0 && a != s.t.ops.commit
    ensures SlowFeed(latency, s, [a, b, c, d]) == s.(t := Feed(s.t, [a, b, c, d]))
  {
    SlowThree(latency, s, a, b, c);
    FeedThree(s.t, a, b, c);
    FourBytes(latency, s, a, b, c, d);
  }

  lemma FourBytes(latency: nat, s: Slow, a: byte, b: byte, c: byte, d: byte)
    ensures SlowFeed(latency, s, [a, b, c, d]) == SlowTake(latency, SlowFeed(latency, s, [a, b, c]), d)
    ensures Feed(s.t, [a, b, c, d]) == Take(Feed(s.t, [a, b, c]), d)
    ensures SlowReply(latency, s, [a, b, c, d]) == SlowAnswer(SlowFeed(latency, s, [a, b, c]))
  {
    assert [a, b, c, d][..3] == [a, b, c];
  }

  lemma SlowExtension(latency: nat, s: Slow, start: dword, due: bool)
    requires s.t.pending == [] && s.busy == 0
    ensures SlowFeed(latency, s, ExtensionDue(start, due)) == s.(t := Extended(s.t, start, due))
  {
    ExtensionSets(s.t, start, due);
    if ExtensionDue(start, due) != [] {
      SlowInstruction(latency, s, LOAD_EXTENDED_ADDRESS_CMD, 0, start / 0x1_0000 % 0x100, 0);
    }
  }

  lemma {:induction false} SlowLoads(latency: nat, s: Slow, start: dword, data: seq<byte>)
    requires s.t.pending == [] && s.busy == 0
    ensures SlowFeed(latency, s, WriteStream(Toggling, true, s.t.ops.load, start, data))
         == s.(t := s.t.(buffer := Loaded(s.t, start, data)))
  {
    if data != [] {
      var i := |data| - 1;
      SlowLoads(latency, s, start, data[..i]);
      SlowLoadOne(latency, s.(t := s.t.(buffer := Loaded(s.t, start, data[..i]))), start, i, data[i]);
      SlowConcat(latency, s, WriteStream(Toggling, true, s.t.ops.load, start, data[..i]),
                 IspStreams.Instruction(CommandAt(Toggling, true, s.t.ops.load, i), AddressAt(true, start, i),
                                        data[i]));
    }
  }

  lemma SlowLoadOne(latency: nat, s: Slow, start: dword, i: nat, value: byte)
    requires s.t.pending == [] && s.busy == 0
    ensures SlowFeed(latency, s,
              IspStreams.Instruction(CommandAt(Toggling, true, s.t.ops.load, i), AddressAt(true, start, i), value))
         == s.(t := s.t.(buffer := s.t.buffer[BufferIndex(s.t, start, i) := value]))
  {
    var op, x := CommandAt(Toggling, true, s.t.ops.load, i), AddressAt(true, start, i);
    LoadOpcode(s.t, i);
    LoadOne(s.t, start, i, value);
    SlowInstruction(latency, s, op, HighByte(x), LowByte(x), value);
  }

  /** The commit starts the programming, which is over after `latency` more bytes. */
  lemma SlowCommit(latency: nat, s: Slow, h: byte, l: byte)
    requires s.t.pending == [] && s.busy == 0
    ensures var r := SlowFeed(latency, s, [s.t.ops.commit, h, l, 0]);
            r.busy == latency && r.t.pending == [] && Settled(r) == Commit(s.t, Join(h, l))
  {
    SlowThree(latency, s, s.t.ops.commit, h, l);
    FourBytes(latency, s, s.t.ops.commit, h, l, 0);
    CommitTaken(latency, s, h, l);
  }

  lemma CommitTaken(latency: nat, s: Slow, h: byte, l: byte)
    requires s.t.pending == [] && s.busy == 0
    ensures var r := SlowTake(latency, s.(t := s.t.(pending := [s.t.ops.commit, h, l])), 0);
            r.busy == latency && r.t.pending == [] && Settled(r) == Commit(s.t, Join(h, l))
  {
    var heard := s.t.(pending := [s.t.ops.commit, h, l]);
    assert heard.(pending := []) == s.t;
    if latency == 0 {
      ExecuteCommit(s.t, Join(h, l), 0);
    }
  }

  // ----- After it: the polls -----

  /** A harmless instruction only takes time; the answer to it is that of a busy target while it is busy. */
  lemma SlowHarmless(latency: nat, s: Slow, op: byte, b: byte, c: byte, d: byte)
    requires s.t.pending == [] && Harmless(s.t.ops, op)
    ensures var r := SlowFeed(latency, s, [op, b, c, d]);
            && r.t.pending == [] && Settled(r) == Settled(s) && r.busy == (if s.busy > 4 then s.busy - 4 else 0)
            && (s.busy > 3 && op == POLL_BUSY_CMD ==> SlowReply(latency, s, [op, b, c, d]) == 1)
            && (s.busy > 3 && op != POLL_BUSY_CMD && s.t.ops.IsRead(op) ==>
                  SlowReply(latency, s, [op, b, c, d]) == BLANK)
  {
    SlowThree(latency, s, op, b, c);
    FourBytes(latency, s, op, b, c, d);
    var r3 := SlowFeed(latency, s, [op, b, c]);
    SettledTake(latency, r3, d);
    HarmlessTake(Settled(r3), d);
  }

  lemma {:induction false} SlowPolls(latency: nat, s: Slow, op: byte, b: byte, c: byte, d: byte, n: nat)
    requires s.t.pending == [] && Harmless(s.t.ops, op)
    ensures var r := SlowFeed(latency, s, Repeat([op, b, c, d], n));
            && r.t.pending == [] && Settled(r) == Settled(s) && r.busy == (if s.busy > 4 * n then s.busy - 4 * n else 0)
  {
    if n > 0 {
      SlowPolls(latency, s, op, b, c, d, n - 1);
      SlowConcat(latency, s, Repeat([op, b, c, d], n - 1), [op, b, c, d]);
      SlowHarmless(latency, SlowFeed(latency, s, Repeat([op, b, c, d], n - 1)), op, b, c, d);
    }
  }

  /** The answer to the last of some bytes depends on where the others have brought the target. */
  lemma SlowLater(latency: nat, s: Slow, before: seq<byte>, op: byte, b: byte, c: byte, d: byte)
    ensures SlowReply(latency, s, before + [op, b, c, d])
         == SlowReply(latency, SlowFeed(latency, s, before), [op, b, c, d])
  {
    FourFromThree(before, op, b, c, d);
    SlowOne(latency, s, before + [op, b, c], d);
    SlowConcat(latency, s, before, [op, b, c]);
    FourBytes(latency, SlowFeed(latency, s, before), op, b, c, d);
  }

  /** What a busy target answers to a busy poll, and to a read. */
  function BusyAnswer(op: byte): byte { if op == POLL_BUSY_CMD then 1 else BLANK }

  /** If the last of some polls got another answer than a busy target gives, the target was done. */
  lemma PollsTell(latency: nat, s: Slow, before: seq<byte>, op: byte, b: byte, c: byte, d: byte, n: nat)
    requires SlowFeed(latency, s, before).t.pending == [] && Harmless(s.t.ops, op) && n > 0
    requires op == POLL_BUSY_CMD || s.t.ops.IsRead(op)
    requires SlowReply(latency, s, before + Repeat([op, b, c, d], n)) != BusyAnswer(op)
    ensures SlowFeed(latency, s, before + Repeat([op, b, c, d], n)).busy == 0
  {
    var u := SlowFeed(latency, s, before);
    var front := Repeat([op, b, c, d], n - 1);
    SlowPolls(latency, u, op, b, c, d, n - 1);
    Assoc(before, front, [op, b, c, d]);
    SlowConcat(latency, s, before, front);
    SlowLater(latency, s, before + front, op, b, c, d);
    SlowConcat(latency, s, before + front, [op, b, c, d]);
    SlowHarmless(latency, SlowFeed(latency, u, front), op, b, c, d);
  }

  // ----- What the reply to the host is worth -----

  /** Everything up to the commit, from the first byte of a program command. */
  function UpToCommit(p: ProgramParams, start: dword, due: bool, data: seq<byte>): seq<byte> {
    ExtensionDue(start, due) + WriteStream(Toggling, p.flash, p.writeCommand, start, data)
    + IspStreams.Instruction(p.commitCommand, start % 0x1_0000, 0)
  }

  function Checks(p: ProgramParams, start: dword, data: seq<byte>, polls: nat): seq<byte> {
    var target := PollScan(p.flash, start, data, p.pollValue, p.readCommand);
    CheckTraffic(PageCheck(p, start, data), target.1, target.0, polls)
  }

  lemma TrafficParts(p: ProgramParams, start: dword, due: bool, data: seq<byte>, polls: nat)
    requires p.Commits()
    ensures PagedTraffic(p, start, due, data, polls) == UpToCommit(p, start, due, data) + Checks(p, start, data, polls)
  {
    var a := ExtensionDue(start, due) + WriteStream(Toggling, p.flash, p.writeCommand, start, data);
    Assoc(a, IspStreams.Instruction(p.commitCommand, start % 0x1_0000, 0), Checks(p, start, data, polls));
  }

  /** The commit leaves the target busy with what a fast one would have done. */
  lemma SlowUpToCommit(latency: nat, s: Slow, p: ProgramParams, start: dword, due: bool, data: seq<byte>)
    requires s.t.pending == [] && s.busy == 0 && Drives(p, s.t)
    ensures var r := SlowFeed(latency, s, UpToCommit(p, start, due, data));
            r.busy == latency && r.t.pending == [] && Settled(r) == Committed(Extended(s.t, start, due), start, data)
  {
    var extension, writes := ExtensionDue(start, due), WriteStream(Toggling, true, p.writeCommand, start, data);
    var e := Extended(s.t, start, due);
    SlowExtension(latency, s, start, due);
    SlowConcat(latency, s, extension, writes);
    SlowLoads(latency, s.(t := e), start, data);
    SlowConcat(latency, s, extension + writes, IspStreams.Instruction(p.commitCommand, start % 0x1_0000, 0));
    LoadThenCommit(latency, s.(t := e), start, data);
  }

  lemma LoadThenCommit(latency: nat, s: Slow, start: dword, data: seq<byte>)
    requires s.t.pending == [] && s.busy == 0
    ensures var r := SlowFeed(latency, s.(t := s.t.(buffer := Loaded(s.t, start, data))),
                              IspStreams.Instruction(s.t.ops.commit, start % 0x1_0000, 0));
            r.busy == latency && r.t.pending == [] && Settled(r) == Committed(s.t, start, data)
  {
    var loaded, address := s.t.(buffer := Loaded(s.t, start, data)), start % 0x1_0000;
    SlowCommit(latency, s.(t := loaded), HighByte(address), LowByte(address));
    JoinWord(address);
    assert loaded.PageWords() == s.t.PageWords();
  }

  lemma JoinWord(address: word)
    ensures Join(HighByte(address), LowByte(address)) == address
  {
    JoinBytes(address);
  }

  /** This check sees whether the target is busy. */
  predicate Watches(check: Check, pollValue: byte) {
    check == BusyPolling || (check == ValuePoll && pollValue == BLANK)
  }

  /** A page is programmed when the reply to its command goes out, with a status that the last answer allows. */
  predicate DoneIfOk(latency: nat, s: Slow, p: ProgramParams, start: dword, due: bool, data: seq<byte>, polls: nat)
  {
    var traffic := PagedTraffic(p, start, due, data, polls);
    Passes(PageCheck(p, start, data), p.pollValue, SlowReply(latency, s, traffic)) ==>
      var r := SlowFeed(latency, s, traffic);
      r.busy == 0 && r.t == Committed(Extended(s.t, start, due), start, data)
  }

  /** A check that watches the target answers for it, however long the target takes. */
  lemma OkMeansDone(latency: nat, s: Slow, p: ProgramParams, start: dword, due: bool, data: seq<byte>, polls: nat)
    requires s.t.pending == [] && s.busy == 0 && Drives(p, s.t) && polls > 0
    requires Watches(PageCheck(p, start, data), p.pollValue)
    ensures DoneIfOk(latency, s, p, start, due, data, polls)
  {
    var front, target := UpToCommit(p, start, due, data), PollScan(p.flash, start, data, p.pollValue, p.readCommand);
    TrafficParts(p, start, due, data, polls);
    SlowUpToCommit(latency, s, p, start, due, data);
    if PageCheck(p, start, data) == BusyPolling {
      PollsDone(latency, s, front, POLL_BUSY_CMD, 0, 0, polls);
    } else {
      PollCommandReads(s.t, start, data, p.pollValue);
      PollsDone(latency, s, front, target.1, HighByte(target.0), LowByte(target.0), polls);
    }
  }

  lemma PollsDone(latency: nat, s: Slow, front: seq<byte>, op: byte, h: byte, l: byte, polls: nat)
    requires SlowFeed(latency, s, front).t.pending == [] && polls > 0
    requires op == POLL_BUSY_CMD || s.t.ops.IsRead(op)
    ensures var r := SlowFeed(latency, s, front + Repeat([op, h, l, 0], polls));
            && Settled(r) == Settled(SlowFeed(latency, s, front))
            && (SlowReply(latency, s, front + Repeat([op, h, l, 0], polls)) != BusyAnswer(op) ==> r.busy == 0)
  {
    LoadReadApart(s.t.ops);
    SlowConcat(latency, s, front, Repeat([op, h, l, 0], polls));
    SlowPolls(latency, SlowFeed(latency, s, front), op, h, l, 0, polls);
    if SlowReply(latency, s, front + Repeat([op, h, l, 0], polls)) != BusyAnswer(op) {
      PollsTell(latency, s, front, op, h, l, 0, polls);
    }
  }

  /** A check that does not lets the reply out while the target is still busy, if the target takes its time. */
  lemma OkTooSoon(s: Slow, p: ProgramParams, start: dword, due: bool, data: seq<byte>)
    requires s.t.pending == [] && s.busy == 0 && Drives(p, s.t)
    requires !Watches(PageCheck(p, start, data), p.pollValue)
    ensures !DoneIfOk(5, s, p, start, due, data, 1)
  {
    if PageCheck(p, start, data) == ValuePoll {
      OnePollTooSoon(s, p, start, due, data);
    } else {
      NoPollTooSoon(s, p, start, due, data);
    }
    NotDone(s, p, start, due, data);
  }

  lemma OnePollTooSoon(s: Slow, p: ProgramParams, start: dword, due: bool, data: seq<byte>)
    requires s.t.pending == [] && s.busy == 0 && Drives(p, s.t) && PageCheck(p, start, data) == ValuePoll
    ensures SlowReply(5, s, PagedTraffic(p, start, due, data, 1)) == BLANK
    ensures SlowFeed(5, s, PagedTraffic(p, start, due, data, 1)).busy == 1
  {
    var target := PollScan(p.flash, start, data, p.pollValue, p.readCommand);
    TrafficParts(p, start, due, data, 1);
    OnePoll(target.1, target.0);
    SlowUpToCommit(5, s, p, start, due, data);
    PollCommandReads(s.t, start, data, p.pollValue);
    OnePollBlank(s, UpToCommit(p, start, due, data), target.1, HighByte(target.0), LowByte(target.0));
  }

  lemma OnePoll(c: byte, address: word)
    ensures CheckTraffic(ValuePoll, c, address, 1) == [c, HighByte(address), LowByte(address), 0]
  {
    var poll := [c, HighByte(address), LowByte(address), 0];
    assert Repeat(poll, 1) == Repeat(poll, 0) + poll && Repeat(poll, 0) == [];
    EmptyLeft(poll);
  }

  lemma NoPollTooSoon(s: Slow, p: ProgramParams, start: dword, due: bool, data: seq<byte>)
    requires s.t.pending == [] && s.busy == 0 && Drives(p, s.t) && !IsPoll(PageCheck(p, start, data))
    ensures SlowFeed(5, s, PagedTraffic(p, start, due, data, 1)).busy == 5
  {
    TrafficParts(p, start, due, data, 1);
    SlowUpToCommit(5, s, p, start, due, data);
    EmptyRight(UpToCommit(p, start, due, data));
  }

  lemma NotDone(s: Slow, p: ProgramParams, start: dword, due: bool, data: seq<byte>)
    requires var traffic := PagedTraffic(p, start, due, data, 1);
             && Passes(PageCheck(p, start, data), p.pollValue, SlowReply(5, s, traffic))
             && SlowFeed(5, s, traffic).busy > 0
    ensures !DoneIfOk(5, s, p, start, due, data, 1)
  {}

  lemma OnePollBlank(s: Slow, front: seq<byte>, op: byte, h: byte, l: byte)
    requires s.t.ops.IsRead(op)
    requires SlowFeed(5, s, front).t.pending == [] && SlowFeed(5, s, front).busy == 5
    ensures SlowReply(5, s, front + [op, h, l, 0]) == BLANK && SlowFeed(5, s, front + [op, h, l, 0]).busy == 1
  {
    LoadReadApart(s.t.ops);
    SlowConcat(5, s, front, [op, h, l, 0]);
    SlowLater(5, s, front, op, h, l, 0);
    SlowHarmless(5, SlowFeed(5, s, front), op, h, l, 0);
  }

  /**
    An OK answers for the page, whatever the target's latency and however often it was polled, exactly when the check
    is busy polling, or value polling for the value that a page under way reads as. (A timed delay is none of these:
    how much time it takes is not part of this model.)
  */
  lemma OkMeansDoneIff(s: Slow, p: ProgramParams, start: dword, due: bool, data: seq<byte>)
    requires s.t.pending == [] && s.busy == 0 && Drives(p, s.t)
    ensures (forall latency: nat, polls: nat :: polls > 0 ==> DoneIfOk(latency, s, p, start, due, data, polls))
       <==> Watches(PageCheck(p, start, data), p.pollValue)
  {
    if Watches(PageCheck(p, start, data), p.pollValue) {
      forall latency: nat, polls: nat | polls > 0 ensures DoneIfOk(latency, s, p, start, due, data, polls) {
        OkMeansDone(latency, s, p, start, due, data, polls);
      }
    } else {
      OkTooSoon(s, p, start, due, data);
    }
  }

  /** The command itself, against a slow target: if it answers OK after such a check, the page is programmed. */
  method ProgramSlowly(programmer: Programmer, p: ProgramParams, data: seq<byte>, ghost latency: nat, ghost s0: Slow)
    returns (ghost status: byte)
    requires programmer.Idle() && programmer.spi.device == SlowDevice(latency, s0)
    requires var s := SlowFeed(latency, s0, programmer.spi.sent); s.busy == 0 && s.t.pending == []
    requires Drives(p, s0.t) && |data| <= MAX_PROG_DATA
    modifies programmer, programmer.spi, programmer.endpoint, programmer.timer`remaining, programmer.timer`phase
    ensures programmer.Idle()
    ensures programmer.endpoint.packets == old(programmer.endpoint.packets) + [[0x13, status]]
    ensures status == STATUS_CMD_OK && Watches(PageCheck(p, old(programmer.currentAddress), data), p.pollValue) ==>
              var s := old(SlowFeed(latency, s0, programmer.spi.sent));
              var r := SlowFeed(latency, s0, programmer.spi.sent);
              var start := old(programmer.currentAddress);
              r.busy == 0 && r.t == Committed(Extended(s.t, start, old(programmer.mustSetAddress)), start, data)
  {
    ghost var before, start, due := programmer.spi.sent, programmer.currentAddress, programmer.mustSetAddress;
    ghost var counts;
    status, counts := programmer.ProgramMemory(p, data);
    if status == STATUS_CMD_OK && Watches(PageCheck(p, start, data), p.pollValue) {
      DoneAfter(latency, s0, before, p, start, due, data, counts[0]);
    }
  }

  /** The same after whatever was sent before. */
  lemma DoneAfter(latency: nat, s0: Slow, before: seq<byte>, p: ProgramParams, start: dword, due: bool, data: seq<byte>,
                  polls: nat)
    requires Drives(p, s0.t) && polls > 0 && Watches(PageCheck(p, start, data), p.pollValue)
    requires SlowFeed(latency, s0, before).busy == 0 && SlowFeed(latency, s0, before).t.pending == []
    requires Passes(PageCheck(p, start, data), p.pollValue,
                    SlowReply(latency, s0, before + PagedTraffic(p, start, due, data, polls)))
    ensures var s := SlowFeed(latency, s0, before);
            var r := SlowFeed(latency, s0, before + PagedTraffic(p, start, due, data, polls));
            r.busy == 0 && r.t == Committed(Extended(s.t, start, due), start, data)
  {
    var s, traffic := SlowFeed(latency, s0, before), PagedTraffic(p, start, due, data, polls);
    SlowConcat(latency, s0, before, traffic);
    ReplyAfter(latency, s0, before, traffic);
    OkMeansDone(latency, s, p, start, due, data, polls);
  }

  lemma ReplyAfter(latency: nat, s: Slow, before: seq<byte>, bytes: seq<byte>)
    requires bytes != []
    ensures SlowReply(latency, s, before + bytes) == SlowReply(latency, SlowFeed(latency, s, before), bytes)
  {
    ButLast(before, bytes);
    SlowConcat(latency, s, before, bytes[..|bytes| - 1]);
  }
}
