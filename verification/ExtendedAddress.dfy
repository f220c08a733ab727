/** The LOAD EXTENDED ADDRESS protocol over whole sessions of load, program and read commands. */
module ExtendedAddress {
  import opened Bits
  import opened Seqs
  import opened SpiTarget
  import opened Timers
  import opened Polling
  import opened IspStreams
  import opened IspProgrammer

  datatype Option<T> = None | Some(value: T)

  /** A host command, with the numbers of completion polls it happened to need. */
  datatype HostCommand =
    | Load(address: dword)
    | ProgramPage(p: ProgramParams, data: seq<byte>, polls: nat)
    | ProgramWords(p: ProgramParams, data: seq<byte>, counts: seq<nat>)
    | ProgramTooLong
    | Read(flash: bool, count: word, command: byte)
  {
    predicate IsAccess() { !Load? && !ProgramTooLong? }

    /** No command byte of the host's is itself LOAD EXTENDED ADDRESS. */
    predicate LeavesExtension() {
      match this
      case ProgramPage(p, _, _) => Plain(p)
      case ProgramWords(p, data, counts) => Plain(p) && |counts| <= |data|
      case Read(_, _, command) => NotExtend(command) && NotExtend(Toggle(command))
      case _ => true
    }
  }

  predicate NotExtend(op: byte) { op != LOAD_EXTENDED_ADDRESS_CMD }

  predicate Plain(p: ProgramParams) {
    && NotExtend(p.writeCommand) && NotExtend(Toggle(p.writeCommand)) && NotExtend(p.commitCommand)
    && NotExtend(p.readCommand) && NotExtend(SetHigh(p.readCommand))
  }

  datatype Session = Session(
    current: dword, due: bool,   // CurrentAddress and MustSetAddress
    before: seq<byte>,           // everything put on the bus up to the last load
    since: seq<byte>,            // and since then
    loaded: Option<dword>        // history: the address loaded last
  )
  {
    function Sent(): seq<byte> { before + since }
  }

  /** The bus traffic of a command after the extended address. */
  function Body(c: HostCommand, start: dword): seq<byte>
    requires c.LeavesExtension()
  {
    match c
    case ProgramPage(p, data, polls) =>
      WriteStream(Toggling, p.flash, p.writeCommand, start, data)
      + if p.Commits() then CommitStream(p, start, data, polls) else []
    case ProgramWords(p, data, counts) => WordTraffic(p, start, data, counts)
    case Read(flash, count, command) => ReadStream(Toggling, flash, command, start, count)
    case _ => []
  }

  function Moved(c: HostCommand, start: dword): dword {
    match c
    case Load(address) => address
    case ProgramPage(p, data, _) => AddressAt(p.flash, start, |data|)
    case ProgramWords(p, _, counts) => AddressAt(p.flash, start, |counts|)
    case Read(flash, count, _) => AddressAt(flash, start, count)
    case ProgramTooLong => start
  }

  /** The extended address goes out first. */
  function Extend(s: Session): Session {
    s.(due := false, since := s.since + ExtensionDue(s.current, s.due))
  }

  /** A command, as the methods of the programmer carry it out. */
  function Exec(s: Session, c: HostCommand): Session
    requires c.LeavesExtension()
  {
    match c
    case Load(address) => Session(address, true, s.Sent(), [], Some(address))
    case ProgramTooLong => s
    case _ =>
      var e := Extend(s);
      e.(current := Moved(c, s.current), since := e.since + Body(c, s.current))
  }

  function RunSession(s: Session, commands: seq<HostCommand>): Session
    requires forall c :: c in commands ==> c.LeavesExtension()
  {
    if commands == [] then s else Exec(RunSession(s, commands[..|commands| - 1]), commands[|commands| - 1])
  }

  const POWER_UP := Session(0, false, [], [], None)

  /** Bits 23..16 of an address. */
  function Bank(address: dword): byte { address / 0x1_0000 % 0x100 }

  // ----- Only LOAD EXTENDED ADDRESS changes the extended register -----

  /** From this target a stream is whole instructions, none of them LOAD EXTENDED ADDRESS. */
  predicate KeepsFrom(t: Target, s: seq<byte>)
  {
    Feed(t, s).pending == [] && Extensions(t, s) == 0
  }

  /** It is so from any instruction boundary. */
  ghost predicate Keeps(s: seq<byte>) {
    forall t: Target {:trigger KeepsFrom(t, s)} :: t.pending == [] ==> KeepsFrom(t, s)
  }

  lemma KeepsConcat(a: seq<byte>, b: seq<byte>)
    requires Keeps(a) && Keeps(b)
    ensures Keeps(a + b)
  {
    forall t: Target | t.pending == [] ensures KeepsFrom(t, a + b) {
      assert KeepsFrom(t, a) && KeepsFrom(Feed(t, a), b);
      FeedConcat(t, a, b);
      ExtensionsConcat(t, a, b);
    }
  }

  lemma KeepsInstruction(op: byte, b: byte, c: byte, d: byte)
    requires NotExtend(op)
    ensures Keeps([op, b, c, d])
  {
    forall t: Target | t.pending == [] ensures KeepsFrom(t, [op, b, c, d]) {
      FeedInstruction(t, op, b, c, d);
      ExtensionsInstruction(t, op, b, c, d);
    }
  }

  lemma KeepsNothing()
    ensures Keeps([])
  {
    forall t: Target | t.pending == [] ensures KeepsFrom(t, []) {}
  }

  lemma {:induction false} KeepsRepeat(op: byte, b: byte, c: byte, d: byte, n: nat)
    requires NotExtend(op)
    ensures Keeps(Repeat([op, b, c, d], n))
  {
    if n > 0 {
      KeepsRepeat(op, b, c, d, n - 1);
      KeepsInstruction(op, b, c, d);
      KeepsConcat(Repeat([op, b, c, d], n - 1), [op, b, c, d]);
    }
  }

  lemma {:induction false} KeepsWrites(flash: bool, command: byte, start: dword, data: seq<byte>)
    requires NotExtend(command) && NotExtend(Toggle(command))
    ensures Keeps(WriteStream(Toggling, flash, command, start, data))
  {
    if data != [] {
      var i := |data| - 1;
      var x := AddressAt(flash, start, i);
      KeepsWrites(flash, command, start, data[..i]);
      KeepsInstruction(CommandAt(Toggling, flash, command, i), HighByte(x), LowByte(x), data[i]);
      KeepsConcat(WriteStream(Toggling, flash, command, start, data[..i]),
                  IspStreams.Instruction(CommandAt(Toggling, flash, command, i), x, data[i]));
    }
  }

  lemma {:induction false} KeepsReads(flash: bool, command: byte, start: dword, n: nat)
    requires NotExtend(command) && NotExtend(Toggle(command))
    ensures Keeps(ReadStream(Toggling, flash, command, start, n))
  {
    if n > 0 {
      var x := AddressAt(flash, start, n - 1);
      KeepsReads(flash, command, start, n - 1);
      KeepsInstruction(CommandAt(Toggling, flash, command, n - 1), HighByte(x), LowByte(x), 0);
      KeepsConcat(ReadStream(Toggling, flash, command, start, n - 1),
                  IspStreams.Instruction(CommandAt(Toggling, flash, command, n - 1), x, 0));
    }
  }

  lemma KeepsCheck(check: Check, c: byte, address: word, polls: nat)
    requires NotExtend(c)
    ensures Keeps(CheckTraffic(check, c, address, polls))
  {
    match check {
      case ValuePoll => KeepsRepeat(c, HighByte(address), LowByte(address), 0, polls);
      case BusyPolling => KeepsRepeat(POLL_BUSY_CMD, 0, 0, 0, polls);
      case _ => KeepsNothing();
    }
  }

  predicate IsPollCommand(p: ProgramParams, c: byte) { c == p.readCommand || c == SetHigh(p.readCommand) }

  lemma {:induction false} ScanCommand(p: ProgramParams, start: dword, data: seq<byte>)
    ensures IsPollCommand(p, PollScan(p.flash, start, data, p.pollValue, p.readCommand).1)
  {
    if data != [] {
      ScanCommand(p, start, data[..|data| - 1]);
      SetOrClear(p.readCommand);
    }
  }

  lemma {:induction false} WordCommand(p: ProgramParams, start: dword, data: seq<byte>)
    ensures IsPollCommand(p, WordPoll(p, start, data).1)
  {
    if data != [] {
      WordCommand(p, start, data[..|data| - 1]);
      SetOrClear(p.readCommand);
    }
  }

  lemma KeepsCommit(p: ProgramParams, start: dword, data: seq<byte>, polls: nat)
    requires Plain(p)
    ensures Keeps(CommitStream(p, start, data, polls))
  {
    var (address, c) := PollScan(p.flash, start, data, p.pollValue, p.readCommand);
    var x := start % 0x1_0000;
    ScanCommand(p, start, data);
    KeepsCheck(CheckOf(CommitMode(p.mode, address)), c, address, polls);
    KeepsInstruction(p.commitCommand, HighByte(x), LowByte(x), 0);
    KeepsConcat(IspStreams.Instruction(p.commitCommand, x, 0),
                CheckTraffic(CheckOf(CommitMode(p.mode, address)), c, address, polls));
  }

  lemma {:induction false} KeepsWords(p: ProgramParams, start: dword, data: seq<byte>, counts: seq<nat>)
    requires Plain(p) && |counts| <= |data|
    ensures Keeps(WordTraffic(p, start, data, counts))
  {
    if counts == [] {
      KeepsNothing();
    } else {
      var i := |counts| - 1;
      KeepsWords(p, start, data, counts[..i]);
      var (address, c) := WordPoll(p, start, data[..i + 1]);
      WordCommand(p, start, data[..i + 1]);
      var op, x := CommandAt(Toggling, p.flash, p.writeCommand, i), AddressAt(p.flash, start, i);
      KeepsInstruction(op, HighByte(x), LowByte(x), data[i]);
      KeepsCheck(CheckOf(p.mode), c, address, counts[i]);
      KeepsConcat(IspStreams.Instruction(op, x, data[i]), CheckTraffic(CheckOf(p.mode), c, address, counts[i]));
      KeepsConcat(WordTraffic(p, start, data, counts[..i]), WordChunk(p, start, data, i, counts[i]));
    }
  }

  lemma BodyKeeps(c: HostCommand, start: dword)
    requires c.LeavesExtension()
    ensures Keeps(Body(c, start))
  {
    match c {
      case ProgramPage(p, data, polls) =>
        KeepsWrites(p.flash, p.writeCommand, start, data);
        KeepsNothing();
        KeepsCommit(p, start, data, polls);
        KeepsConcat(WriteStream(Toggling, p.flash, p.writeCommand, start, data),
                    if p.Commits() then CommitStream(p, start, data, polls) else []);
      case ProgramWords(p, data, counts) => KeepsWords(p, start, data, counts);
      case Read(flash, count, command) => KeepsReads(flash, command, start, count);
      case _ => KeepsNothing();
    }
  }

  // ----- The session invariant -----

  /** LOAD EXTENDED ADDRESS instructions that the target has carried out since the last load. */
  function ExtensionsSince(s: Session, t0: Target): nat
  {
    Extensions(Feed(t0, s.before), s.since)
  }

  predicate Wide(s: Session) { s.loaded.Some? && s.loaded.value >= EXTENDED_FLAG }

  /** Once the extension is no longer due, the target's register is that of the loaded address. */
  predicate Tracked(s: Session, t0: Target)
  {
    var t := Feed(Feed(t0, s.before), s.since);
    var n := ExtensionsSince(s, t0);
    && Feed(t0, s.before).pending == [] && t.pending == []
    && (s.due ==> s.loaded == Some(s.current) && n == 0)
    && n <= 1 && (n == 1 ==> Wide(s))
    && (!s.due && Wide(s) ==> t.extended == Bank(s.loaded.value))
  }

  /** More traffic without LOAD EXTENDED ADDRESS changes nothing of this. */
  lemma KeepsTracked(s: Session, t0: Target, more: seq<byte>)
    requires Tracked(s, t0) && Keeps(more)
    ensures Tracked(s.(since := s.since + more), t0)
  {
    var base := Feed(t0, s.before);
    assert KeepsFrom(Feed(base, s.since), more);
    FeedConcat(base, s.since, more);
    ExtensionsConcat(base, s.since, more);
    RegisterKept(Feed(base, s.since), more);
  }

  lemma ExtendTracked(s: Session, t0: Target)
    requires Tracked(s, t0)
    ensures Tracked(Extend(s), t0) && !Extend(s).due
  {
    var extension := ExtensionDue(s.current, s.due);
    var base := Feed(t0, s.before);
    if extension == [] {
      EmptyRight(s.since);
    } else {
      FeedConcat(base, s.since, extension);
      ExtensionsConcat(base, s.since, extension);
      ExtendEffect(Feed(base, s.since), Bank(s.current));
      ExtensionsInstruction(Feed(base, s.since), LOAD_EXTENDED_ADDRESS_CMD, 0, Bank(s.current), 0);
    }
  }

  lemma ExecTracked(s: Session, c: HostCommand, t0: Target)
    requires Tracked(s, t0) && c.LeavesExtension()
    ensures Tracked(Exec(s, c), t0)
  {
    match c {
      case Load(_) => FeedConcat(t0, s.before, s.since);
      case ProgramTooLong =>
      case _ =>
        ExtendTracked(s, t0);
        BodyKeeps(c, s.current);
        KeepsTracked(Extend(s), t0, Body(c, s.current));
    }
  }

  lemma {:induction false} SessionTracked(commands: seq<HostCommand>, t0: Target)
    requires t0.pending == [] && forall c :: c in commands ==> c.LeavesExtension()
    ensures Tracked(RunSession(POWER_UP, commands), t0)
  {
    if commands != [] {
      SessionTracked(commands[..|commands| - 1], t0);
      ExecTracked(RunSession(POWER_UP, commands[..|commands| - 1]), commands[|commands| - 1], t0);
    }
  }

  /** The session in the midst of a command's body, after `k` bytes of it. */
  function Midway(s: Session, c: HostCommand, k: nat): Session
    requires c.LeavesExtension() && k <= |Body(c, s.current)|
  {
    var e := Extend(s);
    e.(since := e.since + Body(c, s.current)[..k])
  }

  lemma MidwayTracked(s: Session, c: HostCommand, k: nat, t0: Target)
    requires Tracked(s, t0) && c.IsAccess() && c.LeavesExtension() && k <= |Body(c, s.current)|
    ensures var m := Midway(s, c, k);
            && ExtensionsSince(m, t0) <= 1 && (ExtensionsSince(m, t0) == 1 ==> Wide(m))
            && (Wide(m) ==> Feed(t0, m.Sent()).extended == Bank(m.loaded.value))
  {
    ExtendTracked(s, t0);
    BodyKeeps(c, s.current);
    var e := Extend(s);
    assert KeepsFrom(Feed(Feed(t0, e.before), e.since), Body(c, s.current));
    PrefixTracked(e, t0, Body(c, s.current), k);
  }

  lemma PrefixTracked(e: Session, t0: Target, body: seq<byte>, k: nat)
    requires Tracked(e, t0) && !e.due && k <= |body|
    requires KeepsFrom(Feed(Feed(t0, e.before), e.since), body)
    ensures var m := e.(since := e.since + body[..k]);
            && ExtensionsSince(m, t0) <= 1 && (ExtensionsSince(m, t0) == 1 ==> Wide(m))
            && (Wide(m) ==> Feed(t0, m.Sent()).extended == Bank(m.loaded.value))
  {
    var base := Feed(t0, e.before);
    var t := Feed(base, e.since);
    ExtensionsOfPrefix(t, body, k);
    RegisterKept(t, body[..k]);
    FeedConcat(base, e.since, body[..k]);
    ExtensionsConcat(base, e.since, body[..k]);
    FeedConcat(t0, e.before, e.since + body[..k]);
  }

  /**
    Over every session, at every byte of a program or read command after its extended address, and so at every memory
    access: the target has carried out at most one LOAD EXTENDED ADDRESS since the last load, and that only if the
    load had bit 31 set; and then its register holds bits 23..16 of the loaded address.
  */
  lemma AccessesSeeLoadedBank(commands: seq<HostCommand>, c: HostCommand, k: nat, t0: Target)
    requires t0.pending == [] && c.IsAccess() && c.LeavesExtension()
    requires forall d :: d in commands ==> d.LeavesExtension()
    requires k <= |Body(c, RunSession(POWER_UP, commands).current)|
    ensures var m := Midway(RunSession(POWER_UP, commands), c, k);
            && ExtensionsSince(m, t0) <= 1 && (ExtensionsSince(m, t0) == 1 ==> Wide(m))
            && (Wide(m) ==> Feed(t0, m.Sent()).extended == Bank(m.loaded.value))
  {
    SessionTracked(commands, t0);
    MidwayTracked(RunSession(POWER_UP, commands), c, k, t0);
  }

  // ----- The commands as the host issues them -----

  datatype Request =
    | LoadRequest(address: dword)
    | ProgramRequest(p: ProgramParams, data: seq<byte>)
    | ReadRequest(flash: bool, count: word, command: byte)
  {
    /** Whether a command carries out this request. */
    predicate IsDoneBy(c: HostCommand) {
      match this
      case LoadRequest(address) => c == Load(address)
      case ReadRequest(flash, count, command) => c == Read(flash, count, command)
      case ProgramRequest(p, data) =>
        if |data| > MAX_PROG_DATA then c == ProgramTooLong
        else if p.Paged() then c.ProgramPage? && c.p == p && c.data == data
        else c.ProgramWords? && c.p == p && c.data == data && |c.counts| <= |data|
    }
  }

  /**
    The part of V2Protocol_ProcessCommand that dispatches these commands. The programmer moves exactly as a
    session does, so what holds over sessions holds of it.
  */
  method ProcessCommand(programmer: Programmer, r: Request, ghost s: Session) returns (ghost c: HostCommand)
    requires programmer.Idle()
    requires s.current == programmer.currentAddress && s.due == programmer.mustSetAddress
    requires s.Sent() == programmer.spi.sent
    modifies programmer, programmer.spi, programmer.endpoint, programmer.timer`remaining, programmer.timer`phase
    ensures programmer.Idle() && r.IsDoneBy(c)
    ensures c.LeavesExtension() ==>
              var e := Exec(s, c);
              && e.current == programmer.currentAddress && e.due == programmer.mustSetAddress
              && e.Sent() == programmer.spi.sent
  {
    programmer.timer.remaining := COMMAND_TIMEOUT_MS;
    match r {
      case LoadRequest(address) =>
        programmer.LoadAddress(address);
        c := Load(address);
      case ReadRequest(flash, count, command) =>
        programmer.ReadMemory(flash, count, command);
        c := Read(flash, count, command);
      case ProgramRequest(p, data) =>
        ghost var status, counts := programmer.ProgramMemory(p, data);
        c := if |data| > MAX_PROG_DATA then ProgramTooLong
             else if p.Paged() then ProgramPage(p, data, counts[0])
             else ProgramWords(p, data, counts);
        if |data| <= MAX_PROG_DATA && p.Paged() {
          PagedIsExtendThenBody(p, s, data, counts[0]);
        }
    }
    if c.LeavesExtension() {
      if c.IsAccess() { ExecSent(s, c); } else { EmptyRight(s.Sent()); }
    }
  }

  lemma PagedIsExtendThenBody(p: ProgramParams, s: Session, data: seq<byte>, polls: nat)
    ensures s.Sent() + PagedTraffic(p, s.current, s.due, data, polls)
         == s.Sent() + ExtensionDue(s.current, s.due)
            + (WriteStream(Toggling, p.flash, p.writeCommand, s.current, data)
               + if p.Commits() then CommitStream(p, s.current, data, polls) else [])
  {
    var extension := ExtensionDue(s.current, s.due);
    var writes := WriteStream(Toggling, p.flash, p.writeCommand, s.current, data);
    var commit := if p.Commits() then CommitStream(p, s.current, data, polls) else [];
    Assoc(extension, writes, commit);
    Assoc(s.Sent(), extension, writes + commit);
  }

  /** A command's traffic joins what has been sent since the load. */
  lemma ExecSent(s: Session, c: HostCommand)
    requires c.IsAccess() && c.LeavesExtension()
    ensures Exec(s, c).Sent() == s.Sent() + ExtensionDue(s.current, s.due) + Body(c, s.current)
  {
    var extension := ExtensionDue(s.current, s.due);
    Assoc(s.before, s.since, extension);
    Assoc(s.before, s.since + extension, Body(c, s.current));
  }
}
