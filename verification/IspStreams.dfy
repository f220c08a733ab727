/**
  The SPI streams of paged programming and of reading, in the toggling form of isp/Lib/ISP/ISPProtocol.c and in
  the set/clear form of isp/Lib/ISPProtocol.c.
*/
module IspStreams {
  import opened Bits

  /** `c ^= READ_WRITE_HIGH_BYTE_MASK` */
  function Toggle(c: byte): byte {
    ToggleHighBit(c);
    Xor(c, HIGH_BYTE_MASK)
  }

  /** `c |= READ_WRITE_HIGH_BYTE_MASK` */
  function SetHigh(c: byte): byte {
    SetHighBit(c);
    Or(c, HIGH_BYTE_MASK)
  }

  /** `c &= ~READ_WRITE_HIGH_BYTE_MASK` */
  function ClearHigh(c: byte): byte {
    And(c, 0xFF - HIGH_BYTE_MASK)
  }

  lemma ToggleTwice(c: byte)
    ensures Toggle(Toggle(c)) == c
    ensures HighBit(Toggle(c)) <==> !HighBit(c)
  {
    HighBitValues(c);
    HighBitValues(Toggle(c));
    HighBitNeighbours(c);
  }

  lemma HighBitValues(c: byte)
    ensures SetHigh(c) == if HighBit(c) then c else c + 8
    ensures ClearHigh(c) == if HighBit(c) then c - 8 else c
    ensures Toggle(c) == if HighBit(c) then c - 8 else c + 8
    ensures HighBit(SetHigh(c)) && !HighBit(ClearHigh(c))
  {
    SetHighBit(c);
    ClearHighBit(c);
    ToggleHighBit(c);
    HighBitNeighbours(c);
  }

  lemma SetOrClear(c: byte)
    ensures HighBit(SetHigh(c)) && !HighBit(ClearHigh(c))
    ensures ClearHigh(SetHigh(c)) == ClearHigh(c) && SetHigh(ClearHigh(c)) == SetHigh(c)
    ensures !HighBit(c) ==> ClearHigh(c) == c && SetHigh(c) == Toggle(c)
    ensures HighBit(c) ==> ClearHigh(c) == Toggle(c) && SetHigh(c) == c
    ensures SetHigh(SetHigh(c)) == SetHigh(c) && ClearHigh(ClearHigh(c)) == ClearHigh(c)
  {
    HighBitValues(c);
    HighBitValues(SetHigh(c));
    HighBitValues(ClearHigh(c));
  }

  /** How a loop steers the high-half bit of its command byte. */
  datatype Steering = Toggling | SetClear

  /** The command byte sent for byte `i`. Flash alternates halves of a word; EEPROM has single bytes. */
  function CommandAt(how: Steering, flash: bool, command: byte, i: nat): byte {
    var high := flash && i % 2 == 1;
    match how
    case Toggling => if high then Toggle(command) else command
    case SetClear => if high then SetHigh(command) else ClearHigh(command)
  }

  /** CurrentAddress after `i` bytes: one per word in flash, one per byte in EEPROM, in 32 bits. */
  function AddressAt(flash: bool, start: dword, i: nat): dword {
    (start as int + if flash then i / 2 else i) % 0x1_0000_0000
  }

  function Address16(flash: bool, start: dword, i: nat): word { AddressAt(flash, start, i) % 0x1_0000 }

  /** The 16 bits of it that name the byte: its word in flash, itself in EEPROM. */
  lemma Address16Value(flash: bool, start: dword, i: nat)
    ensures Address16(flash, start, i) == (start as int + if flash then i / 2 else i) % 0x1_0000
  {
    var x := start as int + if flash then i / 2 else i;
    var q, r := x / 0x1_0000_0000, x % 0x1_0000_0000;
    var h, l := r / 0x1_0000, r % 0x1_0000;
    assert x == 0x1_0000 * (0x1_0000 * q + h) + l;
    ModOfMultiple(0x1_0000, 0x1_0000 * q + h, l);
  }

  function Instruction(command: byte, address: nat, value: byte): (s: seq<byte>)
    ensures |s| == 4
  {
    [command, HighByte(address), LowByte(address), value]
  }

  function WriteStream(how: Steering, flash: bool, command: byte, start: dword, data: seq<byte>): (s: seq<byte>)
    ensures |s| == 4 * |data|
  {
    if data == [] then []
    else
      var i := |data| - 1;
      WriteStream(how, flash, command, start, data[..i])
      + Instruction(CommandAt(how, flash, command, i), AddressAt(flash, start, i), data[i])
  }

  function ReadStream(how: Steering, flash: bool, command: byte, start: dword, n: nat): (s: seq<byte>)
    ensures |s| == 4 * n
  {
    if n == 0 then []
    else ReadStream(how, flash, command, start, n - 1)
         + Instruction(CommandAt(how, flash, command, n - 1), AddressAt(flash, start, n - 1), 0)
  }

  lemma WriteStreamSnoc(how: Steering, flash: bool, command: byte, start: dword, data: seq<byte>, i: nat)
    requires i < |data|
    ensures WriteStream(how, flash, command, start, data[..i + 1])
         == WriteStream(how, flash, command, start, data[..i])
            + Instruction(CommandAt(how, flash, command, i), AddressAt(flash, start, i), data[i])
  {
    assert data[..i + 1][..i] == data[..i];
  }

  lemma CommandStep(flash: bool, command: byte, i: nat)
    ensures CommandAt(Toggling, flash, command, i + 1)
         == if flash then Toggle(CommandAt(Toggling, flash, command, i)) else CommandAt(Toggling, flash, command, i)
  {
    ToggleTwice(command);
  }

  lemma SetClearStep(flash: bool, command: byte, i: nat, previous: byte)
    requires i == 0 ==> previous == command
    requires i > 0 ==> previous == CommandAt(SetClear, flash, command, i - 1)
    ensures CommandAt(SetClear, flash, command, i)
         == if flash && i % 2 == 1 then SetHigh(previous) else ClearHigh(previous)
  {
    SetOrClear(command);
  }

  lemma AddressStep(flash: bool, start: dword, i: nat)
    ensures AddressAt(flash, start, i + 1)
         == if !flash || i % 2 == 1 then (AddressAt(flash, start, i) as int + 1) % 0x1_0000_0000
            else AddressAt(flash, start, i)
  {
    var k := start as int + if flash then i / 2 else i;
    assert (k + 1) % 0x1_0000_0000 == (k % 0x1_0000_0000 + 1) % 0x1_0000_0000;
  }

  lemma Address16At(start: dword, i: nat)
    requires start % 0x1_0000 + i / 2 < 0x1_0000
    ensures AddressAt(true, start, i) % 0x1_0000 == start % 0x1_0000 + i / 2
  {
    var high := start / 0x1_0000;
    assert start == 0x1_0000 * high + start % 0x1_0000;
    assert start as int + i / 2 < 0x1_0000_0000;
  }

  // ----- Toggling against setting and clearing -----

  lemma CommandAgrees(flash: bool, command: byte, i: nat)
    requires !HighBit(command)
    ensures CommandAt(Toggling, flash, command, i) == CommandAt(SetClear, flash, command, i)
  {
    SetOrClear(command);
  }

  lemma {:induction false} FirstByte(how: Steering, flash: bool, command: byte, start: dword, data: seq<byte>)
    requires data != []
    ensures WriteStream(how, flash, command, start, data)[0] == CommandAt(how, flash, command, 0)
  {
    if |data| > 1 { FirstByte(how, flash, command, start, data[..|data| - 1]); }
  }

  lemma {:induction false} FirstReadByte(how: Steering, flash: bool, command: byte, start: dword, n: nat)
    requires n > 0
    ensures ReadStream(how, flash, command, start, n)[0] == CommandAt(how, flash, command, 0)
  {
    if n > 1 { FirstReadByte(how, flash, command, start, n - 1); }
  }

  lemma {:induction false} WritesAgree(flash: bool, command: byte, start: dword, data: seq<byte>)
    requires !HighBit(command)
    ensures WriteStream(Toggling, flash, command, start, data) == WriteStream(SetClear, flash, command, start, data)
  {
    if data != [] {
      WritesAgree(flash, command, start, data[..|data| - 1]);
      CommandAgrees(flash, command, |data| - 1);
    }
  }

  lemma {:induction false} ReadsAgree(flash: bool, command: byte, start: dword, n: nat)
    requires !HighBit(command)
    ensures ReadStream(Toggling, flash, command, start, n) == ReadStream(SetClear, flash, command, start, n)
  {
    if n > 0 {
      ReadsAgree(flash, command, start, n - 1);
      CommandAgrees(flash, command, n - 1);
    }
  }

  /** The two forms of the paged write loop send the same bytes exactly when the host's command has bit 3 clear. */
  lemma WriteToggleRefines(flash: bool, command: byte, start: dword, data: seq<byte>)
    ensures WriteStream(Toggling, flash, command, start, data) == WriteStream(SetClear, flash, command, start, data)
       <==> data == [] || !HighBit(command)
  {
    if data != [] {
      if HighBit(command) {
        FirstByte(Toggling, flash, command, start, data);
        FirstByte(SetClear, flash, command, start, data);
        SetOrClear(command);
      } else {
        WritesAgree(flash, command, start, data);
      }
    }
  }

  /** And so do the two forms of the read loop. */
  lemma ReadToggleRefines(flash: bool, command: byte, start: dword, n: nat)
    ensures ReadStream(Toggling, flash, command, start, n) == ReadStream(SetClear, flash, command, start, n)
       <==> n == 0 || !HighBit(command)
  {
    if n > 0 {
      if HighBit(command) {
        FirstReadByte(Toggling, flash, command, start, n);
        FirstReadByte(SetClear, flash, command, start, n);
        SetOrClear(command);
      } else {
        ReadsAgree(flash, command, start, n);
      }
    }
  }

  // ----- The poll target of paged programming -----

  /** PollAddress and the read command as the loop leaves them; an address of 0 counts as "none yet". */
  function PollScan(flash: bool, start: dword, data: seq<byte>, pollValue: byte, command: byte): (word, byte) {
    if data == [] then (0, command)
    else
      var i := |data| - 1;
      var (address, c) := PollScan(flash, start, data[..i], pollValue, command);
      if address == 0 && data[i] != pollValue then
        (Address16(flash, start, i), if flash && i % 2 == 1 then SetHigh(c) else c)
      else (address, c)
  }

  lemma PollStep(flash: bool, start: dword, data: seq<byte>, pollValue: byte, command: byte, i: nat)
    requires i < |data|
    ensures var (address, c) := PollScan(flash, start, data[..i], pollValue, command);
            PollScan(flash, start, data[..i + 1], pollValue, command) ==
              if address == 0 && data[i] != pollValue
              then (Address16(flash, start, i), if flash && i % 2 == 1 then SetHigh(c) else c)
              else (address, c)
  {
    assert data[..i + 1][..i] == data[..i];
  }

  /** The first byte that polling could tell from an unfinished write. */
  predicate FirstDiffering(data: seq<byte>, pollValue: byte, k: nat) {
    k < |data| && data[k] != pollValue && forall j :: 0 <= j < k ==> data[j] == pollValue
  }

  lemma {:induction false} NothingToPoll(flash: bool, start: dword, data: seq<byte>, pollValue: byte, command: byte)
    requires forall j :: 0 <= j < |data| ==> data[j] == pollValue
    ensures PollScan(flash, start, data, pollValue, command) == (0, command)
  {
    if data != [] { NothingToPoll(flash, start, data[..|data| - 1], pollValue, command); }
  }

  /** Once set to a nonzero address, the choice stands. */
  lemma {:induction false} FirstChoiceStands(flash: bool, start: dword, data: seq<byte>, pollValue: byte,
                                             command: byte, k: nat)
    requires FirstDiffering(data, pollValue, k)
    ensures var (address, c) := PollScan(flash, start, data, pollValue, command);
            var named := (start as int + if flash then k / 2 else k) % 0x1_0000;
            if named != 0
            then
              && address == named
              && c == (if flash && k % 2 == 1 then SetHigh(command) else command)
            else address == 0 || address != named
  {
    var i := |data| - 1;
    Address16Value(flash, start, k);
    if i == k {
      NothingToPoll(flash, start, data[..i], pollValue, command);
    } else {
      FirstChoiceStands(flash, start, data[..i], pollValue, command, k);
    }
  }

  /** The poll target names byte `k`: its address, set, and in flash the half of the word it is in. */
  predicate Names(flash: bool, target: (word, byte), start: dword, k: nat, command: byte) {
    && target.0 != 0 && target.0 == (start as int + if flash then k / 2 else k) % 0x1_0000
    && if flash then HighBit(target.1) <==> k % 2 == 1 else target.1 == command
  }

  /**
    Paged programming polls the first byte that differs from the poll value exactly when that byte's address is not 0
    in 16 bits and, in flash, the read command did not come with its high bit set for a low half.
  */
  lemma PollTargetIff(flash: bool, start: dword, data: seq<byte>, pollValue: byte, command: byte, k: nat)
    requires FirstDiffering(data, pollValue, k)
    ensures Names(flash, PollScan(flash, start, data, pollValue, command), start, k, command)
       <==> (start as int + if flash then k / 2 else k) % 0x1_0000 != 0
            && (flash ==> k % 2 == 1 || !HighBit(command))
  {
    FirstChoiceStands(flash, start, data, pollValue, command, k);
    SetOrClear(command);
  }

  /** No byte that differs from the poll value has a 16-bit address other than 0. */
  predicate NothingNamed(flash: bool, start: dword, data: seq<byte>, pollValue: byte) {
    forall i :: 0 <= i < |data| && data[i] != pollValue ==>
      (start as int + if flash then i / 2 else i) % 0x1_0000 == 0
  }

  /** Among the first `n` bytes, one in a high half differs from the poll value. */
  predicate OddDiffers(data: seq<byte>, pollValue: byte, n: nat)
    requires n <= |data|
  {
    exists j :: 0 <= j < n && j % 2 == 1 && data[j] != pollValue
  }

  /** The address stays 0 exactly when nothing is named; the read command may be changed all the same. */
  lemma {:induction false} PollAddressZeroIff(flash: bool, start: dword, data: seq<byte>, pollValue: byte,
                                              command: byte)
    ensures PollScan(flash, start, data, pollValue, command).0 == 0 <==> NothingNamed(flash, start, data, pollValue)
  {
    if data != [] {
      var front := data[..|data| - 1];
      PollAddressZeroIff(flash, start, front, pollValue, command);
      Address16Value(flash, start, |front|);
      NothingNamedSnoc(flash, start, data, pollValue, |front|);
    }
  }

  lemma NothingNamedSnoc(flash: bool, start: dword, data: seq<byte>, pollValue: byte, i: nat)
    requires i == |data| - 1
    ensures NothingNamed(flash, start, data, pollValue) <==>
              && NothingNamed(flash, start, data[..i], pollValue)
              && (data[i] == pollValue || (start as int + if flash then i / 2 else i) % 0x1_0000 == 0)
  {
    var front := data[..i];
    assert forall j :: 0 <= j < i ==> front[j] == data[j];
  }

  lemma {:induction false} ScanOfNothing(start: dword, data: seq<byte>, pollValue: byte, command: byte)
    requires NothingNamed(true, start, data, pollValue)
    ensures PollScan(true, start, data, pollValue, command)
         == (0, if OddDiffers(data, pollValue, |data|) then SetHigh(command) else command)
  {
    if data != [] {
      var i := |data| - 1;
      var front := data[..i];
      assert forall j :: 0 <= j < i ==> front[j] == data[j];
      ScanOfNothing(start, front, pollValue, command);
      Address16Value(true, start, i);
      OddDiffersSnoc(data, pollValue, i);
      SetOrClear(command);
    }
  }

  lemma OddDiffersSnoc(data: seq<byte>, pollValue: byte, i: nat)
    requires i < |data|
    ensures OddDiffers(data, pollValue, i + 1)
       <==> OddDiffers(data[..i], pollValue, i) || (i % 2 == 1 && data[i] != pollValue)
    ensures OddDiffers(data, pollValue, i) <==> OddDiffers(data[..i], pollValue, i)
  {
    assert forall j :: 0 <= j < i ==> data[..i][j] == data[j];
  }

  /** Byte `k` is the one that sets the poll address. */
  predicate Chosen(flash: bool, start: dword, data: seq<byte>, pollValue: byte, k: nat) {
    && k < |data| && data[k] != pollValue && (start as int + if flash then k / 2 else k) % 0x1_0000 != 0
    && NothingNamed(flash, start, data[..k], pollValue)
  }

  lemma {:induction false} ChosenTarget(start: dword, data: seq<byte>, pollValue: byte, command: byte, k: nat)
    requires Chosen(true, start, data, pollValue, k)
    ensures PollScan(true, start, data, pollValue, command)
         == ((start as int + k / 2) % 0x1_0000,
             if OddDiffers(data, pollValue, k + 1) then SetHigh(command) else command)
  {
    var i := |data| - 1;
    Address16Value(true, start, k);
    if i == k {
      ScanOfNothing(start, data[..k], pollValue, command);
      OddDiffersSnoc(data, pollValue, k);
      SetOrClear(command);
    } else {
      var front := data[..i];
      assert front[..k] == data[..k];
      ChosenTarget(start, front, pollValue, command, k);
      assert forall j :: 0 <= j < i ==> front[j] == data[j];
    }
  }

  /** The byte of the transfer that the target reads from, when byte `k` has set the address. */
  function Polled(k: nat, command: byte): nat { k - k % 2 + if HighBit(command) then 1 else 0 }

  /** Reading the byte with this command can tell a finished write from an unfinished one. */
  predicate TellsApart(data: seq<byte>, pollValue: byte, k: nat, command: byte) {
    Polled(k, command) < |data| && data[Polled(k, command)] != pollValue
  }

  lemma PolledIs(k: nat, command: byte)
    ensures Polled(k, command) == if HighBit(command) <==> k % 2 == 1 then k else if k % 2 == 0 then k + 1 else k - 1
  {}

  /**
    Polling can tell a finished write from an unfinished one exactly when the byte it reads differs from the poll
    value. That byte is the chosen one, unless the read command's high bit was set for an earlier byte of word 0 or
    came set from the host; then it is the high half beside it.
  */
  lemma PollsDifferingIff(start: dword, data: seq<byte>, pollValue: byte, command: byte, k: nat)
    requires Chosen(true, start, data, pollValue, k)
    ensures TellsApart(data, pollValue, k, PollScan(true, start, data, pollValue, command).1) <==>
              (k % 2 == 1 || (!HighBit(command) && !OddDiffers(data, pollValue, k))
               || (k + 1 < |data| && data[k + 1] != pollValue))
  {
    var c := PollScan(true, start, data, pollValue, command).1;
    ChosenTarget(start, data, pollValue, command, k);
    OddDiffersSnoc(data, pollValue, k);
    SetOrClear(command);
    PolledIs(k, c);
    assert HighBit(c) <==> HighBit(command) || OddDiffers(data, pollValue, k + 1);
  }

  /**
    On the first page of a flash the choice goes wrong: the differing bytes of word 0 leave the address at "none",
    but the odd one has already set the high bit, so the low byte of word 1 is chosen and its high byte polled. If
    that high byte equals the poll value, polling can never see the write complete.
  */
  lemma FirstPageMispolls()
    ensures var data := [0x0C, 0x94, 0x34, 0xFF];
            var target := PollScan(true, 0, data, 0xFF, 0x20);
            target == (1, 0x28) && data[2 * target.0 + if HighBit(target.1) then 1 else 0] == 0xFF
  {
    var data: seq<byte> := [0x0C, 0x94, 0x34, 0xFF];
    assert data[..3] == [0x0C, 0x94, 0x34];
    assert data[..3][..2] == [0x0C, 0x94];
    assert data[..3][..2][..1] == [0x0C];
    assert data[..3][..2][..1][..0] == [];
    SetHighBit(0x20);
    assert PollScan(true, 0, data[..3][..2][..1], 0xFF, 0x20) == (0, 0x20);
    assert PollScan(true, 0, data[..3][..2], 0xFF, 0x20) == (0, 0x28);
    assert PollScan(true, 0, data[..3], 0xFF, 0x20) == (1, 0x28);
  }
}
