/** The debounced digital inputs of the main loop in MIDI.c. */
module Debounce {
  import opened Bits
  import opened Seqs

  const NUM_DIGITAL_INS := 4

  // ----- One input -----

  /** The level of sample `k`; before the first sample the line counts as low. */
  function At(levels: seq<bool>, k: int): bool {
    0 <= k < |levels| && levels[k]
  }

  /** The last eight samples all had this level. */
  predicate Steady(levels: seq<bool>, level: bool) {
    forall k :: |levels| - 8 <= k < |levels| ==> At(levels, k) == level
  }

  /** The debounced level: that of the most recent eight equal samples. */
  function Held(levels: seq<bool>): bool {
    if levels == [] then false
    else if Steady(levels, true) then true
    else if Steady(levels, false) then false
    else Held(levels[..|levels| - 1])
  }

  /** Whether the last sample changed the debounced level. */
  predicate Edge(levels: seq<bool>) {
    levels != [] && Held(levels) != Held(levels[..|levels| - 1])
  }

  function EdgeValue(levels: seq<bool>): byte { if Held(levels) then 0 else 127 }

  /** The controller values sent for one input. */
  function Values(levels: seq<bool>): seq<byte> {
    if levels == [] then []
    else
      var before := Values(levels[..|levels| - 1]);
      if Edge(levels) then before + [EdgeValue(levels)] else before
  }

  /** The shift register: `digital_in << 1`, cut to eight bits, with the new sample in bit 0. */
  function Shift(register: byte, level: bool): byte {
    register * 2 % 256 + if level then 1 else 0
  }

  function Register(levels: seq<bool>): byte {
    if levels == [] then 0 else Shift(Register(levels[..|levels| - 1]), levels[|levels| - 1])
  }

  /** The low `n` bits of the register are the last `n` samples. */
  lemma {:induction false} RegisterBits(levels: seq<bool>, n: nat)
    requires n <= 8
    ensures Register(levels) % Power(n) == Power(n) - 1
       <==> forall k :: |levels| - n <= k < |levels| ==> At(levels, k)
    ensures Register(levels) % Power(n) == 0
       <==> forall k :: |levels| - n <= k < |levels| ==> !At(levels, k)
  {
    if n > 0 {
      var last := |levels| - 1;
      if levels == [] {
        assert !At(levels, last);
        assert Power(n) > 1;
      } else {
        var front := levels[..last];
        RegisterBits(front, n - 1);
        ShiftMod(Register(front), levels[last], n);
        assert forall k :: |front| - (n - 1) <= k < |front| ==> At(front, k) == At(levels, k);
        assert At(levels, last) == levels[last];
      }
    }
  }

  function Power(n: nat): nat {
    match n
    case 0 => 1 case 1 => 2 case 2 => 4 case 3 => 8 case 4 => 16
    case 5 => 32 case 6 => 64 case 7 => 128 case _ => 256
  }

  lemma ShiftMod(r: byte, level: bool, n: nat)
    requires 0 < n <= 8
    ensures Shift(r, level) % Power(n) == 2 * (r % Power(n - 1)) + if level then 1 else 0
  {
    var q, m := Power(n - 1), Power(8 - n);
    assert Power(n) == 2 * q && 2 * q * m == 256;
    ShiftModBy(r, if level then 1 else 0, q, m);
  }

  lemma ShiftModBy(r: nat, bit: nat, q: nat, m: nat)
    requires bit <= 1 && q > 0 && m > 0
    ensures (r * 2 % (2 * q * m) + bit) % (2 * q) == 2 * (r % q) + bit
  {
    var t, s := r / q, r % q;
    assert r * 2 == 2 * q * t + 2 * s;
    var u, v := r * 2 / (2 * q * m), r * 2 % (2 * q * m);
    assert r * 2 == 2 * q * m * u + v;
    assert v + bit == 2 * q * (t - m * u) + (2 * s + bit);
    ModOfMultiple(2 * q, t - m * u, 2 * s + bit);
  }

  /** The firmware's two register tests are exactly eight equal samples. */
  lemma RegisterSteady(levels: seq<bool>)
    ensures Register(levels) == 0xFF <==> Steady(levels, true)
    ensures Register(levels) == 0 <==> Steady(levels, false)
  {
    RegisterBits(levels, 8);
    assert Register(levels) % 256 == Register(levels);
  }

  lemma SteadyExclusive(levels: seq<bool>)
    ensures !(Steady(levels, true) && Steady(levels, false))
    ensures Steady(levels, true) ==> |levels| >= 8
  {
    assert Steady(levels, true) ==> At(levels, |levels| - 1) && At(levels, |levels| - 8);
  }

  /** An event completes eight equal samples of its level, and the level held before was the other one. */
  lemma EdgeIff(levels: seq<bool>)
    requires levels != []
    ensures var before := Held(levels[..|levels| - 1]);
            Edge(levels) <==> Steady(levels, !before)
    ensures Edge(levels) ==> Steady(levels, Held(levels))
  {
    SteadyExclusive(levels);
  }

  /** The values sent for an input alternate, starting with 0. */
  lemma {:induction false} ValuesAlternate(levels: seq<bool>)
    ensures forall k :: 0 <= k < |Values(levels)| ==> Values(levels)[k] == if k % 2 == 0 then 0 else 127
    ensures Held(levels) <==> |Values(levels)| % 2 == 1
  {
    if levels != [] { ValuesAlternate(levels[..|levels| - 1]); }
  }

  /** No two events of an input are less than eight samples apart. */
  lemma {:induction false} EventsApart(levels: seq<bool>, n: nat)
    requires n < |levels| && Edge(levels) && n > 0 && Edge(levels[..n])
    requires forall m :: n < m < |levels| ==> !Edge(levels[..m])
    ensures |levels| >= n + 8
  {
    var early := levels[..n];
    EdgeIff(early);
    EdgeIff(levels);
    HeldUnchanged(levels, n, |levels| - 1);
    assert Held(levels) != Held(early);
    assert At(early, n - 1) == Held(early);
    assert |levels| < n + 8 ==> At(levels, n - 1) == Held(levels);
    assert At(early, n - 1) == At(levels, n - 1);
  }

  lemma {:induction false} HeldUnchanged(levels: seq<bool>, n: nat, m: nat)
    requires n <= m < |levels| && forall k :: n < k < |levels| ==> !Edge(levels[..k])
    ensures Held(levels[..m]) == Held(levels[..n])
  {
    if n < m {
      HeldUnchanged(levels, n, m - 1);
      assert levels[..m][..m - 1] == levels[..m - 1];
      assert !Edge(levels[..m]);
    }
  }

  /** Samples that are never high eight times in a row send nothing. */
  lemma {:induction false} BouncesSendNothing(levels: seq<bool>)
    requires forall n :: 0 <= n <= |levels| ==> !Steady(levels[..n], true)
    ensures Values(levels) == [] && !Held(levels)
  {
    if levels != [] {
      var front := levels[..|levels| - 1];
      forall n | 0 <= n <= |front| ensures !Steady(front[..n], true) {
        assert front[..n] == levels[..n];
      }
      BouncesSendNothing(front);
      assert levels[..|levels|] == levels;
    }
  }

  // ----- The four inputs of the main loop -----

  /** A control change on channel 15, sent to the USB device and to the serial device. */
  datatype Event = Event(input: nat, value: byte)

  type Levels = s: seq<bool> | |s| == NUM_DIGITAL_INS witness [false, false, false, false]

  /** The samples of one input. */
  function Column(history: seq<Levels>, i: nat): seq<bool>
    requires i < NUM_DIGITAL_INS
  {
    seq(|history|, k requires 0 <= k < |history| => history[k][i])
  }

  /** What has been sent once the last sample of input `k` has been looked at. */
  function Checked(sent: seq<Event>, levels: seq<bool>, k: nat): seq<Event> {
    if Edge(levels) then sent + [Event(k, EdgeValue(levels))] else sent
  }

  /** And once those of the first `n` inputs have been looked at, in order. */
  function Passed(sent: seq<Event>, history: seq<Levels>, n: nat): seq<Event>
    requires n <= NUM_DIGITAL_INS
  {
    if n == 0 then sent else Checked(Passed(sent, history, n - 1), Column(history, n - 1), n - 1)
  }

  /** Everything sent over a run. */
  function AllSends(history: seq<Levels>): seq<Event> {
    if history == [] then [] else Passed(AllSends(history[..|history| - 1]), history, NUM_DIGITAL_INS)
  }

  /** The values among events that are of one input. */
  function ValuesOf(events: seq<Event>, i: nat): seq<byte> {
    if events == [] then []
    else
      var e, before := events[|events| - 1], ValuesOf(events[..|events| - 1], i);
      if e.input == i then before + [e.value] else before
  }

  lemma ValuesOfSnoc(events: seq<Event>, e: Event, i: nat)
    ensures ValuesOf(events + [e], i) == if e.input == i then ValuesOf(events, i) + [e.value] else ValuesOf(events, i)
  {
    ButLastSnoc(events, e);
  }

  /** The values sent for one input, with what its last sample makes of them. */
  function WithLast(values: seq<byte>, levels: seq<bool>): seq<byte> {
    if Edge(levels) then values + [EdgeValue(levels)] else values
  }

  lemma ValuesOfChecked(sent: seq<Event>, levels: seq<bool>, k: nat, i: nat)
    ensures ValuesOf(Checked(sent, levels, k), i)
         == if i == k then WithLast(ValuesOf(sent, i), levels) else ValuesOf(sent, i)
  {
    ValuesOfSnoc(sent, Event(k, EdgeValue(levels)), i);
  }

  /** In one pass over the inputs, input `i` sends its own event and no other. */
  lemma {:induction false} ValuesOfPassed(sent: seq<Event>, history: seq<Levels>, n: nat, i: nat)
    requires n <= NUM_DIGITAL_INS && i < NUM_DIGITAL_INS
    ensures ValuesOf(Passed(sent, history, n), i)
         == if i < n then WithLast(ValuesOf(sent, i), Column(history, i)) else ValuesOf(sent, i)
  {
    if n > 0 {
      ValuesOfPassed(sent, history, n - 1, i);
      ValuesOfChecked(Passed(sent, history, n - 1), Column(history, n - 1), n - 1, i);
    }
  }

  /** Over every run the inputs do not disturb each other: what is sent for one depends on its own samples alone. */
  lemma {:induction false} InputsIndependent(history: seq<Levels>, i: nat)
    requires i < NUM_DIGITAL_INS
    ensures ValuesOf(AllSends(history), i) == Values(Column(history, i))
  {
    if history != [] {
      var front := history[..|history| - 1];
      InputsIndependent(front, i);
      ValuesOfPassed(AllSends(front), history, NUM_DIGITAL_INS, i);
      ColumnSnoc(front, history[|history| - 1], i);
      Snoc(history);
    }
  }

  class Inputs {
    const digitalIn: array<byte>
    const digitalLast: array<bool>
    ghost var history: seq<Levels>
    ghost var sent: seq<Event>

    ghost predicate Valid()
      reads this, digitalIn, digitalLast
    {
      && digitalIn.Length == digitalLast.Length == NUM_DIGITAL_INS
      && sent == AllSends(history)
      && forall i :: 0 <= i < NUM_DIGITAL_INS ==>
           digitalIn[i] == Register(Column(history, i)) && digitalLast[i] == Held(Column(history, i))
    }

    constructor ()
      ensures Valid() && history == [] && sent == []
    {
      digitalIn := new byte[NUM_DIGITAL_INS](_ => 0);
      digitalLast := new bool[NUM_DIGITAL_INS](_ => false);
      history, sent := [], [];
    }

    /** One pass of the main loop over the inputs. */
    method Sample(levels: Levels)
      requires Valid()
      modifies this, digitalIn, digitalLast
      ensures Valid()
      ensures history == old(history) + [levels]
      ensures sent == Passed(old(sent), history, NUM_DIGITAL_INS)
    {
      ShiftIn(levels);
      forall i | 0 <= i < NUM_DIGITAL_INS
        ensures Column(history + [levels], i)[..|history|] == Column(history, i)
      {
        ColumnSnoc(history, levels, i);
      }
      history := history + [levels];
      ButLastSnoc(old(history), levels);
      CheckInputs(history);
    }

    /** The checks of one pass, after the registers have taken in the last of the samples. */
    method CheckInputs(ghost samples: seq<Levels>)
      requires digitalIn.Length == digitalLast.Length == NUM_DIGITAL_INS && samples != []
      requires forall i :: 0 <= i < NUM_DIGITAL_INS ==>
                 digitalIn[i] == Register(Column(samples, i))
                 && digitalLast[i] == Held(Column(samples, i)[..|samples| - 1])
      modifies this`sent, digitalLast
      ensures sent == Passed(old(sent), samples, NUM_DIGITAL_INS)
      ensures forall j :: 0 <= j < NUM_DIGITAL_INS ==> digitalLast[j] == Held(Column(samples, j))
    {
      var i := 0;
      while i < NUM_DIGITAL_INS
        modifies this`sent, digitalLast
        invariant 0 <= i <= NUM_DIGITAL_INS
        invariant sent == Passed(old(sent), samples, i)
        invariant forall j :: 0 <= j < i ==> digitalLast[j] == Held(Column(samples, j))
        invariant forall j :: i <= j < NUM_DIGITAL_INS ==> digitalLast[j] == old(digitalLast[j])
      {
        CheckInput(i, Column(samples, i));
        i := i + 1;
      }
    }

    /** Tests one register after the shift, and sends a control change when the debounced level moved. */
    method CheckInput(i: nat, ghost column: seq<bool>)
      requires digitalIn.Length == digitalLast.Length == NUM_DIGITAL_INS
      requires i < NUM_DIGITAL_INS && column != []
      requires digitalIn[i] == Register(column)
      requires digitalLast[i] == Held(column[..|column| - 1])
      modifies this`sent, digitalLast
      ensures forall j :: 0 <= j < NUM_DIGITAL_INS && j != i ==> digitalLast[j] == old(digitalLast[j])
      ensures digitalLast[i] == Held(column)
      ensures sent == Checked(old(sent), column, i)
    {
      RegisterSteady(column);
      SteadyExclusive(column);
      if digitalIn[i] == 0 {
        if digitalLast[i] == true {
          sent := sent + [Event(i, 127)];
        }
        digitalLast[i] := false;
      } else if digitalIn[i] == 0xFF {
        if digitalLast[i] == false {
          sent := sent + [Event(i, 0)];
        }
        digitalLast[i] := true;
      }
    }

    /** The registers shift, then take in the new samples. */
    method ShiftIn(levels: Levels)
      requires Valid()
      modifies digitalIn
      ensures forall j :: 0 <= j < NUM_DIGITAL_INS ==>
                digitalIn[j] == Register(Column(history + [levels], j))
    {
      TakeSamples(levels);
      forall j | 0 <= j < NUM_DIGITAL_INS
        ensures Register(Column(history + [levels], j)) == Shift(Register(Column(history, j)), levels[j])
      {
        ColumnSnoc(history, levels, j);
      }
    }

    method TakeSamples(levels: Levels)
      requires digitalIn.Length == NUM_DIGITAL_INS
      modifies digitalIn
      ensures forall j :: 0 <= j < NUM_DIGITAL_INS ==> digitalIn[j] == Shift(old(digitalIn[j]), levels[j])
    {
      ShiftedEven(digitalIn[0]);
      ShiftedEven(digitalIn[1]);
      ShiftedEven(digitalIn[2]);
      ShiftedEven(digitalIn[3]);
      ShiftUp();
      Read(0, levels[0]);
      Read(1, levels[1]);
      Read(2, levels[2]);
      Read(3, levels[3]);
    }

    method ShiftUp()
      modifies digitalIn
      ensures forall j :: 0 <= j < digitalIn.Length ==> digitalIn[j] == Shift(old(digitalIn[j]), false)
    {
      var i := 0;
      while i < digitalIn.Length
        invariant 0 <= i <= digitalIn.Length
        invariant forall j :: 0 <= j < i ==> digitalIn[j] == Shift(old(digitalIn[j]), false)
        invariant forall j :: i <= j < digitalIn.Length ==> digitalIn[j] == old(digitalIn[j])
      {
        digitalIn[i] := LowByte(digitalIn[i] as int * 2);
        i := i + 1;
      }
    }

    /** `if (level) digital_in[i] |= 0x1` */
    method Read(i: nat, level: bool)
      requires i < digitalIn.Length && digitalIn[i] % 2 == 0
      modifies digitalIn
      ensures digitalIn[..] == old(digitalIn[..])[i := old(digitalIn[i]) + if level then 1 else 0]
    {
      if level {
        OrOne(digitalIn[i]);
        digitalIn[i] := Or(digitalIn[i], 1);
      }
    }
  }

  /** Shifting leaves room for a sample. */
  lemma ShiftedEven(register: byte)
    ensures Shift(register, false) % 2 == 0 && Shift(register, true) == Shift(register, false) + 1
  {}

  lemma OrOne(x: nat)
    requires x % 2 == 0
    ensures Or(x, 1) == x + 1
  {}

  lemma ColumnSnoc(history: seq<Levels>, levels: Levels, i: nat)
    requires i < NUM_DIGITAL_INS
    ensures var c := Column(history + [levels], i);
            c == Column(history, i) + [levels[i]] && c[..|c| - 1] == Column(history, i)
  {
    var c := Column(history + [levels], i);
    assert c[..|history|] == Column(history, i);
    Snoc(c);
  }
}
