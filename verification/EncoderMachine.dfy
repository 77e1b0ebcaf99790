/** The encoder as a state machine on values: what one unit writes, what a whole input
    writes, and what a call with a given number of free bytes does before it stops. */
module EncoderMachine {
  import opened Alphabet
  import opened Outcomes

  /** `mEncoding`, `mEncBits` and `mEncStep`. */
  datatype State = State(encoding: Encoding, bits: nat, step: nat)

  const RESET := State(Direct, 0, 0)

  /** The step-indexed invariant: 0, 4 or 2 pending bits, left-aligned in a sextet. */
  predicate Valid(s: State) {
    && s.step < 3
    && (s.encoding == Direct ==> s.step == 0)
    && (s.step == 0 ==> s.bits == 0)
    && (s.step == 1 ==> s.bits % 4 == 0 && s.bits <= 60)
    && (s.step == 2 ==> s.bits % 16 == 0 && s.bits <= 48)
  }

  function Wanted(v: Variant, u: Unit): Encoding {
    if DirectEncodable(v, u) then Direct else Base64
  }

  // ---- One mode shift and one unit, without regard to room ----

  function Flush(v: Variant, s: State): seq<Byte>
    requires Valid(s)
  {
    if s.step != 0 then [ValueToChar(v, s.bits)] else []
  }

  function ShiftText(v: Variant, s: State, want: Encoding): seq<Byte>
    requires Valid(s)
  {
    if want == s.encoding then []
    else Flush(v, s) + [if want == Direct then MINUS else EscChar(v)]
  }

  function Shifted(s: State, want: Encoding): (r: State)
    requires Valid(s)
    ensures Valid(r) && r.encoding == want
  {
    if want == s.encoding then s else State(want, 0, 0)
  }

  function UnitText(v: Variant, s: State, u: Unit): (t: seq<Byte>)
    requires Valid(s) && s.encoding == Wanted(v, u)
    ensures |t| > 0
  {
    if s.encoding == Direct then
      if u == EscChar(v) then [u, MINUS] else [u]
    else if s.step == 0 then
      [ValueToChar(v, u / 1024), ValueToChar(v, u / 16 % 64)]
    else if s.step == 1 then
      [ValueToChar(v, s.bits + u / 16384), ValueToChar(v, u / 256 % 64), ValueToChar(v, u / 4 % 64)]
    else
      [ValueToChar(v, s.bits + u / 4096), ValueToChar(v, u / 64 % 64), ValueToChar(v, u % 64)]
  }

  /** The free bytes that the code tests for before it writes `UnitText`. */
  function RoomTested(s: State): nat {
    if s.encoding == Direct then 1 else if s.step == 0 then 2 else 3
  }

  function AfterUnit(s: State, u: Unit): (r: State)
    requires Valid(s)
    ensures Valid(r) && r.encoding == s.encoding
  {
    if s.encoding == Direct then s
    else if s.step == 0 then State(Base64, u % 16 * 4, 1)
    else if s.step == 1 then State(Base64, u % 4 * 16, 2)
    else State(Base64, 0, 0)
  }

  // ---- A whole input, without regard to room ----

  function EncodeUnit(v: Variant, s: State, u: Unit): (t: Text<State, Byte>)
    requires Valid(s)
    ensures Valid(t.state)
  {
    var s1 := Shifted(s, Wanted(v, u));
    Text(ShiftText(v, s, Wanted(v, u)) + UnitText(v, s1, u), AfterUnit(s1, u))
  }

  function EncodeAll(v: Variant, s: State, src: seq<Unit>): (t: Text<State, Byte>)
    requires Valid(s)
    ensures Valid(t.state)
    decreases |src|
  {
    if src == [] then Text([], s)
    else
      var t := EncodeUnit(v, s, src[0]);
      var r := EncodeAll(v, t.state, src[1..]);
      Text(t.out + r.out, r.state)
  }

  /** Everything written for `src` from state `s`, the closing shift included. */
  function Finished(v: Variant, s: State, src: seq<Unit>): seq<Byte>
    requires Valid(s)
  {
    var t := EncodeAll(v, s, src);
    t.out + ShiftText(v, t.state, Direct)
  }

  // ---- Calls with limited room ----

  /** One call of `ShiftEncoding`: it may stop between the pending bits and the shift. */
  function ShiftRun(v: Variant, s: State, want: Encoding, room: int): (r: Outcome<State, Byte>)
    requires Valid(s)
    ensures Valid(r.state) && r.consumed == 0
  {
    if want == s.encoding then Outcome(OK, s, 0, [])
    else if s.step != 0 && room < 1 then Outcome(MoreOutput, s, 0, [])
    else if room < |Flush(v, s)| + 1 then Outcome(MoreOutput, State(s.encoding, 0, 0), 0, Flush(v, s))
    else Outcome(OK, Shifted(s, want), 0, ShiftText(v, s, want))
  }

  /** What a call does about its next unit: shift if needed, then encode. A stop leaves the
      unit unread but may have written the pending bits or the shift. As in the code, the
      escape character is written as two bytes after a test for one. */
  function UnitRun(v: Variant, s: State, u: Unit, room: int): (r: Outcome<State, Byte>)
    requires Valid(s)
    ensures Valid(r.state) && r.status != IllegalInput
    ensures r.consumed == if r.status == OK then 1 else 0
  {
    var shift := ShiftRun(v, s, Wanted(v, u), room);
    if shift.status != OK then shift
    else if room - |shift.out| < RoomTested(shift.state) then shift.(status := MoreOutput)
    else Then(shift, Outcome(OK, AfterUnit(shift.state, u), 1, UnitText(v, shift.state, u)))
  }

  /** One call of `ConvertNoBuffNoErr`. */
  function Run(v: Variant, s: State, src: seq<Unit>, room: int): (r: Outcome<State, Byte>)
    requires Valid(s)
    ensures Valid(r.state) && r.consumed <= |src| && r.status != IllegalInput
    ensures r.status == OK <==> r.consumed == |src|
    decreases |src|
  {
    if src == [] then Outcome(OK, s, 0, [])
    else
      var head := UnitRun(v, s, src[0], room);
      if head.status != OK then head
      else Then(head, Run(v, head.state, src[1..], room - |head.out|))
  }

  // ---- Input-split independence ----

  lemma {:induction false} EncodeAllSplit(v: Variant, s: State, a: seq<Unit>, b: seq<Unit>)
    requires Valid(s)
    ensures var t := EncodeAll(v, s, a);
            var r := EncodeAll(v, t.state, b);
            EncodeAll(v, s, a + b) == Text(t.out + r.out, r.state)
    decreases |a|
  {
    hide EncodeAll, EncodeUnit, Valid;
    EncodeAllUnfold(v, s, a);
    if a == [] {
      assert a + b == b;
    } else {
      assert (a + b)[1..] == a[1..] + b;
      EncodeAllUnfold(v, s, a + b);
      var t := EncodeUnit(v, s, a[0]);
      EncodeAllSplit(v, t.state, a[1..], b);
      var r := EncodeAll(v, t.state, a[1..]);
      var rest := EncodeAll(v, r.state, b).out;
      assert t.out + (r.out + rest) == (t.out + r.out) + rest;
    }
  }

  /** A call on `a + b` is a call on `a` and, when that one is `OK`, a call on `b` with the
      room that is left. */
  lemma {:induction false} RunSplit(v: Variant, s: State, a: seq<Unit>, b: seq<Unit>, room: int)
    requires Valid(s)
    ensures var r := Run(v, s, a, room);
            Run(v, s, a + b, room)
            == if r.status == OK then Then(r, Run(v, r.state, b, room - |r.out|)) else r
    decreases |a|
  {
    hide Run, UnitRun, Then;
    if a == [] {
      assert a + b == b;
      RunNothing(v, s, room);
      NothingThen(s, Run(v, s, b, room));
    } else {
      assert (a + b)[1..] == a[1..] + b;
      RunUnfold(v, s, a, room);
      RunUnfold(v, s, a + b, room);
      var head := UnitRun(v, s, a[0], room);
      if head.status == OK {
        var r := Run(v, head.state, a[1..], room - |head.out|);
        RunSplit(v, head.state, a[1..], b, room - |head.out|);
        ThenAssociative(head, r, Run(v, r.state, b, room - |head.out| - |r.out|));
        assert Run(v, s, a, room) == Then(head, r);
        assert Run(v, s, a + b, room) == Then(head, Run(v, head.state, a[1..] + b, room - |head.out|));
        if r.status == OK {
          assert Run(v, s, a + b, room) == Then(head, Then(r, Run(v, r.state, b, room - |head.out| - |r.out|)));
          assert room - |Then(head, r).out| == room - |head.out| - |r.out|;
        }
      }
    }
  }

  lemma RunUnfold(v: Variant, s: State, src: seq<Unit>, room: int)
    requires Valid(s) && src != []
    ensures var head := UnitRun(v, s, src[0], room);
            Run(v, s, src, room)
            == if head.status == OK then Then(head, Run(v, head.state, src[1..], room - |head.out|)) else head
  {}

  lemma RunNothing(v: Variant, s: State, room: int)
    requires Valid(s)
    ensures Run(v, s, [], room) == Outcome(OK, s, 0, [])
  {}

  lemma EncodeAllUnfold(v: Variant, s: State, src: seq<Unit>)
    requires Valid(s)
    ensures EncodeAll(v, s, src)
         == if src == [] then Text([], s)
            else
              var t := EncodeUnit(v, s, src[0]);
              var r := EncodeAll(v, t.state, src[1..]);
              Text(t.out + r.out, r.state)
  {
    hide EncodeUnit, Valid;
  }

  // ---- Limited room against unlimited room ----

  lemma ShiftRunResumes(v: Variant, s: State, want: Encoding, room: int)
    requires Valid(s)
    ensures var r := ShiftRun(v, s, want, room);
            if r.status == OK then r.out == ShiftText(v, s, want) && r.state == Shifted(s, want)
            else
              && r.status == MoreOutput
              && ShiftText(v, s, want) == r.out + ShiftText(v, r.state, want)
              && Shifted(s, want) == Shifted(r.state, want)
    ensures |ShiftText(v, s, want)| <= room ==> ShiftRun(v, s, want, room).status == OK
  {
    hide ValueToChar, EscChar;
  }

  lemma EnoughForUnit(v: Variant, s: State, u: Unit)
    requires Valid(s) && s.encoding == Wanted(v, u)
    ensures RoomTested(s) <= |UnitText(v, s, u)|
  {
    hide ValueToChar, DirectEncodable;
  }

  lemma UnitRunResumes(v: Variant, s: State, u: Unit, room: int)
    requires Valid(s)
    ensures var r := UnitRun(v, s, u, room);
            var t := EncodeUnit(v, s, u);
            if r.status == OK then t == Text(r.out, r.state)
            else t == Text(r.out + EncodeUnit(v, r.state, u).out, EncodeUnit(v, r.state, u).state)
    ensures |EncodeUnit(v, s, u).out| <= room ==> UnitRun(v, s, u, room).status == OK
  {
    hide UnitText, ShiftRun, AfterUnit, ShiftText, Shifted, RoomTested, Wanted, Valid, Then;
    var want := Wanted(v, u);
    var shift, shifted := ShiftRun(v, s, want, room), Shifted(s, want);
    ShiftRunResumes(v, s, want, room);
    EnoughForUnit(v, shifted, u);
    ShiftsOnce(v, s, want);
    var text := UnitText(v, shifted, u);
    if shift.status != OK {
      assert UnitRun(v, s, u, room) == shift;
      var again := ShiftText(v, shift.state, want);
      assert shift.out + (again + text) == (shift.out + again) + text;
    } else if room - |shift.out| < RoomTested(shifted) {
      assert UnitRun(v, s, u, room) == shift.(status := MoreOutput);
      assert [] + text == text;
    } else {
      ThenIs(shift, Outcome(OK, AfterUnit(shifted, u), 1, text));
      assert UnitRun(v, s, u, room) == Outcome(OK, AfterUnit(shifted, u), 1, shift.out + text);
    }
  }

  lemma ShiftsOnce(v: Variant, s: State, want: Encoding)
    requires Valid(s)
    ensures ShiftText(v, Shifted(s, want), want) == [] && Shifted(Shifted(s, want), want) == Shifted(s, want)
  {}

  /** Whatever a call left undone, continuing at the first unread unit from the state it
      left completes exactly the text that one unlimited call would have written. */
  lemma {:induction false} RunResumes(v: Variant, s: State, src: seq<Unit>, room: int)
    requires Valid(s)
    ensures var r := Run(v, s, src, room);
            var rest := EncodeAll(v, r.state, src[r.consumed..]);
            EncodeAll(v, s, src) == Text(r.out + rest.out, rest.state)
    decreases |src|
  {
    hide Run, UnitRun, EncodeAll, EncodeUnit, Valid, Then;
    EncodeAllUnfold(v, s, src);
    if src == [] {
      RunNothing(v, s, room);
    } else {
      RunUnfold(v, s, src, room);
      UnitRunResumes(v, s, src[0], room);
      var head := UnitRun(v, s, src[0], room);
      if head.status == OK {
        var r := Run(v, head.state, src[1..], room - |head.out|);
        RunResumes(v, head.state, src[1..], room - |head.out|);
        var rest := EncodeAll(v, r.state, src[1..][r.consumed..]);
        ThenIs(head, r);
        assert src[1..][r.consumed..] == src[1 + r.consumed..];
        assert head.out + (r.out + rest.out) == (head.out + r.out) + rest.out;
      } else {
        EncodeAllUnfold(v, head.state, src);
        assert src[0..] == src;
        var rest := EncodeUnit(v, head.state, src[0]);
        var tail := EncodeAll(v, rest.state, src[1..]).out;
        assert head.out + (rest.out + tail) == (head.out + rest.out) + tail;
      }
    }
  }

  /** With room for the whole text the call is `OK`, and an `OK` call wrote the whole text. */
  lemma {:induction false} RunOkIffFits(v: Variant, s: State, src: seq<Unit>, room: int)
    requires Valid(s)
    ensures |EncodeAll(v, s, src).out| <= room ==> Run(v, s, src, room).status == OK
    ensures Run(v, s, src, room).status == OK ==> Run(v, s, src, room).out == EncodeAll(v, s, src).out
    decreases |src|
  {
    hide Run, UnitRun, EncodeAll, EncodeUnit, Valid, Then;
    EncodeAllUnfold(v, s, src);
    if src == [] {
      RunNothing(v, s, room);
    } else {
      RunUnfold(v, s, src, room);
      UnitRunResumes(v, s, src[0], room);
      var t := EncodeUnit(v, s, src[0]);
      RunOkIffFits(v, t.state, src[1..], room - |t.out|);
      ThenIs(UnitRun(v, s, src[0], room), Run(v, t.state, src[1..], room - |t.out|));
    }
  }

  /** A call stops early only for want of room: at most two bytes are left unused. */
  lemma {:induction false} RunFillsRoom(v: Variant, s: State, src: seq<Unit>, room: int)
    requires Valid(s)
    ensures var r := Run(v, s, src, room);
            r.status == MoreOutput ==> |r.out| + 2 >= room
    decreases |src|
  {
    hide Run, UnitRun, Valid, Then;
    if src == [] {
      RunNothing(v, s, room);
    } else {
      UnitFillsRoom(v, s, src[0], room);
      RunUnfold(v, s, src, room);
      var head := UnitRun(v, s, src[0], room);
      if head.status == OK {
        RunFillsRoom(v, head.state, src[1..], room - |head.out|);
        ThenIs(head, Run(v, head.state, src[1..], room - |head.out|));
      }
    }
  }

  lemma UnitFillsRoom(v: Variant, s: State, u: Unit, room: int)
    requires Valid(s)
    ensures var r := UnitRun(v, s, u, room);
            r.status != OK ==> |r.out| + 2 >= room
  {
    hide DirectEncodable, UnitText;
  }

  /** The bytes that must be free for the next piece of the text: a pending or shift
      character, or all that is tested for a unit. */
  function NextPiece(v: Variant, s: State, u: Unit): nat {
    if s.encoding != Wanted(v, u) then 1 else RoomTested(s)
  }

  /** A call that stops has written every piece that fits: the next one does not. */
  lemma {:induction false} StopsAtPiece(v: Variant, s: State, src: seq<Unit>, room: int)
    requires Valid(s)
    ensures var r := Run(v, s, src, room);
            r.status == MoreOutput ==>
              r.consumed < |src| && room - |r.out| < NextPiece(v, r.state, src[r.consumed])
    decreases |src|
  {
    hide Run, UnitRun, Valid, Then, NextPiece;
    if src == [] {
      RunNothing(v, s, room);
    } else {
      UnitStopsAtPiece(v, s, src[0], room);
      RunUnfold(v, s, src, room);
      var head := UnitRun(v, s, src[0], room);
      if head.status == OK {
        var r := Run(v, head.state, src[1..], room - |head.out|);
        StopsAtPiece(v, head.state, src[1..], room - |head.out|);
        ThenIs(head, r);
        if r.consumed < |src[1..]| { assert src[1..][r.consumed] == src[1 + r.consumed]; }
      }
    }
  }

  lemma UnitStopsAtPiece(v: Variant, s: State, u: Unit, room: int)
    requires Valid(s)
    ensures var r := UnitRun(v, s, u, room);
            r.status != OK ==> r.status == MoreOutput && r.consumed == 0 && room - |r.out| < NextPiece(v, r.state, u)
  {
    hide DirectEncodable, ValueToChar;
  }

  /** A shift, such as that of `FinishNoBuff`, stops only when its room is used up. */
  lemma ShiftFillsRoom(v: Variant, s: State, want: Encoding, room: nat)
    requires Valid(s)
    ensures var r := ShiftRun(v, s, want, room);
            r.status != OK ==> r.status == MoreOutput && |r.out| == room
  {}

  /** Three free bytes always suffice to read a unit. */
  lemma RunProgresses(v: Variant, s: State, src: seq<Unit>, room: int)
    requires Valid(s) && src != [] && room >= 3
    ensures Run(v, s, src, room).consumed >= 1
  {}

  /** The escape unit meets exactly one free byte, after `k` units that all fitted. */
  predicate EscapeMeetsOneByte(v: Variant, s: State, src: seq<Unit>, room: int, k: nat)
    requires Valid(s)
  {
    && k < |src| && src[k] == EscChar(v) && DirectEncodable(v, src[k])
    && var t := EncodeAll(v, s, src[..k]);
       |t.out| + |ShiftText(v, t.state, Direct)| == room - 1
  }

  lemma UnitOverrun(v: Variant, s: State, u: Unit, room: int)
    requires Valid(s) && room >= 0
    ensures var r := UnitRun(v, s, u, room);
            && |r.out| <= room + 1
            && (r.status != OK ==> |r.out| <= room)
            && (|r.out| > room <==>
                u == EscChar(v) && DirectEncodable(v, u) && |ShiftText(v, s, Direct)| == room - 1)
  {
    hide ValueToChar;
  }

  /** A call writes past its room exactly when the escape unit meets one free byte, and
      then by one byte. */
  lemma {:induction false} OverrunsRoom(v: Variant, s: State, src: seq<Unit>, room: int)
    requires Valid(s) && room >= 0
    ensures |Run(v, s, src, room).out| <= room + 1
    ensures |Run(v, s, src, room).out| > room <==> exists k: nat :: EscapeMeetsOneByte(v, s, src, room, k)
    decreases |src|
  {
    hide Run, UnitRun, EncodeAll, EncodeUnit, EscapeMeetsOneByte, Valid, Then, DirectEncodable;
    if src == [] {
      RunNothing(v, s, room);
      NoEscapeLeft(v, s, src, room);
      return;
    }
    var head := UnitRun(v, s, src[0], room);
    var t := EncodeUnit(v, s, src[0]);
    RunUnfold(v, s, src, room);
    UnitRunResumes(v, s, src[0], room);
    UnitOverrun(v, s, src[0], room);
    EscapeFirst(v, s, src, room);
    forall k: nat | k > 0
      ensures EscapeMeetsOneByte(v, s, src, room, k)
         <==> EscapeMeetsOneByte(v, t.state, src[1..], room - |t.out|, k - 1)
    {
      EscapeLater(v, s, src, room, k);
    }
    if |t.out| > room {
      NoEscapeWithoutRoom(v, t.state, src[1..], room - |t.out|);
      if head.status == OK {
        NothingWithoutRoom(v, head.state, src[1..], room - |head.out|);
        ThenIs(head, Run(v, head.state, src[1..], room - |head.out|));
      }
    } else {
      var room' := room - |t.out|;
      OverrunsRoom(v, t.state, src[1..], room');
      ThenIs(head, Run(v, t.state, src[1..], room'));
      forall k: nat | EscapeMeetsOneByte(v, t.state, src[1..], room', k)
        ensures EscapeMeetsOneByte(v, s, src, room, k + 1)
      {
        EscapeLater(v, s, src, room, k + 1);
      }
    }
  }

  lemma NoEscapeLeft(v: Variant, s: State, src: seq<Unit>, room: int)
    requires Valid(s) && src == []
    ensures !exists k: nat :: EscapeMeetsOneByte(v, s, src, room, k)
  {}

  lemma NoEscapeWithoutRoom(v: Variant, s: State, src: seq<Unit>, room: int)
    requires Valid(s) && room <= 0
    ensures !exists k: nat :: EscapeMeetsOneByte(v, s, src, room, k)
  {
    hide EncodeAll, DirectEncodable;
  }

  lemma EscapeFirst(v: Variant, s: State, src: seq<Unit>, room: int)
    requires Valid(s) && src != []
    ensures EscapeMeetsOneByte(v, s, src, room, 0)
       <==> src[0] == EscChar(v) && DirectEncodable(v, src[0]) && |ShiftText(v, s, Direct)| == room - 1
  {
    assert src[..0] == [];
    hide DirectEncodable, ShiftText;
  }

  /** Past the first unit, the condition is that of the rest of the input. */
  lemma EscapeLater(v: Variant, s: State, src: seq<Unit>, room: int, k: nat)
    requires Valid(s) && src != [] && k > 0
    ensures var t := EncodeUnit(v, s, src[0]);
            EscapeMeetsOneByte(v, s, src, room, k) == EscapeMeetsOneByte(v, t.state, src[1..], room - |t.out|, k - 1)
  {
    hide EncodeAll, EncodeUnit, DirectEncodable, ShiftText, Valid;
    if k < |src| { UnitFirst(v, s, src, k); }
  }

  lemma UnitFirst(v: Variant, s: State, src: seq<Unit>, k: nat)
    requires Valid(s) && 0 < k <= |src|
    ensures var t := EncodeUnit(v, s, src[0]);
            var r := EncodeAll(v, t.state, src[1..][..k - 1]);
            EncodeAll(v, s, src[..k]) == Text(t.out + r.out, r.state)
  {
    hide EncodeAll, EncodeUnit, Valid;
    assert src[..k][1..] == src[1..][..k - 1];
    EncodeAllUnfold(v, s, src[..k]);
  }

  lemma NothingWithoutRoom(v: Variant, s: State, src: seq<Unit>, room: int)
    requires Valid(s) && room <= 0
    ensures Run(v, s, src, room).out == []
  {
    hide DirectEncodable, ValueToChar;
  }

  /** A call past its room has ended in direct mode. */
  lemma {:induction false} OverrunIsDirect(v: Variant, s: State, src: seq<Unit>, room: int)
    requires Valid(s) && (room >= 0 || s.encoding == Direct)
    ensures var r := Run(v, s, src, room);
            |r.out| <= room || r.state.encoding == Direct
    decreases |src|
  {
    hide Run, UnitRun, Valid, Then;
    if src == [] {
      RunNothing(v, s, room);
    } else {
      UnitOverrunIsDirect(v, s, src[0], room);
      RunUnfold(v, s, src, room);
      var head := UnitRun(v, s, src[0], room);
      if head.status == OK {
        OverrunIsDirect(v, head.state, src[1..], room - |head.out|);
        ThenIs(head, Run(v, head.state, src[1..], room - |head.out|));
      }
    }
  }

  lemma ShiftOverrunIsDirect(v: Variant, s: State, want: Encoding, room: int)
    requires Valid(s) && (room >= 0 || s.encoding == Direct)
    ensures var r := ShiftRun(v, s, want, room);
            |r.out| <= room || (r.out == [] && r.state.encoding == Direct)
  {
    hide ValueToChar, EscChar;
  }

  lemma UnitOverrunIsDirect(v: Variant, s: State, u: Unit, room: int)
    requires Valid(s) && (room >= 0 || s.encoding == Direct)
    ensures var r := UnitRun(v, s, u, room);
            |r.out| <= room || r.state.encoding == Direct
  {
    hide ValueToChar, DirectEncodable;
  }

  /** In UTF-7 the escape character is not in the direct set, so every buffer is respected. */
  lemma Utf7KeepsToRoom(s: State, src: seq<Unit>, room: nat)
    requires Valid(s)
    ensures |Run(Utf7, s, src, room).out| <= room
  {
    OverrunsRoom(Utf7, s, src, room);
  }

  /** With room for the whole text nothing is written past it, in either variant. */
  lemma FittingTextKeepsToRoom(v: Variant, s: State, src: seq<Unit>, room: nat)
    requires Valid(s)
    requires |EncodeAll(v, s, src).out| <= room
    ensures var r := Run(v, s, src, room);
            r.status == OK && r.consumed == |src| && r.out == EncodeAll(v, s, src).out && |r.out| <= room
  {
    RunOkIffFits(v, s, src, room);
  }

  // ---- A conversation over arbitrarily many buffers ----

  datatype Session = Session(complete: bool, state: State, out: seq<Byte>)

  /** `FinishNoBuff` repeated over the buffers until it is `OK`. */
  function FinishOver(v: Variant, s: State, rooms: seq<nat>): (r: Session)
    requires Valid(s)
    decreases |rooms|
  {
    if rooms == [] then Session(false, s, [])
    else
      var f := ShiftRun(v, s, Direct, rooms[0]);
      if f.status == OK then Session(true, f.state, f.out)
      else
        var rest := FinishOver(v, f.state, rooms[1..]);
        rest.(out := f.out + rest.out)
  }

  /** `ConvertNoBuffNoErr` repeated over the buffers, each call resuming at the first
      unread unit, until it is `OK`; then `FinishNoBuff` repeated over the rest. */
  function ConvertOver(v: Variant, s: State, src: seq<Unit>, rooms: seq<nat>): (r: Session)
    requires Valid(s)
    decreases |rooms|
  {
    if rooms == [] then Session(false, s, [])
    else
      var c := Run(v, s, src, rooms[0]);
      var rest := if c.status == OK then FinishOver(v, c.state, rooms[1..])
                  else ConvertOver(v, c.state, src[c.consumed..], rooms[1..]);
      rest.(out := c.out + rest.out)
  }

  lemma {:induction false} FinishOverExact(v: Variant, s: State, rooms: seq<nat>)
    requires Valid(s)
    ensures var r := FinishOver(v, s, rooms);
            && r.out <= ShiftText(v, s, Direct)
            && (r.complete ==> r.out == ShiftText(v, s, Direct) && r.state == RESET)
    ensures rooms != [] && rooms[0] >= 2 ==> FinishOver(v, s, rooms).complete
    decreases |rooms|
  {
    if rooms != [] {
      var f := ShiftRun(v, s, Direct, rooms[0]);
      FinishOverExact(v, f.state, rooms[1..]);
    }
  }

  /** Under any sequence of buffers the bytes written so far are a prefix of the one-shot
      text; when the conversation completes they are that text, and the encoder is reset. */
  lemma {:induction false} AnyBuffersSameText(v: Variant, s: State, src: seq<Unit>, rooms: seq<nat>)
    requires Valid(s)
    ensures var r := ConvertOver(v, s, src, rooms);
            && r.out <= Finished(v, s, src)
            && (r.complete ==> r.out == Finished(v, s, src) && r.state == RESET)
    decreases |rooms|
  {
    if rooms != [] {
      var c := Run(v, s, src, rooms[0]);
      var left := src[c.consumed..];
      FinishedAfterCall(v, s, src, rooms[0]);
      if c.status == OK {
        assert left == [] && Finished(v, c.state, left) == ShiftText(v, c.state, Direct);
        FinishOverExact(v, c.state, rooms[1..]);
        PrefixExtends(c.out, FinishOver(v, c.state, rooms[1..]).out, Finished(v, c.state, left));
      } else {
        AnyBuffersSameText(v, c.state, left, rooms[1..]);
        PrefixExtends(c.out, ConvertOver(v, c.state, left, rooms[1..]).out, Finished(v, c.state, left));
      }
    }
  }

  lemma FinishedAfterCall(v: Variant, s: State, src: seq<Unit>, room: int)
    requires Valid(s)
    ensures var c := Run(v, s, src, room);
            Finished(v, s, src) == c.out + Finished(v, c.state, src[c.consumed..])
  {
    hide Run, EncodeAll, ShiftText, Valid;
    RunResumes(v, s, src, room);
    var c := Run(v, s, src, room);
    var rest := EncodeAll(v, c.state, src[c.consumed..]);
    var close := ShiftText(v, rest.state, Direct);
    assert (c.out + rest.out) + close == c.out + (rest.out + close);
  }

  lemma PrefixExtends<T>(a: seq<T>, b: seq<T>, c: seq<T>)
    requires b <= c
    ensures a + b <= a + c
  {}

  /** Buffers of at least three bytes complete the conversation: one call a unit (one for
      an empty input) and one to finish always suffice. */
  lemma {:induction false} BuffersOfThreeComplete(v: Variant, s: State, src: seq<Unit>, rooms: seq<nat>)
    requires Valid(s)
    requires forall k :: 0 <= k < |rooms| ==> rooms[k] >= 3
    requires |rooms| >= (if src == [] then 1 else |src|) + 1
    ensures ConvertOver(v, s, src, rooms).complete
    decreases |rooms|
  {
    var c := Run(v, s, src, rooms[0]);
    if c.status == OK {
      FinishOverExact(v, c.state, rooms[1..]);
    } else {
      RunProgresses(v, s, src, rooms[0]);
      BuffersOfThreeComplete(v, c.state, src[c.consumed..], rooms[1..]);
    }
  }

  // ---- Length bounds ----

  /** Bytes still owed by the state itself, in half bytes. */
  function Potential(v: Variant, s: State): nat {
    if v.ModifiedUtf7? then
      if s.encoding == Direct then 3 else if s.step == 0 then 2 else 4
    else
      if s.encoding == Direct then 4 else if s.step == 0 then 2 else 4
  }

  function HalfBytesPerUnit(v: Variant): nat {
    if v.ModifiedUtf7? then 7 else 6
  }

  lemma {:induction false} FinishedLengthFrom(v: Variant, s: State, src: seq<Unit>)
    requires Valid(s)
    ensures 2 * |Finished(v, s, src)| <= HalfBytesPerUnit(v) * |src| + Potential(v, s)
    decreases |src|
  {
    if src != [] {
      var t := EncodeUnit(v, s, src[0]);
      FinishedLengthFrom(v, t.state, src[1..]);
      assert |Finished(v, s, src)| == |t.out| + |Finished(v, t.state, src[1..])|;
      assert HalfBytesPerUnit(v) * |src| == HalfBytesPerUnit(v) * |src[1..]| + HalfBytesPerUnit(v);
      UnitLength(v, s, src[0]);
    }
  }

  lemma UnitLength(v: Variant, s: State, u: Unit)
    requires Valid(s)
    ensures var t := EncodeUnit(v, s, u);
            2 * |t.out| + Potential(v, t.state) <= HalfBytesPerUnit(v) + Potential(v, s)
  {
    DirectSet(v, u);
  }

  /** At most floor((7n+3)/2) bytes in modified UTF-7 and 3n+2 in UTF-7. */
  function LengthBound(v: Variant, n: nat): nat {
    if v.ModifiedUtf7? then (7 * n + 3) / 2 else 3 * n + 2
  }

  lemma FinishedLength(v: Variant, src: seq<Unit>)
    ensures |Finished(v, RESET, src)| <= LengthBound(v, |src|)
  {
    FinishedLengthFrom(v, RESET, src);
  }

  /** A buffer of the bound's size: one call reads everything, one finishes, and the two
      together write the whole text and keep to the buffer. */
  lemma OneCallSuffices(v: Variant, src: seq<Unit>, room: nat)
    requires room >= LengthBound(v, |src|)
    ensures var r := Run(v, RESET, src, room);
            var f := ShiftRun(v, r.state, Direct, room - |r.out|);
            && r.status == OK && r.consumed == |src| && f.status == OK && f.state == RESET
            && r.out + f.out == Finished(v, RESET, src)
            && |r.out| + |f.out| <= room
  {
    hide Run, ShiftRun, EncodeAll, ShiftText, Shifted, LengthBound;
    FinishedLength(v, src);
    FittingTextKeepsToRoom(v, RESET, src, room);
    FinishedAfterCall(v, RESET, src, room);
    var r := Run(v, RESET, src, room);
    assert src[r.consumed..] == [];
    FinishedNothing(v, r.state);
    ShiftRunResumes(v, r.state, Direct, room - |r.out|);
  }

  lemma FinishedNothing(v: Variant, s: State)
    requires Valid(s)
    ensures Finished(v, s, []) == ShiftText(v, s, Direct) && Shifted(s, Direct) == RESET
  {
    hide ShiftText;
  }

  /** Units outside the direct set, alternating with the costliest unit inside it. */
  function Costliest(v: Variant, n: nat): (src: seq<Unit>)
    ensures |src| == n
  {
    if n <= 2 then seq(n, _ => 0)
    else [0, CostliestDirect(v)] + Costliest(v, n - 2)
  }

  function CostliestDirect(v: Variant): Unit {
    if v.ModifiedUtf7? then EscChar(v) else 65
  }

  /** The bound is attained at every length but zero. */
  lemma {:induction false} LengthBoundAttained(v: Variant, n: nat)
    requires n > 0
    ensures |Finished(v, RESET, Costliest(v, n))| == LengthBound(v, n)
  {
    CostliestUnits(v);
    hide EncodeUnit, EncodeAll, ShiftText;
    var one := State(Base64, 0, 1);
    if n == 1 {
      assert Costliest(v, n) == [0] + [];
      FinishedCons(v, RESET, 0, []);
    } else if n == 2 {
      assert Costliest(v, n) == [0] + ([0] + []);
      FinishedCons(v, RESET, 0, [0] + []);
      FinishedCons(v, one, 0, []);
    } else {
      var u := CostliestDirect(v);
      assert Costliest(v, n) == [0] + ([u] + Costliest(v, n - 2));
      FinishedCons(v, RESET, 0, [u] + Costliest(v, n - 2));
      FinishedCons(v, one, u, Costliest(v, n - 2));
      LengthBoundAttained(v, n - 2);
    }
  }

  lemma FinishedCons(v: Variant, s: State, u: Unit, rest: seq<Unit>)
    requires Valid(s)
    ensures var t := EncodeUnit(v, s, u);
            Finished(v, s, [u] + rest) == t.out + Finished(v, t.state, rest)
  {
    hide EncodeUnit;
    assert ([u] + rest)[1..] == rest;
  }

  lemma CostliestUnits(v: Variant)
    ensures var one := State(Base64, 0, 1);
            && EncodeUnit(v, RESET, 0).state == one && |EncodeUnit(v, RESET, 0).out| == 3
            && EncodeUnit(v, one, 0).state == State(Base64, 0, 2) && |EncodeUnit(v, one, 0).out| == 3
            && EncodeUnit(v, one, CostliestDirect(v)).state == RESET
            && |EncodeUnit(v, one, CostliestDirect(v)).out| == (if v.ModifiedUtf7? then 4 else 3)
    ensures Finished(v, State(Base64, 0, 1), []) == ShiftText(v, State(Base64, 0, 1), Direct)
    ensures Finished(v, State(Base64, 0, 2), []) == ShiftText(v, State(Base64, 0, 2), Direct)
    ensures |ShiftText(v, State(Base64, 0, 1), Direct)| == |ShiftText(v, State(Base64, 0, 2), Direct)| == 2
  {}
}
