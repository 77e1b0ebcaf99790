/** The decoder as a state machine on values, in the same layers as the encoder. */
module DecoderMachine {
  import opened Alphabet
  import opened Division
  import opened Outcomes

  /** `mEncoding`, `mEncBits`, `mEncStep` and `mFreshBase64`. */
  datatype State = State(encoding: Encoding, bits: nat, step: nat, freshBase64: bool)

  const RESET := State(Direct, 0, 0, false)

  /** The weight of the last pending bit: the accumulator holds 6 * step % 16 bits,
      left-aligned in 16. */
  function Weight(step: nat): nat
    requires step < 8
  {
    match step
    case 0 => 65536 case 1 => 1024 case 2 => 16 case 3 => 16384
    case 4 => 256 case 5 => 4 case 6 => 4096 case 7 => 64
  }

  predicate Valid(s: State) {
    && s.step < 8
    && s.bits < 0x1_0000
    && s.bits % Weight(s.step) == 0
    && (s.freshBase64 ==> s.step == 0)
  }

  // ---- One byte, without regard to room ----

  /** What a sextet adds to the accumulator, apart from the first of eight, which replaces it. */
  function Addend(step: nat, value: Sextet): nat
    requires step < 8
  {
    match step
    case 0 => value * 1024 case 1 => value * 16 case 2 => value / 4 case 3 => value * 256
    case 4 => value * 4 case 5 => value / 16 case 6 => value * 64 case 7 => value
  }

  /** The sextets at these positions complete a 16-bit unit. */
  predicate Completes(step: nat) {
    step == 2 || step == 5 || step == 7
  }

  /** The accumulator once a unit has been written. */
  function Leftover(step: nat, value: Sextet): nat {
    if step == 2 then value % 4 * 16384 else if step == 5 then value % 16 * 4096 else 0
  }

  /** The accumulator never outgrows 16 bits, so the cast to `char16_t` drops nothing, and
      every addition fills bits that were zero. */
  lemma AdditionIsDisjoint(s: State, value: Sextet)
    requires Valid(s)
    ensures s.bits + Addend(s.step, value) < 0x1_0000
    ensures Addend(s.step, value) < Weight(s.step)
    ensures (s.bits + Addend(s.step, value)) / Weight(s.step) == s.bits / Weight(s.step)
    ensures (s.bits + Addend(s.step, value)) % Weight(s.step) == Addend(s.step, value)
  {
    hide Valid, Addend, Weight;
    var q := WeightDivides(s);
    AddendFits(s.step, value);
    Disjoint(s.step, s.bits, q, Addend(s.step, value));
  }

  /** Addition below the last pending bit. */
  lemma Disjoint(step: nat, x: nat, q: nat, a: nat)
    requires step < 8 && x == q * Weight(step) < 0x1_0000 && a < Weight(step)
    ensures x + a < 0x1_0000 && (x + a) / Weight(step) == x / Weight(step) && (x + a) % Weight(step) == a
  {
    var w := Weight(step);
    if w == 65536 {
      By65536(x, q, 0);
      By65536(x + a, q, a);
    } else if w == 1024 {
      By1024(x, q, 0);
      By1024(x + a, q, a);
    } else if w == 16 {
      By16(x, q, 0);
      By16(x + a, q, a);
    } else if w == 16384 {
      By16384(x, q, 0);
      By16384(x + a, q, a);
    } else if w == 256 {
      By256(x, q, 0);
      By256(x + a, q, a);
    } else if w == 4 {
      By4(x, q, 0);
      By4(x + a, q, a);
    } else if w == 4096 {
      By4096(x, q, 0);
      By4096(x + a, q, a);
    } else {
      By64(x, q, 0);
      By64(x + a, q, a);
    }
  }

  lemma AddendFits(step: nat, value: Sextet)
    requires step < 8
    ensures Addend(step, value) < Weight(step)
  {}

  lemma WeightDivides(s: State) returns (q: nat)
    requires Valid(s)
    ensures s.step < 8 && s.bits < 0x1_0000
    ensures s.bits == q * Weight(s.step)
  {
    q := s.bits / Weight(s.step);
  }

  /** The accumulator after a sextet. */
  function NextBits(s: State, value: Sextet): nat
    requires Valid(s)
  {
    if Completes(s.step) then Leftover(s.step, value) else s.bits + Addend(s.step, value)
  }

  lemma NextBitsFit(s: State, value: Sextet)
    requires Valid(s)
    ensures NextBits(s, value) < 0x1_0000 && NextBits(s, value) % Weight((s.step + 1) % 8) == 0
  {
    if Completes(s.step) {
      LeftoverFits(s.step, value);
    } else {
      SumFits(s, value);
    }
  }

  lemma LeftoverFits(step: nat, value: Sextet)
    requires step < 8 && Completes(step)
    ensures Leftover(step, value) < 0x1_0000 && Leftover(step, value) % Weight((step + 1) % 8) == 0
  {}

  lemma SumFits(s: State, value: Sextet)
    requires Valid(s) && !Completes(s.step)
    ensures s.bits + Addend(s.step, value) < 0x1_0000
    ensures (s.bits + Addend(s.step, value)) % Weight(s.step + 1) == 0
  {
    hide Valid;
    AdditionIsDisjoint(s, value);
    var q := WeightDivides(s);
    var sum := s.bits + Addend(s.step, value);
    match s.step
    case 0 => By1024(sum, 64 * q + value, 0);
    case 1 => By16(sum, 64 * q + value, 0);
    case 3 => By256(sum, 64 * q + value, 0);
    case 4 => By4(sum, 64 * q + value, 0);
    case 6 => By64(sum, 64 * q + value, 0);
  }

  function AfterValue(s: State, value: Sextet): (r: State)
    requires Valid(s)
    ensures Valid(r)
  {
    NextBitsFit(s, value);
    State(s.encoding, NextBits(s, value), (s.step + 1) % 8, false)
  }

  /** The mode change that reads nothing: a byte other than `-` that ends a base64 run is
      looked at again in direct mode. */
  function LeaveBase64(v: Variant, s: State, b: Byte): (r: State)
    requires Valid(s)
    ensures Valid(r)
  {
    if s.encoding == Base64 && !IsBase64(v, b) && b != MINUS then s.(encoding := Direct, freshBase64 := false)
    else s
  }

  /** The units written for `b` once the mode is settled. */
  function ByteText(v: Variant, s: State, b: Byte): (t: seq<Unit>)
    requires Valid(s)
    ensures |t| <= 1
  {
    if s.encoding == Direct then
      if b == EscChar(v) then [] else [b]
    else if s.freshBase64 && b == MINUS then [EscChar(v)]
    else if IsBase64(v, b) && Completes(s.step) then
      [Truncated(s.bits + Addend(s.step, CharToValue(v, b)))]
    else []
  }

  /** The code tests for a free unit before each write but one: that of the escape character
      for an empty shift. */
  predicate TestsRoom(v: Variant, s: State, b: Byte) {
    if s.encoding == Direct then b != EscChar(v)
    else !(s.freshBase64 && b == MINUS) && IsBase64(v, b) && Completes(s.step)
  }

  function AfterByte(v: Variant, s: State, b: Byte): (r: State)
    requires Valid(s)
    ensures Valid(r)
  {
    if s.encoding == Direct then
      if b == EscChar(v) then State(Base64, 0, 0, true) else s
    else if s.freshBase64 && b == MINUS then s.(encoding := Direct)
    else if IsBase64(v, b) then AfterValue(s, CharToValue(v, b))
    else s.(encoding := Direct, freshBase64 := false)
  }

  function DecodeByte(v: Variant, s: State, b: Byte): (t: Text<State, Unit>)
    requires Valid(s)
    ensures Valid(t.state) && |t.out| <= 1
  {
    var s1 := LeaveBase64(v, s, b);
    Text(ByteText(v, s1, b), AfterByte(v, s1, b))
  }

  /** In base64 mode a character of the alphabet only touches the accumulator. */
  lemma DecodeSextet(v: Variant, s: State, c: Byte)
    requires Valid(s) && s.encoding == Base64 && IsBase64(v, c)
    ensures var n := CharToValue(v, c);
            && DecodeByte(v, s, c)
               == Text(if Completes(s.step) then [s.bits + Addend(s.step, n)] else [], AfterValue(s, n))
            && 0 <= s.bits + Addend(s.step, n) < 0x1_0000
            && !AfterValue(s, n).freshBase64
  {
    TablesInverse(v, c);
    AdditionIsDisjoint(s, CharToValue(v, c));
    hide Valid, Addend, IsBase64, CharToValue;
  }

  function DecodeAll(v: Variant, s: State, src: seq<Byte>): (t: Text<State, Unit>)
    requires Valid(s)
    ensures Valid(t.state) && |t.out| <= |src|
    decreases |src|
  {
    if src == [] then Text([], s)
    else
      var t := DecodeByte(v, s, src[0]);
      var r := DecodeAll(v, t.state, src[1..]);
      Text(t.out + r.out, r.state)
  }

  // ---- Calls with limited room ----

  function ByteRun(v: Variant, s: State, b: Byte, room: int): (r: Outcome<State, Unit>)
    requires Valid(s)
    ensures Valid(r.state) && r.status != IllegalInput
    ensures r.consumed == if r.status == OK then 1 else 0
  {
    var s1 := LeaveBase64(v, s, b);
    if TestsRoom(v, s1, b) && room < 1 then Outcome(MoreOutput, s1, 0, [])
    else Outcome(OK, AfterByte(v, s1, b), 1, ByteText(v, s1, b))
  }

  /** One call of `ConvertNoBuff`. */
  function Run(v: Variant, s: State, src: seq<Byte>, room: int): (r: Outcome<State, Unit>)
    requires Valid(s)
    ensures Valid(r.state) && r.consumed <= |src| && r.status != IllegalInput
    ensures r.status == OK <==> r.consumed == |src|
    decreases |src|
  {
    if src == [] then Outcome(OK, s, 0, [])
    else
      var head := ByteRun(v, s, src[0], room);
      if head.status != OK then head
      else Then(head, Run(v, head.state, src[1..], room - |head.out|))
  }

  // ---- Input-split independence ----

  lemma {:induction false} DecodeAllSplit(v: Variant, s: State, a: seq<Byte>, b: seq<Byte>)
    requires Valid(s)
    ensures var t := DecodeAll(v, s, a);
            var r := DecodeAll(v, t.state, b);
            DecodeAll(v, s, a + b) == Text(t.out + r.out, r.state)
    decreases |a|
  {
    hide DecodeAll, DecodeByte, Valid;
    DecodeAllUnfold(v, s, a);
    if a == [] {
      assert a + b == b;
    } else {
      assert (a + b)[1..] == a[1..] + b;
      DecodeAllUnfold(v, s, a + b);
      var t := DecodeByte(v, s, a[0]);
      DecodeAllSplit(v, t.state, a[1..], b);
      var r := DecodeAll(v, t.state, a[1..]);
      var rest := DecodeAll(v, r.state, b).out;
      assert t.out + (r.out + rest) == (t.out + r.out) + rest;
    }
  }

  lemma {:induction false} RunSplit(v: Variant, s: State, a: seq<Byte>, b: seq<Byte>, room: int)
    requires Valid(s)
    ensures var r := Run(v, s, a, room);
            Run(v, s, a + b, room)
            == if r.status == OK then Then(r, Run(v, r.state, b, room - |r.out|)) else r
    decreases |a|
  {
    hide Run, ByteRun, Then;
    if a == [] {
      assert a + b == b;
      RunNothing(v, s, room);
      NothingThen(s, Run(v, s, b, room));
    } else {
      assert (a + b)[1..] == a[1..] + b;
      RunUnfold(v, s, a, room);
      RunUnfold(v, s, a + b, room);
      var head := ByteRun(v, s, a[0], room);
      if head.status == OK {
        var r := Run(v, head.state, a[1..], room - |head.out|);
        RunSplit(v, head.state, a[1..], b, room - |head.out|);
        ThenAssociative(head, r, Run(v, r.state, b, room - |head.out| - |r.out|));
        assert Run(v, s, a, room) == Then(head, r);
        if r.status == OK {
          assert room - |Then(head, r).out| == room - |head.out| - |r.out|;
        }
      }
    }
  }

  lemma RunUnfold(v: Variant, s: State, src: seq<Byte>, room: int)
    requires Valid(s) && src != []
    ensures var head := ByteRun(v, s, src[0], room);
            Run(v, s, src, room)
            == if head.status == OK then Then(head, Run(v, head.state, src[1..], room - |head.out|)) else head
  {
    hide ByteRun, Valid;
  }

  lemma RunNothing(v: Variant, s: State, room: int)
    requires Valid(s)
    ensures Run(v, s, [], room) == Outcome(OK, s, 0, [])
  {}

  lemma DecodeAllUnfold(v: Variant, s: State, src: seq<Byte>)
    requires Valid(s)
    ensures DecodeAll(v, s, src)
         == if src == [] then Text([], s)
            else
              var t := DecodeByte(v, s, src[0]);
              var r := DecodeAll(v, t.state, src[1..]);
              Text(t.out + r.out, r.state)
  {
    hide DecodeByte, Valid;
  }

  // ---- Limited room against unlimited room ----

  lemma ByteRunResumes(v: Variant, s: State, b: Byte, room: int)
    requires Valid(s)
    ensures var r := ByteRun(v, s, b, room);
            var t := DecodeByte(v, s, b);
            if r.status == OK then t == Text(r.out, r.state)
            else r.out == [] && t == DecodeByte(v, r.state, b)
    ensures |DecodeByte(v, s, b).out| <= room ==> ByteRun(v, s, b, room).status == OK
  {}

  /** Whatever a call left undone, continuing at the first unread byte from the state it
      left completes exactly the units that one unlimited call would have written. */
  lemma {:induction false} RunResumes(v: Variant, s: State, src: seq<Byte>, room: int)
    requires Valid(s)
    ensures var r := Run(v, s, src, room);
            var rest := DecodeAll(v, r.state, src[r.consumed..]);
            DecodeAll(v, s, src) == Text(r.out + rest.out, rest.state)
    decreases |src|
  {
    hide Run, ByteRun, DecodeAll, DecodeByte, Valid, Then;
    DecodeAllUnfold(v, s, src);
    if src == [] {
      RunNothing(v, s, room);
    } else {
      RunUnfold(v, s, src, room);
      ByteRunResumes(v, s, src[0], room);
      var head := ByteRun(v, s, src[0], room);
      if head.status == OK {
        var r := Run(v, head.state, src[1..], room - |head.out|);
        RunResumes(v, head.state, src[1..], room - |head.out|);
        var rest := DecodeAll(v, r.state, src[1..][r.consumed..]);
        ThenIs(head, r);
        assert src[1..][r.consumed..] == src[1 + r.consumed..];
        assert head.out + (r.out + rest.out) == (head.out + r.out) + rest.out;
      } else {
        DecodeAllUnfold(v, head.state, src);
        var rest := DecodeAll(v, head.state, src);
        assert src[0..] == src && head.out + rest.out == rest.out;
      }
    }
  }

  /** With room for all the units, or simply with one unit of room a byte, a call is `OK`,
      reads everything, writes exactly the units of the input and keeps to its room. */
  lemma {:induction false} FittingUnitsComplete(v: Variant, s: State, src: seq<Byte>, room: int)
    requires Valid(s)
    requires |DecodeAll(v, s, src).out| <= room || |src| <= room
    ensures var t := DecodeAll(v, s, src);
            && Run(v, s, src, room) == Outcome(OK, t.state, |src|, t.out)
            && |t.out| <= room
    decreases |src|
  {
    hide Run, ByteRun, DecodeAll, DecodeByte, Valid, Then;
    DecodeAllUnfold(v, s, src);
    if src == [] {
      RunNothing(v, s, room);
    } else {
      RunUnfold(v, s, src, room);
      ByteRunResumes(v, s, src[0], room);
      var t := DecodeByte(v, s, src[0]);
      FittingUnitsComplete(v, t.state, src[1..], room - |t.out|);
      ThenIs(ByteRun(v, s, src[0], room), Run(v, t.state, src[1..], room - |t.out|));
    }
  }

  /** A call stops early only when its room is used up. */
  lemma {:induction false} RunFillsRoom(v: Variant, s: State, src: seq<Byte>, room: int)
    requires Valid(s)
    ensures var r := Run(v, s, src, room);
            r.status == MoreOutput ==> |r.out| >= room
    decreases |src|
  {
    hide Run, ByteRun, Valid, Then;
    if src == [] {
      RunNothing(v, s, room);
    } else {
      ByteFillsRoom(v, s, src[0], room);
      RunUnfold(v, s, src, room);
      var head := ByteRun(v, s, src[0], room);
      if head.status == OK {
        RunFillsRoom(v, head.state, src[1..], room - |head.out|);
        ThenIs(head, Run(v, head.state, src[1..], room - |head.out|));
      }
    }
  }

  lemma ByteFillsRoom(v: Variant, s: State, b: Byte, room: int)
    requires Valid(s)
    ensures var r := ByteRun(v, s, b, room);
            r.status != OK ==> r.out == [] && room < 1
  {}

  /** The `-` of an empty shift meets a full buffer, after `k` bytes whose units just fitted. */
  predicate EmptyShiftMeetsFull(v: Variant, s: State, src: seq<Byte>, room: int, k: nat)
    requires Valid(s)
  {
    && k < |src| && src[k] == MINUS
    && var t := DecodeAll(v, s, src[..k]);
       t.state.encoding == Base64 && t.state.freshBase64 && |t.out| == room
  }

  lemma ByteOverrun(v: Variant, s: State, b: Byte, room: int)
    requires Valid(s) && room >= 0
    ensures var r := ByteRun(v, s, b, room);
            && (r.status != OK ==> r.out == [])
            && (|r.out| > room <==> b == MINUS && s.encoding == Base64 && s.freshBase64 && room == 0)
  {}

  /** A call writes past its room exactly when an empty shift meets a full buffer. */
  lemma {:induction false} OverrunsRoom(v: Variant, s: State, src: seq<Byte>, room: int)
    requires Valid(s) && room >= 0
    ensures |Run(v, s, src, room).out| > room <==> exists k: nat :: EmptyShiftMeetsFull(v, s, src, room, k)
    decreases |src|
  {
    hide Run, ByteRun, DecodeAll, DecodeByte, EmptyShiftMeetsFull, Valid, Then;
    if src == [] {
      RunNothing(v, s, room);
      NoShiftMeetsFull(v, s, src, room);
      return;
    }
    var head := ByteRun(v, s, src[0], room);
    var t := DecodeByte(v, s, src[0]);
    RunUnfold(v, s, src, room);
    ByteRunResumes(v, s, src[0], room);
    ByteOverrun(v, s, src[0], room);
    EmptyShiftFirst(v, s, src, room);
    forall k: nat | k > 0
      ensures EmptyShiftMeetsFull(v, s, src, room, k)
         <==> EmptyShiftMeetsFull(v, t.state, src[1..], room - |t.out|, k - 1)
    {
      EmptyShiftLater(v, s, src, room, k);
    }
    if head.status == OK {
      ThenIs(head, Run(v, head.state, src[1..], room - |head.out|));
    }
    if |t.out| > room {
      NoShiftMeetsFull(v, t.state, src[1..], room - |t.out|);
    } else {
      var room' := room - |t.out|;
      OverrunsRoom(v, t.state, src[1..], room');
      forall k: nat | EmptyShiftMeetsFull(v, t.state, src[1..], room', k)
        ensures EmptyShiftMeetsFull(v, s, src, room, k + 1)
      {
        EmptyShiftLater(v, s, src, room, k + 1);
      }
    }
  }

  lemma NoShiftMeetsFull(v: Variant, s: State, src: seq<Byte>, room: int)
    requires Valid(s) && (src == [] || room < 0)
    ensures !exists k: nat :: EmptyShiftMeetsFull(v, s, src, room, k)
  {
    hide DecodeAll;
  }

  lemma EmptyShiftFirst(v: Variant, s: State, src: seq<Byte>, room: int)
    requires Valid(s) && src != []
    ensures EmptyShiftMeetsFull(v, s, src, room, 0)
       <==> src[0] == MINUS && s.encoding == Base64 && s.freshBase64 && room == 0
  {
    assert src[..0] == [];
    hide DecodeByte, Valid;
  }

  /** Past the first byte, the condition is that of the rest of the input. */
  lemma EmptyShiftLater(v: Variant, s: State, src: seq<Byte>, room: int, k: nat)
    requires Valid(s) && src != [] && k > 0
    ensures var t := DecodeByte(v, s, src[0]);
            EmptyShiftMeetsFull(v, s, src, room, k) == EmptyShiftMeetsFull(v, t.state, src[1..], room - |t.out|, k - 1)
  {
    hide DecodeAll, DecodeByte, Valid;
    if k < |src| { ByteFirst(v, s, src, k); }
  }

  lemma ByteFirst(v: Variant, s: State, src: seq<Byte>, k: nat)
    requires Valid(s) && 0 < k <= |src|
    ensures var t := DecodeByte(v, s, src[0]);
            var r := DecodeAll(v, t.state, src[1..][..k - 1]);
            DecodeAll(v, s, src[..k]) == Text(t.out + r.out, r.state)
  {
    hide DecodeAll, DecodeByte, Valid;
    assert src[..k][1..] == src[1..][..k - 1];
    DecodeAllUnfold(v, s, src[..k]);
  }

  /** All that a call ever writes past its room are the escape characters of empty shifts. */
  lemma {:induction false} PastRoomOnlyEscapes(v: Variant, s: State, src: seq<Byte>, room: int)
    requires Valid(s)
    ensures var out := Run(v, s, src, room).out;
            forall k :: 0 <= k < |out| && k >= room ==> out[k] == EscChar(v)
    decreases |src|
  {
    hide Run, ByteRun, Valid, Then, EscChar;
    if src == [] {
      RunNothing(v, s, room);
    } else {
      BytePastRoom(v, s, src[0], room);
      RunUnfold(v, s, src, room);
      var head := ByteRun(v, s, src[0], room);
      if head.status == OK {
        var r := Run(v, head.state, src[1..], room - |head.out|);
        PastRoomOnlyEscapes(v, head.state, src[1..], room - |head.out|);
        AppendedPastRoom(head.out, r.out, room, EscChar(v));
        ThenIs(head, r);
      }
    }
  }

  lemma AppendedPastRoom<T>(a: seq<T>, b: seq<T>, room: int, x: T)
    requires forall k :: 0 <= k < |a| && k >= room ==> a[k] == x
    requires forall k :: 0 <= k < |b| && k >= room - |a| ==> b[k] == x
    ensures forall k :: 0 <= k < |a + b| && k >= room ==> (a + b)[k] == x
  {}

  lemma BytePastRoom(v: Variant, s: State, b: Byte, room: int)
    requires Valid(s)
    ensures var out := ByteRun(v, s, b, room).out;
            |out| <= 1 && (|out| == 1 && room < 1 ==> out[0] == EscChar(v))
  {}

  function EmptyShifts(v: Variant, n: nat): seq<Byte> {
    if n == 0 then [] else [EscChar(v), MINUS] + EmptyShifts(v, n - 1)
  }

  /** And of these there is no bound: n empty shifts write n units, whatever the room. */
  lemma {:induction false} EmptyShiftsIgnoreRoom(v: Variant, s: State, n: nat, room: int)
    requires Valid(s) && s.encoding == Direct
    ensures var r := Run(v, s, EmptyShifts(v, n), room);
            r.status == OK && |r.out| == n
    decreases n
  {
    hide Run, ByteRun, Valid, Then;
    if n == 0 {
      RunNothing(v, s, room);
    } else {
      var src := EmptyShifts(v, n);
      var open := State(Base64, 0, 0, true);
      var direct := open.(encoding := Direct);
      OneEmptyShift(v, s, room);
      assert src[0] == EscChar(v) && src[1..][0] == MINUS && src[1..][1..] == EmptyShifts(v, n - 1);
      RunUnfold(v, s, src, room);
      RunUnfold(v, open, src[1..], room);
      EmptyShiftsIgnoreRoom(v, direct, n - 1, room - 1);
      var rest := Run(v, direct, EmptyShifts(v, n - 1), room - 1);
      ThenIs(Outcome(OK, direct, 1, [EscChar(v)]), rest);
      ThenIs(Outcome(OK, open, 1, []), Run(v, open, src[1..], room));
    }
  }

  lemma OneEmptyShift(v: Variant, s: State, room: int)
    requires Valid(s) && s.encoding == Direct
    ensures var open := State(Base64, 0, 0, true);
            && Valid(open) && Valid(open.(encoding := Direct))
            && ByteRun(v, s, EscChar(v), room) == Outcome(OK, open, 1, [])
            && ByteRun(v, open, MINUS, room) == Outcome(OK, open.(encoding := Direct), 1, [EscChar(v)])
  {}

  // ---- Feeding an input in pieces ----

  function Concatenated(pieces: seq<seq<Byte>>): seq<Byte> {
    if pieces == [] then [] else pieces[0] + Concatenated(pieces[1..])
  }

  /** One call of `ConvertNoBuff` a piece, on one decoder. */
  function FeedPieces(v: Variant, s: State, pieces: seq<seq<Byte>>, rooms: seq<nat>): (t: Text<State, Unit>)
    requires Valid(s) && |pieces| == |rooms|
    decreases |pieces|
  {
    if pieces == [] then Text([], s)
    else
      var r := Run(v, s, pieces[0], rooms[0]);
      var rest := FeedPieces(v, r.state, pieces[1..], rooms[1..]);
      Text(r.out + rest.out, rest.state)
  }

  /** However the bytes are chopped, with one unit of room a byte of each piece, the units
      and the final state are those of a single call on the whole input. */
  lemma {:induction false} PiecesLikeWhole(v: Variant, s: State, pieces: seq<seq<Byte>>, rooms: seq<nat>)
    requires Valid(s) && |pieces| == |rooms|
    requires forall k :: 0 <= k < |pieces| ==> |pieces[k]| <= rooms[k]
    ensures var whole := Concatenated(pieces);
            var r := Run(v, s, whole, |whole|);
            r.status == OK && FeedPieces(v, s, pieces, rooms) == Text(r.out, r.state)
    decreases |pieces|
  {
    var whole := Concatenated(pieces);
    FittingUnitsComplete(v, s, whole, |whole|);
    if pieces != [] {
      var rest := Concatenated(pieces[1..]);
      FittingUnitsComplete(v, s, pieces[0], rooms[0]);
      var r := Run(v, s, pieces[0], rooms[0]);
      PiecesLikeWhole(v, r.state, pieces[1..], rooms[1..]);
      FittingUnitsComplete(v, r.state, rest, |rest|);
      DecodeAllSplit(v, s, pieces[0], rest);
    }
  }

  // ---- Stale state ----

  /** Equal as far as any future input can tell: in direct mode the accumulator, the step
      and the freshness flag are leftovers. */
  predicate Indistinguishable(s: State, t: State) {
    s.encoding == t.encoding && (s.encoding == Base64 ==> s == t)
  }

  predicate SameOutcome(r: Outcome<State, Unit>, q: Outcome<State, Unit>) {
    && r.status == q.status && r.consumed == q.consumed && r.out == q.out
    && Indistinguishable(r.state, q.state)
  }

  /** Indistinguishable decoders give the same result, the same count of bytes read and the
      same units on every input and every room, and stay indistinguishable. */
  lemma {:induction false} StaleStateUnobservable(v: Variant, s: State, t: State, src: seq<Byte>, room: int)
    requires Valid(s) && Valid(t) && Indistinguishable(s, t)
    ensures SameOutcome(Run(v, s, src, room), Run(v, t, src, room))
    decreases |src|
  {
    if src != [] {
      RunUnfold(v, s, src, room);
      RunUnfold(v, t, src, room);
      hide ByteRun, Run, Valid, Then;
      StaleByteUnobservable(v, s, t, src[0], room);
      var r, q := ByteRun(v, s, src[0], room), ByteRun(v, t, src[0], room);
      if r.status == OK {
        var rest := room - |r.out|;
        StaleStateUnobservable(v, r.state, q.state, src[1..], rest);
        ThenSame(r, q, Run(v, r.state, src[1..], rest), Run(v, q.state, src[1..], rest));
      }
    }
  }

  lemma ThenSame(r: Outcome<State, Unit>, q: Outcome<State, Unit>,
                 r': Outcome<State, Unit>, q': Outcome<State, Unit>)
    requires SameOutcome(r, q) && SameOutcome(r', q')
    ensures SameOutcome(Then(r, r'), Then(q, q'))
  {}

  lemma StaleByteUnobservable(v: Variant, s: State, t: State, b: Byte, room: int)
    requires Valid(s) && Valid(t) && Indistinguishable(s, t)
    ensures SameOutcome(ByteRun(v, s, b, room), ByteRun(v, t, b, room))
  {}

  /** `Reset` leaves the freshness flag as it is, yet makes the decoder as good as new. */
  function Reset(s: State): (r: State)
    ensures Valid(r) && Indistinguishable(r, RESET) && r.freshBase64 == s.freshBase64
  {
    s.(encoding := Direct, bits := 0, step := 0)
  }
}
