/** `nsBasicUTF7Decoder` with its fields, its loops and its caller's buffer, proved against
    the state machine. */
module Decoder {
  import opened Alphabet
  import opened Outcomes
  import M = DecoderMachine
  import Reference

  /** The number of leading bytes that are not the escape character. */
  function PlainLength(v: Variant, src: seq<Byte>): (n: nat)
    ensures n <= |src|
    ensures forall k :: 0 <= k < n ==> src[k] != EscChar(v)
    ensures n < |src| ==> src[n] == EscChar(v)
  {
    if src == [] || src[0] == EscChar(v) then 0 else 1 + PlainLength(v, src[1..])
  }

  // ---- A call, step by step ----

  /** The call that `total` is the outcome of has done `done` and goes on with `rest`. */
  ghost predicate GoesOn(v: Variant, total: Outcome<M.State, Unit>, done: Outcome<M.State, Unit>,
                         rest: seq<Byte>, room: int)
  {
    && M.Valid(done.state) && done.status == OK
    && total == Then(done, M.Run(v, done.state, rest, room - |done.out|))
  }

  lemma CallStarts(v: Variant, s: M.State, src: seq<Byte>, room: int)
    requires M.Valid(s)
    ensures GoesOn(v, M.Run(v, s, src, room), Outcome(OK, s, 0, []), src, room)
  {
    hide M.Run, M.Valid, Then;
    NothingThen(s, M.Run(v, s, src, room));
  }

  lemma CallEnds(v: Variant, total: Outcome<M.State, Unit>, done: Outcome<M.State, Unit>, room: int)
    requires GoesOn(v, total, done, [], room)
    ensures total == done
  {
    hide M.Run, M.Valid, Then;
    M.RunNothing(v, done.state, room - |done.out|);
    ThenStop(done, Outcome(OK, done.state, 0, []));
  }

  lemma RestOfCall(v: Variant, total: Outcome<M.State, Unit>, done: Outcome<M.State, Unit>, rest: seq<Byte>, room: int)
    requires GoesOn(v, total, done, rest, room)
    ensures M.Valid(done.state)
    ensures var call := M.Run(v, done.state, rest, room - |done.out|);
            total == Then(done, call) && |total.out| == |done.out| + |call.out|
  {
    hide M.Run, M.Valid;
  }

  /** What the rest of the call, `call`, does next is what the whole call does next. */
  lemma GoesOnWith(v: Variant, total: Outcome<M.State, Unit>, done: Outcome<M.State, Unit>,
                   call: Outcome<M.State, Unit>, next: Outcome<M.State, Unit>, rest: seq<Byte>, room: int)
    requires total == Then(done, call) && next.consumed <= |rest|
    requires var left := room - |done.out|;
             if next.status == OK then GoesOn(v, call, next, rest[next.consumed..], left) else call == next
    ensures var both := Outcome(next.status, next.state, done.consumed + next.consumed, done.out + next.out);
            if next.status == OK then GoesOn(v, total, both, rest[next.consumed..], room) else total == both
  {
    hide M.Run, M.Valid, Then;
    ThenIs(done, next);
    if next.status == OK {
      var tail := M.Run(v, next.state, rest[next.consumed..], room - |done.out| - |next.out|);
      ThenAssociative(done, next, tail);
    }
  }

  /** The next byte. */
  lemma NextByte(v: Variant, total: Outcome<M.State, Unit>, done: Outcome<M.State, Unit>, rest: seq<Byte>, room: int)
    requires GoesOn(v, total, done, rest, room) && rest != []
    ensures var r := M.ByteRun(v, done.state, rest[0], room - |done.out|);
            var next := Outcome(r.status, r.state, done.consumed + r.consumed, done.out + r.out);
            && |next.out| <= |total.out|
            && if r.status == OK then GoesOn(v, total, next, rest[1..], room) else total == next
  {
    hide M.Run, M.ByteRun, M.Valid, Then;
    var left := room - |done.out|;
    var r := M.ByteRun(v, done.state, rest[0], left);
    M.RunUnfold(v, done.state, rest, left);
    ThenIs(done, r);
    if r.status == OK {
      var tail := M.Run(v, r.state, rest[1..], left - |r.out|);
      ThenAssociative(done, r, tail);
      ThenIs(Then(done, r), tail);
    }
  }

  /** The next `n` bytes. */
  lemma PartDone(v: Variant, total: Outcome<M.State, Unit>, done: Outcome<M.State, Unit>,
                 rest: seq<Byte>, n: nat, room: int)
    requires GoesOn(v, total, done, rest, room) && n <= |rest|
    ensures var run := M.Run(v, done.state, rest[..n], room - |done.out|);
            var next := Outcome(run.status, run.state, done.consumed + run.consumed, done.out + run.out);
            && |next.out| <= |total.out|
            && if run.status == OK then GoesOn(v, total, next, rest[n..], room) else total == next
  {
    hide M.Run, Then, M.Valid;
    var a, b, left := rest[..n], rest[n..], room - |done.out|;
    assert rest == a + b;
    M.RunSplit(v, done.state, a, b, left);
    var run := M.Run(v, done.state, a, left);
    ThenIs(done, run);
    if run.status == OK {
      var tail := M.Run(v, run.state, b, left - |run.out|);
      ThenAssociative(done, run, tail);
      ThenIs(Then(done, run), tail);
    }
  }

  lemma DirectByte(v: Variant, s: M.State, b: Byte, room: int)
    requires M.Valid(s) && s.encoding == Direct
    ensures M.ByteRun(v, s, b, room)
         == if b == EscChar(v) then Outcome(OK, M.State(Base64, 0, 0, true), 1, [])
            else if room < 1 then Outcome(MoreOutput, s, 0, [])
            else Outcome(OK, s, 1, [b])
  {}

  lemma Base64Byte(v: Variant, s: M.State, b: Byte, room: int)
    requires M.Valid(s) && s.encoding == Base64 && IsBase64(v, b)
    ensures var n := CharToValue(v, b);
            && 0 <= s.bits + M.Addend(s.step, n) < 0x1_0000
            && M.ByteRun(v, s, b, room)
               == if M.Completes(s.step) && room < 1 then Outcome(MoreOutput, s, 0, [])
                  else Outcome(OK, M.AfterValue(s, n), 1,
                               if M.Completes(s.step) then [s.bits + M.Addend(s.step, n)] else [])
  {
    TablesInverse(v, b);
    M.AdditionIsDisjoint(s, CharToValue(v, b));
    hide M.Valid, M.Addend, M.AfterValue, CharToValue;
  }

  /** Unless a `-` follows the escape character at once, the freshness flag is forgotten. */
  lemma FreshnessForgotten(v: Variant, s: M.State, src: seq<Byte>, room: int)
    requires M.Valid(s) && s.encoding == Base64 && src != []
    requires !(s.freshBase64 && src[0] == MINUS)
    ensures M.Valid(s.(freshBase64 := false))
    ensures M.Run(v, s, src, room) == M.Run(v, s.(freshBase64 := false), src, room)
  {
    hide M.Run, M.ByteRun;
    M.RunUnfold(v, s, src, room);
    M.RunUnfold(v, s.(freshBase64 := false), src, room);
    FreshnessForgottenByByte(v, s, src[0], room);
  }

  lemma FreshnessForgottenByByte(v: Variant, s: M.State, b: Byte, room: int)
    requires M.Valid(s) && s.encoding == Base64 && !(s.freshBase64 && b == MINUS)
    ensures M.Valid(s.(freshBase64 := false))
    ensures M.ByteRun(v, s, b, room) == M.ByteRun(v, s.(freshBase64 := false), b, room)
  {
    hide CharToValue, M.Addend;
  }

  /** A base64 run has ended before `rest`: a leading `-` is read, and the call goes on in
      direct mode. */
  ghost predicate GoesOnDirect(v: Variant, total: Outcome<M.State, Unit>, done: Outcome<M.State, Unit>,
                               rest: seq<Byte>, room: int)
    requires rest != []
  {
    var direct := done.(state := done.state.(encoding := Direct));
    if rest[0] == MINUS then GoesOn(v, total, direct.(consumed := done.consumed + 1), rest[1..], room)
    else GoesOn(v, total, direct, rest, room)
  }

  /** A byte outside the alphabet ends the run; other than `-`, it is looked at again. */
  lemma RunEnds(v: Variant, total: Outcome<M.State, Unit>, done: Outcome<M.State, Unit>, rest: seq<Byte>, room: int)
    requires GoesOn(v, total, done, rest, room)
    requires rest != [] && !IsBase64(v, rest[0])
    requires done.state.encoding == Base64 && !done.state.freshBase64
    ensures GoesOnDirect(v, total, done, rest, room)
  {
    hide M.Run, M.ByteRun, M.Valid, Then, IsBase64;
    var s, left := done.state, room - |done.out|;
    var direct := s.(encoding := Direct);
    RunEndsAtByte(v, s, rest[0], left);
    NextByte(v, total, done, rest, room);
    M.RunUnfold(v, s, rest, left);
    M.RunUnfold(v, direct, rest, left);
    ThenIs(done, M.Run(v, direct, rest, left));
    ThenIs(done.(state := direct), M.Run(v, direct, rest, left));
    assert done.out + [] == done.out;
  }

  lemma RunEndsAtByte(v: Variant, s: M.State, b: Byte, room: int)
    requires M.Valid(s) && s.encoding == Base64 && !s.freshBase64 && !IsBase64(v, b)
    ensures var direct := s.(encoding := Direct);
            && M.Valid(direct)
            && M.ByteRun(v, s, b, room)
               == if b == MINUS then Outcome(OK, direct, 1, []) else M.ByteRun(v, direct, b, room)
  {
    hide CharToValue, M.Addend;
  }

  /** A `-` that follows the escape character at once stands for the escape character. */
  lemma EmptyShift(v: Variant, total: Outcome<M.State, Unit>, done: Outcome<M.State, Unit>, rest: seq<Byte>, room: int)
    requires GoesOn(v, total, done, rest, room) && rest != [] && rest[0] == MINUS
    requires done.state.encoding == Base64 && done.state.freshBase64
    ensures |done.out| < |total.out|
    ensures GoesOnDirect(v, total, done.(out := done.out + [EscChar(v)]), rest, room)
  {
    hide M.Run, M.ByteRun, M.Valid, Then, EscChar;
    EmptyShiftByte(v, done.state, room - |done.out|);
    NextByte(v, total, done, rest, room);
  }

  lemma EmptyShiftByte(v: Variant, s: M.State, room: int)
    requires M.Valid(s) && s.encoding == Base64 && s.freshBase64
    ensures M.Valid(s.(encoding := Direct))
    ensures M.ByteRun(v, s, MINUS, room) == Outcome(OK, s.(encoding := Direct), 1, [EscChar(v)])
  {}

  /** The escape character shifts into base64. */
  lemma ShiftIn(v: Variant, total: Outcome<M.State, Unit>, done: Outcome<M.State, Unit>, rest: seq<Byte>, room: int)
    requires GoesOn(v, total, done, rest, room) && done.state.encoding == Direct
    requires rest != [] && rest[0] == EscChar(v)
    ensures var open := M.State(Base64, 0, 0, true);
            M.Valid(open) && GoesOn(v, total, Outcome(OK, open, done.consumed + 1, done.out), rest[1..], room)
  {
    hide M.Run, M.ByteRun, Then, EscChar;
    DirectByte(v, done.state, rest[0], room - |done.out|);
    NextByte(v, total, done, rest, room);
    assert done.out + [] == done.out;
  }

  lemma GoesOnIsValid(v: Variant, total: Outcome<M.State, Unit>, done: Outcome<M.State, Unit>,
                      rest: seq<Byte>, room: int)
    requires rest != [] && GoesOnDirect(v, total, done, rest, room)
    ensures M.Valid(done.state.(encoding := Direct))
  {
    hide M.Run, M.Valid, Then;
  }

  /** What the eight cases of the base64 step compute. */
  lemma Base64Value(s: M.State, value: Sextet)
    requires M.Valid(s)
    ensures s.step < 8 && (M.Completes(s.step) <==> s.step == 2 || s.step == 5 || s.step == 7)
    ensures M.Addend(2, value) == value / 4 && M.Addend(5, value) == value / 16 && M.Addend(7, value) == value
    ensures M.AfterValue(s, value) == s.(
      bits := match s.step
              case 0 => value * 1024 case 1 => s.bits + value * 16 case 2 => value % 4 * 16384
              case 3 => s.bits + value * 256 case 4 => s.bits + value * 4 case 5 => value % 16 * 4096
              case 6 => s.bits + value * 64 case 7 => 0,
      step := (s.step + 1) % 8, freshBase64 := false)
  {}

  lemma ValidStep(s: M.State)
    requires M.Valid(s)
    ensures s.step < 8
  {}

  class BasicUTF7Decoder {
    const variant: Variant
    var mEncoding: Encoding
    var mEncBits: nat
    var mEncStep: nat
    var mFreshBase64: bool

    ghost function State(): M.State
      reads this
    {
      M.State(mEncoding, mEncBits, mEncStep, mFreshBase64)
    }

    ghost predicate Valid()
      reads this
    {
      M.Valid(State())
    }

    constructor (v: Variant)
      ensures variant == v && Valid() && State() == M.RESET
    {
      variant := v;
      mFreshBase64 := false;
      mEncoding, mEncBits, mEncStep := Direct, 0, 0;
    }

    method Reset()
      modifies this
      ensures Valid() && State() == M.Reset(old(State()))
    {
      mEncoding := Direct;
      mEncBits := 0;
      mEncStep := 0;
    }

    /** Copies bytes up to the escape character, which it reports as `IllegalInput`. */
    method DecodeDirect(src: seq<Byte>, dest: array<Unit>, at: nat, room: int)
      returns (res: Status, read: nat, written: nat)
      requires Valid() && mEncoding == Direct && at <= dest.Length && at + room <= dest.Length
      modifies dest
      ensures var n := PlainLength(variant, src);
              var r := M.Run(variant, State(), src[..n], room);
              && res == (if r.status == OK && n < |src| then IllegalInput else r.status)
              && State() == r.state && read == r.consumed && written == |r.out| && at + written <= dest.Length
              && dest[..] == Overwrite<Unit>(old(dest[..]), at, r.out)
    {
      hide M.Run, M.ByteRun, M.Valid, Overwrite, Then, GoesOn, PlainLength, EscChar;
      ghost var run := src[..PlainLength(variant, src)];
      ghost var s := State();
      ghost var total := M.Run(variant, s, run, room);
      ghost var done: Outcome<M.State, Unit> := Outcome(OK, s, 0, []);
      ghost var before := dest[..];
      res, read, written := OK, 0, 0;
      CallStarts(variant, s, run, room);
      OverwriteNothing<Unit>(before, at);
      assert run[0..] == run;
      while read < |src|
        invariant res == OK && read <= |run| && written == |done.out| && at + written <= dest.Length
        invariant done == Outcome(OK, s, read, done.out)
        invariant GoesOn(variant, total, done, run[read..], room)
        invariant dest[..] == Overwrite<Unit>(before, at, done.out)
        decreases |src| - read
      {
        var ch := src[read];
        if ch == EscChar(variant) {
          res := IllegalInput;
          break;
        }
        assert run[read..][0] == ch && run[read..][1..] == run[read + 1..];
        DirectByte(variant, s, ch, room - written);
        NextByte(variant, total, done, run[read..], room);
        if written >= room {
          res := MoreOutput;
          assert done.out + [] == done.out;
          break;
        }
        OverwriteTwice<Unit>(before, at, done.out, [ch]);
        Store<Unit>(dest, at + written, ch);
        written := written + 1;
        read := read + 1;
        done := Outcome(OK, s, read, done.out + [ch]);
      }
      if res != MoreOutput {
        assert run[read..] == [];
        CallEnds(variant, total, done, room);
      }
    }

    /** The `switch` on the step, for a character of the alphabet. */
    method DecodeStep(value: Sextet, dest: array<Unit>, at: nat, room: int) returns (res: Status, written: nat)
      requires Valid() && mEncoding == Base64 && !mFreshBase64 && at <= dest.Length && at + room <= dest.Length
      requires 0 <= mEncBits + M.Addend(mEncStep, value) < 0x1_0000
      modifies this`mEncBits, dest
      ensures var s := old(State());
              if M.Completes(s.step) && room < 1 then
                res == MoreOutput && written == 0 && State() == s && dest[..] == old(dest[..])
              else
                var out := if M.Completes(s.step) then [s.bits + M.Addend(s.step, value)] else [];
                && res == OK && written == |out| && at + written <= dest.Length
                && M.AfterValue(s, value) == M.State(mEncoding, mEncBits, (mEncStep + 1) % 8, false)
                && dest[..] == Overwrite<Unit>(old(dest[..]), at, out)
    {
      hide Overwrite, Truncated, M.Valid, M.AfterValue, M.Addend, M.Completes;
      Base64Value(State(), value);
      OverwriteNothing<Unit>(dest[..], at);
      res, written := OK, 0;
      match mEncStep {
        case 0 => mEncBits := value * 1024;
        case 1 => mEncBits := mEncBits + value * 16;
        case 2 =>
          if room < 1 {
            res := MoreOutput;
          } else {
            mEncBits := mEncBits + value / 4;
            Store<Unit>(dest, at, Truncated(mEncBits));
            written := 1;
            mEncBits := value % 4 * 16384;
          }
        case 3 => mEncBits := mEncBits + value * 256;
        case 4 => mEncBits := mEncBits + value * 4;
        case 5 =>
          if room < 1 {
            res := MoreOutput;
          } else {
            mEncBits := mEncBits + value / 16;
            Store<Unit>(dest, at, Truncated(mEncBits));
            written := 1;
            mEncBits := value % 16 * 4096;
          }
        case 6 => mEncBits := mEncBits + value * 64;
        case _ =>
          if room < 1 {
            res := MoreOutput;
          } else {
            mEncBits := mEncBits + value;
            Store<Unit>(dest, at, Truncated(mEncBits));
            written := 1;
            mEncBits := 0;
          }
      }
    }

    /** Reads characters of the alphabet; the first other byte is reported as `IllegalInput`. */
    method DecodeBase64(src: seq<Byte>, dest: array<Unit>, at: nat, room: int)
      returns (res: Status, read: nat, written: nat)
      requires Valid() && mEncoding == Base64 && !mFreshBase64 && at <= dest.Length && at + room <= dest.Length
      modifies this`mEncBits, this`mEncStep, dest
      ensures Valid() && !mFreshBase64
      ensures var n := Reference.Base64Length(variant, src);
              var r := M.Run(variant, old(State()), src[..n], room);
              && res == (if r.status == OK && n < |src| then IllegalInput else r.status)
              && State() == r.state && read == r.consumed && written == |r.out| && at + written <= dest.Length
              && dest[..] == Overwrite<Unit>(old(dest[..]), at, r.out)
    {
      hide M.Run, M.ByteRun, M.Valid, M.Addend, M.AfterValue, Overwrite, Then, GoesOn;
      hide CharToValue, Reference.Base64Length;
      ghost var run := src[..Reference.Base64Length(variant, src)];
      ghost var total := M.Run(variant, State(), run, room);
      ghost var done: Outcome<M.State, Unit> := Outcome(OK, State(), 0, []);
      ghost var before := dest[..];
      res, read, written := OK, 0, 0;
      CallStarts(variant, State(), run, room);
      OverwriteNothing<Unit>(before, at);
      assert run[0..] == run;
      while read < |src|
        invariant res == OK && Valid() && mEncoding == Base64 && !mFreshBase64
        invariant read <= |run| && written == |done.out| && at + written <= dest.Length
        invariant done == Outcome(OK, State(), read, done.out)
        invariant GoesOn(variant, total, done, run[read..], room)
        invariant dest[..] == Overwrite<Unit>(before, at, done.out)
        decreases |src| - read
      {
        var ch := src[read];
        var value := CharToValue(variant, ch);
        if value > 0xff {
          res := IllegalInput;
          break;
        }
        assert run[read..][0] == ch && run[read..][1..] == run[read + 1..];
        ValidStep(State());
        Base64Byte(variant, State(), ch, room - written);
        NextByte(variant, total, done, run[read..], room);
        ghost var next := M.AfterValue(State(), value);
        ghost var out: seq<Unit> := if M.Completes(mEncStep) then [mEncBits + M.Addend(mEncStep, value)] else [];
        var bcw: nat;
        res, bcw := DecodeStep(value, dest, at + written, room - written);
        if res != OK {
          assert done.out + [] == done.out;
          break;
        }
        OverwriteTwice<Unit>(before, at, done.out, out);
        written := written + bcw;
        read := read + 1;
        mEncStep := (mEncStep + 1) % 8;
        done := Outcome(OK, next, read, done.out + out);
      }
      if res != MoreOutput {
        assert run[read..] == [];
        CallEnds(variant, total, done, room);
      }
    }

    /** The first half of an iteration: decode in the current mode. `out` is what it wrote,
        the unit of an empty shift included; `IllegalInput` leaves the mode change to the
        second half. */
    method DecodeInMode(src: seq<Byte>, dest: array<Unit>, at: nat, room: int)
      returns (res: Status, read: nat, written: nat, ghost out: seq<Unit>)
      requires Valid() && src != [] && at <= dest.Length && at + room <= dest.Length
      requires at + |M.Run(variant, State(), src, room).out| <= dest.Length
      modifies this`mEncBits, this`mEncStep, this`mFreshBase64, dest
      ensures Valid() && written == |out| && at + written <= dest.Length && read <= |src|
      ensures dest[..] == Overwrite<Unit>(old(dest[..]), at, out)
      ensures var total := M.Run(variant, old(State()), src, room);
              var done := Outcome(OK, State(), read, out);
              match res
              case MoreOutput => total == done.(status := MoreOutput)
              case OK => read == |src| && GoesOn(variant, total, done, src[read..], room)
              case IllegalInput =>
                && read < |src|
                && if mEncoding == Direct then
                     src[read] == EscChar(variant) && GoesOn(variant, total, done, src[read..], room)
                   else GoesOnDirect(variant, total, done, src[read..], room)
    {
      hide M.Run, M.Valid, Overwrite, Then, GoesOn, GoesOnDirect;
      hide EscChar, CharToValue, PlainLength, Reference.Base64Length;
      ghost var total := M.Run(variant, State(), src, room);
      ghost var n: nat;
      if mEncoding == Direct {
        CallStarts(variant, State(), src, room);
        n := PlainLength(variant, src);
        PartDone(variant, total, Outcome(OK, State(), 0, []), src, n, room);
        out := [] + M.Run(variant, State(), src[..n], room).out;
        assert out == M.Run(variant, State(), src[..n], room).out;
        res, read, written := DecodeDirect(src, dest, at, room);
      } else if mFreshBase64 && src[0] == MINUS {
        CallStarts(variant, State(), src, room);
        EmptyShift(variant, total, Outcome(OK, State(), 0, []), src, room);
        assert src[0..] == src;
        out := [] + [EscChar(variant)];
        assert out == [EscChar(variant)];
        Store<Unit>(dest, at, EscChar(variant));
        res, read, written := IllegalInput, 0, 1;
      } else {
        FreshnessForgotten(variant, State(), src, room);
        mFreshBase64 := false;
        CallStarts(variant, State(), src, room);
        n := Reference.Base64Length(variant, src);
        PartDone(variant, total, Outcome(OK, State(), 0, []), src, n, room);
        out := [] + M.Run(variant, State(), src[..n], room).out;
        assert out == M.Run(variant, State(), src[..n], room).out;
        res, read, written := DecodeBase64(src, dest, at, room);
        if res == IllegalInput {
          RunEnds(variant, total, Outcome(OK, State(), read, out), src[read..], room);
        }
      }
    }

    /** The body of the loop. `out` is what it wrote; the inner `IllegalInput` goes no further. */
    method DecodeNext(src: seq<Byte>, dest: array<Unit>, at: nat, room: int)
      returns (res: Status, read: nat, written: nat, ghost out: seq<Unit>)
      requires Valid() && src != [] && at <= dest.Length && at + room <= dest.Length
      requires at + |M.Run(variant, State(), src, room).out| <= dest.Length
      modifies this, dest
      ensures Valid() && written == |out| && at + written <= dest.Length && read <= |src|
      ensures var total := M.Run(variant, old(State()), src, room);
              var done := Outcome(res, State(), read, out);
              if res == OK then GoesOn(variant, total, done, src[read..], room) else total == done
      ensures res == OK ==> read > 0 || (old(mEncoding) == Base64 && mEncoding == Direct)
      ensures dest[..] == Overwrite<Unit>(old(dest[..]), at, out)
    {
      hide M.Run, M.ByteRun, M.Valid, Overwrite, Then, GoesOn, EscChar;
      ghost var total := M.Run(variant, State(), src, room);
      res, read, written, out := DecodeInMode(src, dest, at, room);
      if res == IllegalInput {
        ghost var done, rest := Outcome(OK, State(), read, out), src[read..];
        assert rest[0] == src[read] && rest[1..] == src[read + 1..];
        if mEncoding == Direct {
          if src[read] != EscChar(variant) {
            return;
          }
          ShiftIn(variant, total, done, rest, room);
          mEncoding := Base64;
          mFreshBase64 := true;
          mEncBits := 0;
          mEncStep := 0;
          read := read + 1;
          res := OK;
        } else {
          GoesOnIsValid(variant, total, done, rest, room);
          mEncoding := Direct;
          res := OK;
          if src[read] == MINUS {
            read := read + 1;
          }
        }
      }
    }

    /** `room` is the length that the caller passes; `dest` may go on behind it. A call keeps
        to its room for every buffer with one unit a byte (`M.FittingUnitsComplete`);
        `M.OverrunsRoom` says exactly when it does not. The inner `IllegalInput` never reaches
        the caller. */
    method ConvertNoBuff(src: seq<Byte>, dest: array<Unit>, at: nat, room: nat)
      returns (res: Status, read: nat, written: nat)
      requires Valid() && at + room <= dest.Length
      requires at + |M.Run(variant, State(), src, room).out| <= dest.Length
      modifies this, dest
      ensures Valid()
      ensures var r := M.Run(variant, old(State()), src, room);
              && res == r.status && State() == r.state && read == r.consumed && written == |r.out|
              && dest[..] == Overwrite<Unit>(old(dest[..]), at, r.out)
    {
      hide M.Run, M.Valid, Overwrite, Then, GoesOn;
      ghost var total := M.Run(variant, State(), src, room);
      ghost var done: Outcome<M.State, Unit> := Outcome(OK, State(), 0, []);
      ghost var before := dest[..];
      res, read, written := OK, 0, 0;
      CallStarts(variant, State(), src, room);
      OverwriteNothing<Unit>(before, at);
      assert src[0..] == src;
      while read < |src|
        invariant Valid() && res == OK
        invariant read <= |src| && written == |done.out| && at + written <= dest.Length
        invariant done == Outcome(OK, State(), read, done.out)
        invariant GoesOn(variant, total, done, src[read..], room)
        invariant dest[..] == Overwrite<Unit>(before, at, done.out)
        decreases 2 * (|src| - read) + (if mEncoding == Base64 then 1 else 0)
      {
        ghost var rest := src[read..];
        ghost var call := M.Run(variant, State(), rest, room - written);
        RestOfCall(variant, total, done, rest, room);
        var bcr, bcw: nat;
        ghost var out: seq<Unit>;
        res, bcr, bcw, out := DecodeNext(src[read..], dest, at + written, room - written);
        OverwriteTwice<Unit>(before, at, done.out, out);
        read := read + bcr;
        written := written + bcw;
        GoesOnWith(variant, total, done, call, Outcome(res, State(), bcr, out), rest, room);
        done := Outcome(res, State(), read, done.out + out);
        if res != OK {
          break;
        }
        assert rest[bcr..] == src[read..];
      }
      if res == OK {
        assert src[read..] == [];
        CallEnds(variant, total, done, room);
      }
    }
  }
}
