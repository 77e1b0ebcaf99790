/** `nsBasicUTF7Encoder` with its fields, its loops and its caller's buffer, proved against
    the state machine. A buffer position and the number of free bytes from there on stand
    for the pointer and the length that the C++ methods are given. */
module Encoder {
  import opened Alphabet
  import opened Outcomes
  import M = EncoderMachine
  import Reference

  /** A unit in the current mode. */
  lemma UnitInMode(v: Variant, s: M.State, u: Unit, room: int)
    requires M.Valid(s) && s.encoding == M.Wanted(v, u)
    ensures M.UnitRun(v, s, u, room)
         == if room < M.RoomTested(s) then Outcome(MoreOutput, s, 0, [])
            else Outcome(OK, M.AfterUnit(s, u), 1, M.UnitText(v, s, u))
  {
    assert M.ShiftRun(v, s, M.Wanted(v, u), room) == Outcome(OK, s, 0, []);
    hide M.UnitText, M.Wanted, M.Valid, M.AfterUnit, M.RoomTested, M.ShiftRun, Then;
    if room >= M.RoomTested(s) {
      NothingThen(s, Outcome(OK, M.AfterUnit(s, u), 1, M.UnitText(v, s, u)));
      ThenIs(Outcome(OK, s, 0, []), Outcome(OK, M.AfterUnit(s, u), 1, M.UnitText(v, s, u)));
    }
  }

  /** A shift first: when it stops, so does the call. */
  lemma ShiftStops(v: Variant, s: M.State, rest: seq<Unit>, room: int)
    requires M.Valid(s) && rest != []
    requires M.ShiftRun(v, s, M.Wanted(v, rest[0]), room).status != OK
    ensures M.Run(v, s, rest, room) == M.ShiftRun(v, s, M.Wanted(v, rest[0]), room)
  {
    hide M.Run, M.UnitRun, M.ShiftRun, M.Wanted, M.Valid;
    ShiftThenUnit(v, s, rest[0], room);
    M.RunUnfold(v, s, rest, room);
  }

  /** A shift first, then the units in the mode shifted to. */
  lemma ShiftFits(v: Variant, s: M.State, rest: seq<Unit>, room: int)
    requires M.Valid(s) && rest != []
    requires M.ShiftRun(v, s, M.Wanted(v, rest[0]), room).status == OK
    ensures var shift := M.ShiftRun(v, s, M.Wanted(v, rest[0]), room);
            && shift.state.encoding == M.Wanted(v, rest[0])
            && M.Run(v, s, rest, room) == Then(shift, M.Run(v, shift.state, rest, room - |shift.out|))
  {
    hide M.UnitRun, M.Run, M.ShiftRun, M.Wanted, Then, M.Valid;
    ShiftThenUnit(v, s, rest[0], room);
    M.RunUnfold(v, s, rest, room);
    var shift := M.ShiftRun(v, s, M.Wanted(v, rest[0]), room);
    var room' := room - |shift.out|;
    M.RunUnfold(v, shift.state, rest, room');
    var unit := M.UnitRun(v, shift.state, rest[0], room');
    ThenAssociative(shift, unit, M.Run(v, unit.state, rest[1..], room' - |unit.out|));
  }

  lemma ShiftThenUnit(v: Variant, s: M.State, u: Unit, room: int)
    requires M.Valid(s)
    ensures var shift := M.ShiftRun(v, s, M.Wanted(v, u), room);
            if shift.status != OK then M.UnitRun(v, s, u, room) == shift
            else
              && shift.state.encoding == M.Wanted(v, u)
              && M.UnitRun(v, s, u, room) == Then(shift, M.UnitRun(v, shift.state, u, room - |shift.out|))
  {
    hide M.UnitText, M.Wanted, M.Valid, M.AfterUnit, M.RoomTested, M.ShiftRun, M.Shifted, M.ShiftText, Then;
    var want := M.Wanted(v, u);
    var shift := M.ShiftRun(v, s, want, room);
    M.ShiftRunResumes(v, s, want, room);
    if shift.status == OK {
      var room' := room - |shift.out|;
      UnitInMode(v, shift.state, u, room');
      if room' < M.RoomTested(shift.state) {
        ThenStop(shift, Outcome(MoreOutput, shift.state, 0, []));
      }
    }
  }

  // ---- A call, step by step ----

  /** The call that `total` is the outcome of has done `done` and goes on with `rest`. */
  ghost predicate GoesOn(v: Variant, total: Outcome<M.State, Byte>, done: Outcome<M.State, Byte>,
                         rest: seq<Unit>, room: int)
  {
    && M.Valid(done.state) && done.status == OK
    && total == Then(done, M.Run(v, done.state, rest, room - |done.out|))
  }

  lemma CallStarts(v: Variant, s: M.State, src: seq<Unit>, room: int)
    requires M.Valid(s)
    ensures GoesOn(v, M.Run(v, s, src, room), Outcome(OK, s, 0, []), src, room)
  {
    hide M.Run, M.Valid, Then;
    NothingThen(s, M.Run(v, s, src, room));
  }

  lemma CallEnds(v: Variant, total: Outcome<M.State, Byte>, done: Outcome<M.State, Byte>, room: int)
    requires GoesOn(v, total, done, [], room)
    ensures total == done
  {
    hide M.Run, M.Valid, Then;
    M.RunNothing(v, done.state, room - |done.out|);
    ThenStop(done, Outcome(OK, done.state, 0, []));
  }

  /** The next unit in the current mode: without the room that the code tests for, the call
      stops; with it, the unit is written and read. */
  lemma NextUnit(v: Variant, total: Outcome<M.State, Byte>, done: Outcome<M.State, Byte>, rest: seq<Unit>, room: int)
    requires GoesOn(v, total, done, rest, room)
    requires rest != [] && done.state.encoding == M.Wanted(v, rest[0])
    ensures var s, u := done.state, rest[0];
            if room - |done.out| < M.RoomTested(s) then total == done.(status := MoreOutput)
            else
              var next := Outcome(OK, M.AfterUnit(s, u), done.consumed + 1, done.out + M.UnitText(v, s, u));
              GoesOn(v, total, next, rest[1..], room) && |next.out| <= |total.out|
  {
    hide M.Run, M.UnitRun, M.UnitText, M.AfterUnit, M.Wanted, M.Valid, M.RoomTested, Then;
    var s, u, left := done.state, rest[0], room - |done.out|;
    M.RunUnfold(v, s, rest, left);
    UnitInMode(v, s, u, left);
    if left < M.RoomTested(s) {
      ThenStop(done, Outcome(MoreOutput, s, 0, []));
    } else {
      var unit := Outcome(OK, M.AfterUnit(s, u), 1, M.UnitText(v, s, u));
      var tail := M.Run(v, unit.state, rest[1..], left - |unit.out|);
      ThenAssociative(done, unit, tail);
      ThenIs(done, unit);
      ThenIs(Then(done, unit), tail);
    }
  }

  /** The shift that the next unit wants. */
  lemma ShiftDone(v: Variant, total: Outcome<M.State, Byte>, done: Outcome<M.State, Byte>, rest: seq<Unit>, room: int)
    requires GoesOn(v, total, done, rest, room) && rest != []
    ensures var shift := M.ShiftRun(v, done.state, M.Wanted(v, rest[0]), room - |done.out|);
            var next := Outcome(shift.status, shift.state, done.consumed, done.out + shift.out);
            && |next.out| <= |total.out|
            && if shift.status == OK then
                 GoesOn(v, total, next, rest, room) && next.state.encoding == M.Wanted(v, rest[0])
               else total == next
  {
    hide M.Run, M.ShiftRun, M.Wanted, Then, M.Valid;
    var left := room - |done.out|;
    var shift := M.ShiftRun(v, done.state, M.Wanted(v, rest[0]), left);
    ThenIs(done, shift);
    if shift.status == OK {
      var tail := M.Run(v, shift.state, rest, left - |shift.out|);
      ShiftFits(v, done.state, rest, left);
      ThenAssociative(done, shift, tail);
      ThenIs(Then(done, shift), tail);
    } else {
      ShiftStops(v, done.state, rest, left);
    }
  }

  /** The next `n` units. */
  lemma PartDone(v: Variant, total: Outcome<M.State, Byte>, done: Outcome<M.State, Byte>,
                 rest: seq<Unit>, n: nat, room: int)
    requires GoesOn(v, total, done, rest, room) && n <= |rest|
    ensures var run := M.Run(v, done.state, rest[..n], room - |done.out|);
            var next := Outcome(run.status, run.state, done.consumed + run.consumed, done.out + run.out);
            && |next.out| <= |total.out|
            && if run.status == OK then GoesOn(v, total, next, rest[n..], room) else total == next
  {
    hide M.Run, Then, M.Valid;
    var a, b, left := rest[..n], rest[n..], room - |done.out|;
    assert rest == a + b;
    M.RunSplit(v, done.state, a, b, left);
    var run := M.Run(v, done.state, a, left);
    ThenIs(done, run);
    if run.status == OK {
      var tail := M.Run(v, run.state, b, left - |run.out|);
      ThenAssociative(done, run, tail);
      ThenIs(Then(done, run), tail);
    }
  }

  lemma RestOfCall(v: Variant, total: Outcome<M.State, Byte>, done: Outcome<M.State, Byte>, rest: seq<Unit>, room: int)
    requires GoesOn(v, total, done, rest, room)
    ensures M.Valid(done.state)
    ensures var call := M.Run(v, done.state, rest, room - |done.out|);
            total == Then(done, call) && |total.out| == |done.out| + |call.out|
  {
    hide M.Run, M.Valid;
  }

  /** What the rest of the call, `call`, does next is what the whole call does next. */
  lemma GoesOnWith(v: Variant, total: Outcome<M.State, Byte>, done: Outcome<M.State, Byte>,
                   call: Outcome<M.State, Byte>, next: Outcome<M.State, Byte>, rest: seq<Unit>, room: int)
    requires total == Then(done, call) && next.consumed <= |rest|
    requires var left := room - |done.out|;
             if next.status == OK then GoesOn(v, call, next, rest[next.consumed..], left) else call == next
    ensures var both := Outcome(next.status, next.state, done.consumed + next.consumed, done.out + next.out);
            if next.status == OK then GoesOn(v, total, both, rest[next.consumed..], room) else total == both
  {
    hide M.Run, M.Valid, Then;
    ThenIs(done, next);
    if next.status == OK {
      var tail := M.Run(v, next.state, rest[next.consumed..], room - |done.out| - |next.out|);
      ThenAssociative(done, next, tail);
    }
  }

  lemma DirectUnit(v: Variant, s: M.State, u: Unit)
    requires M.Valid(s) && s.encoding == M.Wanted(v, u) == Direct
    ensures M.UnitText(v, s, u) == (if u == EscChar(v) then [u, MINUS] else [u])
    ensures M.AfterUnit(s, u) == s && M.RoomTested(s) == 1 && u < 128
  {}

  class BasicUTF7Encoder {
    const variant: Variant
    var mEncoding: Encoding
    var mEncBits: nat
    var mEncStep: nat

    ghost function State(): M.State
      reads this
    {
      M.State(mEncoding, mEncBits, mEncStep)
    }

    ghost predicate Valid()
      reads this
    {
      M.Valid(State())
    }

    constructor (v: Variant)
      ensures variant == v && Valid() && State() == M.RESET
    {
      variant := v;
      mEncoding, mEncBits, mEncStep := Direct, 0, 0;
    }

    method Reset()
      modifies this
      ensures Valid() && State() == M.RESET
    {
      mEncoding := Direct;
      mEncBits := 0;
      mEncStep := 0;
    }

    /** Past its room, where there is no room to test for, a caller is in direct mode. */
    method ShiftEncoding(want: Encoding, dest: array<Char>, at: nat, room: int)
      returns (res: Status, written: nat)
      requires Valid() && at <= dest.Length && at + room <= dest.Length
      requires room >= 0 || mEncoding == Direct
      modifies this, dest
      ensures Valid()
      ensures var r := M.ShiftRun(variant, old(State()), want, room);
              && res == r.status && State() == r.state && written == |r.out| && at + written <= dest.Length
              && dest[..] == Overwrite<Char>(old(dest[..]), at, r.out)
    {
      hide Overwrite, ValueToChar, EscChar;
      ghost var before, flush := dest[..], M.Flush(variant, State());
      OverwriteNothing<Char>(before, at);
      if want == mEncoding {
        return OK, 0;
      }
      res := OK;
      var p := at;
      if mEncStep != 0 {
        if p >= at + room {
          return MoreOutput, room;
        }
        Store<Char>(dest, p, ValueToChar(variant, mEncBits));
        p := p + 1;
        mEncStep := 0;
        mEncBits := 0;
      }
      assert dest[..] == Overwrite<Char>(before, at, flush) && p == at + |flush|;
      if p >= at + room {
        res := MoreOutput;
      } else {
        match want {
          case Direct =>
            OverwriteTwice<Char>(before, at, flush, [MINUS]);
            Store<Char>(dest, p, MINUS);
            p := p + 1;
            mEncStep := 0;
            mEncBits := 0;
          case Base64 =>
            OverwriteTwice<Char>(before, at, flush, [EscChar(variant)]);
            Store<Char>(dest, p, EscChar(variant));
            p := p + 1;
        }
        mEncoding := want;
      }
      written := p - at;
    }

    /** Every byte it writes, one past its room included, falls into `dest`. */
    method EncodeDirect(src: seq<Unit>, dest: array<Char>, at: nat, room: int)
      returns (res: Status, read: nat, written: nat)
      requires Valid() && mEncoding == Direct && at + room <= dest.Length
      requires at + |M.Run(variant, State(), src[..Reference.RunLength(variant, true, src)], room).out| <= dest.Length
      modifies dest
      ensures var r := M.Run(variant, State(), src[..Reference.RunLength(variant, true, src)], room);
              && res == r.status && State() == r.state && read == r.consumed && written == |r.out|
              && dest[..] == Overwrite<Char>(old(dest[..]), at, r.out)
    {
      hide M.Run, M.UnitText, M.AfterUnit, M.Valid, M.RoomTested, Overwrite, Then, GoesOn;
      hide DirectEncodable, Reference.RunLength;
      ghost var run := src[..Reference.RunLength(variant, true, src)];
      ghost var s := State();
      ghost var total := M.Run(variant, s, run, room);
      ghost var done: Outcome<M.State, Byte> := Outcome(OK, s, 0, []);
      ghost var before := dest[..];
      res, read, written := OK, 0, 0;
      CallStarts(variant, s, run, room);
      OverwriteNothing<Char>(before, at);
      assert run[0..] == run;
      while read < |src|
        invariant res == OK && read <= |run| && written == |done.out| && at + written <= dest.Length
        invariant done == Outcome(OK, s, read, done.out)
        invariant GoesOn(variant, total, done, run[read..], room)
        invariant dest[..] == Overwrite<Char>(before, at, done.out)
        decreases |src| - read
      {
        var ch := src[read];
        if !DirectEncodable(variant, ch) {
          break;
        }
        assert run[read..][0] == ch && run[read..][1..] == run[read + 1..];
        DirectUnit(variant, s, ch);
        NextUnit(variant, total, done, run[read..], room);
        ghost var text := M.UnitText(variant, s, ch);
        if ch == EscChar(variant) {
          if room - written < 1 {
            res := MoreOutput;
            break;
          }
          OverwriteTwice<Char>(before, at, done.out, text);
          Store2(dest, at + written, ch, MINUS);
          written := written + 2;
        } else {
          if written >= room {
            res := MoreOutput;
            break;
          }
          OverwriteTwice<Char>(before, at, done.out, text);
          Store<Char>(dest, at + written, ch);
          written := written + 1;
        }
        read := read + 1;
        done := Outcome(OK, s, read, done.out + text);
      }
      if res == OK {
        assert run[read..] == [];
        CallEnds(variant, total, done, room);
      }
    }

    /** The `switch` on the step: all of the unit's characters or none. */
    method EncodeStep(ch: Unit, dest: array<Char>, at: nat, room: nat) returns (res: Status, written: nat)
      requires Valid() && mEncoding == Base64 && !DirectEncodable(variant, ch) && at + room <= dest.Length
      modifies this`mEncBits, dest
      ensures var s := old(State());
              if room < M.RoomTested(s) then
                res == MoreOutput && written == 0 && State() == s && dest[..] == old(dest[..])
              else
                && res == OK && written == |M.UnitText(variant, s, ch)| <= room
                && M.AfterUnit(s, ch) == M.State(mEncoding, mEncBits, (mEncStep + 1) % 3)
                && dest[..] == Overwrite<Char>(old(dest[..]), at, M.UnitText(variant, s, ch))
    {
      hide M.UnitText, M.AfterUnit, M.RoomTested, Overwrite, DirectEncodable, M.Valid, ValueToChar;
      Base64Unit(variant, State(), ch);
      res, written := OK, 0;
      match mEncStep {
        case 0 =>
          if room < 2 {
            res := MoreOutput;
          } else {
            Store2(dest, at, ValueToChar(variant, ch / 1024), ValueToChar(variant, ch / 16 % 64));
            written := 2;
            mEncBits := ch % 16 * 4;
          }
        case 1 =>
          if room < 3 {
            res := MoreOutput;
          } else {
            var value := mEncBits + ch / 16384;
            Store3(dest, at, ValueToChar(variant, value), ValueToChar(variant, ch / 256 % 64),
                   ValueToChar(variant, ch / 4 % 64));
            written := 3;
            mEncBits := ch % 4 * 16;
          }
        case _ =>
          if room < 3 {
            res := MoreOutput;
          } else {
            var value := mEncBits + ch / 4096;
            Store3(dest, at, ValueToChar(variant, value), ValueToChar(variant, ch / 64 % 64),
                   ValueToChar(variant, ch % 64));
            written := 3;
            mEncBits := 0;
          }
      }
    }

    /** Reads the leading units that are not direct, as far as whole units fit. */
    method EncodeBase64(src: seq<Unit>, dest: array<Char>, at: nat, room: nat)
      returns (res: Status, read: nat, written: nat)
      requires Valid() && mEncoding == Base64 && at + room <= dest.Length
      modifies this, dest
      ensures Valid()
      ensures var r := M.Run(variant, old(State()), src[..Reference.RunLength(variant, false, src)], room);
              && res == r.status && State() == r.state && read == r.consumed && written == |r.out| <= room
              && dest[..] == Overwrite<Char>(old(dest[..]), at, r.out)
    {
      hide M.Run, M.UnitText, M.AfterUnit, M.Valid, M.RoomTested, Overwrite, Then, GoesOn;
      hide DirectEncodable, Reference.RunLength;
      ghost var run := src[..Reference.RunLength(variant, false, src)];
      ghost var total := M.Run(variant, State(), run, room);
      ghost var done: Outcome<M.State, Byte> := Outcome(OK, State(), 0, []);
      ghost var before := dest[..];
      res, read, written := OK, 0, 0;
      CallStarts(variant, State(), run, room);
      OverwriteNothing<Char>(before, at);
      assert run[0..] == run;
      while read < |src|
        invariant Valid() && mEncoding == Base64 && res == OK
        invariant read <= |run| && written == |done.out| <= room
        invariant done == Outcome(OK, State(), read, done.out)
        invariant GoesOn(variant, total, done, run[read..], room)
        invariant dest[..] == Overwrite<Char>(before, at, done.out)
        decreases |src| - read
      {
        var ch := src[read];
        if DirectEncodable(variant, ch) {
          break;
        }
        assert run[read..][0] == ch && run[read..][1..] == run[read + 1..];
        NextUnit(variant, total, done, run[read..], room);
        ghost var next, text := M.AfterUnit(State(), ch), M.UnitText(variant, State(), ch);
        var bcw: nat;
        res, bcw := EncodeStep(ch, dest, at + written, room - written);
        if res != OK {
          break;
        }
        OverwriteTwice<Char>(before, at, done.out, text);
        written := written + bcw;
        read := read + 1;
        mEncStep := (mEncStep + 1) % 3;
        done := Outcome(OK, next, read, done.out + text);
      }
      if res == OK {
        assert run[read..] == [];
        CallEnds(variant, total, done, room);
      }
    }

    /** The choice between the two loops. */
    method EncodeRun(enc: Encoding, src: seq<Unit>, dest: array<Char>, at: nat, room: int)
      returns (res: Status, read: nat, written: nat)
      requires Valid() && mEncoding == enc && at + room <= dest.Length
      requires room >= 0 || enc == Direct
      requires at + |M.Run(variant, State(), src[..Reference.RunLength(variant, enc == Direct, src)], room).out|
               <= dest.Length
      modifies this, dest
      ensures Valid()
      ensures var r := M.Run(variant, old(State()), src[..Reference.RunLength(variant, enc == Direct, src)], room);
              && res == r.status && State() == r.state && read == r.consumed && written == |r.out|
              && dest[..] == Overwrite<Char>(old(dest[..]), at, r.out)
    {
      hide M.Run, M.Valid, Overwrite, Reference.RunLength;
      if enc == Direct {
        res, read, written := EncodeDirect(src, dest, at, room);
      } else {
        res, read, written := EncodeBase64(src, dest, at, room);
      }
    }

    /** The body of the loop: shift if need be, then encode as much as possible in that mode.
        `out` is what it wrote; past the room the encoder is left in direct mode. */
    method EncodeNext(src: seq<Unit>, dest: array<Char>, at: nat, room: int)
      returns (res: Status, read: nat, written: nat, ghost out: seq<Byte>)
      requires Valid() && src != [] && at <= dest.Length && at + room <= dest.Length
      requires room >= 0 || mEncoding == Direct
      requires at + |M.Run(variant, State(), src, room).out| <= dest.Length
      modifies this, dest
      ensures Valid() && written == |out| && at + written <= dest.Length && read <= |src|
      ensures written <= room || mEncoding == Direct
      ensures var total := M.Run(variant, old(State()), src, room);
              var done := Outcome(res, State(), read, out);
              if res == OK then read > 0 && GoesOn(variant, total, done, src[read..], room) else total == done
      ensures dest[..] == Overwrite<Char>(old(dest[..]), at, out)
    {
      hide M.Run, M.ShiftRun, M.Valid, Overwrite, DirectEncodable, Then, GoesOn, Reference.RunLength;
      ghost var total, before := M.Run(variant, State(), src, room), dest[..];
      CallStarts(variant, State(), src, room);
      var enc := if DirectEncodable(variant, src[0]) then Direct else Base64;
      ghost var shift := M.ShiftRun(variant, State(), enc, room);
      ShiftDone(variant, total, Outcome(OK, State(), 0, []), src, room);
      M.ShiftOverrunIsDirect(variant, State(), enc, room);
      out := [] + shift.out;
      assert out == shift.out;

      res, written := ShiftEncoding(enc, dest, at, room);
      read := 0;
      if res != OK {
        return;
      }

      ghost var n := Reference.RunLength(variant, enc == Direct, src);
      ghost var run := M.Run(variant, State(), src[..n], room - written);
      PartDone(variant, total, Outcome(OK, State(), 0, out), src, n, room);
      M.OverrunIsDirect(variant, State(), src[..n], room - written);
      OverwriteTwice<Char>(before, at, shift.out, run.out);
      var bcw: nat;
      res, read, bcw := EncodeRun(enc, src, dest, at + written, room - written);
      out := out + run.out;
      written := written + bcw;
    }

    /** `room` is the length that the caller passes; `dest` may go on behind it. A call keeps
        to its room for every buffer in UTF-7 (`M.Utf7KeepsToRoom`) and for every buffer that
        holds the whole text (`M.FittingTextKeepsToRoom`); `M.OverrunsRoom` says exactly when
        it writes one byte behind it, and this contract says what is done then as well. */
    method ConvertNoBuffNoErr(src: seq<Unit>, dest: array<Char>, at: nat, room: nat)
      returns (res: Status, read: nat, written: nat)
      requires Valid() && at + room <= dest.Length
      requires at + |M.Run(variant, State(), src, room).out| <= dest.Length
      modifies this, dest
      ensures Valid()
      ensures var r := M.Run(variant, old(State()), src, room);
              && res == r.status && State() == r.state && read == r.consumed && written == |r.out|
              && dest[..] == Overwrite<Char>(old(dest[..]), at, r.out)
    {
      hide M.Run, M.Valid, Overwrite, Then, GoesOn;
      ghost var total := M.Run(variant, State(), src, room);
      ghost var done: Outcome<M.State, Byte> := Outcome(OK, State(), 0, []);
      ghost var before := dest[..];
      res, read, written := OK, 0, 0;
      CallStarts(variant, State(), src, room);
      OverwriteNothing<Char>(before, at);
      assert src[0..] == src;
      while read < |src|
        invariant Valid() && res == OK
        invariant read <= |src| && written == |done.out| && at + written <= dest.Length
        invariant written <= room || mEncoding == Direct
        invariant done == Outcome(OK, State(), read, done.out)
        invariant GoesOn(variant, total, done, src[read..], room)
        invariant dest[..] == Overwrite<Char>(before, at, done.out)
        decreases |src| - read
      {
        ghost var rest := src[read..];
        ghost var call := M.Run(variant, State(), rest, room - written);
        RestOfCall(variant, total, done, rest, room);
        var bcr, bcw: nat;
        ghost var out: seq<Byte>;
        res, bcr, bcw, out := EncodeNext(src[read..], dest, at + written, room - written);
        OverwriteTwice<Char>(before, at, done.out, out);
        read := read + bcr;
        written := written + bcw;
        GoesOnWith(variant, total, done, call, Outcome(res, State(), bcr, out), rest, room);
        done := Outcome(res, State(), read, done.out + out);
        if res != OK {
          break;
        }
        assert rest[bcr..] == src[read..];
      }
      if res == OK {
        assert src[read..] == [];
        CallEnds(variant, total, done, room);
      }
    }

    method FinishNoBuff(dest: array<Char>, at: nat, room: nat) returns (res: Status, written: nat)
      requires Valid() && at + room <= dest.Length
      modifies this, dest
      ensures Valid()
      ensures var r := M.ShiftRun(variant, old(State()), Direct, room);
              && res == r.status && State() == r.state && written == |r.out| <= room
              && dest[..] == Overwrite<Char>(old(dest[..]), at, r.out)
    {
      hide M.ShiftRun, M.Valid, Overwrite;
      M.ShiftOverrunIsDirect(variant, State(), Direct, room);
      res, written := ShiftEncoding(Direct, dest, at, room);
    }
  }

  /** What the three cases of the base64 step compute. */
  lemma Base64Unit(v: Variant, s: M.State, u: Unit)
    requires M.Valid(s) && s.encoding == Base64 && !DirectEncodable(v, u)
    ensures s.step < 3 && M.RoomTested(s) == (if s.step == 0 then 2 else 3)
    ensures s.step == 0 ==>
      && M.UnitText(v, s, u) == [ValueToChar(v, u / 1024), ValueToChar(v, u / 16 % 64)]
      && M.AfterUnit(s, u) == M.State(Base64, u % 16 * 4, 1)
    ensures s.step == 1 ==>
      && M.UnitText(v, s, u)
         == [ValueToChar(v, s.bits + u / 16384), ValueToChar(v, u / 256 % 64), ValueToChar(v, u / 4 % 64)]
      && M.AfterUnit(s, u) == M.State(Base64, u % 4 * 16, 2)
    ensures s.step == 2 ==>
      && M.UnitText(v, s, u)
         == [ValueToChar(v, s.bits + u / 4096), ValueToChar(v, u / 64 % 64), ValueToChar(v, u % 64)]
      && M.AfterUnit(s, u) == M.State(Base64, 0, 0)
  {}

  method Store2(dest: array<Char>, at: nat, a: Char, b: Char)
    requires at + 2 <= dest.Length
    modifies dest
    ensures dest[..] == Overwrite<Char>(old(dest[..]), at, [a, b])
  {
    dest[at], dest[at + 1] := a, b;
  }

  method Store3(dest: array<Char>, at: nat, a: Char, b: Char, c: Char)
    requires at + 3 <= dest.Length
    modifies dest
    ensures dest[..] == Overwrite<Char>(old(dest[..]), at, [a, b, c])
  {
    dest[at], dest[at + 1], dest[at + 2] := a, b, c;
  }
}
