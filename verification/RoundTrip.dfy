/** The encoder and the decoder run side by side. */
module RoundTrip {
  import opened Alphabet
  import opened Division
  import opened Outcomes
  import E = EncoderMachine
  import D = DecoderMachine

  /** Encoder steps 0, 1, 2 against decoder steps 0, 2, 5. */
  predicate Aligned(e: E.State, d: D.State) {
    && E.Valid(e) && D.Valid(d)
    && e.encoding == d.encoding
    && (e.encoding == Base64 ==> d.step == (if e.step == 0 then 0 else if e.step == 1 then 2 else 5))
  }

  /** The states an encoder and a decoder reach together when everything written for whole
      units has been fed to the decoder. */
  predicate Coupled(e: E.State, d: D.State) {
    Aligned(e, d) && (e.encoding == Base64 ==> !d.freshBase64)
  }

  /** The unit that is split between the decoder's accumulator and the encoder's pending
      bits; every earlier unit has already been written by the decoder. */
  function InFlight(e: E.State, d: D.State): seq<Unit>
    requires Aligned(e, d)
  {
    if e.encoding == Direct || e.step == 0 then []
    else if e.step == 1 then [d.bits + e.bits / 4]
    else [d.bits + e.bits / 16]
  }

  lemma DecodeOne(v: Variant, s: D.State, a: Byte)
    requires D.Valid(s)
    ensures D.DecodeAll(v, s, [a]) == D.DecodeByte(v, s, a)
  {
    hide D.DecodeByte;
    var t := D.DecodeByte(v, s, a);
    assert [a][1..] == [] && D.DecodeAll(v, t.state, []) == Text([], t.state);
  }

  lemma DecodeTwo(v: Variant, s: D.State, a: Byte, b: Byte)
    requires D.Valid(s)
    ensures var t := D.DecodeByte(v, s, a);
            var r := D.DecodeByte(v, t.state, b);
            D.DecodeAll(v, s, [a, b]) == Text(t.out + r.out, r.state)
  {
    hide D.DecodeByte;
    assert [a, b][1..] == [b];
    DecodeOne(v, D.DecodeByte(v, s, a).state, b);
  }

  /** What the decoder writes for a base64 value. */
  function SextetText(s: D.State, n: Sextet): seq<Unit>
    requires D.Valid(s)
  {
    D.AdditionIsDisjoint(s, n);
    if D.Completes(s.step) then [s.bits + D.Addend(s.step, n)] else []
  }

  lemma DecodeSextet(v: Variant, s: D.State, n: Sextet)
    requires D.Valid(s) && s.encoding == Base64
    ensures D.DecodeByte(v, s, ValueToChar(v, n)) == Text(SextetText(s, n), D.AfterValue(s, n))
  {
    D.DecodeSextet(v, s, ValueToChar(v, n));
  }

  lemma DecodeTwoSextets(v: Variant, s: D.State, n0: Sextet, n1: Sextet)
    requires D.Valid(s) && s.encoding == Base64
    ensures var s1 := D.AfterValue(s, n0);
            D.DecodeAll(v, s, [ValueToChar(v, n0), ValueToChar(v, n1)])
            == Text(SextetText(s, n0) + SextetText(s1, n1), D.AfterValue(s1, n1))
  {
    DecodeSextet(v, s, n0);
    DecodeSextet(v, D.AfterValue(s, n0), n1);
    hide D.DecodeByte, ValueToChar, SextetText, D.DecodeAll;
    DecodeTwo(v, s, ValueToChar(v, n0), ValueToChar(v, n1));
  }

  lemma DecodeThreeSextets(v: Variant, s: D.State, n0: Sextet, n1: Sextet, n2: Sextet)
    requires D.Valid(s) && s.encoding == Base64
    ensures var s1 := D.AfterValue(s, n0);
            var s2 := D.AfterValue(s1, n1);
            D.DecodeAll(v, s, [ValueToChar(v, n0), ValueToChar(v, n1), ValueToChar(v, n2)])
            == Text(SextetText(s, n0) + SextetText(s1, n1) + SextetText(s2, n2), D.AfterValue(s2, n2))
  {
    DecodeTwoSextets(v, s, n0, n1);
    var s2 := D.AfterValue(D.AfterValue(s, n0), n1);
    DecodeSextet(v, s2, n2);
    hide D.DecodeByte, ValueToChar, SextetText, D.DecodeAll;
    DecodeOne(v, s2, ValueToChar(v, n2));
    var c0, c1, c2: Byte := ValueToChar(v, n0), ValueToChar(v, n1), ValueToChar(v, n2);
    assert [c0, c1, c2] == [c0, c1] + [c2];
    D.DecodeAllSplit(v, s, [c0, c1], [c2]);
  }

  /** One unit in the mode that both are in. */
  lemma UnitInLockStep(v: Variant, e: E.State, d: D.State, u: Unit)
    requires Aligned(e, d) && e.encoding == E.Wanted(v, u)
    ensures var r := D.DecodeAll(v, d, E.UnitText(v, e, u));
            && Coupled(E.AfterUnit(e, u), r.state)
            && r.out + InFlight(E.AfterUnit(e, u), r.state) == InFlight(e, d) + [u]
  {
    UnitBecomesInFlight(e, d, u);
    hide D.DecodeAll, E.UnitText, DirectEncodable, InFlight;
    if e.encoding == Direct {
      DirectInLockStep(v, e, d, u);
    } else if e.step == 0 {
      FirstInLockStep(v, e, d, u);
    } else if e.step == 1 {
      SecondInLockStep(v, e, d, u);
    } else {
      ThirdInLockStep(v, e, d, u);
    }
  }

  /** The decoder's state after one more unit in base64 mode. */
  function AfterUnit(step: nat, u: Unit): D.State {
    if step == 0 then D.State(Base64, u / 16 * 16, 2, false)
    else if step == 1 then D.State(Base64, u / 4 * 4, 5, false)
    else D.State(Base64, 0, 0, false)
  }

  lemma UnitBecomesInFlight(e: E.State, d: D.State, u: Unit)
    requires Aligned(e, d)
    ensures e.encoding == Direct || e.step == 0 ==> InFlight(e, d) == []
    ensures e.encoding == Direct ==>
      forall d' | Aligned(E.AfterUnit(e, u), d') :: InFlight(E.AfterUnit(e, u), d') == []
    ensures e.encoding == Base64 ==>
      && Coupled(E.AfterUnit(e, u), AfterUnit(e.step, u))
      && InFlight(E.AfterUnit(e, u), AfterUnit(e.step, u)) == (if e.step == 2 then [] else [u])
  {
    SplitUnit(u);
    hide D.Valid;
    if e.encoding == Base64 { ValidAfterUnit(e.step, u); }
  }

  lemma ValidAfterUnit(step: nat, u: Unit)
    ensures D.Valid(AfterUnit(step, u))
  {
    var x, y := u / 16, u / 4;
    assert x * 16 % 16 == 0 && y * 4 % 4 == 0;
  }

  /** A unit as the bits in the decoder and the bits in the encoder. */
  lemma SplitUnit(u: Unit)
    ensures u / 16 * 16 + u % 16 * 4 / 4 == u
    ensures u / 4 * 4 + u % 4 * 16 / 16 == u
  {}

  lemma DirectInLockStep(v: Variant, e: E.State, d: D.State, u: Unit)
    requires Aligned(e, d) && e.encoding == E.Wanted(v, u) == Direct
    ensures var r := D.DecodeAll(v, d, E.UnitText(v, e, u));
            r.state.encoding == Direct && r.out == [u]
  {
    DirectSet(v, u);
    if u == EscChar(v) {
      DecodeTwo(v, d, u, MINUS);
    } else {
      DecodeOne(v, d, u);
    }
  }

  lemma FirstInLockStep(v: Variant, e: E.State, d: D.State, u: Unit)
    requires Aligned(e, d) && e.encoding == E.Wanted(v, u) == Base64 && e.step == 0
    ensures var r := D.DecodeAll(v, d, E.UnitText(v, e, u));
            r.out == [] && r.state == D.State(Base64, u / 16 * 16, 2, false)
  {
    FirstValues(d, u);
    hide D.DecodeAll, ValueToChar, DirectEncodable, D.AfterValue, SextetText, InFlight;
    DecodeTwoSextets(v, d, u / 1024, u / 16 % 64);
  }

  lemma FirstValues(d: D.State, u: Unit)
    requires D.Valid(d) && d.encoding == Base64 && d.step == 0
    ensures var s1 := D.State(Base64, u / 1024 * 1024, 1, false);
            && D.AfterValue(d, u / 1024) == s1 && SextetText(d, u / 1024) == []
            && D.AfterValue(s1, u / 16 % 64) == D.State(Base64, u / 16 * 16, 2, false)
            && SextetText(s1, u / 16 % 64) == []
  {
    SixBitsAt16(u);
    var s1 := D.State(Base64, u / 1024 * 1024, 1, false);
    NothingHeld(d);
    Extends(d, u / 1024, s1);
    Extends(s1, u / 16 % 64, D.State(Base64, u / 16 * 16, 2, false));
  }

  lemma SecondValues(e: E.State, d: D.State, u: Unit)
    requires Aligned(e, d) && e.encoding == Base64 && e.step == 1
    ensures var n0 := e.bits + u / 16384;
            var s1, s2 := D.State(Base64, u / 16384 * 16384, 3, false), D.State(Base64, u / 256 * 256, 4, false);
            && D.AfterValue(d, n0) == s1 && SextetText(d, n0) == InFlight(e, d)
            && D.AfterValue(s1, u / 256 % 64) == s2 && SextetText(s1, u / 256 % 64) == []
            && D.AfterValue(s2, u / 4 % 64) == D.State(Base64, u / 4 * 4, 5, false) && SextetText(s2, u / 4 % 64) == []
  {
    hide D.AfterValue, SextetText, D.Valid;
    SixBitsAt256(u);
    SixBitsAt4(u);
    var s1, s2 := D.State(Base64, u / 16384 * 16384, 3, false), D.State(Base64, u / 256 * 256, 4, false);
    UnitCompletesAt2(e, d, u);
    Extends(s1, u / 256 % 64, s2);
    Extends(s2, u / 4 % 64, D.State(Base64, u / 4 * 4, 5, false));
  }

  lemma ThirdValues(e: E.State, d: D.State, u: Unit)
    requires Aligned(e, d) && e.encoding == Base64 && e.step == 2
    ensures var n0 := e.bits + u / 4096;
            var s1, s2 := D.State(Base64, u / 4096 * 4096, 6, false), D.State(Base64, u / 64 * 64, 7, false);
            && D.AfterValue(d, n0) == s1 && SextetText(d, n0) == InFlight(e, d)
            && D.AfterValue(s1, u / 64 % 64) == s2 && SextetText(s1, u / 64 % 64) == []
            && D.AfterValue(s2, u % 64) == D.State(Base64, 0, 0, false) && SextetText(s2, u % 64) == [u]
  {
    hide D.AfterValue, SextetText, D.Valid;
    SixBitsAt64(u);
    var s1, s2 := D.State(Base64, u / 4096 * 4096, 6, false), D.State(Base64, u / 64 * 64, 7, false);
    UnitCompletesAt5(e, d, u);
    Extends(s1, u / 64 % 64, s2);
    UnitCompletesAt7(s2, u);
  }

  // Six more bits of a unit, below those already seen.

  lemma SixBitsAt16(u: Unit)
    ensures u / 1024 * 1024 + u / 16 % 64 * 16 == u / 16 * 16
    ensures D.Valid(D.State(Base64, u / 1024 * 1024, 1, false))
  {
    var x := u / 16;
    assert x == 64 * (x / 64) + x % 64 && u / 1024 == x / 64;
    assert u / 1024 * 1024 % 1024 == 0;
  }

  lemma SixBitsAt256(u: Unit)
    ensures u / 16384 * 16384 + u / 256 % 64 * 256 == u / 256 * 256
    ensures D.Valid(D.State(Base64, u / 16384 * 16384, 3, false))
  {
    var x := u / 256;
    assert x == 64 * (x / 64) + x % 64 && u / 16384 == x / 64;
    assert u / 16384 * 16384 % 16384 == 0;
  }

  lemma SixBitsAt4(u: Unit)
    ensures u / 256 * 256 + u / 4 % 64 * 4 == u / 4 * 4
    ensures D.Valid(D.State(Base64, u / 256 * 256, 4, false))
  {
    var x := u / 4;
    assert x == 64 * (x / 64) + x % 64 && u / 256 == x / 64;
    assert u / 256 * 256 % 256 == 0;
  }

  lemma SixBitsAt64(u: Unit)
    ensures u / 4096 * 4096 + u / 64 % 64 * 64 == u / 64 * 64
    ensures D.Valid(D.State(Base64, u / 4096 * 4096, 6, false)) && D.Valid(D.State(Base64, u / 64 * 64, 7, false))
  {
    var x := u / 64;
    assert x == 64 * (x / 64) + x % 64 && u / 4096 == x / 64;
    assert u / 4096 * 4096 % 4096 == 0 && u / 64 * 64 % 64 == 0;
  }

  lemma NothingHeld(d: D.State)
    requires D.Valid(d) && d.step == 0
    ensures d.bits == 0
  {}

  /** A sextet that completes no unit. */
  lemma Extends(s: D.State, n: Sextet, t: D.State)
    requires D.Valid(s) && !D.Completes(s.step)
    requires t == D.State(s.encoding, s.bits + D.Addend(s.step, n), s.step + 1, false)
    ensures D.AfterValue(s, n) == t && SextetText(s, n) == []
  {
    assert s.step < 7;
    hide D.Valid, D.Addend;
  }

  lemma UnitCompletesAt2(e: E.State, d: D.State, u: Unit)
    requires Aligned(e, d) && e.encoding == Base64 && e.step == 1
    ensures var n0 := e.bits + u / 16384;
            && n0 < 64
            && D.AfterValue(d, n0) == D.State(Base64, u / 16384 * 16384, 3, false)
            && SextetText(d, n0) == InFlight(e, d)
  {
    var q, a := e.bits / 4, u / 16384;
    assert e.bits == 4 * q && a < 4;
    By4(e.bits + a, q, a);
  }

  lemma UnitCompletesAt5(e: E.State, d: D.State, u: Unit)
    requires Aligned(e, d) && e.encoding == Base64 && e.step == 2
    ensures var n0 := e.bits + u / 4096;
            && n0 < 64
            && D.AfterValue(d, n0) == D.State(Base64, u / 4096 * 4096, 6, false)
            && SextetText(d, n0) == InFlight(e, d)
  {
    var q, a := e.bits / 16, u / 4096;
    assert e.bits == 16 * q && a < 16;
    By16(e.bits + a, q, a);
  }

  lemma UnitCompletesAt7(s: D.State, u: Unit)
    requires D.Valid(s) && s == D.State(Base64, u / 64 * 64, 7, false)
    ensures D.AfterValue(s, u % 64) == D.State(Base64, 0, 0, false) && SextetText(s, u % 64) == [u]
  {
    assert u / 64 * 64 + u % 64 == u;
  }

  lemma AlignedIs(e: E.State, d: D.State)
    requires Aligned(e, d)
    ensures E.Valid(e) && D.Valid(d) && d.encoding == e.encoding
  {}

  lemma SecondInLockStep(v: Variant, e: E.State, d: D.State, u: Unit)
    requires Aligned(e, d) && e.encoding == E.Wanted(v, u) == Base64 && e.step == 1
    ensures var r := D.DecodeAll(v, d, E.UnitText(v, e, u));
            r.out == InFlight(e, d) && r.state == D.State(Base64, u / 4 * 4, 5, false)
  {
    hide D.DecodeAll, ValueToChar, DirectEncodable, D.AfterValue, SextetText, InFlight, Aligned, D.Valid, E.Valid;
    AlignedIs(e, d);
    UnitCompletesAt2(e, d, u);
    SecondValues(e, d, u);
    DecodeThreeSextets(v, d, e.bits + u / 16384, u / 256 % 64, u / 4 % 64);
    assert InFlight(e, d) + [] + [] == InFlight(e, d);
  }

  lemma ThirdInLockStep(v: Variant, e: E.State, d: D.State, u: Unit)
    requires Aligned(e, d) && e.encoding == E.Wanted(v, u) == Base64 && e.step == 2
    ensures var r := D.DecodeAll(v, d, E.UnitText(v, e, u));
            r.out == InFlight(e, d) + [u] && r.state == D.State(Base64, 0, 0, false)
  {
    hide D.DecodeAll, ValueToChar, DirectEncodable, D.AfterValue, SextetText, InFlight, Aligned, D.Valid, E.Valid;
    AlignedIs(e, d);
    UnitCompletesAt5(e, d, u);
    ThirdValues(e, d, u);
    DecodeThreeSextets(v, d, e.bits + u / 4096, u / 64 % 64, u % 64);
    assert InFlight(e, d) + [] + [u] == InFlight(e, d) + [u];
  }

  /** A mode shift; shifting out of base64 completes the unit in flight. */
  lemma ShiftInLockStep(v: Variant, e: E.State, d: D.State, want: Encoding)
    requires Coupled(e, d)
    ensures var r := D.DecodeAll(v, d, E.ShiftText(v, e, want));
            && Aligned(E.Shifted(e, want), r.state)
            && r.out + InFlight(E.Shifted(e, want), r.state) == InFlight(e, d)
  {
    if e.encoding == Direct && want == Base64 {
      DecodeOne(v, d, EscChar(v));
    } else if e.encoding == Base64 && want == Direct {
      CloseInLockStep(v, e, d);
    }
  }

  lemma CloseInLockStep(v: Variant, e: E.State, d: D.State)
    requires Coupled(e, d) && e.encoding == Base64
    ensures var r := D.DecodeAll(v, d, E.ShiftText(v, e, Direct));
            r.state.encoding == Direct && r.out == InFlight(e, d)
  {
    if e.step == 0 {
      MinusCloses(v, d);
      DecodeOne(v, d, MINUS);
    } else {
      FlushValues(e, d);
      DecodeSextet(v, d, e.bits);
      var d' := D.AfterValue(d, e.bits);
      MinusCloses(v, d');
      hide D.DecodeByte, D.AfterValue, SextetText, InFlight, D.DecodeAll, ValueToChar;
      DecodeTwo(v, d, ValueToChar(v, e.bits), MINUS);
      assert E.ShiftText(v, e, Direct) == [ValueToChar(v, e.bits), MINUS];
      assert InFlight(e, d) + [] == InFlight(e, d);
    }
  }

  lemma FlushValues(e: E.State, d: D.State)
    requires Coupled(e, d) && e.encoding == Base64 && e.step != 0
    ensures SextetText(d, e.bits) == InFlight(e, d)
    ensures D.AfterValue(d, e.bits).encoding == Base64 && !D.AfterValue(d, e.bits).freshBase64
  {}

  lemma MinusCloses(v: Variant, d: D.State)
    requires D.Valid(d) && d.encoding == Base64 && !d.freshBase64
    ensures D.DecodeByte(v, d, MINUS).out == [] && D.DecodeByte(v, d, MINUS).state.encoding == Direct
  {
    TablesInverse(v, MINUS);
  }

  /** Feeding the decoder all that the encoder writes for whole units keeps them coupled,
      and the units written and the unit in flight are those of the input. */
  lemma {:induction false} LockStep(v: Variant, e: E.State, d: D.State, src: seq<Unit>)
    requires Coupled(e, d)
    ensures var t := E.EncodeAll(v, e, src);
            var r := D.DecodeAll(v, d, t.out);
            && Coupled(t.state, r.state)
            && r.out + InFlight(t.state, r.state) == InFlight(e, d) + src
    decreases |src|
  {
    if src == [] {
      assert InFlight(e, d) + src == InFlight(e, d);
    } else {
      ShiftedUnitInLockStep(v, e, d, src[0]);
      hide E.EncodeUnit, InFlight, Coupled;
      var t := E.EncodeUnit(v, e, src[0]);
      var r := D.DecodeAll(v, d, t.out);
      LockStep(v, t.state, r.state, src[1..]);
      var rest := E.EncodeAll(v, t.state, src[1..]);
      D.DecodeAllSplit(v, d, t.out, rest.out);
      hide D.DecodeAll;
      var tail := D.DecodeAll(v, r.state, rest.out);
      Regroup(InFlight(e, d), src, r.out, InFlight(t.state, r.state), tail.out, InFlight(rest.state, tail.state));
    }
  }

  lemma Regroup<T>(owed: seq<T>, src: seq<T>, a: seq<T>, p: seq<T>, b: seq<T>, q: seq<T>)
    requires src != [] && a + p == owed + [src[0]] && b + q == p + src[1..]
    ensures (a + b) + q == owed + src
  {
    assert (a + b) + q == a + (b + q);
    assert a + (p + src[1..]) == (a + p) + src[1..];
    assert owed + [src[0]] + src[1..] == owed + src;
  }

  lemma ShiftedUnitInLockStep(v: Variant, e: E.State, d: D.State, u: Unit)
    requires Coupled(e, d)
    ensures var t := E.EncodeUnit(v, e, u);
            var r := D.DecodeAll(v, d, t.out);
            && Coupled(t.state, r.state)
            && r.out + InFlight(t.state, r.state) == InFlight(e, d) + [u]
  {
    hide E.UnitText, E.ShiftText, D.DecodeAll, E.AfterUnit, InFlight, E.Valid, D.Valid, DirectEncodable;
    var want := E.Wanted(v, u);
    var e1 := E.Shifted(e, want);
    var shift := D.DecodeAll(v, d, E.ShiftText(v, e, want));
    ShiftInLockStep(v, e, d, want);
    UnitInLockStep(v, e1, shift.state, u);
    D.DecodeAllSplit(v, d, E.ShiftText(v, e, want), E.UnitText(v, e1, u));
    var unit := D.DecodeAll(v, shift.state, E.UnitText(v, e1, u));
    var last := InFlight(E.AfterUnit(e1, u), unit.state);
    assert shift.out + unit.out + last == shift.out + (unit.out + last);
    assert shift.out + (InFlight(e1, shift.state) + [u]) == (shift.out + InFlight(e1, shift.state)) + [u];
  }

  /** Decoding a finished text gives back the units, and leaves the decoder in direct mode:
      for every sequence of 16-bit units and both variants. */
  lemma RoundTrip(v: Variant, d: D.State, src: seq<Unit>)
    requires D.Valid(d) && d.encoding == Direct
    ensures var r := D.DecodeAll(v, d, E.Finished(v, E.RESET, src));
            r.out == src && r.state.encoding == Direct
  {
    hide E.EncodeAll, D.DecodeAll, E.ShiftText;
    assert Coupled(E.RESET, d) && InFlight(E.RESET, d) == [];
    LockStep(v, E.RESET, d, src);
    var t := E.EncodeAll(v, E.RESET, src);
    var r := D.DecodeAll(v, d, t.out);
    ShiftInLockStep(v, t.state, r.state, Direct);
    D.DecodeAllSplit(v, d, t.out, E.ShiftText(v, t.state, Direct));
    assert [] + src == src;
  }

  // ---- Concatenating finished texts ----

  /** Finished texts may simply be concatenated: each leaves the decoder in direct mode. */
  lemma SelfSynchronising(v: Variant, d: D.State, a: seq<Unit>, b: seq<Unit>)
    requires D.Valid(d) && d.encoding == Direct
    ensures var r := D.DecodeAll(v, d, E.Finished(v, E.RESET, a) + E.Finished(v, E.RESET, b));
            r.out == a + b && r.state.encoding == Direct
  {
    var ta, tb := E.Finished(v, E.RESET, a), E.Finished(v, E.RESET, b);
    D.DecodeAllSplit(v, d, ta, tb);
    RoundTrip(v, d, a);
    RoundTrip(v, D.DecodeAll(v, d, ta).state, b);
  }

  /** A base64 run of `a + b` would span the join. */
  predicate SpansJoin(v: Variant, a: seq<Unit>, b: seq<Unit>) {
    && a != [] && !DirectEncodable(v, a[|a| - 1])
    && b != [] && !DirectEncodable(v, b[0])
  }

  /** The concatenation is itself the finished text of `a + b` unless a run spans the join. */
  lemma ConcatenationIsTextIff(v: Variant, a: seq<Unit>, b: seq<Unit>)
    ensures E.Finished(v, E.RESET, a) + E.Finished(v, E.RESET, b) == E.Finished(v, E.RESET, a + b)
       <==> !SpansJoin(v, a, b)
  {
    hide E.EncodeAll, E.ShiftText, DirectEncodable;
    var t := E.EncodeAll(v, E.RESET, a);
    E.EncodeAllSplit(v, E.RESET, a, b);
    var close := E.ShiftText(v, t.state, Direct);
    var ta, tb, tb' := t.out + close, E.Finished(v, E.RESET, b), E.Finished(v, t.state, b);
    assert E.Finished(v, E.RESET, a + b) == t.out + tb';
    assert ta + tb == t.out + (close + tb);
    SamePrefix(t.out, close + tb, tb');
    LastUnitDecidesMode(v, a);
    JoinedText(v, t.state, b);
  }

  lemma SamePrefix<T>(a: seq<T>, b: seq<T>, c: seq<T>)
    ensures a + b == a + c <==> b == c
  {
    if a + b == a + c {
      assert (a + b)[|a|..] == b && (a + c)[|a|..] == c;
    }
  }

  lemma {:induction false} LastUnitDecidesMode(v: Variant, a: seq<Unit>)
    ensures E.EncodeAll(v, E.RESET, a).state.encoding
         == if a == [] then Direct else E.Wanted(v, a[|a| - 1])
  {
    if a != [] {
      var front, last := a[..|a| - 1], a[|a| - 1];
      assert a == front + [last] && [last][1..] == [];
      E.EncodeAllSplit(v, E.RESET, front, [last]);
    }
  }

  /** Closing the run and starting afresh, against going on from state `s`. */
  lemma JoinedText(v: Variant, s: E.State, b: seq<Unit>)
    requires E.Valid(s)
    ensures E.ShiftText(v, s, Direct) + E.Finished(v, E.RESET, b) == E.Finished(v, s, b)
       <==> !(s.encoding == Base64 && b != [] && !DirectEncodable(v, b[0]))
  {
    hide E.Finished, E.EncodeUnit, E.ShiftText, E.Valid, DirectEncodable;
    DirectIsReset(v, E.RESET);
    var close, anew := E.ShiftText(v, s, Direct), E.Finished(v, E.RESET, b);
    if s.encoding == Direct {
      DirectIsReset(v, s);
      assert [] + anew == anew;
    } else if b == [] {
      E.FinishedNothing(v, s);
      E.FinishedNothing(v, E.RESET);
      assert close + [] == close;
    } else {
      FirstUnitThenRest(v, s, b);
      FirstUnitThenRest(v, E.RESET, b);
      if DirectEncodable(v, b[0]) {
        CloseBeforeDirect(v, s, b[0]);
        var t := E.EncodeUnit(v, E.RESET, b[0]);
        var rest := E.Finished(v, t.state, b[1..]);
        assert close + (t.out + rest) == (close + t.out) + rest;
      } else {
        MinusAgainstBase64(v, s, b[0], anew, E.Finished(v, E.EncodeUnit(v, s, b[0]).state, b[1..]));
      }
    }
  }

  lemma DirectIsReset(v: Variant, s: E.State)
    requires s == E.RESET || (E.Valid(s) && s.encoding == Direct)
    ensures s == E.RESET && E.Valid(s) && E.ShiftText(v, s, Direct) == []
  {}

  lemma CloseBeforeDirect(v: Variant, s: E.State, u: Unit)
    requires E.Valid(s) && s.encoding == Base64 && DirectEncodable(v, u)
    ensures var t := E.EncodeUnit(v, E.RESET, u);
            E.EncodeUnit(v, s, u) == Text(E.ShiftText(v, s, Direct) + t.out, t.state)
  {}

  /** The closing `-` would fall on a base64 character. */
  lemma MinusAgainstBase64(v: Variant, s: E.State, u: Unit, x: seq<Byte>, y: seq<Byte>)
    requires E.Valid(s) && s.encoding == Base64 && !DirectEncodable(v, u)
    ensures E.ShiftText(v, s, Direct) + x != E.EncodeUnit(v, s, u).out + y
  {
    var close, text := E.ShiftText(v, s, Direct), E.UnitText(v, s, u);
    var k := |close| - 1;
    assert E.EncodeUnit(v, s, u).out == text;
    assert close[k] == MINUS && k < |text| && text[k] != MINUS;
    assert (close + x)[k] == close[k] && (text + y)[k] == text[k];
  }

  lemma FirstUnitThenRest(v: Variant, s: E.State, b: seq<Unit>)
    requires E.Valid(s) && b != []
    ensures var t := E.EncodeUnit(v, s, b[0]);
            E.Finished(v, s, b) == t.out + E.Finished(v, t.state, b[1..])
  {
    hide E.EncodeUnit;
  }
}
