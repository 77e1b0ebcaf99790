/** What the two encodings mean, run by run and over bit strings (Rules 1-3 of "UTF-7
    Definition" in RFC 2152; section 5.1.3 of RFC 3501), and the proof that the state
    machines compute it. */
module Reference {
  import opened Alphabet
  import opened BitStrings
  import opened Division
  import opened Outcomes
  import E = EncoderMachine
  import D = DecoderMachine

  // ---- Base64 text ----

  function Characters(v: Variant, vs: seq<Sextet>): (t: seq<Byte>)
    ensures |t| == |vs|
    ensures forall k :: 0 <= k < |t| ==> t[k] == ValueToChar(v, vs[k]) && IsBase64(v, t[k])
  {
    if vs == [] then [] else [ValueToChar(v, vs[0])] + Characters(v, vs[1..])
  }

  predicate AllBase64(v: Variant, t: seq<Byte>) {
    forall k :: 0 <= k < |t| ==> IsBase64(v, t[k])
  }

  function Values(v: Variant, t: seq<Byte>): (vs: seq<Sextet>)
    requires AllBase64(v, t)
    ensures |vs| == |t|
    ensures forall k :: 0 <= k < |vs| ==> vs[k] == CharToValue(v, t[k])
  {
    if t == [] then [] else [CharToValue(v, t[0])] + Values(v, t[1..])
  }

  lemma ValuesInvertCharacters(v: Variant, vs: seq<Sextet>)
    ensures Values(v, Characters(v, vs)) == vs
  {}

  lemma CharactersInvertValues(v: Variant, t: seq<Byte>)
    requires AllBase64(v, t)
    ensures Characters(v, Values(v, t)) == t
  {
    forall k | 0 <= k < |t| ensures Characters(v, Values(v, t))[k] == t[k] {
      TablesInverse(v, t[k]);
    }
  }

  // ---- The encoding of a sequence of units ----

  /** The number of leading units that are direct, or that are not. */
  function RunLength(v: Variant, direct: bool, src: seq<Unit>): (n: nat)
    ensures n <= |src|
    ensures forall k :: 0 <= k < n ==> DirectEncodable(v, src[k]) == direct
    ensures n < |src| ==> DirectEncodable(v, src[n]) != direct
  {
    if src == [] || DirectEncodable(v, src[0]) != direct then 0
    else 1 + RunLength(v, direct, src[1..])
  }

  /** The characters of a maximal run of units outside the direct set. */
  function Base64Text(v: Variant, us: seq<Unit>): seq<Byte> {
    Characters(v, Sextets(UnitBits(us)))
  }

  function Encode(v: Variant, src: seq<Unit>): seq<Byte>
    decreases |src|
  {
    if src == [] then []
    else if DirectEncodable(v, src[0]) then
      (if src[0] == EscChar(v) then [src[0], MINUS] else [src[0]]) + Encode(v, src[1..])
    else
      var n := RunLength(v, false, src);
      [EscChar(v)] + Base64Text(v, src[..n]) + [MINUS] + Encode(v, src[n..])
  }

  lemma EncodeOfRun(v: Variant, src: seq<Unit>)
    requires src != [] && !DirectEncodable(v, src[0])
    ensures var n := RunLength(v, false, src);
            Encode(v, src) == [EscChar(v)] + Base64Text(v, src[..n]) + [MINUS] + Encode(v, src[n..])
  {}

  // ---- The decoding of 7-bit bytes ----

  function Base64Length(v: Variant, t: seq<Byte>): (n: nat)
    ensures n <= |t|
    ensures AllBase64(v, t[..n])
    ensures n < |t| ==> !IsBase64(v, t[n])
  {
    if t == [] || !IsBase64(v, t[0]) then 0
    else
      var n := 1 + Base64Length(v, t[1..]);
      assert forall k :: 0 < k < n ==> t[k] == t[1..][..n - 1][k - 1];
      n
  }

  /** The units of a base64 run: its bits by sixteen, an incomplete group dropped. */
  function RunUnits(v: Variant, t: seq<Byte>): seq<Unit>
    requires AllBase64(v, t)
  {
    Units(SextetBits(Values(v, t)))
  }

  /** The bytes after a base64 run, without the `-` that may close it. */
  function AfterRun(rest: seq<Byte>): seq<Byte> {
    if rest != [] && rest[0] == MINUS then rest[1..] else rest
  }

  function Decode(v: Variant, src: seq<Byte>): seq<Unit>
    decreases |src|
  {
    if src == [] then []
    else if src[0] != EscChar(v) then [src[0]] + Decode(v, src[1..])
    else if |src| > 1 && src[1] == MINUS then [EscChar(v)] + Decode(v, src[2..])
    else
      var n := Base64Length(v, src[1..]);
      RunUnits(v, src[1..][..n]) + Decode(v, AfterRun(src[1..][n..]))
  }

  // ---- The encoder computes Encode ----

  /** `pend` are the bits an encoder in base64 has not written yet. */
  ghost predicate EncoderOwes(s: E.State, pend: BitString) {
    && E.Valid(s) && s.encoding == Base64
    && |pend| == (if s.step == 0 then 0 else if s.step == 1 then 4 else 2)
    && (s.step == 1 ==> s.bits == Value(pend) * 4)
    && (s.step == 2 ==> s.bits == Value(pend) * 16)
  }

  lemma CharactersCons(v: Variant, n: Sextet, vs: seq<Sextet>)
    ensures Characters(v, [n] + vs) == [ValueToChar(v, n)] + Characters(v, vs)
  {
    assert ([n] + vs)[1..] == vs;
  }

  /** One unit in base64 mode: the characters written and the bits still owed are exactly
      the bits owed before and the sixteen bits of the unit. */
  lemma UnitSextets(v: Variant, s: E.State, pend: BitString, u: Unit, rest: BitString) returns (pend': BitString)
    requires EncoderOwes(s, pend) && !DirectEncodable(v, u)
    ensures EncoderOwes(E.AfterUnit(s, u), pend')
    ensures Characters(v, Sextets(pend + Bits(u, 16) + rest))
         == E.UnitText(v, s, u) + Characters(v, Sextets(pend' + rest))
  {
    if s.step == 0 {
      pend' := UnitAtStep0(v, s, u, rest);
      assert pend + Bits(u, 16) == Bits(u, 16);
    } else if s.step == 1 {
      pend' := UnitAtStep1(v, s, pend, u, rest);
    } else {
      pend' := UnitAtStep2(v, s, pend, u, rest);
    }
  }

  lemma CutAtStep0(u: Unit)
    ensures var b := Bits(u, 16);
            Value(b[..6]) == u / 1024 && Value(b[6..12]) == u / 16 % 64 && Value(b[12..]) == u % 16
  {
    hide Bits, Value;
    PowersOfTwo();
    hide Pow2;
    var b := Bits(u, 16);
    ValueOfBits(u, 16);
    ValueCut(b, 6);
    ValueCut(b[6..], 6);
    assert b[6..][..6] == b[6..12] && b[6..][6..] == b[12..];
    DigitsAtStep0(Value(b[..6]), Value(b[6..12]), Value(b[12..]));
  }

  lemma DigitsAtStep0(x: nat, y: nat, z: nat)
    requires y < 64 && z < 16
    ensures var u := x * 1024 + y * 16 + z;
            u / 1024 == x && u / 16 % 64 == y && u % 16 == z
  {
    var u := x * 1024 + y * 16 + z;
    By1024(u, x, y * 16 + z);
    By16(u, x * 64 + y, z);
    By64(x * 64 + y, x, y);
  }

  lemma CutAtStep1(u: Unit)
    ensures var b := Bits(u, 16);
            && Value(b[..2]) == u / 16384 && Value(b[2..8]) == u / 256 % 64
            && Value(b[8..14]) == u / 4 % 64 && Value(b[14..]) == u % 4
  {
    hide Bits, Value;
    PowersOfTwo();
    hide Pow2;
    var b := Bits(u, 16);
    ValueOfBits(u, 16);
    ValueCut(b, 2);
    ValueCut(b[2..], 6);
    ValueCut(b[8..], 6);
    assert b[2..][..6] == b[2..8] && b[2..][6..] == b[8..];
    assert b[8..][..6] == b[8..14] && b[8..][6..] == b[14..];
    DigitsAtStep1(Value(b[..2]), Value(b[2..8]), Value(b[8..14]), Value(b[14..]));
  }

  lemma DigitsAtStep1(x: nat, y: nat, z: nat, w: nat)
    requires y < 64 && z < 64 && w < 4
    ensures var u := x * 16384 + y * 256 + z * 4 + w;
            u / 16384 == x && u / 256 % 64 == y && u / 4 % 64 == z && u % 4 == w
  {
    var u := x * 16384 + y * 256 + z * 4 + w;
    By16384(u, x, y * 256 + z * 4 + w);
    By256(u, x * 64 + y, z * 4 + w);
    By64(x * 64 + y, x, y);
    By4(u, x * 4096 + y * 64 + z, w);
    By64(x * 4096 + y * 64 + z, x * 64 + y, z);
  }

  lemma DigitsAtStep2(x: nat, y: nat, z: nat)
    requires y < 64 && z < 64
    ensures var u := x * 4096 + y * 64 + z;
            u / 4096 == x && u / 64 % 64 == y && u % 64 == z
  {
    var u := x * 4096 + y * 64 + z;
    By4096(u, x, y * 64 + z);
    By64(u, x * 64 + y, z);
    By64(x * 64 + y, x, y);
  }

  lemma CutAtStep2(u: Unit)
    ensures var b := Bits(u, 16);
            Value(b[..4]) == u / 4096 && Value(b[4..10]) == u / 64 % 64 && Value(b[10..]) == u % 64
  {
    hide Bits, Value;
    PowersOfTwo();
    hide Pow2;
    var b := Bits(u, 16);
    ValueOfBits(u, 16);
    ValueCut(b, 4);
    ValueCut(b[4..], 6);
    assert b[4..][..6] == b[4..10] && b[4..][6..] == b[10..];
    DigitsAtStep2(Value(b[..4]), Value(b[4..10]), Value(b[10..]));
  }

  lemma UnitAtStep0(v: Variant, s: E.State, u: Unit, rest: BitString) returns (pend': BitString)
    requires EncoderOwes(s, []) && !DirectEncodable(v, u)
    ensures EncoderOwes(E.AfterUnit(s, u), pend')
    ensures Characters(v, Sextets(Bits(u, 16) + rest))
         == E.UnitText(v, s, u) + Characters(v, Sextets(pend' + rest))
  {
    CutAtStep0(u);
    hide Bits, Value, Sextets, Characters, ValueToChar, DirectEncodable;
    var b := Bits(u, 16);
    pend' := b[12..];
    assert b + rest == b[..6] + (b[6..12] + (pend' + rest));
    TwoSextets(v, b[..6], b[6..12], pend' + rest);
  }

  lemma UnitAtStep1(v: Variant, s: E.State, pend: BitString, u: Unit, rest: BitString) returns (pend': BitString)
    requires EncoderOwes(s, pend) && s.step == 1 && !DirectEncodable(v, u)
    ensures EncoderOwes(E.AfterUnit(s, u), pend')
    ensures Characters(v, Sextets(pend + Bits(u, 16) + rest))
         == E.UnitText(v, s, u) + Characters(v, Sextets(pend' + rest))
  {
    CutAtStep1(u);
    PowersOfTwo();
    hide Bits, Value, Sextets, Characters, ValueToChar, DirectEncodable, Pow2;
    var b := Bits(u, 16);
    ValueConcat(pend, b[..2]);
    pend' := b[14..];
    assert pend + b + rest == (pend + b[..2]) + (b[2..8] + (b[8..14] + (pend' + rest)));
    ThreeSextets(v, pend + b[..2], b[2..8], b[8..14], pend' + rest);
  }

  lemma UnitAtStep2(v: Variant, s: E.State, pend: BitString, u: Unit, rest: BitString) returns (pend': BitString)
    requires EncoderOwes(s, pend) && s.step == 2 && !DirectEncodable(v, u)
    ensures EncoderOwes(E.AfterUnit(s, u), pend')
    ensures Characters(v, Sextets(pend + Bits(u, 16) + rest))
         == E.UnitText(v, s, u) + Characters(v, Sextets(pend' + rest))
  {
    CutAtStep2(u);
    PowersOfTwo();
    hide Bits, Value, Sextets, Characters, ValueToChar, DirectEncodable, Pow2;
    var b := Bits(u, 16);
    ValueConcat(pend, b[..4]);
    pend' := [];
    assert pend + b + rest == (pend + b[..4]) + (b[4..10] + (b[10..] + (pend' + rest)));
    ThreeSextets(v, pend + b[..4], b[4..10], b[10..], pend' + rest);
  }

  lemma TwoSextets(v: Variant, b: BitString, c: BitString, rest: BitString)
    requires |b| == |c| == 6
    ensures Characters(v, Sextets(b + (c + rest)))
         == [ValueToChar(v, Value6(b)), ValueToChar(v, Value6(c))] + Characters(v, Sextets(rest))
  {
    SextetsTake(b, c + rest);
    SextetsTake(c, rest);
    CharactersCons(v, Value6(b), Sextets(c + rest));
    CharactersCons(v, Value6(c), Sextets(rest));
  }

  lemma ThreeSextets(v: Variant, b: BitString, c: BitString, d: BitString, rest: BitString)
    requires |b| == |c| == |d| == 6
    ensures Characters(v, Sextets(b + (c + (d + rest))))
         == [ValueToChar(v, Value6(b)), ValueToChar(v, Value6(c)), ValueToChar(v, Value6(d))]
          + Characters(v, Sextets(rest))
  {
    TwoSextets(v, b, c, d + rest);
    SextetsTake(d, rest);
    CharactersCons(v, Value6(d), Sextets(rest));
  }

  lemma FlushSextets(v: Variant, s: E.State, pend: BitString)
    requires EncoderOwes(s, pend)
    ensures Characters(v, Sextets(pend)) == E.Flush(v, s)
  {
    if s.step != 0 {
      var pad := Zeros(6 - |pend|);
      PowersOfTwo();
      ValueConcat(pend, pad);
      ValueZeros(|pad|);
      CharactersCons(v, Value6(pend + pad), []);
      assert Sextets(pend) == [Value6(pend + pad)] + [];
    }
  }

  /** A run of units outside the direct set, followed by the flush of the pending bits, is
      the base64 text of the bits owed and the bits of the units. */
  lemma {:induction false} RunIsBase64Text(v: Variant, s: E.State, pend: BitString, us: seq<Unit>)
    requires EncoderOwes(s, pend)
    requires forall k :: 0 <= k < |us| ==> !DirectEncodable(v, us[k])
    ensures var t := E.EncodeAll(v, s, us);
            && t.state.encoding == Base64
            && t.out + E.Flush(v, t.state) == Characters(v, Sextets(pend + UnitBits(us)))
    decreases |us|
  {
    hide E.EncodeUnit, E.UnitText, E.Flush, E.AfterUnit, Bits, Value, Sextets, Characters, DirectEncodable, E.Valid;
    if us == [] {
      assert pend + UnitBits(us) == pend;
      FlushSextets(v, s, pend);
    } else {
      var u, rest := us[0], UnitBits(us[1..]);
      var pend' := UnitSextets(v, s, pend, u, rest);
      assert pend + UnitBits(us) == pend + Bits(u, 16) + rest;
      UnitInBase64(v, s, u);
      RunIsBase64Text(v, E.AfterUnit(s, u), pend', us[1..]);
      var t := E.EncodeAll(v, E.AfterUnit(s, u), us[1..]);
      assert E.UnitText(v, s, u) + (t.out + E.Flush(v, t.state)) == (E.UnitText(v, s, u) + t.out) + E.Flush(v, t.state);
    }
  }

  lemma UnitInBase64(v: Variant, s: E.State, u: Unit)
    requires E.Valid(s) && s.encoding == Base64 && !DirectEncodable(v, u)
    ensures E.EncodeUnit(v, s, u) == Text(E.UnitText(v, s, u), E.AfterUnit(s, u))
  {}

  /** After a base64 run the closing shift is written first, then the rest as from reset. */
  lemma CloseThenRest(v: Variant, s: E.State, rest: seq<Unit>)
    requires E.Valid(s) && s.encoding == Base64
    requires rest == [] || DirectEncodable(v, rest[0])
    ensures E.Finished(v, s, rest) == E.Flush(v, s) + [MINUS] + E.Finished(v, E.RESET, rest)
  {
    if rest != [] {
      var t := E.EncodeUnit(v, s, rest[0]);
      assert t == Text(E.Flush(v, s) + [MINUS] + E.EncodeUnit(v, E.RESET, rest[0]).out, E.RESET);
    }
  }

  const OPEN := E.State(Base64, 0, 0)

  lemma DirectFromReset(v: Variant, u: Unit)
    requires DirectEncodable(v, u)
    ensures E.EncodeUnit(v, E.RESET, u) == Text(if u == EscChar(v) then [u, MINUS] else [u], E.RESET)
  {}

  lemma Base64FromReset(v: Variant, u: Unit)
    requires !DirectEncodable(v, u)
    ensures var t := E.EncodeUnit(v, OPEN, u);
            E.EncodeUnit(v, E.RESET, u) == Text([EscChar(v)] + t.out, t.state)
  {}

  lemma OpenRun(v: Variant, run: seq<Unit>)
    requires run != [] && !DirectEncodable(v, run[0])
    ensures var t := E.EncodeAll(v, OPEN, run);
            E.EncodeAll(v, E.RESET, run) == Text([EscChar(v)] + t.out, t.state)
  {
    hide E.EncodeUnit, DirectEncodable;
    Base64FromReset(v, run[0]);
    var t := E.EncodeUnit(v, OPEN, run[0]);
    var r := E.EncodeAll(v, t.state, run[1..]);
    assert ([EscChar(v)] + t.out) + r.out == [EscChar(v)] + (t.out + r.out);
  }

  /** The text of a run from reset, followed by the rest. */
  lemma RunThenRest(v: Variant, run: seq<Unit>, rest: seq<Unit>)
    requires run != [] && forall k :: 0 <= k < |run| ==> !DirectEncodable(v, run[k])
    requires rest == [] || DirectEncodable(v, rest[0])
    ensures E.Finished(v, E.RESET, run + rest)
         == [EscChar(v)] + Base64Text(v, run) + [MINUS] + E.Finished(v, E.RESET, rest)
  {
    hide E.EncodeAll, E.ShiftText, E.Flush, Sextets, Characters, DirectEncodable;
    OpenRun(v, run);
    RunIsBase64Text(v, OPEN, [], run);
    assert [] + UnitBits(run) == UnitBits(run);
    var t := E.EncodeAll(v, OPEN, run);
    E.EncodeAllSplit(v, E.RESET, run, rest);
    CloseThenRest(v, t.state, rest);
    var r := E.EncodeAll(v, t.state, rest);
    var esc, flush, tail := [EscChar(v)], E.Flush(v, t.state), E.Finished(v, E.RESET, rest);
    calc {
      E.Finished(v, E.RESET, run + rest);
      (esc + t.out + r.out) + E.ShiftText(v, r.state, Direct);
      (esc + t.out) + E.Finished(v, t.state, rest);
      (esc + t.out) + (flush + [MINUS] + tail);
      esc + (t.out + flush) + [MINUS] + tail;
    }
  }

  /** The encoder's whole output, closing shift included, is the reference encoding. */
  lemma {:induction false} EncoderIsEncode(v: Variant, src: seq<Unit>)
    ensures E.Finished(v, E.RESET, src) == Encode(v, src)
    decreases |src|
  {
    hide E.EncodeUnit, Base64Text, DirectEncodable;
    if src == [] {
    } else if DirectEncodable(v, src[0]) {
      DirectFromReset(v, src[0]);
      EncoderIsEncode(v, src[1..]);
    } else {
      var n := RunLength(v, false, src);
      assert src == src[..n] + src[n..];
      RunThenRest(v, src[..n], src[n..]);
      EncoderIsEncode(v, src[n..]);
    }
  }

  // ---- The decoder computes Decode ----

  /** `pend` are the bits a decoder in base64 has read but not written yet. */
  ghost predicate DecoderHolds(s: D.State, pend: BitString) {
    && D.Valid(s) && s.encoding == Base64
    && |pend| == 6 * s.step % 16
    && (s.step != 0 ==> s.bits == Value(pend) * D.Weight(s.step))
  }

  /** One sextet: the unit written, if any, and the bits held afterwards are exactly the
      bits held before and the six bits of the sextet. */
  lemma SextetToUnits(v: Variant, s: D.State, pend: BitString, c: Byte, rest: BitString) returns (pend': BitString)
    requires DecoderHolds(s, pend) && IsBase64(v, c)
    ensures var t := D.DecodeByte(v, s, c);
            && DecoderHolds(t.state, pend') && !t.state.freshBase64
            && 16 * |t.out| + |pend'| == |pend| + 6
            && pend' == (pend + Bits(CharToValue(v, c), 6))[16 * |t.out|..]
            && Units(pend + Bits(CharToValue(v, c), 6) + rest) == t.out + Units(pend' + rest)
  {
    hide Bits, Value, Units, CharToValue, IsBase64, DecoderHolds, D.Valid, D.DecodeByte, D.AfterValue, D.Addend;
    SextetDecoded(v, s, pend, c);
    var n: Sextet := CharToValue(v, c);
    if D.Completes(s.step) {
      pend' := SextetCompletes(s, pend, n, rest);
    } else {
      pend' := pend + Bits(n, 6);
      SextetExtends(s, pend, n);
    }
  }

  lemma SextetDecoded(v: Variant, s: D.State, pend: BitString, c: Byte)
    requires DecoderHolds(s, pend) && IsBase64(v, c)
    ensures var n := CharToValue(v, c);
            && n < 64 && D.Valid(s) && |pend| < 16
            && 0 <= s.bits + D.Addend(s.step, n) < 0x1_0000
            && D.DecodeByte(v, s, c)
               == Text(if D.Completes(s.step) then [s.bits + D.Addend(s.step, n)] else [], D.AfterValue(s, n))
            && !D.AfterValue(s, n).freshBase64
  {
    D.DecodeSextet(v, s, c);
  }

  lemma SextetExtends(s: D.State, pend: BitString, n: Sextet)
    requires DecoderHolds(s, pend) && !D.Completes(s.step)
    ensures DecoderHolds(D.AfterValue(s, n), pend + Bits(n, 6))
  {
    hide Bits, Value, D.AfterValue;
    if s.step == 0 {
      SextetExtendsAt0(s, n);
      assert pend + Bits(n, 6) == Bits(n, 6);
    } else if s.step == 1 {
      SextetExtendsAt1(s, pend, n);
    } else if s.step == 3 {
      SextetExtendsAt3(s, pend, n);
    } else if s.step == 4 {
      SextetExtendsAt4(s, pend, n);
    } else {
      SextetExtendsAt6(s, pend, n);
    }
  }

  lemma SextetExtendsAt0(s: D.State, n: Sextet)
    requires DecoderHolds(s, []) && s.step == 0
    ensures DecoderHolds(D.AfterValue(s, n), Bits(n, 6))
  {
    hide Bits, Value;
    PowersOfTwo();
    ValueOfBits(n, 6);
  }

  lemma SextetExtendsAt1(s: D.State, pend: BitString, n: Sextet)
    requires DecoderHolds(s, pend) && s.step == 1
    ensures DecoderHolds(D.AfterValue(s, n), pend + Bits(n, 6))
  {
    hide Bits, Value;
    PowersOfTwo();
    hide Pow2;
    ValueOfBits(n, 6);
    ValueConcat(pend, Bits(n, 6));
    assert s.bits == Value(pend) * 1024 && Value(pend + Bits(n, 6)) == Value(pend) * 64 + n;
    hide D.Valid;
    assert D.AfterValue(s, n).bits == Value(pend + Bits(n, 6)) * 16;
  }

  lemma SextetExtendsAt3(s: D.State, pend: BitString, n: Sextet)
    requires DecoderHolds(s, pend) && s.step == 3
    ensures DecoderHolds(D.AfterValue(s, n), pend + Bits(n, 6))
  {
    hide Bits, Value;
    PowersOfTwo();
    hide Pow2;
    ValueOfBits(n, 6);
    ValueConcat(pend, Bits(n, 6));
    assert s.bits == Value(pend) * 16384 && Value(pend + Bits(n, 6)) == Value(pend) * 64 + n;
    hide D.Valid;
    assert D.AfterValue(s, n).bits == Value(pend + Bits(n, 6)) * 256;
  }

  lemma SextetExtendsAt4(s: D.State, pend: BitString, n: Sextet)
    requires DecoderHolds(s, pend) && s.step == 4
    ensures DecoderHolds(D.AfterValue(s, n), pend + Bits(n, 6))
  {
    hide Bits, Value;
    PowersOfTwo();
    hide Pow2;
    ValueOfBits(n, 6);
    ValueConcat(pend, Bits(n, 6));
    assert s.bits == Value(pend) * 256 && Value(pend + Bits(n, 6)) == Value(pend) * 64 + n;
    hide D.Valid;
    assert D.AfterValue(s, n).bits == Value(pend + Bits(n, 6)) * 4;
  }

  lemma SextetExtendsAt6(s: D.State, pend: BitString, n: Sextet)
    requires DecoderHolds(s, pend) && s.step == 6
    ensures DecoderHolds(D.AfterValue(s, n), pend + Bits(n, 6))
  {
    hide Bits, Value;
    PowersOfTwo();
    hide Pow2;
    ValueOfBits(n, 6);
    ValueConcat(pend, Bits(n, 6));
    assert s.bits == Value(pend) * 4096 && Value(pend + Bits(n, 6)) == Value(pend) * 64 + n;
    hide D.Valid;
    assert D.AfterValue(s, n).bits == Value(pend + Bits(n, 6)) * 64;
  }

  lemma SextetCompletes(s: D.State, pend: BitString, n: Sextet, rest: BitString) returns (pend': BitString)
    requires DecoderHolds(s, pend) && D.Completes(s.step)
    ensures DecoderHolds(D.AfterValue(s, n), pend') && |pend'| == |pend| - 10
    ensures pend' == (pend + Bits(n, 6))[16..]
    ensures 0 <= s.bits + D.Addend(s.step, n) < 0x1_0000
    ensures Units(pend + Bits(n, 6) + rest) == [s.bits + D.Addend(s.step, n)] + Units(pend' + rest)
  {
    hide Bits, Value, Units;
    var b, i := Bits(n, 6), 16 - |pend|;
    SextetSplits(s, pend, n);
    D.AdditionIsDisjoint(s, n);
    pend' := b[i..];
    assert pend + b + rest == (pend + b[..i]) + (pend' + rest);
    UnitsTake(pend + b[..i], pend' + rest);
  }

  lemma SextetSplits(s: D.State, pend: BitString, n: Sextet)
    requires DecoderHolds(s, pend) && D.Completes(s.step)
    ensures var b, i := Bits(n, 6), 16 - |pend|;
            && 0 <= i <= 6
            && Value16(pend + b[..i]) == s.bits + D.Addend(s.step, n)
            && DecoderHolds(D.AfterValue(s, n), b[i..])
  {
    hide Bits, Value, Value16, D.Valid, D.Addend, D.AfterValue;
    if s.step == 2 {
      SextetSplitsAt2(s, pend, n);
    } else if s.step == 5 {
      SextetSplitsAt5(s, pend, n);
    } else {
      SextetSplitsAt7(s, pend, n);
    }
  }

  lemma SextetSplitsAt2(s: D.State, pend: BitString, n: Sextet)
    requires DecoderHolds(s, pend) && s.step == 2
    ensures var b := Bits(n, 6);
            && Value16(pend + b[..4]) == s.bits + D.Addend(2, n)
            && DecoderHolds(D.AfterValue(s, n), b[4..])
  {
    hide Bits, Value;
    var b := Bits(n, 6);
    PowersOfTwo();
    hide Pow2;
    ValueOfBits(n, 6);
    ValueCut(b, 4);
    assert |b[..4]| == 4 && |pend| == 12;
    ValueConcat(pend, b[..4]);
    assert s.bits == Value(pend) * 16;
    By4(n, Value(b[..4]), Value(b[4..]));
  }

  lemma SextetSplitsAt5(s: D.State, pend: BitString, n: Sextet)
    requires DecoderHolds(s, pend) && s.step == 5
    ensures var b := Bits(n, 6);
            && Value16(pend + b[..2]) == s.bits + D.Addend(5, n)
            && DecoderHolds(D.AfterValue(s, n), b[2..])
  {
    hide Bits, Value;
    var b := Bits(n, 6);
    PowersOfTwo();
    hide Pow2;
    ValueOfBits(n, 6);
    ValueCut(b, 2);
    assert |b[..2]| == 2 && |pend| == 14;
    ValueConcat(pend, b[..2]);
    assert s.bits == Value(pend) * 4;
    By16(n, Value(b[..2]), Value(b[2..]));
  }

  lemma SextetSplitsAt7(s: D.State, pend: BitString, n: Sextet)
    requires DecoderHolds(s, pend) && s.step == 7
    ensures var b := Bits(n, 6);
            && Value16(pend + b[..6]) == s.bits + D.Addend(7, n)
            && DecoderHolds(D.AfterValue(s, n), b[6..])
  {
    hide Bits, Value;
    var b := Bits(n, 6);
    PowersOfTwo();
    hide Pow2;
    ValueOfBits(n, 6);
    ValueCut(b, 6);
    assert |b[..6]| == 6 && |pend| == 10;
    ValueConcat(pend, b[..6]);
    assert s.bits == Value(pend) * 64;
    assert Value(b[..6]) == n && Value(b[6..]) == 0;
  }

  /** A run of base64 characters makes the decoder write the 16-bit groups of the bits it
      held and the bits of the run, and hold the remainder. */
  lemma {:induction false} RunIsUnits(v: Variant, s: D.State, pend: BitString, t: seq<Byte>)
    requires DecoderHolds(s, pend) && AllBase64(v, t)
    ensures var r := D.DecodeAll(v, s, t);
            var b := pend + SextetBits(Values(v, t));
            && r.out == Units(b)
            && DecoderHolds(r.state, Remainder(b)) && r.state.encoding == Base64
            && (t != [] ==> !r.state.freshBase64)
            && (t == [] ==> r.state == s)
    decreases |t|
  {
    assert |pend| < 16;
    hide D.DecodeByte, DecoderHolds, D.Valid, Bits, Units, Value, CharToValue, Remainder;
    if t == [] {
      assert pend + SextetBits(Values(v, t)) == pend;
      ShortRemainder(pend);
    } else {
      assert IsBase64(v, t[0]) && AllBase64(v, t[1..]);
      hide AllBase64, IsBase64, Values;
      var rest := SextetBits(Values(v, t[1..]));
      var six := Bits(CharToValue(v, t[0]), 6);
      ValuesCons(v, t);
      hide SextetBits;
      var pend' := SextetToUnits(v, s, pend, t[0], rest);
      var r := D.DecodeByte(v, s, t[0]);
      RemainderStep(pend, six, rest, |r.out|);
      RunIsUnits(v, r.state, pend', t[1..]);
    }
  }

  lemma RemainderStep(pend: BitString, six: BitString, rest: BitString, k: nat)
    requires 16 * k <= |pend + six|
    ensures Remainder((pend + six)[16 * k..] + rest) == Remainder(pend + (six + rest))
    ensures pend + six + rest == pend + (six + rest)
  {
    assert (pend + (six + rest))[16 * k..] == (pend + six)[16 * k..] + rest;
    SameRemainder(pend + (six + rest), k);
  }

  lemma ValuesCons(v: Variant, t: seq<Byte>)
    requires t != [] && AllBase64(v, t)
    ensures SextetBits(Values(v, t)) == Bits(CharToValue(v, t[0]), 6) + SextetBits(Values(v, t[1..]))
  {
    assert Values(v, t)[1..] == Values(v, t[1..]);
  }

  /** From any direct state, leftovers included, the decoder's units are the reference
      decoding. */
  lemma {:induction false} DecoderIsDecode(v: Variant, s: D.State, src: seq<Byte>)
    requires D.Valid(s) && s.encoding == Direct
    ensures D.DecodeAll(v, s, src).out == Decode(v, src)
    decreases |src|
  {
    if src == [] {
    } else if src[0] != EscChar(v) {
      DecodeFirst(v, s, src);
      assert D.DecodeByte(v, s, src[0]) == Text([src[0]], s);
      hide D.DecodeAll, D.DecodeByte;
      DecoderIsDecode(v, s, src[1..]);
    } else {
      ShiftInDecodes(v, s);
      DecodeFirst(v, s, src);
      hide D.DecodeByte, D.DecodeAll, D.Valid, Base64Length, RunUnits, AfterRun, Closed;
      var open := D.State(Base64, 0, 0, true);
      var tail := src[1..];
      if tail != [] && tail[0] == MINUS {
        DecodeFirst(v, open, tail);
        assert tail[1..] == src[2..];
        DecoderIsDecode(v, open.(encoding := Direct), src[2..]);
      } else {
        RunThenRestDecodes(v, open, tail);
        var n := Base64Length(v, tail);
        var t := D.DecodeAll(v, open, tail[..n]);
        AfterRunShorter(tail[n..]);
        DecoderIsDecode(v, Closed(t.state), AfterRun(tail[n..]));
      }
    }
  }

  lemma AfterRunShorter(rest: seq<Byte>)
    ensures |AfterRun(rest)| <= |rest|
  {}

  lemma DecodeFirst(v: Variant, s: D.State, src: seq<Byte>)
    requires D.Valid(s) && src != []
    ensures var t := D.DecodeByte(v, s, src[0]);
            D.DecodeAll(v, s, src).out == t.out + D.DecodeAll(v, t.state, src[1..]).out
  {}

  lemma ShiftInDecodes(v: Variant, s: D.State)
    requires D.Valid(s) && s.encoding == Direct
    ensures var open := D.State(Base64, 0, 0, true);
            && D.Valid(open) && D.Valid(open.(encoding := Direct))
            && D.DecodeByte(v, s, EscChar(v)) == Text([], open)
            && D.DecodeByte(v, open, MINUS) == Text([EscChar(v)], open.(encoding := Direct))
  {}

  /** The decoder's state once a non-empty run, or one that `-` does not follow, has ended. */
  function Closed(s: D.State): (r: D.State)
    requires D.Valid(s)
    ensures D.Valid(r) && r.encoding == Direct
  {
    s.(encoding := Direct, freshBase64 := false)
  }

  /** A base64 run and what closes it. */
  lemma RunThenRestDecodes(v: Variant, open: D.State, tail: seq<Byte>)
    requires open == D.State(Base64, 0, 0, true)
    requires tail == [] || tail[0] != MINUS
    ensures var n := Base64Length(v, tail);
            var t := D.DecodeAll(v, open, tail[..n]);
            && t.out == RunUnits(v, tail[..n])
            && D.DecodeAll(v, open, tail).out
               == t.out + D.DecodeAll(v, Closed(t.state), AfterRun(tail[n..])).out
  {
    var n := Base64Length(v, tail);
    var run, rest := tail[..n], tail[n..];
    OpenHoldsNothing(open);
    hide DecoderHolds, D.Valid, D.DecodeAll, RunUnits, Base64Length, IsBase64, AllBase64, AfterRun, Closed;
    RunFromOpen(v, open, run);
    assert tail == run + rest;
    D.DecodeAllSplit(v, open, run, rest);
    CloseRun(v, D.DecodeAll(v, open, run).state, rest);
  }

  lemma OpenHoldsNothing(open: D.State)
    requires open == D.State(Base64, 0, 0, true)
    ensures DecoderHolds(open, []) && D.Valid(open)
  {}

  /** From the escape character on, a run of k base64 characters gives floor(6k/16) units. */
  lemma RunFromOpen(v: Variant, open: D.State, run: seq<Byte>)
    requires DecoderHolds(open, []) && AllBase64(v, run)
    ensures var t := D.DecodeAll(v, open, run);
            && t.out == RunUnits(v, run) && |t.out| == 6 * |run| / 16 && t.state.encoding == Base64
            && (run != [] ==> !t.state.freshBase64) && (run == [] ==> t.state == open)
  {
    hide DecoderHolds, D.DecodeAll, Units, SextetBits, Values;
    RunIsUnits(v, open, [], run);
    assert [] + SextetBits(Values(v, run)) == SextetBits(Values(v, run));
  }

  lemma CloseRun(v: Variant, s: D.State, rest: seq<Byte>)
    requires D.Valid(s) && s.encoding == Base64
    requires rest == [] || !IsBase64(v, rest[0])
    requires rest != [] && rest[0] == MINUS ==> !s.freshBase64
    ensures D.DecodeAll(v, s, rest).out
         == D.DecodeAll(v, Closed(s), AfterRun(rest)).out
  {
    if rest != [] {
      TablesInverse(v, rest[0]);
      var direct := Closed(s);
      if rest[0] == MINUS {
        assert D.DecodeByte(v, s, MINUS) == Text([], direct);
      } else {
        assert D.DecodeByte(v, s, rest[0]) == D.DecodeByte(v, direct, rest[0]);
      }
    }
  }
}
