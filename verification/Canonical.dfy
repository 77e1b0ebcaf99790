/** The strings of the grammar of section 5.1.3 of RFC 3501 (and its analogue for UTF-7):
    exactly the finished texts, and exactly the strings that survive decoding and
    re-encoding. */
module Canonical {
  import opened Alphabet
  import opened BitStrings
  import opened Division
  import opened Reference
  import E = EncoderMachine
  import D = DecoderMachine
  import RoundTrip

  /** A base64 run: not empty, of length 0, 3 or 6 mod 8 so that fewer than six bits are
      left over, these bits zero, and no unit that can represent itself. */
  ghost predicate CanonicalRun(v: Variant, t: seq<Byte>) {
    && t != []
    && AllBase64(v, t)
    && |t| % 8 in {0, 3, 6}
    && (var b := SextetBits(Values(v, t));
        Remainder(b) == Zeros(|b| % 16))
    && (forall u :: u in RunUnits(v, t) ==> !DirectEncodable(v, u))
  }

  /** The text goes straight back into base64: a null shift if it follows a run. */
  predicate ShiftsIntoBase64(v: Variant, t: seq<Byte>) {
    |t| > 1 && t[0] == EscChar(v) && IsBase64(v, t[1])
  }

  ghost predicate Canonical(v: Variant, t: seq<Byte>)
    decreases |t|
  {
    if t == [] then true
    else if t[0] != EscChar(v) then DirectEncodable(v, t[0]) && Canonical(v, t[1..])
    else
      var tail := t[1..];
      var n := Base64Length(v, tail);
      && n < |tail| && tail[n] == MINUS
      && (if n == 0 then DirectEncodable(v, EscChar(v))
          else CanonicalRun(v, tail[..n]) && !ShiftsIntoBase64(v, tail[n + 1..]))
      && Canonical(v, tail[n + 1..])
  }

  // ---- Finished texts are canonical ----

  lemma LengthOfSextets(m: nat, n: nat)
    requires n == (16 * m + 5) / 6
    ensures n % 8 in {0, 3, 6}
    ensures 6 * n % 16 == 6 * n - 16 * m == PadLength(16 * m)
    ensures n == (8 * m + 2) / 3
  {
    var q := m / 3;
    if m == 3 * q {
      SextetsOfUnits(q, 0, 0);
    } else if m == 3 * q + 1 {
      SextetsOfUnits(q, 1, 3);
    } else {
      assert m == 3 * q + 2;
      SextetsOfUnits(q, 2, 6);
    }
  }

  /** Three units are eight sextets, one more is three, two more are six. */
  lemma SextetsOfUnits(q: nat, k: nat, r: nat)
    requires (k == 0 && r == 0) || (k == 1 && r == 3) || (k == 2 && r == 6)
    ensures var m, n := 3 * q + k, 8 * q + r;
            && (16 * m + 5) / 6 == n && (8 * m + 2) / 3 == n
            && n % 8 == r && 6 * n % 16 == 6 * n - 16 * m
  {
    var m, n := 3 * q + k, 8 * q + r;
    By6(16 * m + 5, n, 16 * m + 5 - 6 * n);
    By3(8 * m + 2, n, 8 * m + 2 - 3 * n);
    By8(n, q, r);
    By16(6 * n, m, 6 * n - 16 * m);
  }

  /** The text of a run is a canonical run and its units are the run. */
  lemma Base64TextIsCanonical(v: Variant, us: seq<Unit>)
    requires us != [] && forall k :: 0 <= k < |us| ==> !DirectEncodable(v, us[k])
    ensures var t := Base64Text(v, us);
            && CanonicalRun(v, t) && RunUnits(v, t) == us
            && |t| == (8 * |us| + 2) / 3
  {
    var vs := Sextets(UnitBits(us));
    var t := Base64Text(v, us);
    var pad := PadLength(|UnitBits(us)|);
    LengthOfSextets(|us|, |t|);
    ValuesInvertCharacters(v, vs);
    SextetBitsOfSextets(UnitBits(us));
    hide Sextets, SextetBits, UnitBits, Units;
    var b := UnitBits(us) + Zeros(pad);
    assert SextetBits(Values(v, t)) == b;
    UnitsOfUnitBits(us, Zeros(pad));
    assert |b| % 16 == pad;
    assert Remainder(b) == Zeros(pad);
  }

  lemma {:induction false} Base64LengthStops(v: Variant, t: seq<Byte>, rest: seq<Byte>)
    requires AllBase64(v, t) && (rest == [] || !IsBase64(v, rest[0]))
    ensures Base64Length(v, t + rest) == |t|
  {
    if t == [] {
      assert t + rest == rest;
    } else {
      assert IsBase64(v, t[0]) && (t + rest)[1..] == t[1..] + rest;
      Base64LengthStops(v, t[1..], rest);
    }
  }

  lemma EncodeStartsDirect(v: Variant, src: seq<Unit>)
    requires src == [] || DirectEncodable(v, src[0])
    ensures !ShiftsIntoBase64(v, Encode(v, src))
  {
    TablesInverse(v, MINUS);
  }

  /** Every finished text is in the grammar. */
  lemma {:induction false} EncodeIsCanonical(v: Variant, src: seq<Unit>)
    ensures Canonical(v, Encode(v, src))
    decreases |src|
  {
    hide Canonical, CanonicalRun, RunUnits, Base64Text, DirectEncodable, ShiftsIntoBase64;
    if src == [] {
      NothingIsCanonical(v);
    } else if DirectEncodable(v, src[0]) {
      EncodeIsCanonical(v, src[1..]);
      if src[0] == EscChar(v) {
        CanonicalEscape(v, Encode(v, src[1..]));
        assert Encode(v, src) == [EscChar(v)] + ([MINUS] + Encode(v, src[1..]));
      } else {
        DirectSet(v, src[0]);
        CanonicalDirect(v, src[0], Encode(v, src[1..]));
      }
    } else {
      hide Encode;
      var n := RunLength(v, false, src);
      Base64TextIsCanonical(v, src[..n]);
      EncodeIsCanonical(v, src[n..]);
      EncodeStartsDirect(v, src[n..]);
      EncodeOfRun(v, src);
      CanonicalRunThenRest(v, Base64Text(v, src[..n]), Encode(v, src[n..]));
    }
  }

  lemma NothingIsCanonical(v: Variant)
    ensures Canonical(v, [])
  {}

  lemma CanonicalDirect(v: Variant, b: Byte, rest: seq<Byte>)
    requires DirectEncodable(v, b) && b != EscChar(v)
    ensures Canonical(v, [b] + rest) <==> Canonical(v, rest)
  {
    assert ([b] + rest)[1..] == rest;
  }

  lemma CanonicalEscape(v: Variant, rest: seq<Byte>)
    requires DirectEncodable(v, EscChar(v))
    ensures Canonical(v, [EscChar(v)] + ([MINUS] + rest)) <==> Canonical(v, rest)
  {
    var tail := [MINUS] + rest;
    TablesInverse(v, MINUS);
    assert ([EscChar(v)] + tail)[1..] == tail;
    assert Base64Length(v, tail) == 0;
    assert tail[1..] == rest;
  }

  lemma CanonicalRunThenRest(v: Variant, run: seq<Byte>, rest: seq<Byte>)
    requires CanonicalRun(v, run) && !ShiftsIntoBase64(v, rest) && Canonical(v, rest)
    ensures Canonical(v, [EscChar(v)] + run + [MINUS] + rest)
  {
    hide CanonicalRun, Base64Length, DirectEncodable, ShiftsIntoBase64, AllBase64, IsBase64;
    CanonicalRunUnits(v, run);
    var tail := run + ([MINUS] + rest);
    TablesInverse(v, MINUS);
    Base64LengthStops(v, run, [MINUS] + rest);
    var t := [EscChar(v)] + run + [MINUS] + rest;
    assert t[0] == EscChar(v) && t[1..] == tail;
    assert tail[..|run|] == run && tail[|run| + 1..] == rest;
  }

  // ---- Canonical strings are finished texts ----

  /** A canonical run is the base64 text of its units. */
  lemma CanonicalRunIsBase64Text(v: Variant, t: seq<Byte>)
    requires CanonicalRun(v, t)
    ensures Base64Text(v, RunUnits(v, t)) == t
    ensures RunUnits(v, t) != []
  {
    hide CanonicalRun, AllBase64, Remainder, Zeros, Sextets, SextetBits, UnitBits, Units, Values, Characters;
    CanonicalRunBits(v, t);
    var vs := Values(v, t);
    CanonicalBits(SextetBits(vs));
    SextetsOfSextetBits(vs);
    CharactersInvertValues(v, t);
  }

  lemma CanonicalRunBits(v: Variant, t: seq<Byte>)
    requires CanonicalRun(v, t)
    ensures AllBase64(v, t)
    ensures var b := SextetBits(Values(v, t));
            |b| % 6 == 0 && |b| % 16 < 6 <= 16 <= |b| && Remainder(b) == Zeros(|b| % 16)
  {
    hide AllBase64, SextetBits, Values, RunUnits, DirectEncodable, Remainder, Zeros;
    LengthModulo(|t|);
    By6(6 * |t|, |t|, 0);
  }

  /** A bit string in sextets whose incomplete last unit is short and zero. */
  lemma CanonicalBits(b: BitString)
    requires |b| % 6 == 0 && |b| % 16 < 6 && Remainder(b) == Zeros(|b| % 16)
    ensures Sextets(UnitBits(Units(b))) == Sextets(b)
  {
    hide Sextets, UnitBits, Units, Remainder, Zeros, PadLength;
    var k := |b| % 16;
    UnitBitsOfUnits(b);
    CutAtRemainder(b);
    PadOfWhole(|b|, k);
    SextetsIgnorePadding(UnitBits(Units(b)), k);
  }

  lemma CutAtRemainder(b: BitString)
    ensures b == b[..|b| - |b| % 16] + Remainder(b)
  {}

  lemma PadOfWhole(n: nat, k: nat)
    requires n % 6 == 0 && k < 6 && k <= n
    ensures PadLength(n - k) == k
  {
    By6(n - k + 5, n / 6, 5 - k);
  }

  lemma LengthModulo(n: nat)
    requires n > 0 && n % 8 in {0, 3, 6}
    ensures 6 * n % 16 < 6 && 6 * n >= 16
  {
    var q, r := n / 8, n % 8;
    SextetsOfUnits(q, r / 3, r);
  }

  /** The units of a canonical string begin with a unit outside the direct set only if the
      string begins with a shift into base64. */
  lemma DecodeStartsDirect(v: Variant, t: seq<Byte>)
    requires Canonical(v, t) && !ShiftsIntoBase64(v, t)
    ensures Decode(v, t) == [] || DirectEncodable(v, Decode(v, t)[0])
  {
    if t != [] && t[0] == EscChar(v) {
      var tail := t[1..];
      assert Base64Length(v, tail) == 0;
      assert t[1] == MINUS;
    }
  }

  lemma {:induction false} RunLengthStops(v: Variant, us: seq<Unit>, rest: seq<Unit>)
    requires forall u :: u in us ==> !DirectEncodable(v, u)
    requires rest == [] || DirectEncodable(v, rest[0])
    ensures RunLength(v, false, us + rest) == |us|
  {
    if us == [] {
      assert us + rest == rest;
    } else {
      assert us[0] in us && (us + rest)[1..] == us[1..] + rest;
      RunLengthStops(v, us[1..], rest);
    }
  }

  lemma EncodeRunThenRest(v: Variant, us: seq<Unit>, rest: seq<Unit>)
    requires us != [] && forall u :: u in us ==> !DirectEncodable(v, u)
    requires rest == [] || DirectEncodable(v, rest[0])
    ensures Encode(v, us + rest) == [EscChar(v)] + Base64Text(v, us) + [MINUS] + Encode(v, rest)
  {
    RunLengthStops(v, us, rest);
    assert (us + rest)[0] == us[0] && us[0] in us;
    assert (us + rest)[..|us|] == us && (us + rest)[|us|..] == rest;
    hide Base64Text, RunLength;
    EncodeOfRun(v, us + rest);
  }

  lemma DecodeOfRun(v: Variant, t: seq<Byte>)
    requires t != [] && t[0] == EscChar(v)
    requires var tail := t[1..]; var n := Base64Length(v, tail); 0 < n < |tail| && tail[n] == MINUS
    ensures var tail := t[1..];
            var n := Base64Length(v, tail);
            Decode(v, t) == RunUnits(v, tail[..n]) + Decode(v, tail[n + 1..])
  {
    TablesInverse(v, MINUS);
    var tail := t[1..];
    var n := Base64Length(v, tail);
    assert t[1] == tail[..n][0];
    assert AfterRun(tail[n..]) == tail[n + 1..];
  }

  /** What follows an escape character in a canonical string. */
  lemma CanonicalAfterEscape(v: Variant, t: seq<Byte>)
    requires Canonical(v, t) && t != [] && t[0] == EscChar(v)
    ensures var tail := t[1..];
            var n := Base64Length(v, tail);
            && n < |tail| && tail[n] == MINUS
            && Canonical(v, tail[n + 1..])
            && t == [EscChar(v)] + tail[..n] + [MINUS] + tail[n + 1..]
            && (n == 0 ==> DirectEncodable(v, EscChar(v)))
            && (n > 0 ==> CanonicalRun(v, tail[..n]) && !ShiftsIntoBase64(v, tail[n + 1..]))
  {
    hide CanonicalRun, DirectEncodable, ShiftsIntoBase64, Base64Length, IsBase64;
    var tail := t[1..];
    var n := Base64Length(v, tail);
    assert n < |tail| && tail[n] == MINUS;
    SplitAtMinus(t, n);
  }

  lemma SplitAtMinus(t: seq<Byte>, n: nat)
    requires t != [] && n < |t| - 1 && t[1..][n] == MINUS
    ensures t == [t[0]] + t[1..][..n] + [MINUS] + t[1..][n + 1..]
  {}

  lemma CanonicalFirst(v: Variant, t: seq<Byte>)
    requires Canonical(v, t) && t != [] && t[0] != EscChar(v)
    ensures DirectEncodable(v, t[0]) && Canonical(v, t[1..])
  {}

  lemma EmptyShiftSurvives(v: Variant, rest: seq<Byte>)
    requires DirectEncodable(v, EscChar(v)) && Encode(v, Decode(v, rest)) == rest
    ensures var t := [EscChar(v), MINUS] + rest;
            Encode(v, Decode(v, t)) == t
  {
    var t := [EscChar(v), MINUS] + rest;
    assert t[2..] == rest;
    assert Decode(v, t)[1..] == Decode(v, rest);
  }

  lemma DirectSurvives(v: Variant, b: Byte, rest: seq<Byte>)
    requires DirectEncodable(v, b) && b != EscChar(v) && Encode(v, Decode(v, rest)) == rest
    ensures Encode(v, Decode(v, [b] + rest)) == [b] + rest
  {
    assert ([b] + rest)[1..] == rest;
    assert Decode(v, [b] + rest)[1..] == Decode(v, rest);
  }

  /** Decoding and re-encoding leaves every canonical string as it is. */
  lemma {:induction false} CanonicalSurvives(v: Variant, t: seq<Byte>)
    requires Canonical(v, t)
    ensures Encode(v, Decode(v, t)) == t
    decreases |t|
  {
    hide Canonical, Encode, Decode, CanonicalRun, RunUnits, Base64Text, AllBase64;
    hide DirectEncodable, Base64Length, ShiftsIntoBase64, IsBase64;
    if t == [] {
      NothingSurvives(v);
    } else if t[0] != EscChar(v) {
      CanonicalFirst(v, t);
      CanonicalSurvives(v, t[1..]);
      FirstSurvives(v, t);
    } else {
      var n := CanonicalRest(v, t);
      CanonicalSurvives(v, t[1..][n + 1..]);
      if n == 0 {
        EscapeSurvives(v, t);
      } else {
        RunSurvives(v, t);
      }
    }
  }

  lemma CanonicalRest(v: Variant, t: seq<Byte>) returns (n: nat)
    requires Canonical(v, t) && t != [] && t[0] == EscChar(v)
    ensures n == Base64Length(v, t[1..]) < |t| - 1 && Canonical(v, t[1..][n + 1..])
  {
    hide CanonicalRun, DirectEncodable, ShiftsIntoBase64, Base64Length, IsBase64;
    n := Base64Length(v, t[1..]);
  }

  lemma FirstSurvives(v: Variant, t: seq<Byte>)
    requires t != [] && DirectEncodable(v, t[0]) && t[0] != EscChar(v) && Encode(v, Decode(v, t[1..])) == t[1..]
    ensures Encode(v, Decode(v, t)) == t
  {
    hide Encode, Decode, DirectEncodable;
    DirectSurvives(v, t[0], t[1..]);
    assert t == [t[0]] + t[1..];
  }

  lemma EscapeSurvives(v: Variant, t: seq<Byte>)
    requires Canonical(v, t) && t != [] && t[0] == EscChar(v) && Base64Length(v, t[1..]) == 0
    requires |t| > 1 && Encode(v, Decode(v, t[1..][1..])) == t[1..][1..]
    ensures Encode(v, Decode(v, t)) == t
  {
    hide Canonical, Encode, Decode, CanonicalRun, DirectEncodable, Base64Length, ShiftsIntoBase64, IsBase64;
    CanonicalAfterEscape(v, t);
    EmptyShiftSurvives(v, t[1..][1..]);
    assert t == [EscChar(v), MINUS] + t[1..][1..];
  }

  lemma NothingSurvives(v: Variant)
    ensures Encode(v, Decode(v, [])) == []
  {}

  lemma RunSurvives(v: Variant, t: seq<Byte>)
    requires Canonical(v, t) && t != [] && t[0] == EscChar(v)
    requires var n := Base64Length(v, t[1..]);
             0 < n < |t| - 1 && Encode(v, Decode(v, t[1..][n + 1..])) == t[1..][n + 1..]
    ensures Encode(v, Decode(v, t)) == t
  {
    hide Canonical, Encode, Decode, CanonicalRun, RunUnits, Base64Text, AllBase64;
    hide DirectEncodable, Base64Length, ShiftsIntoBase64, IsBase64;
    CanonicalAfterEscape(v, t);
    var tail := t[1..];
    var n := Base64Length(v, tail);
    var run, rest := tail[..n], tail[n + 1..];
    CanonicalRunIsBase64Text(v, run);
    CanonicalRunUnits(v, run);
    DecodeStartsDirect(v, rest);
    DecodeOfRun(v, t);
    EncodeRunThenRest(v, RunUnits(v, run), Decode(v, rest));
  }

  lemma CanonicalRunUnits(v: Variant, t: seq<Byte>)
    requires CanonicalRun(v, t)
    ensures t != [] && AllBase64(v, t) && forall u :: u in RunUnits(v, t) ==> !DirectEncodable(v, u)
  {}

  // ---- The state machines ----

  /** What the decoder and then the encoder make of a string. */
  function Normalised(v: Variant, t: seq<Byte>): seq<Byte> {
    E.Finished(v, E.RESET, D.DecodeAll(v, D.RESET, t).out)
  }

  /** A 7-bit string survives decoding and re-encoding exactly when it is in the grammar. */
  lemma SurvivesIffCanonical(v: Variant, t: seq<Byte>)
    ensures Normalised(v, t) == t <==> Canonical(v, t)
  {
    var us := Decode(v, t);
    DecoderIsDecode(v, D.RESET, t);
    EncoderIsEncode(v, us);
    EncodeIsCanonical(v, us);
    if Canonical(v, t) { CanonicalSurvives(v, t); }
  }

  /** The grammar is exactly the set of finished texts. */
  lemma CanonicalIffFinishedText(v: Variant, t: seq<Byte>)
    ensures Canonical(v, t) <==> exists src: seq<Unit> :: E.Finished(v, E.RESET, src) == t
  {
    if Canonical(v, t) {
      SurvivesIffCanonical(v, t);
      assert E.Finished(v, E.RESET, D.DecodeAll(v, D.RESET, t).out) == t;
    }
    forall src: seq<Unit> | E.Finished(v, E.RESET, src) == t ensures Canonical(v, t) {
      EncoderIsEncode(v, src);
      EncodeIsCanonical(v, src);
    }
  }

  /** Normalising is idempotent and keeps the meaning, on every 7-bit string. */
  lemma NormalisingIsIdempotent(v: Variant, t: seq<Byte>)
    ensures Normalised(v, Normalised(v, t)) == Normalised(v, t)
    ensures D.DecodeAll(v, D.RESET, Normalised(v, t)).out == D.DecodeAll(v, D.RESET, t).out
  {
    RoundTrip.RoundTrip(v, D.RESET, D.DecodeAll(v, D.RESET, t).out);
  }

  /** Modified UTF-7 is printable US-ASCII throughout. */
  lemma {:induction false} CanonicalIsPrintable(t: seq<Byte>)
    requires Canonical(ModifiedUtf7, t)
    ensures forall k :: 0 <= k < |t| ==> 0x20 <= t[k] <= 0x7e
    decreases |t|
  {
    hide Canonical, DirectEncodable, CanonicalRun, ShiftsIntoBase64, Base64Length, IsBase64, AllBase64;
    var v := ModifiedUtf7;
    if t != [] {
      if t[0] != EscChar(v) {
        CanonicalFirst(v, t);
        DirectSet(v, t[0]);
        CanonicalIsPrintable(t[1..]);
        assert t == [t[0]] + t[1..];
        DirectIsPrintable(t[0]);
      } else {
        CanonicalAfterEscape(v, t);
        var tail := t[1..];
        var n := Base64Length(v, tail);
        CanonicalIsPrintable(tail[n + 1..]);
        Base64IsPrintable(v, tail[..n]);
      }
    }
  }

  lemma DirectIsPrintable(u: Unit)
    requires DirectEncodable(ModifiedUtf7, u)
    ensures 0x20 <= u <= 0x7e
  {}

  lemma Base64IsPrintable(v: Variant, t: seq<Byte>)
    requires AllBase64(v, t)
    ensures forall k :: 0 <= k < |t| ==> 0x20 <= t[k] <= 0x7e
  {}

  /** Everything the modified encoder ever writes, under any buffers, is printable US-ASCII. */
  lemma OutputIsPrintable(src: seq<Unit>, rooms: seq<nat>)
    ensures var out := E.ConvertOver(ModifiedUtf7, E.RESET, src, rooms).out;
            forall k :: 0 <= k < |out| ==> 0x20 <= out[k] <= 0x7e
  {
    var t := E.Finished(ModifiedUtf7, E.RESET, src);
    E.AnyBuffersSameText(ModifiedUtf7, E.RESET, src, rooms);
    CanonicalIffFinishedText(ModifiedUtf7, t);
    CanonicalIsPrintable(t);
  }

  /** The cost of a base64 run of m units: 2 + ceil(8m/3) bytes. */
  lemma RunLengthExact(v: Variant, us: seq<Unit>)
    requires us != [] && forall k :: 0 <= k < |us| ==> !DirectEncodable(v, us[k])
    ensures |E.Finished(v, E.RESET, us)| == 2 + (8 * |us| + 2) / 3
  {
    EncoderIsEncode(v, us);
    Base64TextIsCanonical(v, us);
    forall u | u in us ensures !DirectEncodable(v, u) {}
    EncodeRunThenRest(v, us, []);
    assert us + [] == us;
  }
}
