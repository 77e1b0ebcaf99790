/** Bit strings, most significant bit first, and their groupings by six and by sixteen.
    They are the meaning of a base64 run, independent of any accumulator. */
module BitStrings {
  import opened Alphabet

  type BitString = seq<bool>

  function Pow2(k: nat): nat {
    if k == 0 then 1 else 2 * Pow2(k - 1)
  }

  function Bits(n: nat, width: nat): (b: BitString)
    ensures |b| == width
  {
    if width == 0 then [] else Bits(n / 2, width - 1) + [n % 2 == 1]
  }

  function Value(b: BitString): nat {
    if b == [] then 0
    else 2 * Value(b[..|b| - 1]) + (if b[|b| - 1] then 1 else 0)
  }

  function Zeros(k: nat): (b: BitString)
    ensures |b| == k
  {
    seq(k, _ => false)
  }

  /** The concatenated 16-bit representations of the units. */
  function UnitBits(us: seq<Unit>): (b: BitString)
    ensures |b| == 16 * |us|
  {
    if us == [] then [] else Bits(us[0], 16) + UnitBits(us[1..])
  }

  /** The concatenated 6-bit representations of the sextets. */
  function SextetBits(vs: seq<Sextet>): (b: BitString)
    ensures |b| == 6 * |vs|
  {
    if vs == [] then [] else Bits(vs[0], 6) + SextetBits(vs[1..])
  }

  function Value6(b: BitString): Sextet
    requires |b| == 6
  {
    ValueBound(b);
    Value(b)
  }

  function Value16(b: BitString): Unit
    requires |b| == 16
  {
    ValueBound(b);
    Value(b)
  }

  /** Groups of six bits, the last one padded with zero bits. */
  function Sextets(b: BitString): (vs: seq<Sextet>)
    ensures |vs| == (|b| + 5) / 6
  {
    if b == [] then []
    else if |b| < 6 then [Value6(b + Zeros(6 - |b|))]
    else [Value6(b[..6])] + Sextets(b[6..])
  }

  /** Groups of sixteen bits, an incomplete last group dropped. */
  function Units(b: BitString): (us: seq<Unit>)
    ensures |us| == |b| / 16
  {
    if |b| < 16 then [] else [Value16(b[..16])] + Units(b[16..])
  }

  /** The bits of the incomplete last group of sixteen. */
  function Remainder(b: BitString): (r: BitString)
    ensures |r| == |b| % 16
  {
    b[|b| - |b| % 16..]
  }

  lemma PowersOfTwo()
    ensures Pow2(2) == 4 && Pow2(4) == 16 && Pow2(6) == 64
    ensures Pow2(8) == 256 && Pow2(10) == 1024 && Pow2(12) == 4096
    ensures Pow2(14) == 16384 && Pow2(16) == 65536
  {
    assert Pow2(4) == 16;
    assert Pow2(8) == 256;
    assert Pow2(12) == 4096;
  }

  lemma {:induction false} ValueBound(b: BitString)
    ensures Value(b) < Pow2(|b|)
    ensures |b| == 6 ==> Value(b) < 64
    ensures |b| == 16 ==> Value(b) < 0x1_0000
  {
    PowersOfTwo();
    if b != [] { ValueBound(b[..|b| - 1]); }
  }

  lemma {:induction false} ValueOfBits(n: nat, width: nat)
    requires n < Pow2(width)
    ensures Value(Bits(n, width)) == n
  {
    if width > 0 {
      ValueOfBits(n / 2, width - 1);
      assert Bits(n, width)[..width - 1] == Bits(n / 2, width - 1);
    }
  }

  lemma {:induction false} BitsOfValue(b: BitString)
    ensures Bits(Value(b), |b|) == b
  {
    if b != [] {
      BitsOfValue(b[..|b| - 1]);
      assert b == b[..|b| - 1] + [b[|b| - 1]];
    }
  }

  lemma {:induction false} ValueConcat(a: BitString, b: BitString)
    ensures Value(a + b) == Value(a) * Pow2(|b|) + Value(b)
  {
    if b == [] {
      assert a + b == a;
    } else {
      var b' := b[..|b| - 1];
      assert (a + b)[..|a + b| - 1] == a + b';
      ValueConcat(a, b');
      ValueUnfold(a + b);
      ValueUnfold(b);
      assert Pow2(|b|) == 2 * Pow2(|b'|);
      hide Value, Pow2;
      DoubledProduct(Value(a), Pow2(|b'|));
    }
  }

  lemma ValueUnfold(b: BitString)
    requires b != []
    ensures Value(b) == 2 * Value(b[..|b| - 1]) + (if b[|b| - 1] then 1 else 0)
  {}

  lemma DoubledProduct(x: int, y: int)
    ensures x * (2 * y) == 2 * (x * y)
  {}

  /** A bit string cut in two, by value. */
  lemma ValueCut(b: BitString, i: nat)
    requires i <= |b|
    ensures Value(b) == Value(b[..i]) * Pow2(|b| - i) + Value(b[i..])
    ensures Value(b[i..]) < Pow2(|b| - i)
  {
    assert b == b[..i] + b[i..];
    ValueConcat(b[..i], b[i..]);
    ValueBound(b[i..]);
  }

  lemma {:induction false} ValueZeros(k: nat)
    ensures Value(Zeros(k)) == 0
  {
    if k > 0 {
      assert Zeros(k)[..k - 1] == Zeros(k - 1);
      ValueZeros(k - 1);
    }
  }

  /** Sixteen-bit grouping undoes concatenation, whatever short tail follows. */
  lemma {:induction false} UnitsOfUnitBits(us: seq<Unit>, tail: BitString)
    requires |tail| < 16
    ensures Units(UnitBits(us) + tail) == us
  {
    if us == [] {
      assert UnitBits(us) + tail == tail;
    } else {
      PowersOfTwo();
      var b := UnitBits(us) + tail;
      assert b[..16] == Bits(us[0], 16);
      assert b[16..] == UnitBits(us[1..]) + tail;
      ValueOfBits(us[0], 16);
      UnitsOfUnitBits(us[1..], tail);
    }
  }

  /** Six-bit grouping keeps every bit and only adds zero bits at the end. */
  lemma {:induction false} SextetBitsOfSextets(b: BitString)
    ensures SextetBits(Sextets(b)) == b + Zeros(PadLength(|b|))
  {
    NoSextets();
    hide Sextets, Bits, Value, SextetBits, PadLength, Value6;
    if b == [] {
    } else if |b| < 6 {
      LastSextet(b);
    } else {
      SextetBitsOfSextets(b[6..]);
      FirstSextet(b[..6], b[6..]);
      assert b == b[..6] + b[6..];
    }
  }

  /** The number of zero bits that complete the last group of six. */
  function PadLength(n: nat): nat {
    6 * ((n + 5) / 6) - n
  }

  lemma FirstSextet(b: BitString, rest: BitString)
    requires |b| == 6
    requires SextetBits(Sextets(rest)) == rest + Zeros(PadLength(|rest|))
    ensures SextetBits(Sextets(b + rest)) == (b + rest) + Zeros(PadLength(|b + rest|))
  {
    hide Bits, Value, Sextets, SextetBits, Zeros;
    BitsOfValue(b);
    SextetsTake(b, rest);
    SextetBitsCons(Value6(b), Sextets(rest));
    assert PadLength(|b + rest|) == PadLength(|rest|);
  }

  lemma SextetsTake(b: BitString, rest: BitString)
    requires |b| == 6
    ensures Sextets(b + rest) == [Value6(b)] + Sextets(rest)
  {
    assert (b + rest)[..6] == b && (b + rest)[6..] == rest;
  }

  lemma LastSextet(b: BitString)
    requires 0 < |b| < 6
    ensures SextetBits(Sextets(b)) == b + Zeros(PadLength(|b|))
  {
    PaddedSextet(b);
    NoSextets();
    hide Sextets, Zeros, Bits, Value, SextetBits, PadLength;
    var padded := b + Zeros(6 - |b|);
    BitsOfValue(padded);
    SextetBitsCons(Value6(padded), []);
  }

  lemma PaddedSextet(b: BitString)
    requires 0 < |b| < 6
    ensures Sextets(b) == [Value6(b + Zeros(6 - |b|))] + [] && PadLength(|b|) == 6 - |b|
  {
    hide Bits, Value;
  }

  lemma NoSextets()
    ensures SextetBits([]) == [] && Sextets([]) == [] && PadLength(0) == 0
  {}

  lemma SextetBitsCons(n: Sextet, vs: seq<Sextet>)
    ensures SextetBits([n] + vs) == Bits(n, 6) + SextetBits(vs)
  {
    assert ([n] + vs)[1..] == vs;
  }

  /** Six-bit grouping undoes concatenation. */
  lemma {:induction false} SextetsOfSextetBits(vs: seq<Sextet>)
    ensures Sextets(SextetBits(vs)) == vs
  {
    if vs != [] {
      PowersOfTwo();
      var b := SextetBits(vs);
      assert b[..6] == Bits(vs[0], 6);
      assert b[6..] == SextetBits(vs[1..]);
      ValueOfBits(vs[0], 6);
      SextetsOfSextetBits(vs[1..]);
    }
  }

  /** Concatenation undoes sixteen-bit grouping, up to the dropped remainder. */
  lemma {:induction false} UnitBitsOfUnits(b: BitString)
    ensures UnitBits(Units(b)) == b[..|b| - |Remainder(b)|]
  {
    if |b| >= 16 {
      UnitBitsOfUnits(b[16..]);
      FirstUnit(b[..16], b[16..]);
      assert b == b[..16] + b[16..];
    }
  }

  lemma FirstUnit(b: BitString, rest: BitString)
    requires |b| == 16
    requires UnitBits(Units(rest)) == rest[..|rest| - |Remainder(rest)|]
    ensures UnitBits(Units(b + rest)) == (b + rest)[..|b + rest| - |Remainder(b + rest)|]
  {
    hide Bits, Value, UnitBits, Units, Remainder;
    BitsOfValue(b);
    UnitsTake(b, rest);
    UnitBitsCons(Value16(b), Units(rest));
  }

  lemma UnitsTake(b: BitString, rest: BitString)
    requires |b| == 16
    ensures Units(b + rest) == [Value16(b)] + Units(rest)
  {
    assert (b + rest)[..16] == b && (b + rest)[16..] == rest;
  }

  lemma UnitBitsCons(u: Unit, us: seq<Unit>)
    ensures UnitBits([u] + us) == Bits(u, 16) + UnitBits(us)
  {
    assert ([u] + us)[1..] == us;
  }

  /** Trailing zero bits that only complete the last group of six change nothing. */
  lemma {:induction false} SextetsIgnorePadding(b: BitString, k: nat)
    requires k == PadLength(|b|)
    ensures Sextets(b + Zeros(k)) == Sextets(b)
  {
    if |b| < 6 {
      assert b + Zeros(0) == b;
      if b != [] {
        assert k == 6 - |b|;
        assert (b + Zeros(k))[..6] == b + Zeros(k);
        assert (b + Zeros(k))[6..] == [];
      }
    } else {
      assert (b + Zeros(k))[..6] == b[..6];
      assert (b + Zeros(k))[6..] == b[6..] + Zeros(k);
      SextetsIgnorePadding(b[6..], k);
    }
  }

  lemma ShortRemainder(b: BitString)
    requires |b| < 16
    ensures Units(b) == [] && Remainder(b) == b
  {}

  /** Dropping complete groups from the front keeps the remainder. */
  lemma SameRemainder(b: BitString, k: nat)
    requires 16 * k <= |b|
    ensures Remainder(b[16 * k..]) == Remainder(b)
  {}
}
