/** The character sets written out, and what the codec makes of plain text: laws stated by
    literal characters, apart from the predicates and tables that the code tests with. */
module PlainText {
  import opened Alphabet
  import opened Outcomes
  import E = EncoderMachine
  import D = DecoderMachine
  import opened Reference
  import Canonical

  const UPPER := "ABCDEFGHIJKLMNOPQRSTUVWXYZ"
  const LOWER := "abcdefghijklmnopqrstuvwxyz"
  const DIGITS := "0123456789"
  const PUNCTUATION := "'(),-./:? \t\r\n<!\">=;[]"

  /** The base64 characters by value. */
  function Base64Characters(v: Variant): (s: string)
    ensures |s| == 64
  {
    UPPER + LOWER + DIGITS + (if v.Utf7? then "+/" else "+,")
  }

  /** The code is that of a character of the string. */
  predicate Occurs(code: int, s: string) {
    exists n | 0 <= n < |s| :: s[n] as int == code
  }

  lemma OccursInEither(code: int, s: string, t: string)
    ensures Occurs(code, s + t) <==> Occurs(code, s) || Occurs(code, t)
  {
    if n :| 0 <= n < |s| && s[n] as int == code { assert (s + t)[n] == s[n]; }
    if n :| 0 <= n < |t| && t[n] as int == code { assert (s + t)[|s| + n] == t[n]; }
  }

  /** The units that each variant writes as they are. */
  predicate Plain(v: Variant, u: Unit) {
    match v
    case Utf7 => Occurs(u, UPPER + LOWER + DIGITS + PUNCTUATION)
    case ModifiedUtf7 => ' ' as int <= u <= '~' as int && u != '&' as int
  }

  // ---- The base64 alphabet ----

  lemma UpperAt(n: nat)
    requires n < 26
    ensures UPPER[n] as int == 65 + n
  {
    match n
    case 0 => case 1 => case 2 => case 3 => case 4 => case 5 => case 6 =>
    case 7 => case 8 => case 9 => case 10 => case 11 => case 12 =>
    case 13 => case 14 => case 15 => case 16 => case 17 => case 18 => case 19 =>
    case 20 => case 21 => case 22 => case 23 => case 24 => case 25 =>
  }

  lemma LowerAt(n: nat)
    requires n < 26
    ensures LOWER[n] as int == 97 + n
  {
    match n
    case 0 => case 1 => case 2 => case 3 => case 4 => case 5 => case 6 =>
    case 7 => case 8 => case 9 => case 10 => case 11 => case 12 =>
    case 13 => case 14 => case 15 => case 16 => case 17 => case 18 => case 19 =>
    case 20 => case 21 => case 22 => case 23 => case 24 => case 25 =>
  }

  lemma DigitAt(n: nat)
    requires n < 10
    ensures DIGITS[n] as int == 48 + n
  {
    match n
    case 0 => case 1 => case 2 => case 3 => case 4 => case 5 => case 6 => case 7 => case 8 => case 9 =>
  }

  lemma LiteralLengths()
    ensures |UPPER| == |LOWER| == 26 && |DIGITS| == 10 && |PUNCTUATION| == 21
  {}

  /** Value n stands for character n of the alphabet. */
  lemma AlphabetIs(v: Variant, n: nat)
    requires n < 64
    ensures ValueToChar(v, n) == Base64Characters(v)[n] as int
  {
    hide UPPER, LOWER, DIGITS;
    assert |UPPER| == |LOWER| == 26 && |DIGITS| == 10 by { LiteralLengths(); }
    if n < 26 {
      UpperAt(n);
    } else if n < 52 {
      LowerAt(n - 26);
    } else if n < 62 {
      DigitAt(n - 52);
    }
  }

  /** A character is in base64 exactly if it occurs in the alphabet, and its value is its
      place there. */
  lemma Base64Iff(v: Variant, c: Char)
    ensures IsBase64(v, c) <==> Occurs(c, Base64Characters(v))
    ensures forall n | 0 <= n < 64 :: Base64Characters(v)[n] as int == c ==> CharToValue(v, c) == n
  {
    hide Base64Characters;
    if IsBase64(v, c) {
      TablesInverse(v, c);
      AlphabetIs(v, CharToValue(v, c));
    }
    forall n | 0 <= n < 64 && Base64Characters(v)[n] as int == c ensures CharToValue(v, c) == n {
      AlphabetIs(v, n);
    }
  }

  lemma ShiftCharacters()
    ensures EscChar(Utf7) == '+' as int && EscChar(ModifiedUtf7) == '&' as int && MINUS == '-' as int
  {}

  // ---- The direct set ----

  lemma PunctuationAt(n: nat)
    requires n < 21
    ensures |PUNCTUATION| == 21 && IsPunctuation(PUNCTUATION[n] as int)
  {
    match n
    case 0 => case 1 => case 2 => case 3 => case 4 => case 5 =>
    case 6 => case 7 => case 8 => case 9 => case 10 =>
    case 11 => case 12 => case 13 => case 14 => case 15 => case 16 => case 17 => case 18 => case 19 => case 20 =>
  }

  predicate IsPunctuation(u: int) {
    u in {39, 40, 41, 44, 45, 46, 47, 58, 63, 32, 9, 13, 10, 60, 33, 34, 62, 61, 59, 91, 93}
  }

  lemma PunctuationIff(u: int)
    ensures Occurs(u, PUNCTUATION) <==> IsPunctuation(u)
  {
    if n :| 0 <= n < |PUNCTUATION| && PUNCTUATION[n] as int == u { PunctuationAt(n); }
    if IsPunctuation(u) {
      var n :=
        if 39 <= u <= 41 then u - 39 else if 44 <= u <= 47 then u - 41 else if u == 58 then 7 else if u == 63 then 8
        else if u == 32 then 9 else if u == 9 then 10 else if u == 13 then 11 else if u == 10 then 12
        else if u == 60 then 13 else if u == 33 then 14 else if u == 34 then 15 else if u == 62 then 16
        else if u == 61 then 17 else if u == 59 then 18 else if u == 91 then 19 else 20;
      PunctuationAt(n);
      assert PUNCTUATION[n] as int == u;
    }
  }

  lemma LettersAndDigitsIff(u: int)
    ensures Occurs(u, UPPER) <==> 65 <= u <= 90
    ensures Occurs(u, LOWER) <==> 97 <= u <= 122
    ensures Occurs(u, DIGITS) <==> 48 <= u <= 57
  {
    hide UPPER, LOWER, DIGITS;
    LiteralLengths();
    if 65 <= u <= 90 { UpperAt(u - 65); }
    if 97 <= u <= 122 { LowerAt(u - 97); }
    if 48 <= u <= 57 { DigitAt(u - 48); }
    if n :| 0 <= n < |UPPER| && UPPER[n] as int == u { UpperAt(n); }
    if n :| 0 <= n < |LOWER| && LOWER[n] as int == u { LowerAt(n); }
    if n :| 0 <= n < |DIGITS| && DIGITS[n] as int == u { DigitAt(n); }
  }

  /** The units written as they are, against the predicate of the code. */
  lemma PlainIff(v: Variant, u: Unit)
    ensures Plain(v, u) <==> DirectEncodable(v, u) && u != EscChar(v)
  {
    hide UPPER, LOWER, DIGITS, PUNCTUATION, Occurs;
    OccursInEither(u, UPPER + LOWER + DIGITS, PUNCTUATION);
    OccursInEither(u, UPPER + LOWER, DIGITS);
    OccursInEither(u, UPPER, LOWER);
    LettersAndDigitsIff(u);
    PunctuationIff(u);
  }

  // ---- Encoding ----

  /** Each unit takes a byte, and one that is not plain takes more. */
  lemma {:induction false} AtLeastOneByteAUnit(v: Variant, s: E.State, src: seq<Unit>)
    requires E.Valid(s)
    ensures var t := E.EncodeAll(v, s, src);
            |t.out| >= |src| && ((exists u :: u in src && !Plain(v, u)) ==> |t.out| > |src|)
    decreases |src|
  {
    hide E.EncodeAll, E.EncodeUnit, E.Valid, Plain;
    E.EncodeAllUnfold(v, s, src);
    if src != [] {
      UnitTakesAByte(v, s, src[0]);
      AtLeastOneByteAUnit(v, E.EncodeUnit(v, s, src[0]).state, src[1..]);
      assert forall u :: u in src <==> u == src[0] || u in src[1..];
    }
  }

  lemma UnitTakesAByte(v: Variant, s: E.State, u: Unit)
    requires E.Valid(s)
    ensures var t := E.EncodeUnit(v, s, u);
            |t.out| >= 1 && (!Plain(v, u) ==> |t.out| >= 2)
  {
    hide Plain, DirectEncodable, ValueToChar;
    PlainIff(v, u);
  }

  lemma {:induction false} PlainIsCopied(v: Variant, src: seq<Unit>)
    requires forall u :: u in src ==> Plain(v, u)
    ensures E.EncodeAll(v, E.RESET, src) == Text(src, E.RESET)
    decreases |src|
  {
    hide E.EncodeAll, E.EncodeUnit, Plain, DirectEncodable;
    E.EncodeAllUnfold(v, E.RESET, src);
    if src != [] {
      assert src[0] in src;
      PlainIff(v, src[0]);
      DirectFromReset(v, src[0]);
      PlainIsCopied(v, src[1..]);
      assert [src[0]] + src[1..] == src;
    }
  }

  /** A text is its own encoding exactly if all its units are plain. */
  lemma UnchangedIff(v: Variant, src: seq<Unit>)
    ensures E.Finished(v, E.RESET, src) == src <==> forall u :: u in src ==> Plain(v, u)
  {
    hide E.EncodeAll, Plain;
    if forall u :: u in src ==> Plain(v, u) {
      PlainIsCopied(v, src);
    } else {
      AtLeastOneByteAUnit(v, E.RESET, src);
    }
  }

  /** `&` written as `&-`, every other unit as it is. */
  function AmpersandsEscaped(src: seq<Unit>): seq<Unit> {
    if src == [] then []
    else (if src[0] == '&' as int then ['&' as int, '-' as int] else [src[0]]) + AmpersandsEscaped(src[1..])
  }

  /** A printable US-ASCII name only has its `&` escaped. */
  lemma {:induction false} PrintableName(src: seq<Unit>)
    requires forall u :: u in src ==> ' ' as int <= u <= '~' as int
    ensures E.Finished(ModifiedUtf7, E.RESET, src) == AmpersandsEscaped(src)
    decreases |src|
  {
    hide E.Finished, E.EncodeUnit;
    if src == [] {
      E.FinishedNothing(ModifiedUtf7, E.RESET);
    } else {
      assert src[0] in src;
      DirectFromReset(ModifiedUtf7, src[0]);
      assert forall u :: u in src[1..] ==> u in src;
      PrintableName(src[1..]);
      assert [src[0]] + src[1..] == src;
      E.FinishedCons(ModifiedUtf7, E.RESET, src[0], src[1..]);
    }
  }

  /** Any other unit by itself: three characters of the alphabet between the shifts. */
  lemma ShiftedUnit(v: Variant, u: Unit)
    requires !Plain(v, u) && !(v.ModifiedUtf7? && u == '&' as int)
    ensures var a := Base64Characters(v);
            E.Finished(v, E.RESET, [u])
            == [if v.Utf7? then '+' as int else '&' as int,
                a[u / 1024] as int, a[u / 16 % 64] as int, a[u % 16 * 4] as int, '-' as int]
  {
    hide Plain, Base64Characters, ValueToChar, DirectEncodable, E.EncodeUnit, E.Finished, E.ShiftText;
    PlainIff(v, u);
    DirectExceptPlus(v);
    AlphabetIs(v, u / 1024);
    AlphabetIs(v, u / 16 % 64);
    AlphabetIs(v, u % 16 * 4);
    FirstUnitFromReset(v, u);
    assert [u] == [u] + [];
    E.FinishedCons(v, E.RESET, u, []);
    E.FinishedNothing(v, E.State(Base64, u % 16 * 4, 1));
  }

  lemma DirectExceptPlus(v: Variant)
    ensures DirectEncodable(v, EscChar(v)) ==> v.ModifiedUtf7? && EscChar(v) == '&' as int
  {}

  lemma FirstUnitFromReset(v: Variant, u: Unit)
    requires !DirectEncodable(v, u)
    ensures var open := E.State(Base64, u % 16 * 4, 1);
            && E.Valid(open)
            && E.EncodeUnit(v, E.RESET, u)
               == Text([EscChar(v), ValueToChar(v, u / 1024), ValueToChar(v, u / 16 % 64)], open)
            && E.ShiftText(v, open, Direct) == [ValueToChar(v, u % 16 * 4), MINUS]
  {
    hide ValueToChar, DirectEncodable;
  }

  // ---- Decoding ----

  /** Bytes without the escape character stand for themselves, whether the encoder would
      write them so or not. */
  lemma {:induction false} UnshiftedBytes(v: Variant, s: D.State, t: seq<Byte>)
    requires D.Valid(s) && s.encoding == Direct && EscChar(v) !in t
    ensures D.DecodeAll(v, s, t) == Text(t, s)
    decreases |t|
  {
    hide D.DecodeAll, D.DecodeByte, D.Valid;
    D.DecodeAllUnfold(v, s, t);
    if t != [] {
      DirectByteDecodes(v, s, t[0]);
      UnshiftedBytes(v, s, t[1..]);
      assert [t[0]] + t[1..] == t;
    }
  }

  lemma DirectByteDecodes(v: Variant, s: D.State, b: Byte)
    requires D.Valid(s) && s.encoding == Direct && b != EscChar(v)
    ensures D.DecodeByte(v, s, b) == Text([b], s)
  {}

  /** The escape character and `-` stand for the escape character, in both variants. */
  lemma EscapedEscape(v: Variant, s: D.State, rest: seq<Byte>)
    requires D.Valid(s) && s.encoding == Direct
    ensures var c := if v.Utf7? then '+' as int else '&' as int;
            D.DecodeAll(v, s, [c, '-' as int] + rest).out == [c] + D.DecodeAll(v, s, rest).out
  {
    hide D.DecodeAll, D.Valid;
    var t := [EscChar(v), MINUS] + rest;
    DecoderIsDecode(v, s, t);
    DecoderIsDecode(v, s, rest);
    assert t[2..] == rest;
  }

  /** The `-` after a base64 run may be left out before any byte that could not go on with the
      run, and at the end. */
  lemma ClosingMinusOptional(v: Variant, s: D.State, run: seq<Byte>, rest: seq<Byte>)
    requires D.Valid(s) && s.encoding == Direct
    requires run != [] && AllBase64(v, run)
    requires rest == [] || (!Occurs(rest[0], Base64Characters(v)) && rest[0] != '-' as int)
    ensures D.DecodeAll(v, s, [EscChar(v)] + run + rest).out
         == D.DecodeAll(v, s, [EscChar(v)] + run + [MINUS] + rest).out
         == RunUnits(v, run) + D.DecodeAll(v, s, rest).out
  {
    hide D.DecodeAll, D.Valid, RunUnits, Decode, AllBase64, Base64Characters, Occurs;
    if rest != [] { Base64Iff(v, rest[0]); }
    DecoderIsDecode(v, s, [EscChar(v)] + run + rest);
    DecoderIsDecode(v, s, [EscChar(v)] + run + [MINUS] + rest);
    DecoderIsDecode(v, s, rest);
    RunThenBytes(v, run, rest);
    RunThenMinus(v, run, rest);
  }

  /** An escape character before any byte that is neither in base64 nor `-`, or at the end,
      stands for nothing. */
  lemma LoneEscape(v: Variant, s: D.State, rest: seq<Byte>)
    requires D.Valid(s) && s.encoding == Direct
    requires rest == [] || (!Occurs(rest[0], Base64Characters(v)) && rest[0] != '-' as int)
    ensures D.DecodeAll(v, s, [EscChar(v)] + rest).out == D.DecodeAll(v, s, rest).out
  {
    hide D.DecodeAll, D.Valid, Base64Characters, Occurs;
    if rest != [] { Base64Iff(v, rest[0]); }
    var t := [EscChar(v)] + rest;
    DecoderIsDecode(v, s, t);
    DecoderIsDecode(v, s, rest);
    assert t[1..] == rest && rest[..0] == [] && rest[0..] == rest;
    NoRun(v, t);
  }

  lemma NoRun(v: Variant, t: seq<Byte>)
    requires t != [] && t[0] == EscChar(v)
    requires |t| == 1 || (!IsBase64(v, t[1]) && t[1] != MINUS)
    ensures Decode(v, t) == Decode(v, t[1..])
  {
    hide Base64Length, RunUnits, AfterRun, IsBase64, AllBase64;
    var tail := t[1..];
    EmptyRun(v, tail);
    assert tail[..0] == [] && tail[0..] == tail;
  }

  lemma EmptyRun(v: Variant, tail: seq<Byte>)
    requires tail == [] || (!IsBase64(v, tail[0]) && tail[0] != MINUS)
    ensures Base64Length(v, tail) == 0 && AfterRun(tail) == tail
    ensures AllBase64(v, []) && RunUnits(v, []) == []
  {}

  lemma RunThenMinus(v: Variant, run: seq<Byte>, rest: seq<Byte>)
    requires run != [] && AllBase64(v, run)
    ensures Decode(v, [EscChar(v)] + run + [MINUS] + rest) == RunUnits(v, run) + Decode(v, rest)
  {
    hide RunUnits, Decode, AllBase64, IsBase64;
    TablesInverse(v, MINUS);
    assert ([MINUS] + rest)[1..] == rest;
    assert [EscChar(v)] + run + [MINUS] + rest == [EscChar(v)] + run + ([MINUS] + rest);
    RunThenBytes(v, run, [MINUS] + rest);
  }

  lemma RunThenBytes(v: Variant, run: seq<Byte>, rest: seq<Byte>)
    requires run != [] && AllBase64(v, run) && (rest == [] || !IsBase64(v, rest[0]))
    ensures Decode(v, [EscChar(v)] + run + rest) == RunUnits(v, run) + Decode(v, AfterRun(rest))
  {
    hide RunUnits, AfterRun;
    TablesInverse(v, MINUS);
    var t := [EscChar(v)] + run + rest;
    Canonical.Base64LengthStops(v, run, rest);
    assert IsBase64(v, run[0]);
    assert t[1..] == run + rest && t[1] == run[0];
    assert (run + rest)[..|run|] == run && (run + rest)[|run|..] == rest;
  }
}
