/** The code units, bytes and base64 alphabet shared by both directions of the codec.
    The two instantiations of the C++ classes (constructor arguments and the virtual
    `DirectEncodable`) are the two values of `Variant`. Shifts and masks of unsigned
    values are written as divisions and remainders by powers of two. */
module Alphabet {
  type Unit = u: int | 0 <= u < 0x1_0000      // char16_t
  type Char = c: int | -128 <= c < 128        // char
  type Byte = c: int | 0 <= c < 128           // a char that is 7-bit
  type Sextet = n: int | 0 <= n < 64

  /** The cast of a `uint32_t` to `char16_t`. */
  function Truncated(n: nat): (u: Unit)
    ensures n < 0x1_0000 ==> u == n
  {
    n % 0x1_0000
  }

  datatype Variant = Utf7 | ModifiedUtf7

  datatype Status = OK | MoreOutput | IllegalInput

  datatype Encoding = Direct | Base64

  const MINUS: Byte := 45
  const NO_VALUE: nat := 0xffff

  /** `mLastChar`: the character for the base64 value 63. */
  function LastChar(v: Variant): Byte {
    if v.Utf7? then 47 else 44
  }

  /** `mEscChar`: the character that shifts into base64. */
  function EscChar(v: Variant): Byte {
    if v.Utf7? then 43 else 38
  }

  predicate DirectEncodable(v: Variant, u: Unit) {
    match v
    case ModifiedUtf7 => 0x20 <= u <= 0x7e
    case Utf7 =>
      || 65 <= u <= 90 || 97 <= u <= 122 || 48 <= u <= 57
      || 39 <= u <= 41 || 44 <= u <= 47 || u == 58 || u == 63
      || u == 32 || u == 9 || u == 13 || u == 10
      || u == 60 || u == 33 || u == 34 || u == 62 || u == 61 || u == 59
      || u == 91 || u == 93
  }

  /** The encoder's table. Values of 64 and above give the `-1` of the C++ code. */
  function ValueToChar(v: Variant, value: nat): (c: Char)
    ensures value < 64 ==> 0 <= c && CharToValue(v, c) == value
    ensures value < 64 ==> 0x20 <= c <= 0x7e && c != MINUS
    ensures value >= 64 ==> c == -1
  {
    if value < 26 then 65 + value
    else if value < 52 then 97 + (value - 26)
    else if value < 62 then 48 + (value - 52)
    else if value == 62 then 43
    else if value == 63 then LastChar(v)
    else -1
  }

  /** The decoder's table; `NO_VALUE` marks a character outside the base64 alphabet. */
  function CharToValue(v: Variant, c: Char): (n: nat)
    ensures n <= 0xff ==> n < 64
    ensures n > 0xff ==> n == NO_VALUE
  {
    if 65 <= c <= 90 then c - 65
    else if 97 <= c <= 122 then 26 + (c - 97)
    else if 48 <= c <= 57 then 52 + (c - 48)
    else if c == 43 then 62
    else if c == LastChar(v) then 63
    else NO_VALUE
  }

  /** The decoder's test `value > 0xff`, negated. */
  predicate IsBase64(v: Variant, c: Char) {
    CharToValue(v, c) <= 0xff
  }

  /** The two tables are inverse bijections between the base64 alphabet and 0..63. */
  lemma TablesInverse(v: Variant, c: Char)
    ensures IsBase64(v, c) ==> ValueToChar(v, CharToValue(v, c)) == c
    ensures !IsBase64(v, MINUS)
    ensures IsBase64(v, c) <==> exists n: nat :: n < 64 && ValueToChar(v, n) == c
  {
    if IsBase64(v, c) {
      var n := CharToValue(v, c);
      assert n < 64 && ValueToChar(v, n) == c;
    }
  }

  /** What the direct set means for the byte stream: it is 7-bit, contains `-`, and
      contains the escape character only in the modified variant. */
  lemma DirectSet(v: Variant, u: Unit)
    ensures DirectEncodable(v, u) ==> u < 127
    ensures DirectEncodable(v, MINUS)
    ensures DirectEncodable(v, EscChar(v)) <==> v.ModifiedUtf7?
    ensures v.ModifiedUtf7? && DirectEncodable(v, u) ==> u >= 0x20
  {}
}
