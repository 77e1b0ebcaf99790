/** Quotients and remainders by the constants of the codec, from a witness. */
module Division {
  lemma By3(n: int, q: int, r: int)
    requires n == 3 * q + r && 0 <= r < 3
    ensures n / 3 == q && n % 3 == r
  {}

  lemma By4(n: int, q: int, r: int)
    requires n == 4 * q + r && 0 <= r < 4
    ensures n / 4 == q && n % 4 == r
  {}

  lemma By6(n: int, q: int, r: int)
    requires n == 6 * q + r && 0 <= r < 6
    ensures n / 6 == q && n % 6 == r
  {}

  lemma By8(n: int, q: int, r: int)
    requires n == 8 * q + r && 0 <= r < 8
    ensures n / 8 == q && n % 8 == r
  {}

  lemma By16(n: int, q: int, r: int)
    requires n == 16 * q + r && 0 <= r < 16
    ensures n / 16 == q && n % 16 == r
  {}

  lemma By64(n: int, q: int, r: int)
    requires n == 64 * q + r && 0 <= r < 64
    ensures n / 64 == q && n % 64 == r
  {}

  lemma By256(n: int, q: int, r: int)
    requires n == 256 * q + r && 0 <= r < 256
    ensures n / 256 == q && n % 256 == r
  {}

  lemma By1024(n: int, q: int, r: int)
    requires n == 1024 * q + r && 0 <= r < 1024
    ensures n / 1024 == q && n % 1024 == r
  {}

  lemma By4096(n: int, q: int, r: int)
    requires n == 4096 * q + r && 0 <= r < 4096
    ensures n / 4096 == q && n % 4096 == r
  {}

  lemma By16384(n: int, q: int, r: int)
    requires n == 16384 * q + r && 0 <= r < 16384
    ensures n / 16384 == q && n % 16384 == r
  {}

  lemma By65536(n: int, q: int, r: int)
    requires n == 65536 * q + r && 0 <= r < 65536
    ensures n / 65536 == q && n % 65536 == r
  {}
}
