/**
 * Byte-level vocabulary shared by the signer: the C integer widths the
 * firmware uses and the unsigned decimal rendering that `sprintf("%llu")`
 * produces.
 */
module Bytes {

  /** `uint8_t` */
  newtype byte = x: int | 0 <= x < 0x100

  /** `unsigned long long`, the width of the SNTP library's `tstamp` */
  newtype uint64 = x: int | 0 <= x < 0x1_0000_0000_0000_0000

  const ASCII_ZERO: int := 48

  /** A C string's characters before its terminator: no byte is NUL. */
  predicate NoNul(s: seq<byte>) {
    forall i :: 0 <= i < |s| ==> s[i] != 0
  }

  predicate IsDigit(c: byte) {
    ASCII_ZERO <= c as int <= ASCII_ZERO + 9
  }

  function Pow10(k: nat): (p: nat)
    ensures p >= 1
  {
    if k == 0 then 1 else 10 * Pow10(k - 1)
  }

  /**
   * `%llu`: the digits of `n`, most significant first, with no sign and
   * no leading zero (the single digit "0" for zero).
   */
  function Decimal(n: nat): (r: seq<byte>)
    ensures 1 <= |r|
    ensures forall i :: 0 <= i < |r| ==> IsDigit(r[i])
    ensures r[0] as int == ASCII_ZERO <==> n == 0
    decreases n
  {
    if n < 10 then [(ASCII_ZERO + n) as byte]
    else Decimal(n / 10) + [(ASCII_ZERO + n % 10) as byte]
  }

  /** The value of a string of decimal digits, as `strtoull` reads it. */
  function ParseDecimal(s: seq<byte>): nat
    requires forall i :: 0 <= i < |s| ==> IsDigit(s[i])
  {
    if s == [] then 0
    else
      assert IsDigit(s[|s| - 1]);
      ParseDecimal(s[..|s| - 1]) * 10 + (s[|s| - 1] as int - ASCII_ZERO)
  }

  /** Reading the rendering back gives the number: the rendering loses nothing. */
  lemma {:induction false} DecimalRoundTrip(n: nat)
    ensures ParseDecimal(Decimal(n)) == n
    decreases n
  {
    if n >= 10 {
      var r := Decimal(n);
      assert r[..|r| - 1] == Decimal(n / 10);
      DecimalRoundTrip(n / 10);
    }
  }

  /** Two numbers with the same rendering are equal. */
  lemma DecimalInjective(m: nat, n: nat)
    requires Decimal(m) == Decimal(n)
    ensures m == n
  {
    DecimalRoundTrip(m);
    DecimalRoundTrip(n);
  }

  /** A number below 10^k has at most k digits. */
  lemma {:induction false} DecimalLength(n: nat, k: nat)
    requires 1 <= k && n < Pow10(k)
    ensures |Decimal(n)| <= k
    decreases k
  {
    if n >= 10 {
      assert k >= 2;
      DecimalLength(n / 10, k - 1);
    }
  }

  /** Any `unsigned long long` renders in at most 20 digits. */
  lemma Uint64DecimalLength(n: uint64)
    ensures |Decimal(n as nat)| <= 20
  {
    assert Pow10(10) == 10_000_000_000;
    assert Pow10(20) == 100_000_000_000_000_000_000;
    DecimalLength(n as nat, 20);
  }
}
