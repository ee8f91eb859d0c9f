/** Canonical decimal text of integers, the reference for integer printing. */
module Decimal {
  import opened Bytes

  /** Digits of `n`, most significant first, without leading zeros. */
  function Digits(n: nat): (d: bytes)
    ensures d != [] && AllDigits(d)
  {
    if n < 10 then [48 + n] else Digits(n / 10) + [48 + n % 10]
  }

  function Signed(n: int): bytes {
    if n < 0 then [45] + Digits(-n) else Digits(n)
  }

  lemma {:induction false} DigitsDenote(n: nat)
    ensures DecimalValue(Digits(n)) == n
    ensures |Digits(n)| > 1 ==> Digits(n)[0] != 48
    ensures n > 0 ==> Digits(n)[0] != 48
  {
    if n >= 10 {
      DigitsDenote(n / 10);
      var d := Digits(n);
      assert d[..|d| - 1] == Digits(n / 10);
    } else {
      assert [48 + n][..0] == [];
    }
  }

  function Power10(k: nat): (r: nat)
    ensures r > 0
  {
    if k == 0 then 1 else 10 * Power10(k - 1)
  }

  /** A number below a power of ten has at most that many digits. */
  lemma {:induction false} DigitsLength(n: nat, k: nat)
    requires k > 0 && n < Power10(k)
    ensures |Digits(n)| <= k
  {
    if n >= 10 {
      assert k > 1;
      DigitsLength(n / 10, k - 1);
    }
  }

  const FIXNUM_LIMIT: int := 0x4000_0000_0000_0000

  lemma {:induction false} FixnumDigits(n: nat)
    requires n <= FIXNUM_LIMIT
    ensures |Digits(n)| <= 19
  {
    assert Power10(4) == 10 * Power10(3) && Power10(3) == 1000;
    assert Power10(7) == 1000 * Power10(4) && Power10(10) == 1000 * Power10(7);
    assert Power10(13) == 1000 * Power10(10) && Power10(16) == 1000 * Power10(13);
    assert Power10(19) == 1000 * Power10(16);
    DigitsLength(n, 19);
  }
}
