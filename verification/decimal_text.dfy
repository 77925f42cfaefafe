/** Decimal digit strings, as produced by `Int32.ToString()` (no padding) and by
    the fixed-width custom date formats `yy` and `fff`. */
module DecimalText {

  predicate IsDigit(c: char) {
    '0' <= c <= '9'
  }

  predicate AllDigits(s: string) {
    forall i | 0 <= i < |s| :: IsDigit(s[i])
  }

  function DigitChar(d: nat): (c: char)
    requires d < 10
    ensures IsDigit(c)
  {
    "0123456789"[d]
  }

  function DigitValue(c: char): (d: nat)
    requires IsDigit(c)
    ensures d < 10 && DigitChar(d) == c
  {
    c as int - '0' as int
  }

  function Pow10(w: nat): (p: nat)
    ensures p >= 1
  {
    if w == 0 then 1 else 10 * Pow10(w - 1)
  }

  /** The value of a digit string. */
  function ParseDecimal(s: string): nat
    requires AllDigits(s)
  {
    if |s| == 0 then 0 else 10 * ParseDecimal(s[..|s| - 1]) + DigitValue(s[|s| - 1])
  }

  /** `n.ToString()` for a non-negative `n`: the shortest digit string, with no
      leading zero. */
  function Decimal(n: nat): (r: string)
    ensures |r| >= 1 && AllDigits(r)
    ensures |r| > 1 ==> r[0] != '0'
  {
    if n < 10 then [DigitChar(n)] else Decimal(n / 10) + [DigitChar(n % 10)]
  }

  /** A fixed-width format of `w` digits: the last `w` decimal digits of `n`,
      with leading zeros. */
  function Padded(n: nat, w: nat): (r: string)
    ensures |r| == w && AllDigits(r)
  {
    if w == 0 then [] else Padded(n / 10, w - 1) + [DigitChar(n % 10)]
  }

  lemma {:induction false} DigitRoundTrip(d: nat)
    requires d < 10
    ensures DigitValue(DigitChar(d)) == d
  {
  }

  /** Reading back `Decimal(n)` gives `n`. */
  lemma {:induction false} DecimalRoundTrip(n: nat)
    ensures ParseDecimal(Decimal(n)) == n
  {
    var s := Decimal(n);
    if n >= 10 {
      DecimalRoundTrip(n / 10);
      assert s[..|s| - 1] == Decimal(n / 10);
    }
    DigitRoundTrip(n % 10);
  }

  /** Reading back `Padded(n, w)` gives `n` whenever `n` has at most `w` digits. */
  lemma {:induction false} PaddedRoundTrip(n: nat, w: nat)
    requires n < Pow10(w)
    ensures ParseDecimal(Padded(n, w)) == n
  {
    if w > 0 {
      var s := Padded(n, w);
      assert n / 10 < Pow10(w - 1);
      PaddedRoundTrip(n / 10, w - 1);
      assert s[..|s| - 1] == Padded(n / 10, w - 1);
      DigitRoundTrip(n % 10);
    }
  }

  /** Fixed-width digit strings of numbers below `10^w` are distinct. */
  lemma {:induction false} PaddedInjective(m: nat, n: nat, w: nat)
    requires m < Pow10(w) && n < Pow10(w)
    requires Padded(m, w) == Padded(n, w)
    ensures m == n
  {
    PaddedRoundTrip(m, w);
    PaddedRoundTrip(n, w);
  }
}
