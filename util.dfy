/**
 * The integer, boolean and string helpers of the utility header: the sign of a
 * value, the order on boolean vectors, and the zero-padded frame-name formatter.
 * The floating-point geometry of the same header is not part of this model.
 */
module Util {

  // ---------------------------------------------------------------------------
  // sign
  // ---------------------------------------------------------------------------

  /** The sign of `x`, computed as (0 < x) - (x < 0) with the comparisons read as 0 or 1. */
  function Sign(x: real): (r: int)
    ensures r == 1 <==> x > 0.0
    ensures r == 0 <==> x == 0.0
    ensures r == -1 <==> x < 0.0
  {
    (if 0.0 < x then 1 else 0) - (if x < 0.0 then 1 else 0)
  }

  function Abs(x: real): real
  {
    if x < 0.0 then -x else x
  }

  /** The sign and the magnitude give the value back. */
  lemma SignTimesAbs(x: real)
    ensures Sign(x) as real * Abs(x) == x
  {
  }

  /** The sign is multiplicative. */
  lemma SignOfProduct(a: real, b: real)
    ensures Sign(a * b) == Sign(a) * Sign(b)
  {
    if a > 0.0 && b < 0.0 {
      assert a * b < 0.0;
    } else if a < 0.0 && b > 0.0 {
      assert a * b < 0.0;
    } else if a < 0.0 && b < 0.0 {
      assert a * b == (-a) * (-b);
      assert a * b > 0.0;
    } else if a > 0.0 && b > 0.0 {
      assert a * b > 0.0;
    }
  }

  // ---------------------------------------------------------------------------
  // compare: the order on boolean vectors
  // ---------------------------------------------------------------------------

  /**
   * The order that `compare` implements on the first `n` positions: `v1` is
   * smaller when, at the first position where the two differ, `v1` holds false
   * and `v2` holds true.
   */
  ghost predicate LexLess(n: int, v1: seq<bool>, v2: seq<bool>)
    requires n <= |v1| && n <= |v2|
  {
    exists i :: 0 <= i < n && v1[..i] == v2[..i] && !v1[i] && v2[i]
  }

  /**
   * Walks the first `n` positions and returns at the first difference; both
   * vectors must have at least `n` entries, and a negative `n` compares nothing.
   */
  method Compare(n: int, v1: seq<bool>, v2: seq<bool>) returns (r: bool)
    requires n <= |v1| && n <= |v2|
    ensures r == LexLess(n, v1, v2)
  {
    var i := 0;
    while i < n
      invariant 0 <= i <= (if n < 0 then 0 else n)
      invariant v1[..i] == v2[..i]
    {
      if v1[i] && !v2[i] {
        NoSmallerAfterDifference(n, v1, v2, i);
        return false;
      }
      if !v1[i] && v2[i] {
        return true;
      }
      assert v1[..i + 1] == v1[..i] + [v1[i]];
      assert v2[..i + 1] == v2[..i] + [v2[i]];
      i := i + 1;
    }
    forall j | 0 <= j < n && v1[..j] == v2[..j]
      ensures v1[j] == v2[j]
    {
      assert v1[..i][j] == v2[..i][j];
    }
    return false;
  }

  /** Once the vectors differ at `i` in favour of `v1`, no position gives `v1 < v2`. */
  lemma NoSmallerAfterDifference(n: int, v1: seq<bool>, v2: seq<bool>, i: int)
    requires n <= |v1| && n <= |v2|
    requires 0 <= i < n && v1[..i] == v2[..i] && v1[i] && !v2[i]
    ensures !LexLess(n, v1, v2)
  {
  }

  /** No vector is smaller than itself. */
  lemma LexLessIrreflexive(n: int, v: seq<bool>)
    requires n <= |v|
    ensures !LexLess(n, v, v)
  {
  }

  /** Never both `v1 < v2` and `v2 < v1`. */
  lemma LexLessAsymmetric(n: int, v1: seq<bool>, v2: seq<bool>)
    requires n <= |v1| && n <= |v2|
    ensures !(LexLess(n, v1, v2) && LexLess(n, v2, v1))
  {
  }

  /** The order is transitive. */
  lemma LexLessTransitive(n: int, a: seq<bool>, b: seq<bool>, c: seq<bool>)
    requires n <= |a| && n <= |b| && n <= |c|
    requires LexLess(n, a, b) && LexLess(n, b, c)
    ensures LexLess(n, a, c)
  {
    var i :| 0 <= i < n && a[..i] == b[..i] && !a[i] && b[i];
    var j :| 0 <= j < n && b[..j] == c[..j] && !b[j] && c[j];
    if i < j {
      assert b[..j][i] == c[..j][i];
      assert b[..i] == b[..j][..i] && c[..i] == c[..j][..i];
      assert a[..i] == c[..i] && !a[i] && c[i];
    } else if j < i {
      assert a[..i][j] == b[..i][j];
      assert a[..j] == a[..i][..j] && b[..j] == b[..i][..j];
      assert a[..j] == c[..j] && !a[j] && c[j];
    }
  }

  /** Two vectors that differ somewhere among the first `n` positions are ordered one way or the other. */
  lemma LexLessTotal(n: int, v1: seq<bool>, v2: seq<bool>)
    requires 0 <= n <= |v1| && n <= |v2|
    requires v1[..n] != v2[..n]
    ensures LexLess(n, v1, v2) || LexLess(n, v2, v1)
  {
    var i := 0;
    while v1[i] == v2[i]
      invariant 0 <= i < n
      invariant v1[..i] == v2[..i]
      decreases n - i
    {
      assert v1[..i + 1] == v1[..i] + [v1[i]] && v2[..i + 1] == v2[..i] + [v2[i]];
      i := i + 1;
    }
  }

  /** Positions at or beyond `n` never affect the result. */
  lemma LexLessIgnoresTail(n: int, v1: seq<bool>, v2: seq<bool>, w1: seq<bool>, w2: seq<bool>)
    requires 0 <= n <= |v1| && n <= |v2| && n <= |w1| && n <= |w2|
    requires v1[..n] == w1[..n] && v2[..n] == w2[..n]
    ensures LexLess(n, v1, v2) == LexLess(n, w1, w2)
  {
    if LexLess(n, v1, v2) {
      var i :| 0 <= i < n && v1[..i] == v2[..i] && !v1[i] && v2[i];
      assert v1[..n][..i] == v1[..i] && w1[..n][..i] == w1[..i];
      assert v2[..n][..i] == v2[..i] && w2[..n][..i] == w2[..i];
      assert v1[..n][i] == w1[i] && v2[..n][i] == w2[i];
      assert w1[..i] == w2[..i] && !w1[i] && w2[i];
    }
    if LexLess(n, w1, w2) {
      var i :| 0 <= i < n && w1[..i] == w2[..i] && !w1[i] && w2[i];
      assert v1[..n][..i] == v1[..i] && w1[..n][..i] == w1[..i];
      assert v2[..n][..i] == v2[..i] && w2[..n][..i] == w2[..i];
      assert v1[..n][i] == w1[i] && v2[..n][i] == w2[i];
      assert v1[..i] == v2[..i] && !v1[i] && v2[i];
    }
  }

  // ---------------------------------------------------------------------------
  // concat4digits: decimal rendering with zero padding
  // ---------------------------------------------------------------------------

  predicate IsDigit(c: char)
  {
    '0' <= c <= '9'
  }

  predicate AllDigits(s: string)
  {
    forall i :: 0 <= i < |s| ==> IsDigit(s[i])
  }

  function DigitChar(d: nat): (c: char)
    requires d < 10
    ensures IsDigit(c) && (c - '0') as int == d
  {
    (('0' as int) + d) as char
  }

  /** The value of a string of decimal digits, most significant digit first. */
  function DecimalValue(s: string): nat
    requires AllDigits(s)
  {
    if s == [] then 0 else DecimalValue(s[..|s| - 1]) * 10 + (s[|s| - 1] - '0') as int
  }

  /** What a stream writes for a non-negative int: its decimal digits, with no leading zero. */
  function NatToDecimal(n: nat): (s: string)
    decreases n
  {
    if n < 10 then [DigitChar(n)] else NatToDecimal(n / 10) + [DigitChar(n % 10)]
  }

  /** What a stream writes for an int: a minus sign for negative values, then the digits. */
  function IntToDecimal(k: int): string
  {
    if k < 0 then "-" + NatToDecimal(-k) else NatToDecimal(k)
  }

  /**
   * `name` followed by `k`, padded on the left with zeros to four characters
   * when `k` is below 1000; the padding is chosen by comparing `k` with 10, 100
   * and 1000 only, so a negative `k` gets "000" before its minus sign.
   */
  function Concat4Digits(name: string, k: int): (s: string)
    ensures |name| < |s| && s[..|name|] == name
  {
    if k < 10 then name + "000" + IntToDecimal(k)
    else if k < 100 then name + "00" + IntToDecimal(k)
    else if k < 1000 then name + "0" + IntToDecimal(k)
    else name + IntToDecimal(k)
  }

  /** The rendering of a natural number is all digits and reads back as that number. */
  lemma {:induction false} NatToDecimalRoundTrip(n: nat)
    ensures AllDigits(NatToDecimal(n))
    ensures DecimalValue(NatToDecimal(n)) == n
    decreases n
  {
    var s := NatToDecimal(n);
    if n >= 10 {
      NatToDecimalRoundTrip(n / 10);
      assert s[..|s| - 1] == NatToDecimal(n / 10);
    } else {
      assert s[..|s| - 1] == [];
    }
  }

  /** The rendering has no leading zero, except for zero itself. */
  lemma {:induction false} NatToDecimalLeadingDigit(n: nat)
    ensures n >= 1 ==> NatToDecimal(n)[0] != '0'
    decreases n
  {
    if n >= 10 {
      NatToDecimalLeadingDigit(n / 10);
    }
  }

  /** The number of characters of the rendering of `n`, for `n` below 10000. */
  lemma NatToDecimalLength(n: nat)
    ensures n < 10 ==> |NatToDecimal(n)| == 1
    ensures 10 <= n < 100 ==> |NatToDecimal(n)| == 2
    ensures 100 <= n < 1000 ==> |NatToDecimal(n)| == 3
    ensures 1000 <= n < 10000 ==> |NatToDecimal(n)| == 4
    ensures 10000 <= n ==> |NatToDecimal(n)| > 4
  {
    if n >= 10 {
      NatToDecimalLength(n / 10);
    }
  }

  function Pow10(k: nat): nat
  {
    if k == 0 then 1 else 10 * Pow10(k - 1)
  }

  /** Reading a concatenation of digit strings. */
  lemma {:induction false} DecimalValueAppend(a: string, b: string)
    requires AllDigits(a) && AllDigits(b)
    ensures AllDigits(a + b)
    ensures DecimalValue(a + b) == DecimalValue(a) * Pow10(|b|) + DecimalValue(b)
    decreases |b|
  {
    var ab := a + b;
    if b == [] {
      assert ab == a;
    } else {
      var b' := b[..|b| - 1];
      assert ab[..|ab| - 1] == a + b';
      DecimalValueAppend(a, b');
      var x, p, y, d := DecimalValue(a), Pow10(|b'|), DecimalValue(b'), (b[|b| - 1] - '0') as int;
      assert DecimalValue(ab) == DecimalValue(a + b') * 10 + d;
      assert DecimalValue(b) == y * 10 + d;
      assert Pow10(|b|) == 10 * p;
      Distribute(x, p, y, d);
    }
  }

  lemma Distribute(x: int, p: int, y: int, d: int)
    ensures (x * p + y) * 10 + d == x * (10 * p) + (y * 10 + d)
  {
  }

  /** Leading zeros do not change the value. */
  lemma ZeroPaddingKeepsValue(zeros: string, s: string)
    requires forall i :: 0 <= i < |zeros| ==> zeros[i] == '0'
    requires AllDigits(s)
    ensures AllDigits(zeros + s)
    ensures DecimalValue(zeros + s) == DecimalValue(s)
  {
    ZerosValue(zeros);
    DecimalValueAppend(zeros, s);
  }

  lemma {:induction false} ZerosValue(zeros: string)
    requires forall i :: 0 <= i < |zeros| ==> zeros[i] == '0'
    ensures AllDigits(zeros) && DecimalValue(zeros) == 0
    decreases |zeros|
  {
    if zeros != [] {
      ZerosValue(zeros[..|zeros| - 1]);
    }
  }

  /**
   * For 0 <= k <= 9999 the part after `name` is exactly four digits, zero-padded
   * on the left, and it reads back as `k`.
   */
  lemma Concat4DigitsFourDigits(name: string, k: int)
    requires 0 <= k <= 9999
    ensures var s := Concat4Digits(name, k);
      var suffix := s[|name|..];
      && |suffix| == 4
      && AllDigits(suffix)
      && DecimalValue(suffix) == k
  {
    var s := Concat4Digits(name, k);
    var d := NatToDecimal(k);
    NatToDecimalLength(k);
    NatToDecimalRoundTrip(k);
    var pad := if k < 10 then "000" else if k < 100 then "00" else if k < 1000 then "0" else "";
    assert s == name + (pad + d);
    assert s[|name|..] == pad + d;
    ZeroPaddingKeepsValue(pad, d);
  }

  /** Two numbers in 0..9999 never give the same name. */
  lemma Concat4DigitsInjective(name: string, k1: int, k2: int)
    requires 0 <= k1 <= 9999 && 0 <= k2 <= 9999
    requires Concat4Digits(name, k1) == Concat4Digits(name, k2)
    ensures k1 == k2
  {
    Concat4DigitsFourDigits(name, k1);
    Concat4DigitsFourDigits(name, k2);
  }

  /** From 1000 on no zero is inserted: the suffix is the plain rendering, which starts with a non-zero digit. */
  lemma Concat4DigitsNoPadding(name: string, k: int)
    requires k >= 1000
    ensures Concat4Digits(name, k) == name + NatToDecimal(k)
    ensures Concat4Digits(name, k)[|name|] != '0'
  {
    NatToDecimalLeadingDigit(k);
  }

  /** Every negative number takes the first branch: "000" is placed before its minus sign. */
  lemma Concat4DigitsNegative(name: string, k: int)
    requires k < 0
    ensures Concat4Digits(name, k) == name + "000-" + NatToDecimal(-k)
  {
  }
}
