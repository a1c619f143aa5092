/**
 Decimal notation of natural numbers, as the generators use it: Python's
 `str(n)` for a non-negative integer, `int(s)` for a string of digits,
 `str.zfill`, and the arithmetic those string manipulations amount to.
 */
module Decimal {

  /** 10 to the power k. */
  function Pow10(k: nat): (p: nat)
    ensures p >= 1
  {
    if k == 0 then 1 else 10 * Pow10(k - 1)
  }

  lemma {:induction false} Pow10Add(i: nat, j: nat)
    ensures Pow10(i + j) == Pow10(i) * Pow10(j)
  {
    if i > 0 {
      Pow10Add(i - 1, j);
      assert Pow10(i + j) == 10 * Pow10(i - 1 + j);
      MulAssoc10(Pow10(i - 1), Pow10(j));
    }
  }

  lemma {:induction false} Pow10Monotone(i: nat, j: nat)
    requires i <= j
    ensures Pow10(i) <= Pow10(j)
    decreases j
  {
    if i < j {
      Pow10Monotone(i, j - 1);
    }
  }

  lemma MulAssoc10(x: nat, y: nat)
    ensures 10 * (x * y) == (10 * x) * y
  {
  }

  lemma MulSucc(x: nat, p: nat)
    ensures (x + 1) * p == x * p + p
  {
  }

  lemma {:induction false} MulLeq(x: nat, y: nat, p: nat)
    requires x <= y
    ensures x * p <= y * p
    decreases y
  {
    if x < y {
      MulLeq(x, y - 1, p);
      MulSucc(y - 1, p);
    }
  }

  lemma MulStrict(a: nat, b: nat, p: nat)
    ensures a < b ==> a * p + p <= b * p
  {
    if a < b {
      MulSucc(a, p);
      MulLeq(a + 1, b, p);
    }
  }

  /** a followed by w zeros, that is a * 10^w, by repeated multiplication by 10. */
  function Shift(a: nat, w: nat): nat {
    if w == 0 then a else 10 * Shift(a, w - 1)
  }

  /** Shifting by w digits is multiplying by 10^w. */
  lemma {:induction false} ShiftIsPow10(a: nat, w: nat)
    ensures Shift(a, w) == a * Pow10(w)
    decreases w
  {
    if w > 0 {
      ShiftIsPow10(a, w - 1);
      assert 10 * (a * Pow10(w - 1)) == a * (10 * Pow10(w - 1));
    }
  }

  /** Division with remainder is unique: the quotient and remainder of q*p + r by p. */
  lemma DivModOfSum(q: nat, p: nat, r: nat)
    requires 1 <= p && r < p
    ensures (q * p + r) / p == q
    ensures (q * p + r) % p == r
  {
    var x := q * p + r;
    var q', r' := x / p, x % p;
    assert x == q' * p + r' && 0 <= r' < p;
    MulStrict(q, q', p);
    MulStrict(q', q, p);
  }

  /**
   The length of `str(n)` for a non-negative n: the number of decimal digits,
   with a single digit for zero.
   */
  function NumDigits(n: nat): (k: nat)
    ensures 1 <= k
    ensures n < Pow10(k)
    ensures 1 < k ==> Pow10(k - 1) <= n
    decreases n
  {
    if n < 10 then 1 else 1 + NumDigits(n / 10)
  }

  /** The bounds in NumDigits' contract pin its value down. */
  lemma NumDigitsUnique(n: nat, k: nat)
    requires 1 <= k && n < Pow10(k)
    requires 1 < k ==> Pow10(k - 1) <= n
    ensures NumDigits(n) == k
  {
    var m := NumDigits(n);
    if m < k {
      Pow10Monotone(m, k - 1);
    } else if m > k {
      Pow10Monotone(k, m - 1);
    }
  }

  /** NumDigits(n) is k exactly when n lies in [10^(k-1), 10^k) (in [0, 10) for k = 1). */
  lemma NumDigitsCharacterisation(n: nat, k: nat)
    ensures NumDigits(n) == k <==> (1 <= k && n < Pow10(k) && (1 < k ==> Pow10(k - 1) <= n))
  {
    if 1 <= k && n < Pow10(k) && (1 < k ==> Pow10(k - 1) <= n) {
      NumDigitsUnique(n, k);
    }
  }

  lemma NumDigitsAtMost(n: nat, k: nat)
    requires 1 <= k && n < Pow10(k)
    ensures NumDigits(n) <= k
  {
    var m := NumDigits(n);
    if m > k {
      assert Pow10(m - 1) <= n;
      Pow10Monotone(k, m - 1);
    }
  }

  predicate IsDigit(c: char) {
    '0' <= c <= '9'
  }

  predicate IsDigitString(s: string) {
    forall i :: 0 <= i < |s| ==> IsDigit(s[i])
  }

  function DigitValue(c: char): (d: nat)
    requires IsDigit(c)
    ensures d <= 9
  {
    (c as int) - ('0' as int)
  }

  function DigitChar(d: nat): (c: char)
    requires d <= 9
    ensures IsDigit(c)
    ensures DigitValue(c) == d
  {
    (('0' as int) + d) as char
  }

  lemma DigitCharOfValue(c: char)
    requires IsDigit(c)
    ensures DigitChar(DigitValue(c)) == c
  {
  }

  /**
   `int(s)` for a non-empty string of decimal digits; leading zeros are
   allowed and ignored, as Python's `int` does.
   */
  function FromDecimal(s: string): (n: nat)
    requires 1 <= |s| && IsDigitString(s)
    ensures n < Pow10(|s|)
    decreases |s|
  {
    if |s| == 1 then DigitValue(s[0])
    else FromDecimal(s[..|s| - 1]) * 10 + DigitValue(s[|s| - 1])
  }

  /** `str(n)` for a non-negative n. */
  function ToDecimal(n: nat): (s: string)
    ensures |s| == NumDigits(n)
    ensures IsDigitString(s)
    ensures s[0] == '0' <==> n == 0
    ensures FromDecimal(s) == n
    decreases n
  {
    if n < 10 then [DigitChar(n)]
    else
      var init := ToDecimal(n / 10);
      var s := init + [DigitChar(n % 10)];
      assert s[..|s| - 1] == init;
      s
  }

  /** Writing a digit after a non-zero number appends its character to the string. */
  lemma ToDecimalAppendDigit(n: nat, d: nat)
    requires 1 <= n && d <= 9
    ensures ToDecimal(n * 10 + d) == ToDecimal(n) + [DigitChar(d)]
  {
    DivModOfSum(n, 10, d);
  }

  /** A number written without leading zeros reads back as itself. */
  lemma {:induction false} FromDecimalLeading(s: string)
    requires 1 <= |s| && IsDigitString(s) && s[0] != '0'
    ensures Pow10(|s| - 1) <= FromDecimal(s)
    decreases |s|
  {
    if |s| > 1 {
      FromDecimalLeading(s[..|s| - 1]);
    }
  }

  /** `str(int(s)) == s` for a canonical digit string: no leading zero unless it is "0". */
  lemma {:induction false} DecimalRoundTrip(s: string)
    requires 1 <= |s| && IsDigitString(s)
    requires |s| == 1 || s[0] != '0'
    ensures ToDecimal(FromDecimal(s)) == s
    decreases |s|
  {
    if |s| == 1 {
      DigitCharOfValue(s[0]);
    } else {
      var init := s[..|s| - 1];
      var d := DigitValue(s[|s| - 1]);
      var v := FromDecimal(init);
      var n := FromDecimal(s);
      assert n == v * 10 + d;
      FromDecimalLeading(init);
      assert 1 <= v;
      DivModOfSum(v, 10, d);
      assert ToDecimal(n) == ToDecimal(v) + [DigitChar(d)];
      DecimalRoundTrip(init);
      DigitCharOfValue(s[|s| - 1]);
      assert s == init + [s[|s| - 1]];
    }
  }

  lemma DigitStringAppend(a: string, b: string)
    requires IsDigitString(a) && IsDigitString(b)
    ensures IsDigitString(a + b)
  {
    var s := a + b;
    forall i | 0 <= i < |s| ensures IsDigit(s[i]) {
      if i < |a| { assert s[i] == a[i]; } else { assert s[i] == b[i - |a|]; }
    }
  }

  lemma ShiftStep(whole: nat, x: nat, p: nat, y: nat, d: nat, tail: nat, q: nat)
    requires whole == (x * p + y) * 10 + d
    requires tail == y * 10 + d && q == 10 * p
    ensures whole == x * q + tail
  {
    assert (x * p) * 10 == x * (10 * p);
  }

  /** Reading a concatenation of digit strings: `int(a + b) == int(a) * 10^len(b) + int(b)`. */
  lemma {:induction false} FromDecimalAppend(a: string, b: string)
    requires 1 <= |a| && IsDigitString(a)
    requires 1 <= |b| && IsDigitString(b)
    ensures IsDigitString(a + b)
    ensures FromDecimal(a + b) == FromDecimal(a) * Pow10(|b|) + FromDecimal(b)
    decreases |b|
  {
    var s := a + b;
    DigitStringAppend(a, b);
    var b' := b[..|b| - 1];
    var d := DigitValue(b[|b| - 1]);
    assert s[|s| - 1] == b[|b| - 1];
    if |b| == 1 {
      assert s[..|s| - 1] == a;
      ShiftStep(FromDecimal(s), FromDecimal(a), 1, 0, d, FromDecimal(b), Pow10(1));
    } else {
      assert s[..|s| - 1] == a + b';
      FromDecimalAppend(a, b');
      ShiftStep(FromDecimal(s), FromDecimal(a), Pow10(|b'|), FromDecimal(b'), d, FromDecimal(b), Pow10(|b|));
    }
  }

  function Zeros(k: nat): (z: string)
    ensures |z| == k
    ensures forall i :: 0 <= i < k ==> z[i] == '0'
  {
    seq(k, _ => '0')
  }

  lemma {:induction false} FromDecimalZeros(k: nat)
    requires 1 <= k
    ensures IsDigitString(Zeros(k))
    ensures FromDecimal(Zeros(k)) == 0
  {
    if k > 1 {
      FromDecimalZeros(k - 1);
      assert Zeros(k)[..k - 1] == Zeros(k - 1);
    }
  }

  /**
   `s.zfill(width)` on a string of digits: left-pad with '0' up to the width;
   a longer string is kept as is. Signed strings, whose zeros go after the
   sign, are never padded by the generators.
   */
  function ZFill(s: string, width: nat): (r: string)
    requires IsDigitString(s)
    ensures |r| == if |s| < width then width else |s|
    ensures r[|r| - |s|..] == s
    ensures forall i :: 0 <= i < |r| - |s| ==> r[i] == '0'
  {
    if |s| >= width then s else Zeros(width - |s|) + s
  }

  lemma ZFillPreservesValue(s: string, width: nat)
    requires 1 <= |s| && IsDigitString(s)
    ensures IsDigitString(ZFill(s, width))
    ensures FromDecimal(ZFill(s, width)) == FromDecimal(s)
  {
    if |s| < width {
      var z := Zeros(width - |s|);
      FromDecimalZeros(width - |s|);
      FromDecimalAppend(z, s);
      assert ZFill(s, width) == z + s;
    }
  }

  /** `int(str(b).zfill(width))`: padding and converting back gives the number back. */
  function IntOfZFill(b: nat, width: nat): (r: nat)
    ensures r == b
  {
    ZFillPreservesValue(ToDecimal(b), width);
    FromDecimal(ZFill(ToDecimal(b), width))
  }

  /**
   The number whose decimal notation is that of a followed by that of b;
   b is the remainder and a the quotient by 10^(digits of b), and when a is
   non-zero the digit counts add up.
   */
  function Concat(a: nat, b: nat): (r: nat)
    ensures r / Pow10(NumDigits(b)) == a
    ensures r % Pow10(NumDigits(b)) == b
    ensures 1 <= a ==> NumDigits(r) == NumDigits(a) + NumDigits(b)
  {
    var p := Pow10(NumDigits(b));
    DivModOfSum(a, p, b);
    ConcatDigits(a, b);
    a * p + b
  }

  lemma ConcatDigits(a: nat, b: nat)
    ensures 1 <= a ==> NumDigits(a * Pow10(NumDigits(b)) + b) == NumDigits(a) + NumDigits(b)
  {
    if a == 0 {
      return;
    }
    var na, nb := NumDigits(a), NumDigits(b);
    var p := Pow10(nb);
    var r := a * p + b;
    var lo, hi := Pow10(na - 1), Pow10(na);
    assert lo <= a;
    ScaledBounds(a, p, b, lo, hi);
    Pow10Add(na - 1, nb);
    Pow10Add(na, nb);
    assert na - 1 + nb == na + nb - 1;
    NumDigitsUnique(r, na + nb);
  }

  lemma ScaledBounds(a: nat, p: nat, b: nat, lo: nat, hi: nat)
    requires lo <= a < hi && b < p
    ensures lo * p <= a * p + b < hi * p
  {
    MulLeq(lo, a, p);
    MulLeq(a + 1, hi, p);
    MulSucc(a, p);
  }

  /** `int(str(a) + str(b))`: the digits of a followed by the digits of b. */
  function JoinDecimal(a: nat, b: nat): (r: nat)
    ensures r == Concat(a, b)
  {
    FromDecimalAppend(ToDecimal(a), ToDecimal(b));
    FromDecimal(ToDecimal(a) + ToDecimal(b))
  }

  /**
   `int(str(a) + str(b).zfill(width))`: b occupies exactly `width` digits
   after a, unless it has more digits than that.
   */
  function JoinPadded(a: nat, b: nat, width: nat): (r: nat)
    ensures r == a * Pow10(if NumDigits(b) < width then width else NumDigits(b)) + b
  {
    var padded := ZFill(ToDecimal(b), width);
    ZFillPreservesValue(ToDecimal(b), width);
    FromDecimalAppend(ToDecimal(a), padded);
    FromDecimal(ToDecimal(a) + padded)
  }
}
