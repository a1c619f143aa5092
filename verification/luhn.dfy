/**
 The Luhn check digit of ISO/IEC 7812-1, Annex B, computed the way
 `check_sum_digit` does it: walk the decimal digits of the number from the
 right, double every digit at an even position (position 0 is the digit that
 will sit next to the check digit), reduce a doubled value above 9 by 9, and
 turn the total into a digit with `total * 9 % 10`.

 Beside it stands the validator's reading of a complete card number, left to
 right over its decimal string, so that the check digit can be proved to
 complete a valid number.
 */
module Luhn {
  import opened Decimal

  /**
   What one digit adds to the running total at a position counted from the
   right: at an even position it is doubled and reduced by 9 when the double
   exceeds 9, which is the digit sum of the double; at an odd position it is
   the digit itself.
   */
  function Contribution(d: nat, pos: nat): (c: nat)
    requires d <= 9
    ensures c <= 9
  {
    if pos % 2 == 0 then
      if d * 2 > 9 then d * 2 - 9 else d * 2
    else
      d
  }

  /**
   The reduction by 9 is the digit sum of the doubled digit, as the usual
   statement of the Luhn formula puts it; an odd position keeps the digit.
   */
  lemma ContributionIsDigitSum(d: nat, pos: nat)
    requires d <= 9
    ensures pos % 2 == 0 ==> Contribution(d, pos) == (2 * d) / 10 + (2 * d) % 10
    ensures pos % 2 == 1 ==> Contribution(d, pos) == d
  {
  }

  /**
   The total `check_sum` reaches over the digits of n, the least significant
   digit standing at position `pos`. Zero has one digit, as `str(0)` does.
   */
  function LuhnSum(n: nat, pos: nat): (total: nat)
    decreases n
  {
    if n < 10 then Contribution(n, pos)
    else Contribution(n % 10, pos) + LuhnSum(n / 10, pos + 1)
  }

  /** Every digit adds at most 9, so the total is at most 9 per digit of `str(n)`. */
  lemma {:induction false} LuhnSumBound(n: nat, pos: nat)
    ensures LuhnSum(n, pos) <= 9 * NumDigits(n)
    decreases n
  {
    if n >= 10 {
      LuhnSumBound(n / 10, pos + 1);
    }
  }

  /** Only the parity of the starting position matters. */
  lemma {:induction false} LuhnSumParity(n: nat, pos: nat)
    ensures LuhnSum(n, pos + 2) == LuhnSum(n, pos)
    decreases n
  {
    if n >= 10 {
      LuhnSumParity(n / 10, pos + 1);
    }
  }

  /** The recursion of LuhnSum also holds for a single digit, whose higher digits are 0. */
  lemma LuhnSumUnfold(n: nat, pos: nat)
    ensures LuhnSum(n, pos) == Contribution(n % 10, pos) + LuhnSum(n / 10, pos + 1)
  {
  }

  /**
   The total of a followed by b written in w digits (zero-padded): b's digits
   keep their positions and a's start at position w.
   */
  lemma {:induction false} LuhnSumSplit(a: nat, w: nat, b: nat, pos: nat)
    requires 1 <= w && b < Pow10(w)
    ensures LuhnSum(Shift(a, w) + b, pos) == LuhnSum(b, pos) + LuhnSum(a, pos + w)
    decreases w
  {
    if w == 1 {
      SplitLastDigit(a, b, pos);
    } else {
      DropLastDigitBound(b, w);
      LuhnSumSplit(a, w - 1, b / 10, pos + 1);
      SplitStep(a, w, b, pos);
    }
  }

  /** A single digit b after a. */
  lemma SplitLastDigit(a: nat, b: nat, pos: nat)
    requires b < 10
    ensures LuhnSum(Shift(a, 1) + b, pos) == LuhnSum(b, pos) + LuhnSum(a, pos + 1)
  {
    ShiftPeel(a, 1, b);
    LuhnSumUnfold(Shift(a, 1) + b, pos);
    assert b / 10 == 0 && Shift(a, 0) == a;
  }

  /** One digit of b peeled off, given the split for the rest. */
  lemma SplitStep(a: nat, w: nat, b: nat, pos: nat)
    requires 2 <= w
    requires LuhnSum(Shift(a, w - 1) + b / 10, pos + 1) == LuhnSum(b / 10, pos + 1) + LuhnSum(a, pos + w)
    ensures LuhnSum(Shift(a, w) + b, pos) == LuhnSum(b, pos) + LuhnSum(a, pos + w)
  {
    ShiftPeel(a, w, b);
    LuhnSumUnfold(Shift(a, w) + b, pos);
    LuhnSumUnfold(b, pos);
  }

  lemma DropLastDigitBound(b: nat, w: nat)
    requires 1 <= w && b < Pow10(w)
    ensures b / 10 < Pow10(w - 1)
  {
    assert Pow10(w) == 10 * Pow10(w - 1);
  }

  /** Dropping the last digit of a shifted a followed by b drops the last digit of b. */
  lemma ShiftPeel(a: nat, w: nat, b: nat)
    requires 1 <= w
    ensures (Shift(a, w) + b) / 10 == Shift(a, w - 1) + b / 10
    ensures (Shift(a, w) + b) % 10 == b % 10
  {
    var m := Shift(a, w - 1) + b / 10;
    assert Shift(a, w) + b == m * 10 + b % 10;
    DivModOfSum(m, 10, b % 10);
  }

  /** The same split with the shift written as a power of ten, as `Concat` and `JoinPadded` produce it. */
  lemma LuhnSumConcat(a: nat, w: nat, b: nat, pos: nat)
    requires 1 <= w && b < Pow10(w)
    ensures LuhnSum(a * Pow10(w) + b, pos) == LuhnSum(b, pos) + LuhnSum(a, pos + w)
  {
    ShiftIsPow10(a, w);
    LuhnSumSplit(a, w, b, pos);
  }

  /** The digit that completes n: with it the Luhn total is a multiple of 10. */
  function CheckDigit(n: nat): (c: nat)
    ensures c <= 9
    ensures (LuhnSum(n, 0) + c) % 10 == 0
  {
    var total := LuhnSum(n, 0);
    NinesComplement(total);
    total * 9 % 10
  }

  /** Since 9 is -1 modulo 10, adding 9 * total modulo 10 to the total gives a multiple of 10. */
  lemma NinesComplement(total: nat)
    ensures (total + total * 9 % 10) % 10 == 0
  {
    var q := total * 9 / 10;
    assert total * 9 == 10 * q + total * 9 % 10;
    assert total + total * 9 % 10 == 10 * (total - q);
  }

  /**
   The validator's total over a digit string read left to right: the digit
   at index i stands at position offset + |s| - i, so with offset 0 the
   rightmost digit is at position 1 and is not doubled, the one left of it is
   doubled, and so on.
   */
  function PositionalSum(s: string, offset: nat): nat
    requires IsDigitString(s)
    decreases |s|
  {
    if |s| == 0 then 0
    else Contribution(DigitValue(s[0]), offset + |s|) + PositionalSum(s[1..], offset)
  }

  /** A complete number passes the Luhn check. */
  predicate LuhnValid(m: nat) {
    PositionalSum(ToDecimal(m), 0) % 10 == 0
  }

  lemma {:induction false} PositionalSumAppend(a: string, b: string, offset: nat)
    requires IsDigitString(a) && IsDigitString(b)
    ensures IsDigitString(a + b)
    ensures PositionalSum(a + b, offset) == PositionalSum(a, offset + |b|) + PositionalSum(b, offset)
    decreases |a|
  {
    DigitStringAppend(a, b);
    if |a| == 0 {
      assert a + b == b;
    } else {
      assert (a + b)[0] == a[0];
      assert (a + b)[1..] == a[1..] + b;
      PositionalSumAppend(a[1..], b, offset);
    }
  }

  /** Reading `str(n)` left to right gives the same total as peeling digits off n. */
  lemma {:induction false} PositionalSumOfDecimal(n: nat, offset: nat)
    ensures PositionalSum(ToDecimal(n), offset) == LuhnSum(n, offset + 1)
    decreases n
  {
    if n < 10 {
      assert ToDecimal(n)[1..] == [];
    } else {
      var init := ToDecimal(n / 10);
      var last := [DigitChar(n % 10)];
      assert ToDecimal(n) == init + last;
      PositionalSumAppend(init, last, offset);
      assert last[1..] == [];
      PositionalSumOfDecimal(n / 10, offset + 1);
    }
  }

  /** The validator's total of n followed by digit d is the Luhn total of n plus d. */
  lemma ValidatorTotalOfAppend(n: nat, d: nat)
    requires d <= 9
    ensures PositionalSum(ToDecimal(n * 10 + d), 0) == LuhnSum(n, 0) + d
  {
    var last := [DigitChar(d)];
    assert PositionalSum(last, 0) == d by {
      assert last[1..] == [];
    }
    if n == 0 {
      assert ToDecimal(n * 10 + d) == last;
      assert LuhnSum(n, 0) == 0;
    } else {
      ToDecimalAppendDigit(n, d);
      AppendedTotal(ToDecimal(n), last, d);
      PositionalSumOfDecimal(n, 1);
      LuhnSumParity(n, 0);
    }
  }

  lemma AppendedTotal(digits: string, last: string, d: nat)
    requires IsDigitString(digits) && IsDigitString(last)
    requires |last| == 1 && PositionalSum(last, 0) == d
    ensures IsDigitString(digits + last)
    ensures PositionalSum(digits + last, 0) == PositionalSum(digits, 1) + d
  {
    PositionalSumAppend(digits, last, 0);
  }

  /** Two digits that complete the same total are the same digit. */
  lemma CompletionUnique(total: nat, c: nat, d: nat)
    requires c <= 9 && d <= 9
    requires (total + c) % 10 == 0
    ensures (total + d) % 10 == 0 <==> d == c
  {
  }

  /** The check digit is the only digit that completes the total. */
  lemma CheckDigitFromTotal(n: nat, c: nat)
    requires c <= 9 && (LuhnSum(n, 0) + c) % 10 == 0
    ensures CheckDigit(n) == c
  {
    CompletionUnique(LuhnSum(n, 0), CheckDigit(n), c);
  }

  /**
   Luhn completion: a digit appended to n gives a valid number if and only
   if it is the check digit of n.
   */
  lemma LuhnCompletion(n: nat, d: nat)
    requires d <= 9
    ensures LuhnValid(n * 10 + d) <==> d == CheckDigit(n)
  {
    ValidatorTotalOfAppend(n, d);
    CompletionUnique(LuhnSum(n, 0), CheckDigit(n), d);
  }

  /** One pass of the loop: the last digit's contribution, then the remaining digits one position further left. */
  lemma PeelDigit(n: nat, pos: nat, remaining: nat)
    requires 1 <= remaining && NumDigits(n) == remaining
    ensures remaining == 1 ==> LuhnSum(n, pos) == Contribution(n % 10, pos)
    ensures remaining > 1 ==> LuhnSum(n, pos) == Contribution(n % 10, pos) + LuhnSum(n / 10, pos + 1)
    ensures remaining > 1 ==> NumDigits(n / 10) == remaining - 1
  {
  }

  /**
   `check_sum_digit` as written: one pass per character of `str(number)`,
   peeling the last digit off with `% 10` and `/ 10`.
   */
  method CheckSumDigit(number: nat) returns (result: nat)
    requires number < 0x20_0000_0000_0000
    ensures result <= 9
    ensures result == CheckDigit(number)
    ensures LuhnValid(number * 10 + result)
  {
    var cardDigits := number;
    var checkSum := 0;
    var counter := 0;
    var text := ToDecimal(number);
    while counter < |text|
      invariant counter <= |text|
      invariant counter < |text| ==> NumDigits(cardDigits) == |text| - counter
      invariant counter < |text| ==> checkSum + LuhnSum(cardDigits, counter) == LuhnSum(number, 0)
      invariant counter == |text| ==> checkSum == LuhnSum(number, 0)
    {
      PeelDigit(cardDigits, counter, |text| - counter);
      var digit := cardDigits % 10;
      if counter % 2 == 0 {
        if digit * 2 > 9 {
          checkSum := checkSum + (digit * 2 - 9);
        } else {
          checkSum := checkSum + digit * 2;
        }
      } else {
        checkSum := checkSum + digit;
      }
      cardDigits := cardDigits / 10;
      counter := counter + 1;
    }
    result := checkSum * 9 % 10;
    LuhnCompletion(number, result);
  }

  /** Worked vector: the payload 7992739871 gets check digit 3, and 79927398713 passes. */
  lemma KnownVector()
    ensures CheckDigit(7_992_739_871) == 3
    ensures LuhnValid(79_927_398_713)
  {
    assert Shift(79_927, 5) == 7_992_700_000;
    LuhnSumSplit(79_927, 5, 39_871, 0);
    LuhnCompletion(7_992_739_871, 3);
  }

  /** The twelve-digit payload 779927398710 gets check digit 7, not 3. */
  lemma TwelveDigitVector()
    ensures CheckDigit(779_927_398_710) == 7
  {
    assert Shift(779_927, 6) == 779_927_000_000;
    LuhnSumSplit(779_927, 6, 398_710, 0);
    assert LuhnSum(779_927_398_710, 0) == 63;
    CheckDigitFromTotal(779_927_398_710, 7);
  }
}
