/**
 The three brand generators. Each random draw (`random.randint`) becomes a
 parameter constrained to the draw's inclusive range, so every generator is
 a pure function of its draws. Numbers are built the way the generators
 build them: through their decimal strings, concatenated and read back with
 `int`.
 */
module Generators {
  import opened Decimal
  import opened Luhn

  /** Python's None next to a returned value. */
  datatype Option<T> = None | Some(value: T)

  /**
   `int(str(num) + str(check_sum_digit(num)))`: the number followed by its
   check digit, which makes it pass the Luhn check.
   */
  function AppendCheckDigit(num: nat): (r: nat)
    ensures r / 10 == num
    ensures r % 10 == CheckDigit(num)
    ensures LuhnValid(r)
    ensures 1 <= num ==> NumDigits(r) == NumDigits(num) + 1
  {
    var c := CheckDigit(num);
    assert NumDigits(c) == 1;
    LuhnCompletion(num, c);
    JoinDecimal(num, c)
  }

  /**
   `random_visa` run through the loop of `check_sum_digit` itself rather than
   through `CheckDigit`: the same number comes out.
   */
  method RandomVisaRun(body: nat) returns (r: nat)
    requires body <= 99_999_999_999_999
    ensures r == RandomVisa(body)
  {
    assert Pow10(14) == 100_000_000_000_000;
    NumDigitsAtMost(body, 14);
    var num := JoinPadded(4, body, 14);
    PayloadsFitCheckSumDigit(num);
    var c := CheckSumDigit(num);
    r := JoinDecimal(num, c);
  }

  /** `random_mc` as written, run through the loop of `check_sum_digit`. */
  method RandomMcRun(prefixChoice: nat, prefix: nat, body: nat) returns (r: nat)
    requires McDraws(prefixChoice, prefix, body)
    ensures r == RandomMc(prefixChoice, prefix, body)
  {
    var padded := if prefixChoice == 1 then IntOfZFill(body, 13) else IntOfZFill(body, 11);
    var num := JoinDecimal(prefix, padded);
    // brings the function's unfolding and contract into scope for the last step
    var expected := RandomMc(prefixChoice, prefix, body);
    PayloadsFitCheckSumDigit(num);
    var c := CheckSumDigit(num);
    r := JoinDecimal(num, c);
  }

  /** A payload of at most 15 digits lies below 10^15. */
  lemma PayloadBelow(num: nat)
    requires NumDigits(num) <= 15
    ensures num < Pow10(15)
  {
    Pow10Monotone(NumDigits(num), 15);
  }

  /**
   Every payload the generators hand to `check_sum_digit` is below 10^15, and
   10^15 is below 2^53, where `int(card_digits / 10)` still equals the
   integer quotient by 10; so the loop's precondition holds for every call
   the generators make.
   */
  lemma PayloadsFitCheckSumDigit(num: nat)
    requires num < Pow10(15)
    ensures num < 0x20_0000_0000_0000
  {
    assert Pow10(15) == 1_000_000_000_000_000;
  }

  /** A Visa number: prefix 4 and a 14-digit zero-padded body. */
  function RandomVisa(body: nat): (r: nat)
    requires body <= 99_999_999_999_999
    ensures r / 10 == 4 * Pow10(14) + body
    ensures r / 10 < Pow10(15)
    ensures NumDigits(r) == 16
    ensures r / Pow10(15) == 4
    ensures r % 10 == CheckDigit(r / 10)
    ensures LuhnValid(r)
  {
    var prefix := 4;
    assert Pow10(14) == 100_000_000_000_000;
    NumDigitsAtMost(body, 14);
    var num := JoinPadded(prefix, body, 14);
    var r := AppendCheckDigit(num);
    VisaDigits(body, r);
    r
  }

  lemma VisaDigits(body: nat, r: nat)
    requires body <= 99_999_999_999_999
    requires r / 10 == 4 * Pow10(14) + body
    ensures NumDigits(r) == 16
    ensures r / Pow10(15) == 4
  {
    assert Pow10(14) == 100_000_000_000_000;
    assert Pow10(15) == 1_000_000_000_000_000;
    assert Pow10(16) == 10_000_000_000_000_000;
    NumDigitsUnique(r, 16);
    DivModOfSum(4, Pow10(15), body * 10 + r % 10);
  }

  /** The width `random_mc` pads its body to, by prefix family. */
  function McBodyWidth(prefixChoice: nat): nat {
    if prefixChoice == 1 then 13 else 11
  }

  /** The draws `random_mc` can make: a family, a prefix in it, a body below 10^width. */
  predicate McDraws(prefixChoice: nat, prefix: nat, body: nat) {
    && 1 <= prefixChoice <= 2
    && (prefixChoice == 1 ==> 51 <= prefix <= 55 && body <= 9_999_999_999_999)
    && (prefixChoice != 1 ==> 2221 <= prefix <= 2720 && body <= 99_999_999_999)
  }

  lemma McPrefixDigits(prefixChoice: nat, prefix: nat, body: nat)
    requires McDraws(prefixChoice, prefix, body)
    ensures NumDigits(prefix) + McBodyWidth(prefixChoice) == 15
    ensures body < Pow10(McBodyWidth(prefixChoice))
  {
    assert Pow10(11) == 100_000_000_000;
    assert Pow10(13) == 10_000_000_000_000;
    if prefixChoice == 1 {
      NumDigitsUnique(prefix, 2);
    } else {
      NumDigitsUnique(prefix, 4);
    }
  }

  /**
   `random_mc` as written: the padded body is turned back into an int before
   the concatenation, so the number is the prefix followed by the body's
   unpadded digits, and it has 16 digits only when the body fills its width.
   */
  function RandomMc(prefixChoice: nat, prefix: nat, body: nat): (r: nat)
    requires McDraws(prefixChoice, prefix, body)
    ensures r / 10 == Concat(prefix, body)
    ensures (r / 10) / Pow10(NumDigits(body)) == prefix
    ensures r % 10 == CheckDigit(r / 10)
    ensures LuhnValid(r)
    ensures NumDigits(r) == 16 <==> Pow10(McBodyWidth(prefixChoice) - 1) <= body
    ensures r / 10 < Pow10(15)
  {
    var padded := if prefixChoice == 1 then IntOfZFill(body, 13) else IntOfZFill(body, 11);
    var num := JoinDecimal(prefix, padded);
    McPrefixDigits(prefixChoice, prefix, body);
    NumDigitsCharacterisation(body, McBodyWidth(prefixChoice));
    NumDigitsAtMost(body, McBodyWidth(prefixChoice));
    PayloadBelow(num);
    AppendCheckDigit(num)
  }

  /**
   `random_mc` with the padding kept: the body always occupies its full width,
   so every number has 16 digits and starts with the prefix.
   */
  function RandomMcPadded(prefixChoice: nat, prefix: nat, body: nat): (r: nat)
    requires McDraws(prefixChoice, prefix, body)
    ensures (r / 10) / Pow10(McBodyWidth(prefixChoice)) == prefix
    ensures (r / 10) % Pow10(McBodyWidth(prefixChoice)) == body
    ensures r / 10 < Pow10(15)
    ensures NumDigits(r) == 16
    ensures r % 10 == CheckDigit(r / 10)
    ensures LuhnValid(r)
  {
    var num := JoinPadded(prefix, body, McBodyWidth(prefixChoice));
    McPaddedNumber(prefixChoice, prefix, body);
    AppendCheckDigit(num)
  }

  /** The 15-digit payload of the padded MasterCard number: the prefix, then the body in its full width. */
  lemma McPaddedNumber(prefixChoice: nat, prefix: nat, body: nat)
    requires McDraws(prefixChoice, prefix, body)
    ensures JoinPadded(prefix, body, McBodyWidth(prefixChoice)) / Pow10(McBodyWidth(prefixChoice)) == prefix
    ensures JoinPadded(prefix, body, McBodyWidth(prefixChoice)) % Pow10(McBodyWidth(prefixChoice)) == body
    ensures NumDigits(JoinPadded(prefix, body, McBodyWidth(prefixChoice))) == 15
  {
    var width := McBodyWidth(prefixChoice);
    McPrefixDigits(prefixChoice, prefix, body);
    NumDigitsAtMost(body, width);
    var num := JoinPadded(prefix, body, width);
    assert num == prefix * Pow10(width) + body;
    DivModOfSum(prefix, Pow10(width), body);
    McPaddedDigits(prefixChoice, prefix, body, num);
  }

  lemma McPaddedDigits(prefixChoice: nat, prefix: nat, body: nat, num: nat)
    requires McDraws(prefixChoice, prefix, body)
    requires num == prefix * Pow10(McBodyWidth(prefixChoice)) + body
    ensures NumDigits(num) == 15
  {
    assert Pow10(11) == 100_000_000_000;
    assert Pow10(13) == 10_000_000_000_000;
    assert Pow10(14) == 100_000_000_000_000;
    assert Pow10(15) == 1_000_000_000_000_000;
    NumDigitsUnique(num, 15);
  }

  /** The draws `random_amex` can make. */
  predicate AmexDraws(prefixChoice: nat, body: nat) {
    1 <= prefixChoice <= 2 && body <= 999_999_999_999
  }

  function AmexPrefix(prefixChoice: nat): nat {
    if prefixChoice == 1 then 34 else 37
  }

  /**
   The value `num` holds at the end of `random_amex`: prefix 34 or 37, then
   the body's digits with the padding undone, then the check digit.
   */
  function AmexNumber(prefixChoice: nat, body: nat): (num: nat)
    requires AmexDraws(prefixChoice, body)
    ensures (num / 10) / Pow10(NumDigits(body)) in {34, 37}
    ensures (num / 10) / Pow10(NumDigits(body)) == 34 <==> prefixChoice == 1
    ensures (num / 10) % Pow10(NumDigits(body)) == body
    ensures num / 10 < Pow10(15)
    ensures num % 10 == CheckDigit(num / 10)
    ensures LuhnValid(num)
    ensures NumDigits(num) == 15 <==> Pow10(11) <= body
  {
    var prefix := AmexPrefix(prefixChoice);
    var padded := IntOfZFill(body, 12);
    var num := JoinDecimal(prefix, padded);
    AmexPayload(prefix, body);
    AppendCheckDigit(num)
  }

  /** The as-written Amex payload: two prefix digits and the body's digits, below 10^15. */
  lemma AmexPayload(prefix: nat, body: nat)
    requires prefix == 34 || prefix == 37
    requires body <= 999_999_999_999
    ensures NumDigits(Concat(prefix, body)) == 14 <==> Pow10(11) <= body
    ensures Concat(prefix, body) < Pow10(15)
  {
    AmexBodyDigits(prefix, body);
    PayloadBelow(Concat(prefix, body));
  }

  lemma AmexBodyDigits(prefix: nat, body: nat)
    requires prefix == 34 || prefix == 37
    requires body <= 999_999_999_999
    ensures NumDigits(prefix) == 2
    ensures NumDigits(body) <= 12
    ensures NumDigits(body) == 12 <==> Pow10(11) <= body
  {
    assert Pow10(12) == 1_000_000_000_000;
    NumDigitsUnique(prefix, 2);
    NumDigitsCharacterisation(body, 12);
    NumDigitsAtMost(body, 12);
  }

  /** `random_amex` as written: it computes `num` and falls off its end, returning None. */
  function RandomAmex(prefixChoice: nat, body: nat): (r: Option<nat>)
    requires AmexDraws(prefixChoice, body)
    ensures r == None
  {
    var num := AmexNumber(prefixChoice, body);
    None
  }

  /**
   `random_amex` returning its number, with the padding kept: 15 digits,
   prefix 34 or 37, the body in the twelve digits before the check digit.
   */
  function RandomAmexFixed(prefixChoice: nat, body: nat): (r: nat)
    requires AmexDraws(prefixChoice, body)
    ensures (r / 10) / Pow10(12) in {34, 37}
    ensures (r / 10) / Pow10(12) == 34 <==> prefixChoice == 1
    ensures (r / 10) % Pow10(12) == body
    ensures r / 10 < Pow10(15)
    ensures NumDigits(r) == 15
    ensures r % 10 == CheckDigit(r / 10)
    ensures LuhnValid(r)
  {
    var prefix := AmexPrefix(prefixChoice);
    assert Pow10(12) == 1_000_000_000_000;
    NumDigitsAtMost(body, 12);
    var num := JoinPadded(prefix, body, 12);
    DivModOfSum(prefix, Pow10(12), body);
    assert Pow10(13) == 10_000_000_000_000;
    assert Pow10(14) == 100_000_000_000_000;
    NumDigitsUnique(num, 14);
    assert Pow10(15) == 1_000_000_000_000_000;
    AppendCheckDigit(num)
  }

  /** A MasterCard draw with a short body: as written the number is 5157, four digits. */
  lemma McShortBody()
    ensures RandomMc(1, 51, 5) == 5157
  {
    assert CheckDigit(515) == 7;
    assert NumDigits(5) == 1 && Pow10(1) == 10;
    var r := RandomMc(1, 51, 5);
    assert r / 10 == 515;
    assert r == (r / 10) * 10 + r % 10;
  }

  /** An Amex draw with a short body: as written `num` is 3459, four digits. */
  lemma AmexShortBody()
    ensures AmexNumber(1, 5) == 3459
  {
    assert CheckDigit(345) == 9;
    assert NumDigits(5) == 1 && Pow10(1) == 10;
    var r := AmexNumber(1, 5);
    assert r / 10 == 345;
    assert r == (r / 10) * 10 + r % 10;
  }

  /**
   Every Amex draw yields a Luhn-valid number in `num`, yet the function
   hands back None; the corrected generator returns a valid number.
   */
  lemma AmexDiscardsNumber(prefixChoice: nat, body: nat)
    requires AmexDraws(prefixChoice, body)
    ensures RandomAmex(prefixChoice, body) == None
    ensures LuhnValid(AmexNumber(prefixChoice, body))
    ensures LuhnValid(RandomAmexFixed(prefixChoice, body))
  {
  }
}
