# Luhn check digits for synthetic Visa, MasterCard and Amex numbers

This project models `cc_num_gen.py`, a small generator of card-like numbers
for testing. It has one routine that does real work, `check_sum_digit`, and
three generators that call it.

- `check_sum_digit(number)` computes the Luhn check digit of ISO/IEC 7812-1,
  Annex B. It walks the decimal digits of a non-negative integer from the
  right. Digits at even positions are doubled, and 9 is subtracted when the
  double exceeds 9. The total is turned into a digit with `check_sum * 9 % 10`.
- `random_visa`, `random_mc` and `random_amex` draw a prefix and a body with
  `random.randint`. They glue the decimal strings together, read the result
  back with `int`, and append the check digit.

The model has three modules:

- `Decimal` (decimal.dfy) models the string machinery on naturals. It has
  Python's `str` (`ToDecimal`), `int` on digit strings (`FromDecimal`) and
  `str.zfill` (`ZFill`). It also has what they amount to in arithmetic:
  `Pow10`, `NumDigits` (the length of `str(n)`, 1 for zero) and `Concat`.
- `Luhn` (luhn.dfy) holds the check digit.
  - `Contribution` and `LuhnSum` give what the loop adds up. `CheckDigit`
    is the digit that completes that total.
  - `CheckSumDigit` is the loop itself, with invariants tying it to
    `LuhnSum`.
  - `PositionalSum` and `LuhnValid` define how a validator checks a complete
    number. They read the number's string left to right, and the rightmost
    digit is not doubled. `LuhnCompletion` proves that appending a digit
    gives a valid number exactly when that digit is the check digit.
- `Generators` (generators.dfy) holds the three generators. Each random draw
  is a parameter, constrained to the inclusive range of its `randint` call.
  The as-written behaviour and the corrected behaviour are both modelled
  where they differ (see Findings).

## Model

| member | source | states |
|---|---|---|
| `Decimal.NumDigits` | cc_num_gen.py:21 | the number of characters of `str(n)` is at least 1, and n lies below 10^k and, for k > 1, at or above 10^(k-1) |
| `Decimal.NumDigitsCharacterisation` | cc_num_gen.py:21 | `NumDigits(n) == k` holds exactly when n is in [10^(k-1), 10^k), or in [0, 10) for k = 1, in both directions |
| `Decimal.ToDecimal` | cc_num_gen.py:48 | `str(n)` is a digit string of `NumDigits(n)` characters that starts with '0' only for zero and reads back as n under `int` |
| `Decimal.FromDecimal` | cc_num_gen.py:48 | `int(s)` of an s-digit string is below 10^len(s); leading zeros are accepted |
| `Decimal.DecimalRoundTrip` | cc_num_gen.py:49 | a digit string without a leading zero is what `str` returns for its value, so `str(int(s)) == s` |
| `Decimal.FromDecimalLeading` | cc_num_gen.py:49 | a digit string with a non-zero first digit denotes at least 10^(len-1) |
| `Decimal.FromDecimalAppend` | cc_num_gen.py:73 | `int(a + b) == int(a) * 10^len(b) + int(b)` for digit strings a and b |
| `Decimal.ToDecimalAppendDigit` | cc_num_gen.py:49 | `str(n*10 + d)` is `str(n)` followed by the character of d when n is non-zero |
| `Decimal.ZFill` | cc_num_gen.py:48 | on a digit string, `s.zfill(w)` has length max(w, len(s)), ends with s, and has only '0' before it |
| `Decimal.ZFillPreservesValue` | cc_num_gen.py:67 | zero-padding a digit string does not change the number it denotes |
| `Decimal.IntOfZFill` | cc_num_gen.py:67 | `int(str(b).zfill(k)) == b`, so the padding is undone |
| `Decimal.ShiftIsPow10` | cc_num_gen.py:73 | appending w zero digits to a multiplies it by 10^w |
| `Decimal.Concat` | cc_num_gen.py:73 | the concatenation of a and b has quotient a and remainder b modulo 10^(digits of b), and for a non-zero a it has as many digits as a and b together |
| `Decimal.JoinDecimal` | cc_num_gen.py:73 | `int(str(a) + str(b))` equals `Concat(a, b)` |
| `Decimal.JoinPadded` | cc_num_gen.py:48 | `int(str(a) + str(b).zfill(w))` equals a * 10^w + b, or a * 10^(digits of b) + b when b is wider than w |
| `Luhn.Contribution` | cc_num_gen.py:24-30 | each digit adds a value in 0..9 to the total |
| `Luhn.ContributionIsDigitSum` | cc_num_gen.py:24-30 | at an even position the reduced double is the digit sum of 2d, and at an odd position the digit itself is added |
| `Luhn.LuhnSumBound` | cc_num_gen.py:19-33 | the total `check_sum` reaches over the digits of n is at most 9 per digit of `str(n)` |
| `Luhn.LuhnSumParity` | cc_num_gen.py:24 | the total depends only on the parity of the starting position |
| `Luhn.LuhnSumSplit` | cc_num_gen.py:19-33 | the total of a followed by b in w digits is b's total plus a's total started w positions further left |
| `Luhn.LuhnSumConcat` | cc_num_gen.py:19-33 | the same split for a * 10^w + b, the form the concatenations of the generators produce |
| `Luhn.PeelDigit` | cc_num_gen.py:22-33 | one loop pass adds the last digit's contribution and leaves the remaining digits one position further left, with one digit fewer |
| `Luhn.CheckDigit` | cc_num_gen.py:35 | the result is a single digit, and adding it to the total gives a multiple of 10 |
| `Luhn.NinesComplement` | cc_num_gen.py:35 | `total + total * 9 % 10` is a multiple of 10, because 9 is -1 modulo 10 |
| `Luhn.CompletionUnique` | cc_num_gen.py:35 | only one digit completes a given total to a multiple of 10 |
| `Luhn.CheckDigitFromTotal` | cc_num_gen.py:35 | any digit that completes the total of n is the check digit of n |
| `Luhn.CheckSumDigit` | cc_num_gen.py:15-35 | the loop over `str(number)` returns a digit in 0..9 equal to `CheckDigit(number)`, and `number*10 + result` passes the Luhn check |
| `Luhn.PositionalSumAppend` | cc_num_gen.py:21-33 | the validator's total of a concatenation is the total of the right part plus the left part's total shifted by the right part's length |
| `Luhn.PositionalSumOfDecimal` | cc_num_gen.py:21-33 | reading `str(n)` left to right gives the same total as peeling digits off n with `% 10` and `/ 10` |
| `Luhn.ValidatorTotalOfAppend` | cc_num_gen.py:49 | the validator's total of n followed by d is the loop's total of n plus d |
| `Luhn.LuhnCompletion` | cc_num_gen.py:15-35 | n followed by digit d passes the Luhn check if and only if d is the check digit of n |
| `Luhn.KnownVector` | cc_num_gen.py:15-35 | 7992739871 gets check digit 3, and 79927398713 passes the check |
| `Luhn.TwelveDigitVector` | cc_num_gen.py:15-35 | the twelve-digit input 779927398710 gets check digit 7 |
| `Generators.AppendCheckDigit` | cc_num_gen.py:49 | `int(str(num) + str(check_sum_digit(num)))` is num with its check digit as last digit; it passes the Luhn check and, for a non-zero num, has one digit more |
| `Generators.RandomVisa` | cc_num_gen.py:44-51 | for every body in [0, 10^14 - 1], the number without its last digit is 4 * 10^14 + body, below 10^15; the number has 16 digits and leading digit 4, ends with the check digit of the rest, and passes the Luhn check |
| `Generators.VisaDigits` | cc_num_gen.py:48-49 | a 15-digit payload starting with 4 and followed by a check digit gives a 16-digit number whose leading digit is 4 |
| `Generators.McPrefixDigits` | cc_num_gen.py:62-71 | a prefix in [51, 55] has 2 digits and is padded to 13, a prefix in [2221, 2720] has 4 digits and is padded to 11; together that is 15 digits |
| `Generators.RandomMc` | cc_num_gen.py:60-76 | as written: the number without its last digit is `Concat(prefix, body)`, is below 10^15, and starts with the prefix; it ends with its check digit and passes the Luhn check; it has 16 digits exactly when the body fills its padded width |
| `Generators.RandomMcPadded` | cc_num_gen.py:60-76 | with the padding kept, every number has 16 digits and a payload below 10^15; the prefix and the body sit in their fields, and the number ends with its check digit and passes the Luhn check |
| `Generators.McPaddedNumber` | cc_num_gen.py:66-73 | the padded 15-digit payload holds the prefix above 10^width and the body below it |
| `Generators.RandomVisaRun` | cc_num_gen.py:44-51 | running `random_visa` through the `check_sum_digit` loop itself gives the same number as `RandomVisa` for every body |
| `Generators.RandomMcRun` | cc_num_gen.py:60-76 | running `random_mc` as written through the `check_sum_digit` loop itself gives the same number as `RandomMc` for every draw |
| `Generators.PayloadBelow` | cc_num_gen.py:49 | a payload of at most 15 digits is below 10^15 |
| `Generators.PayloadsFitCheckSumDigit` | cc_num_gen.py:32 | a payload below 10^15 is below 2^53, so `int(card_digits / 10)` equals the integer quotient by 10 for every call the generators make |
| `Generators.AmexNumber` | cc_num_gen.py:87-98 | the value of `num`: prefix 34 exactly when the first draw is 1 and 37 otherwise, then the body, all below 10^15; it ends with its check digit and passes the Luhn check; it has 15 digits exactly when the body is at least 10^11 |
| `Generators.AmexPayload` | cc_num_gen.py:97 | the as-written Amex payload is below 10^15 and has 14 digits exactly when the body is at least 10^11 |
| `Generators.AmexBodyDigits` | cc_num_gen.py:94-95 | an Amex body has at most 12 digits, and exactly 12 when it is at least 10^11 |
| `Generators.RandomAmex` | cc_num_gen.py:85-98 | as written the function returns None for every draw |
| `Generators.RandomAmexFixed` | cc_num_gen.py:85-98 | corrected: it returns a 15-digit Luhn-valid number, its payload below 10^15, with prefix 34 or 37, chosen by the first draw, and the body in the twelve digits before the check digit |
| `Generators.McShortBody` | cc_num_gen.py:66-74 | the draws (1, 51, 5) give the four-digit number 5157 |
| `Generators.AmexShortBody` | cc_num_gen.py:94-98 | the draws (1, 5) leave `num` at the four-digit 3459 |
| `Generators.AmexDiscardsNumber` | cc_num_gen.py:85-98 | for every draw the value of `num` passes the Luhn check, yet the function returns None; the corrected generator returns a valid number |

## Left out

- The `random` module is left out. Draws are parameters limited to the
  inclusive ranges of their `randint` calls. Uniformity and the 50/50 family
  choice are not modelled.
- Luhn.CheckSumDigit: requires `number < 2^53`. Line 32 computes
  `int(card_digits / 10)` with float division, and the model uses the
  integer quotient by 10. The two agree below 2^53.
  - Every generator's contract bounds its payload below 10^15, and
    `Generators.PayloadsFitCheckSumDigit` shows that 10^15 is below 2^53.
  - `Generators.RandomVisaRun` and `Generators.RandomMcRun` call the loop on
    that payload and get the same number.
  - Above 2^53, IEEE double rounding is not modelled.
- Negative inputs to `check_sum_digit` are not modelled. `str` would add a
  '-' and Python's `%` floors. The model takes naturals, and no caller
  passes a negative number.
- The comment at `cc_num_gen.py:12` says `check_sum_digit` takes a string,
  but every caller passes an `int`, so the model takes a natural. No
  validation error for non-digit input is modelled, because the code has
  none.
- Decimal.FromDecimal: models `int` only on non-empty ASCII digit strings.
  That is all the generators ever pass: `str` of a natural, sometimes
  zero-filled. Python's `int` accepts more, such as a sign, surrounding
  whitespace, `_` between digits and non-ASCII digits. That wider domain is
  not modelled.
- Decimal.ZFill: models `str.zfill` only on digit strings. Python puts the
  zeros after a leading sign, and the generators never pad a signed string.
- `LuhnSum` has no contract of its own. A bound in its contract would be
  carried into every proof that unfolds it. Its properties are the lemmas
  `LuhnSumBound`, `LuhnSumParity`, `LuhnSumSplit`, `LuhnSumConcat` and
  `PeelDigit`.
- The draw ranges (`McDraws`, `AmexDraws`) and the Amex prefix choice
  (`AmexPrefix`) are plain definitions with no contract. They appear in the
  requires and ensures of the generators that use them.
- Only one copy of the generator is modelled. The repository's
  near-identical copies, which differ only in comments, are not part of
  this model.

## Findings

Each generator's own comment promises a "Random valid … number as int"
(cc_num_gen.py:42, :58 and :83). The body's zero-fill (lines 48, 67, 71 and
95) shows the intended fixed width. Two generators break that promise, in
three ways:

- `random_mc` drops the padding, so a short body gives a short number.
- `random_amex` drops the padding in the same way.
- `random_amex` never returns its number.

| source | as written | input that shows it | evidently intended | confidence | as-written member | corrected member |
|---|---|---|---|---|---|---|
| cc_num_gen.py:66-73 | `int(str(body).zfill(13))` (and `zfill(11)`) turns the padded body back into an int, so `str(prefix) + str(body)` loses the leading zeros | prefix_choice 1, prefix 51, body 5 gives 5157 | 5100000000000057, the body kept at 13 digits, 16 digits in all | high; not executed | `Generators.RandomMc`, `Generators.McShortBody` | `Generators.RandomMcPadded` |
| cc_num_gen.py:94-97 | `int(str(body).zfill(12))` undoes the padding before the concatenation | prefix_choice 1, body 5 leaves `num` at 3459 | 340000000000058, 15 digits | high; not executed | `Generators.AmexNumber`, `Generators.AmexShortBody` | `Generators.RandomAmexFixed` |
| cc_num_gen.py:85-98 | no `return num` after line 98, so the function returns None | any draw, for example prefix_choice 1, body 5 | return the assembled, Luhn-valid number | high; not executed | `Generators.RandomAmex`, `Generators.AmexDiscardsNumber` | `Generators.RandomAmexFixed` |

Two worked inputs for `check_sum_digit`:

- The twelve-digit input 779927398710 has Luhn total 63 and gets check digit
  7 (`Luhn.TwelveDigitVector`).
- The ten-digit payload 7992739871 gets 3 (`Luhn.KnownVector`).
