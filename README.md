# Number classification service, modelled in Dafny

The service has one HTTP endpoint, `GET /api/classify-number?number=<value>`.
It checks the `number` query parameter and rejects it with one of three error
messages. Otherwise it returns the number, whether it is prime and whether it is
perfect, an ordered list of properties (`"armstrong"` when it applies, then
`"even"` or `"odd"`), the sum of its decimal digits and a trivia string. All of
this lives in `index.py`.

The project models that logic in three modules:

- `decimal.dfy` (module `Decimal`): the decimal text conversions the handler
  relies on. It has `str(n)` (`Show`), `int(s)` on digit strings
  (`ParseDecimal`), `str.isdigit` on ASCII (`IsDigitString`) and the digit list
  `[int(d) for d in s]`. Printing and parsing are proved to be inverses in both
  directions. The strings that parse to zero are characterised exactly.
- `classifier.dfy` (module `Classifier`): the numeric predicates.
  - `is_prime` is the method `IsPrime`, whose loop runs while `i * i <= n`. It is
    proved to decide both trial primality and textbook primality ("no divisor
    other than 1 and n").
  - `is_perfect` is `IsPerfect`. It is proved to be "n equals the sum of its
    divisors in [1, n-1]", where the divisor list is specified by membership.
    No prime is perfect.
  - `is_armstrong` is `IsArmstrong`. It is proved equal to a reference
    definition by repeated division by ten. `NumDigits` is proved to be the
    number of digits (10^(k-1) <= n < 10^k).
  - The digit sum is `DigitSum`. It is proved equal to the arithmetic digit sum,
    bounded by 1 and 9 × the number of digits, and congruent to n modulo 9.
- `handler.dfy` (module `Handler`): `classify_number` as the method
  `ClassifyNumber`. It runs the checks in the source's order and builds the
  `properties` list by successive appends. Its contract fixes every field of the
  response in terms of the input string.

The number's value is the parsed decimal value of the input, so leading zeros
are accepted (`"007"` gives 7). The `<= 0` check is reachable: every all-digit
string made only of zeros (`"0"`, `"000"`) passes the digit check and is then
rejected with "Number must be greater than zero". `Decimal.ParseZeroIff` states
exactly which inputs these are.

Python's integers are unbounded, as Dafny's `int` and `nat` are, so no
wrap-around is modelled. Python's `%` floors and Dafny's is Euclidean. They agree
here, because every `%` in the core has a positive divisor.

## Model

| member | source | states |
|---|---|---|
| `Decimal.Show` | index.py:26 | `str(n)` yields a non-empty string of ASCII digits with no leading zero unless it is "0" |
| `Decimal.IsDigitString` | index.py:47 | ASCII `str.isdigit`: false on the empty string, otherwise every character is in '0'..'9'; `ClassifyNumber` rejects exactly the strings failing it with "Input must be a number" |
| `Decimal.ParseDecimal` | index.py:50 | `int(s)` on a digit string, leading zeros allowed; `ParseIsPositional` gives its value and `ParseShow`/`ShowParse` make it the inverse of `str` |
| `Decimal.ParseIsPositional` | index.py:50 | `int(s)` equals the sum of d[i] × 10^(len-1-i) over the digit list `[int(d) for d in s]` |
| `Decimal.ParseShow` | index.py:50 | parsing the decimal text of n gives back n |
| `Decimal.ShowParse` | index.py:50 | every canonical digit string is the text of the number it parses to, so each number has exactly one canonical text |
| `Decimal.ParseZeroIff` | index.py:47-55 | an all-digit string parses to 0 exactly when all its characters are '0', so those inputs and only those reach the "greater than zero" rejection |
| `Classifier.SmallFactor` | index.py:13-15 | a number with a divisor d, 2 <= d < n, also has a divisor e >= 2 with e*e <= n, which is why stopping at the square root is enough |
| `Classifier.TrialDivisionIff` | index.py:11-16 | "n >= 2 and no d >= 2 with d*d <= n divides n" holds iff n >= 2 and n has no divisor other than 1 and n |
| `Classifier.IsPrime` | index.py:9-16 | the loop below 2 returns false; otherwise it returns true iff no i with 2 <= i and i*i <= n divides n, which is iff n is prime |
| `Classifier.PrimeExamples` | index.py:9-16 | 2 and 17 are prime; 1 and 18 are not |
| `Classifier.DivisorSumBelow` | index.py:21 | the generator sum over `range(1, k)`; `DivisorSumIsSumOfDivisors` proves it is the sum of the divisors of n below k |
| `Classifier.IsPerfect` | index.py:19-21 | `is_perfect(n)`; `PerfectIff` proves it holds iff n is the sum of its divisors in [1, n-1] |
| `Classifier.DivisorsBelow` | index.py:21 | the filtered range holds exactly the divisors of n in [1, k), in strictly increasing order |
| `Classifier.DivisorSumIsSumOfDivisors` | index.py:21 | the generator sum `sum(i for i in range(1, k) if n % i == 0)` equals the sum of that divisor list |
| `Classifier.PerfectIff` | index.py:19-21 | `is_perfect(n)` holds iff n is the sum of its divisors in [1, n-1] |
| `Classifier.PrimeDivisorSum` | index.py:21 | for a prime p the only divisor in any range [1, k), 2 <= k <= p, is 1 |
| `Classifier.PrimeNotPerfect` | index.py:19-21 | no prime is perfect |
| `Classifier.PerfectExamples` | index.py:19-21 | 6 and 28 are perfect; 1 (empty sum 0), 10 and 12 are not |
| `Classifier.ZeroIsPerfect` | index.py:21 | `is_perfect(0)` is true, because the range is empty and 0 == 0 |
| `Classifier.Digits` | index.py:26 | the digit list of `str(n)` is non-empty, each digit is below 10, and the first is non-zero when n > 0 (and in every list of more than one digit) |
| `Classifier.PowerSum` | index.py:28 | `sum(d ** k for d in ds)`; `DigitsArith` ties it on `str(n)`'s digits to the sum of k-th powers of the digits by division by ten |
| `Classifier.IsArmstrong` | index.py:24-28 | `is_armstrong(n)`; `ArmstrongIff` proves it holds iff the k-th powers of n's k digits sum to n |
| `Classifier.DigitSum` | index.py:72 | `sum(int(digit) for digit in str(n))`; `DigitSumArith`, `DigitSumBounds` and `DigitSumModNine` give its value, bounds and residue mod 9 |
| `Classifier.NumDigitsBounds` | index.py:27 | the digit count k satisfies n < 10^k and, for n > 0, 10^(k-1) <= n |
| `Classifier.DigitsSnoc` | index.py:26 | for n >= 10 the digits of n are the digits of n / 10 followed by n % 10 |
| `Classifier.DigitsArith` | index.py:26-28 | the digits of `str(n)` agree with division by ten: same count, same power sum, same plain sum |
| `Classifier.ArmstrongIff` | index.py:24-28 | `is_armstrong(n)` holds iff the k-th powers of n's k base-10 digits sum to n |
| `Classifier.SingleDigitArmstrong` | index.py:24-28 | every number below 10 is an Armstrong number |
| `Classifier.ArmstrongExamples` | index.py:24-28 | 153, 370 and 9474 are Armstrong numbers |
| `Classifier.NotArmstrongExamples` | index.py:24-28 | 154 and 10 are not Armstrong numbers |
| `Classifier.DigitSumArith` | index.py:72 | `digit_sum` equals the sum of n's base-10 digits obtained by division by ten |
| `Classifier.ArithDigitSumBounds` | index.py:72 | for n > 0 the arithmetic digit sum lies between 1 and 9 × the digit count |
| `Classifier.DigitSumBounds` | index.py:72 | for n > 0, 1 <= `digit_sum` <= 9 × the number of digits |
| `Classifier.ArithDigitSumModNine` | index.py:72 | the arithmetic digit sum is congruent to n modulo 9 |
| `Classifier.DigitSumModNine` | index.py:72 | `digit_sum` is congruent to n modulo 9 |
| `Classifier.DigitSumExamples` | index.py:72 | the digit sum of 4 is 4 and that of 153 is 9 |
| `Handler.Parity` | index.py:62-65 | the parity word is "even" iff n % 2 == 0 and "odd" otherwise |
| `Handler.ClassifyNumber` | index.py:41-74 | the results by input. Absent: "Number parameter is required". Not all digits, including empty: "Input must be a number". All digits parsing to 0: "Number must be greater than zero". Otherwise success with `number` the parsed value (> 0), `is_prime`, `is_perfect` and `digit_sum` from the predicates above, `fun_fact` as given, and `properties` of length 1 or 2, holding "armstrong" iff the number is Armstrong, then first, and ending in its parity word |

## Left out

- Flask application setup, CORS and routing (index.py:1-6, 40, 77-78): framework plumbing with no logic of the core.
- `get_fun_fact` (index.py:31-37): an outbound HTTP request with the fallback "No fact available."; `ClassifyNumber` takes its result as the parameter `funFact`, so the fallback string and the network failure modes are not modelled.
- Classifier.IsPrime: the bound `int(n ** 0.5)` (index.py:13) is modelled as the exact integer square root (`while i * i <= n`). Float rounding for very large n is not modelled. Nor is the failure for n >= 2^1024 (about 309 digits or more), where `n ** 0.5` raises `OverflowError`, so `is_prime` raises instead of answering; `IsPrime` answers for every n.
- Handler.ClassifyNumber: `number.isdigit()` (index.py:47) is modelled as ASCII '0'-'9' on a non-empty string, and `int(number)` (index.py:50) as an unbounded parse that cannot fail. So the `ValueError` branch and its message "Number must be a positive integer" (index.py:51-52) are not modelled. On CPython releases with the integer-string conversion limit (3.11 onward, default 4300 digits) an all-digit input longer than the limit takes that branch; `ClassifyNumber` returns `Success` for it. Likewise, for accepted values of 2^1024 or more the `OverflowError` in `is_prime` makes the handler fail with no JSON body, while `ClassifyNumber` returns `Success`.
- `jsonify` and the HTTP status codes 200/400 (index.py:46-74): only the shape of the body is kept, as `Response.Failure(error)` or `Response.Success(...)`.
- `is_armstrong` on negative numbers: `IsArmstrong` takes only non-negative numbers. For a negative argument Python's `str(n)` contains '-', and `int('-')` would raise. The handler only calls it with n > 0.
