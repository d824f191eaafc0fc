# T.C. Kimlik No checksum validator in Dafny

This project models the offline validator for Turkish national identity numbers
(T.C. Kimlik No). The validator is `TCKimlikNoDogrulayici.algoritmaDogrula` in
`src/index.ts`. It takes a string and returns a boolean:

1. The string must match `^[1-9][0-9]{10}$`: eleven ASCII digits, the first not `0`.
2. Each character becomes its digit value d0 .. d10.
3. The tenth digit d9 must equal `((d0+d2+d4+d6+d8)*7 - (d1+d3+d5+d7)) % 10`.
4. The eleventh digit d10 must equal `(d0+...+d9) % 10`.

The `%` in step 3 is JavaScript's truncating remainder. It takes the sign of the
dividend, and the weighted difference can be as low as -29. The model computes it
with `JsArith.JsRem`, never with Dafny's Euclidean `%`. The algorithm's own
definition asks for a floored remainder in [0, 9]. The model follows the code, and
`TcKimlikNo.AlgoritmaDogrulaFloored` states the floored reading beside it. The
difference between the two is logged under Findings.

Files:

- `js_arith.dfy` (module `JsArith`): the JavaScript remainder and its relation to
  Euclidean `%`.
- `digits.dfy` (module `Digits`): digit characters, `split('').map(Number)`, and the
  `reduce` sum related to a reference sum.
- `tc_kimlik_no.dfy` (module `TcKimlikNo`): the format gate, the two check values,
  `AlgoritmaDogrula`, the floored variant, and `Complete`, which computes the check
  digits for a nine-digit prefix.
- `tc_kimlik_no_properties.dfy` (module `TcKimlikNoProperties`): characterisation,
  comparison with the floored reading, and uniqueness lemmas.
- `tc_kimlik_no_examples.dfy` (module `TcKimlikNoExamples`): concrete vectors.

## Model

| member | source | states |
|---|---|---|
| JsArith.JsRem | src/index.ts:27-28 | JavaScript `a % b` for b > 0. The result lies in [0, b) for a non-negative dividend and in (-b, 0] for a negative one. It equals Euclidean `a % b` when a >= 0. When a < 0 it is 0 on multiples of b and `a % b - b` otherwise. |
| Digits.DigitValue | src/index.ts:23 | `Number(c)` on a digit character is in 0..9, and `DigitChar` spells it back to the same character. |
| Digits.ToDigits | src/index.ts:23 | `split('').map(Number)` keeps the length, yields only values 0..9, and each value spells back to the character at the same position. |
| Digits.FromDigitsToDigits | src/index.ts:23 | Converting a digit string to values and spelling them back gives the original string. |
| Digits.ToDigitsFromDigits | src/index.ts:23 | Spelling a digit sequence and converting it back gives the original sequence. |
| Digits.ReduceIsSum | src/index.ts:32 | `Digits.Reduce`, the left fold `reduce((acc, curr) => acc + curr, acc)`, equals the seed plus the reference sum `Sum`. |
| Digits.DigitSumBounds | src/index.ts:32 | A sum of n digits lies in [0, 9n]. |
| TcKimlikNo.MatchesFormat | src/index.ts:19 | The format gate the validator uses: `[1-9]` followed by exactly ten `[0-9]` holds exactly when the string is 11 ASCII digits whose first is not `0`. |
| TcKimlikNo.TestFormat | src/index.ts:19-21 | A left-to-right scan of the anchored pattern. It returns true exactly when `MatchesFormat` holds. |
| TcKimlikNo.WeightedDifference | src/index.ts:27-28 | Seven times the odd-places sum minus the even-places sum lies in [-36, 315]. With a non-zero first digit it is at least -29, so it can be negative. |
| TcKimlikNo.TenthDigitCheck | src/index.ts:27-28 | `onuncuHane` lies in -9..9. It is negative exactly when the difference is negative and not a multiple of 10. |
| TcKimlikNo.EleventhDigitCheck | src/index.ts:32 | `onbirinciHane` lies in 0..9 and equals the Euclidean remainder of the sum of the first ten digits. |
| TcKimlikNo.AlgoritmaDogrula | src/index.ts:18-35 | A true result implies the format gate passed. It also implies the floored algorithm accepts the string. |
| TcKimlikNo.JsRemVersusFloored | src/index.ts:28-34 | The tenth-digit check equals the floored remainder when the difference is non-negative or a multiple of 10. Otherwise it is negative. |
| TcKimlikNo.Complete | src/index.ts:27-34 | Every nine-digit prefix with a non-zero first digit has a completion. The completion is 11 characters, keeps the prefix, and is accepted by the floored algorithm. |
| TcKimlikNoProperties.ValidImpliesIdentities | src/index.ts:27-34 | A true result implies the closed-form identities. d9 is the JavaScript remainder of `(d0+d2+d4+d6+d8)*7 - (d1+d3+d5+d7)`. d10 is `(d0+...+d9) mod 10`. |
| TcKimlikNoProperties.ExactCharacterisation | src/index.ts:19-34 | For a well-formed string with a non-negative difference: the result is true iff d9 is the difference mod 10 and d10 is the sum mod 10. |
| TcKimlikNoProperties.NegativeDifferenceRejects | src/index.ts:27-34 | A well-formed string whose difference is negative and not a multiple of 10 is rejected, whatever its last two digits. |
| TcKimlikNoProperties.JsVersusFloored | src/index.ts:19-34 | The validator accepts exactly the strings that the floored algorithm accepts and whose difference is non-negative or a multiple of 10. |
| TcKimlikNoProperties.FlooredCompletionUnique | src/index.ts:27-34 | Two strings accepted by the floored algorithm that share their first nine characters are equal. |
| TcKimlikNoProperties.CompletionUnique | src/index.ts:27-34 | Two accepted strings that share their first nine characters are equal. So at most one pair (d9, d10) completes a prefix. |
| TcKimlikNoProperties.LastDigitChangeInvalidates | src/index.ts:27-34 | Replacing the last character of an accepted number with any other character makes it rejected. |
| TcKimlikNoProperties.CompleteIsOnlyCompletion | src/index.ts:27-34 | Any floored-valid string that starts with a prefix equals `Complete` of that prefix. |
| TcKimlikNoProperties.JsCompletionExists | src/index.ts:27-34 | The completion of a prefix is accepted by the validator iff the prefix's difference is non-negative or a multiple of 10. Otherwise no 11-character string with that prefix is accepted. |
| TcKimlikNoProperties.ChecksInDigitRange | src/index.ts:23-32 | For a well-formed string the eleventh-digit check is in 0..9. The tenth-digit check is in 0..9 when the difference is non-negative. The difference lies in [-29, 315]. |
| TcKimlikNoExamples.ValidVector | src/index.ts:19-34 | "10000000146" is accepted. |
| TcKimlikNoExamples.AlteredLastDigit | src/index.ts:19-34 | "10000000147" is rejected. |
| TcKimlikNoExamples.ArbitraryDigits | src/index.ts:19-34 | "12345678901" is rejected. |
| TcKimlikNoExamples.FormatRejections | src/index.ts:19-21 | "", "123", "abcdefghijk" and "01234567890" are rejected by the format gate. |
| TcKimlikNoExamples.NegativeDifferenceCounterexample | src/index.ts:27-34 | "19090000098" is accepted by the floored algorithm but rejected by the validator as written. |
| TcKimlikNoExamples.PrefixWithoutCompletion | src/index.ts:27-34 | No 11-character string that starts with "190900000" is accepted by the validator. |

## Left out

- `nviDogrula` (src/index.ts:42-58) is left out. It is an asynchronous SOAP call to a remote government service through a third-party client, so it is network I/O whose result belongs to that service.
- The Turkish-locale uppercasing of the names (`toLocaleUpperCase('tr-TR')`, src/index.ts:48-49) is left out. It is a runtime library call whose Unicode case tables are not visible here.
- The error wrapping in the `catch` block (src/index.ts:54-56) is left out. It is exception plumbing around the remote call.
- The `WSDL_URL` constant (src/index.ts:11) is left out. Only the remote call uses it.
- JsArith.JsRem: modelled for positive divisors only. The validator only divides by 10, and JavaScript's results for a zero or negative divisor never arise.
- TcKimlikNo.MatchesFormat works on Dafny `char`s (Unicode scalar values), not on UTF-16 code units. The verdict is unaffected because any character outside ASCII `0`-`9` fails the pattern in both.
- The regular-expression engine is not modelled. `AlgoritmaDogrula` uses the declarative `TcKimlikNo.MatchesFormat` as its gate. `TcKimlikNo.TestFormat` is a left-to-right scan of the one fixed pattern, proved equivalent to it (`ok <==> MatchesFormat(s)`).
- Repeated calls return the same result (idempotence) with no lemma. `AlgoritmaDogrula` is a Dafny function, so this holds by construction.
- JavaScript inputs that are not strings are outside the TypeScript signature and are not modelled.

The algorithm's definition asks for a floored remainder in step 3. The code uses JavaScript's truncating `%`. The model follows the code, and the floored reading is modelled separately for comparison.

## Findings

| source | as written | input that shows it | evidently intended | confidence | as-written member | corrected member |
|---|---|---|---|---|---|---|
| src/index.ts:27-28 | The tenth check digit is computed with JavaScript's truncating `%`. A negative weighted difference that is not a multiple of 10 gives a negative remainder, which no digit equals. | "19090000098": the difference is 7 - 18 = -11, and JavaScript's `-11 % 10` is -1 instead of 9. The floored algorithm accepts this string. No string with the prefix "190900000" is accepted at all. | A floored remainder in 0..9, e.g. `((x % 10) + 10) % 10`, so that every nine-digit prefix has exactly one accepted completion. | medium: not executed | TcKimlikNoExamples.NegativeDifferenceCounterexample | TcKimlikNo.Complete |

The corrected definition is `TcKimlikNo.AlgoritmaDogrulaFloored`. `TcKimlikNo.Complete` proves that every prefix has a completion under it. `TcKimlikNoProperties.CompleteIsOnlyCompletion` proves that this completion is unique. `TcKimlikNoProperties.JsVersusFloored` states exactly which inputs the as-written code loses.
