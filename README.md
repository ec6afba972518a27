# Number system converter — verified model of the conversion engine

The converter turns a number written in one radix (2 to 36) into the same
number written in another. Its engine is two functions of `script.js`:

- `parseToBigInt(str, base)` trims and upper-cases the input, strips one
  leading `-`, and folds the symbols `0-9A-Z` left to right into an
  unbounded integer with Horner's rule (`val = val * base + digit`). It
  throws on an empty input, on a bare sign, on a character that is no
  symbol, and on a symbol whose value is not below the radix.
- `bigIntToBaseStr(n, base)` writes an unbounded integer in a radix: `"0"`
  for zero, otherwise the symbols of `|n| % base` prepended one by one while
  `|n|` is divided by the radix, with a `-` in front of a negative number.

The model has five modules:

- `Digits`: the digit/symbol mapping shared by both functions, checked against
  the fixed alphabet string `0123456789ABCDEFGHIJKLMNOPQRSTUVWXYZ`.
- `JsText`: `String.prototype.trim` (the exact ECMAScript white-space and
  line-terminator set) and `toUpperCase` on ASCII letters.
- `Parser`: the specification function `Parse` and the method
  `ParseToBigInt`, whose digit loop is `FoldDigits`. The thrown errors
  become the `ParseError` kinds `EmptyInput`, `EmptyAfterSign`,
  `InvalidCharacter(ch)` and `DigitOutOfRange(ch, base)`.
- `Formatter`: the specification function `Format` and the method
  `BigIntToBaseStr` with its division loop.
- `Converter`: `convert()` as parse-then-format, the round trip between
  the two functions, uniqueness of the canonical form, and worked examples.

Both loops are proved against the specification functions (`r == Parse(str,
base)`, `s == Format(n, base)`), and the properties are proved about those
functions. Integers are Dafny's unbounded `int`, as `BigInt` is in the source.

## Model

| member | source | states |
|---|---|---|
| Digits.DigitValueInAlphabet | script.js:27-28 | a character has a digit value exactly when it is in the alphabet, and its value is its position there |
| Digits.SymbolInAlphabet | script.js:46-47 | the symbol written for value d is the d-th letter of the alphabet |
| Digits.SymbolBijection | script.js:46-47 | writing a value and reading a symbol are inverse: DigitValue(c) is d exactly when Symbol(d) is c |
| JsText.TrimSlice | script.js:17-18 | trim returns the slice between the longest all-space prefix and suffix; a non-empty result has non-space ends |
| JsText.TrimEmpty | script.js:17 | trim gives the empty string exactly when every character is white space |
| JsText.TrimFixed | script.js:17-18 | a string with no white space at either end is its own trim |
| JsText.TrimTwice | script.js:17-18 | trim is idempotent |
| JsText.TrimUpperCase | script.js:18 | trimming and upper-casing commute |
| JsText.UpperCaseFixed | script.js:18 | a string without lower-case letters is its own upper-case form |
| Parser.FirstError | script.js:25-30 | no error exactly when every character is a digit of the radix; an error is always InvalidCharacter or DigitOutOfRange |
| Parser.FirstErrorAfter | script.js:25-30 | characters already accepted do not change which error is thrown |
| Parser.HornerStep | script.js:31 | one turn of the loop folds the next digit in as val * base + digit |
| Parser.HornerIsPositional | script.js:31 | the Horner fold equals the positional sum of digit * base^position |
| Parser.FoldDigits | script.js:23-32 | the digit loop returns the first bad character's error, or else the Horner value of all digits |
| Parser.ParseToBigInt | script.js:16-34 | the method returns exactly what the specification Parse gives, error or value |
| Parser.NormalizedShape | script.js:18-20 | upper-casing keeps the length; the sign is seen exactly when the trimmed input starts with '-' |
| Parser.ParseEmptyInput | script.js:17 | EmptyInput is thrown exactly when the input is empty or all white space |
| Parser.ParseBareSign | script.js:18-21 | EmptyAfterSign is thrown exactly when the trimmed input is "-" |
| Parser.ParseFirstBadDigit | script.js:25-30 | the first bad character decides the error: InvalidCharacter when it is no symbol, DigitOutOfRange naming it and the radix otherwise |
| Parser.ParseSuccess | script.js:23-33 | parsing succeeds exactly when a non-empty run of radix digits follows the optional sign; the value is their positional value, negated exactly when the trimmed input starts with '-' |
| Parser.ParseIgnoresCase | script.js:18 | inputs that upper-case alike parse alike, value or error |
| Parser.ParseNegative | script.js:20-33 | a leading '-' negates the value of an unsigned input and keeps its errors; so "-0" parses to 0 |
| Formatter.DigitsOfCanonical | script.js:43-50 | the symbols of a positive number are non-empty, each a digit of the radix, the first not '0' |
| Formatter.DigitsOfStep | script.js:44-49 | one turn of the loop moves the last symbol of num to the front of out and makes num smaller |
| Formatter.FormatCanonical | script.js:38-51 | the output is "0" exactly for zero; otherwise it has a '-' exactly when n < 0, then a non-empty run of upper-case digits of the radix without a leading '0' |
| Formatter.BigIntToBaseStr | script.js:37-52 | the method returns exactly Format(n, base) |
| Converter.HornerOfDigits | script.js:31-49 | reading back the symbols the formatter writes for m, with Horner's rule, gives m |
| Converter.DigitsOfHorner | script.js:31-49 | canonical digits have a positive value, and the formatter writes that value as the same digits |
| Converter.ParseDigits | script.js:16-34 | an unsigned, non-empty string of radix digits parses to its Horner value |
| Converter.ParseZero | script.js:23-33 | "0" parses to 0 in every radix |
| Converter.ParseCanonicalDigits | script.js:16-52 | canonical digits parse to a positive value written back as the same digits, and with a '-' to its negation |
| Converter.RoundTrip | script.js:16-52 | for radix 2 to 36, parsing what the formatter writes gives back the number |
| Converter.CanonicalUnique | script.js:16-52 | a canonical string parses, and formatting its value gives the same string: the output form is unique |
| Converter.ParseTrimmed | script.js:72-79 | trimming before parsing, as convert() does, changes nothing |
| Converter.Convert | script.js:71-88 | convert() fails exactly when parsing fails, with the same error; otherwise it returns the canonical form of the value in the target radix, which parses back to the same value |
| Converter.ScenarioDecimal | script.js:16-34 | "255" in radix 10 parses to 255 |
| Converter.ScenarioBinaryOutput | script.js:37-52 | 255 in radix 2 is "11111111" |
| Converter.ScenarioNegativeHex | script.js:16-34 | "-FF" in radix 16 parses to -255 |
| Converter.ScenarioNegativeDecimalOutput | script.js:37-52 | -255 in radix 10 is "-255" |
| Converter.ScenarioBinary | script.js:16-34 | "10" in radix 2 parses to 2 |
| Converter.ScenarioBinaryTwo | script.js:37-52 | 2 in radix 2 is "10" |
| Converter.ScenarioBase36 | script.js:16-52 | "Z" in radix 36 is 35, and 35 is written "Z" |
| Converter.ScenarioLowerCase | script.js:16-52 | "ff" in radix 16 parses to 255, which is written "FF" |
| Converter.ScenarioBareSign | script.js:17-21 | " -\t" throws EmptyAfterSign |
| Converter.ScenarioDigitOutOfRange | script.js:30 | "G" in radix 16 throws DigitOutOfRange('G', 16) |
| Converter.ScenarioInvalidCharacters | script.js:29 | "1_000" and "+5" throw InvalidCharacter naming '_' and '+' |
| Converter.ScenarioMinusZero | script.js:16-52 | "-0" parses to 0, which is written "0" |

## Left out

- The DOM lookups, the event listeners for convert, swap and clear, and the clipboard handler (script.js:1-11, 90-122): user-interface wiring with no arithmetic in it.
- `showMessage` with its timer, and the history list with its HTML rendering (script.js:54-69): presentation state.
- The text of the error messages: the model keeps each error's kind and the character and radix it names.
- Radix validation: the source never checks `base`. `Format` and `BigIntToBaseStr` require 2 <= base <= 36, because base 1 loops forever, base 0 divides by zero and a base above 36 writes characters outside the alphabet. `Parse` accepts any integer radix, as the source's digit comparison does. A radix that is not an integer (where `BigInt(base)` would throw) is not modelled.
- `JsText.UpperCase` maps only ASCII a-z to A-Z. JavaScript's `toUpperCase` also maps some non-ASCII characters onto symbols ('ı' to "I", 'ß' to "SS", 'ﬀ' to "FF"), which the source then accepts as digits and the model reports as InvalidCharacter.
- A `null` or `undefined` argument to `parseToBigInt` (the `!str` test): the model's input is always a string. The empty string is modelled and throws EmptyInput.
- Converter.Convert: the early return for an empty field in convert() (script.js:76) shows "Please enter a number" without calling the parser; the model reports it as EmptyInput, which is what the parser would throw for the same field.
- Converter.Convert: what convert() does with the result (writing it to the page, adding a history entry with a timestamp) is not modelled; the method returns the result or the error instead.
