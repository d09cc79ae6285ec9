# go-ms in Dafny

A model of the Go package `ms` (zitudu/go-ms). The package converts between human-readable
durations and a millisecond count held in a `float64`.

- `Parse("2.5 hrs")` is `9000000`.
- `FormatShort(60000)` is `"1m"` and `FormatLong(60000)` is `"1 minute"`.
- `MustParse` is `Parse` that panics on an error.

The whole package is one file, `ms.go`, made of pure functions, so the model is pure as well:
datatypes, functions and lemmas.

| file | module | what it holds |
|---|---|---|
| `wrappers.dfy` | `Wrappers` | `Option` and `Result` |
| `units.dfy` | `Units` | the unit constants `s`, `m`, `h`, `d`, `w`, `y`, and `InMilliseconds` (count × factor) |
| `text.dfy` | `Text` | digits, ASCII lower-casing (`strings.ToLower` on ASCII), byte length (`len`), printing integers (`%.0f`) |
| `grammar.dfy` | `Grammar` | the pattern of ms.go:36 as a recogniser (`Recognise`) with a declarative partner (`Lexeme`, `Spell`, `InLanguage`) |
| `parse.dfy` | `Parsing` | the length guard, the `switch` on the unit, `Parse` and `MustParse` |
| `format.dfy` | `Formatting` | `FormatShort`, `FormatLong`, `plural`, and the bracket they choose |
| `case_folding.dfy` | `CaseFolding` | `Parse` as written under Go's Unicode case folding, and where it panics |
| `roundtrip.dfy` | `RoundTrip` | the formatters' output read back by `Parse` |
| `scenarios.dfy` | `Scenarios` | the cases of `ms_test.go` as lemmas |

**How the model represents things**

- **Strings.** An input is a Dafny `string`, a sequence of Unicode scalar values. Go's `len(str)` is `Text.Utf8Length`, the size of the UTF-8 encoding. The guard at ms.go:41 therefore counts bytes, not characters.
- **Numbers.** Go's `float64` values are modelled as exact reals. `ParseFloat` of the first capture group is the exact decimal value of that group (`Parsing.FloatValue`).
- **Formatter input.** The formatters take a `Formatting.Float64`, which is `NaN`, `PosInf`, `NegInf` or `Finite(r)`.
- **Rounding.** Go's `%.0f` is `Formatting.Round`: round to nearest, ties to even.
- **Milliseconds text.** Below one second the formatters print `strconv.FormatFloat(ms, 'f', -1, 64)`. The model takes that printer as a function parameter `decimal`.
- **Panics.** A panic is a value:
  - `Parsing.MustParse` returns `Panicked(err)`;
  - `CaseFolding.ParseAsWritten` returns `Unreachable` for the `default: panic("unreachable")` of the unit `switch`.

**Where the code says more than its comments**

- **Length limit.** The comment and message of `ErrTooLong` (ms.go:23-24) speak of 100 "chars", but ms.go:41 compares `len(str)`, the byte length, with 100. The model follows the comparison: `Scenarios.TooManyBytes` proves that 51 two-byte characters are too long.
- **Ties.** `%.0f` (ms.go:88, ms.go:129-131) rounds a tie to the even neighbour: `Scenarios.TiesToEven` proves that 2500 ms is "2 seconds" and 3500 ms is "4s".

## Model

| member | source | states |
|---|---|---|
| Units.Factor | ms.go:13-20 | every unit's factor is at least one millisecond |
| Units.FactorTable | ms.go:13-20 | s = 1000, m = 60000, h = 3600000, d = 86400000, w = 604800000, y = 365.25 d = 31557600000 (ms = 1); no two units have the same factor |
| Units.InMilliseconds | ms.go:50-63 | converting `n` units to milliseconds keeps the sign of `n` |
| Units.InMillisecondsNegate | ms.go:50-63 | converting `-n` units gives minus the conversion of `n` units |
| Units.InMillisecondsScale | ms.go:50-63 | `n` units are `n` times one unit |
| Text.CharWidth | ms.go:41 | a character takes 1 to 4 bytes of UTF-8, and exactly 1 when it is ASCII |
| Text.Utf8Length | ms.go:41 | `len` of a string is between its character count and four times that |
| Text.AsciiLength | ms.go:41 | for ASCII text the byte count is the character count |
| Text.AppendLength | ms.go:41 | the byte count of a concatenation is the sum of the byte counts |
| Text.RepeatLength | ms_test.go:64 | `k` copies of a character take `k` times its width in bytes |
| Text.LowerLength | ms.go:49 | texts with the same lower case have the same byte count |
| Text.AsciiLower | ms.go:49 | lower-casing changes only A-Z, keeps digits and ASCII-ness, and leaves no upper-case letter |
| Text.Lower | ms.go:49 | `strings.ToLower` on ASCII: no upper-case letter is left, and only upper-case letters change |
| Text.LowerIdempotent | ms.go:49 | lower-casing twice is lower-casing once |
| Text.IntText | ms.go:88 | `%.0f` of a whole number starts with "-" exactly when it is negative, and the digits after it read back as its magnitude |
| Text.NatTextValue | ms.go:88 | the digits `%.0f` prints for a whole number read back as that number |
| Text.TrailingZeros | ms_test.go:18 | appending `k` zeros to digits multiplies their value by 10^k |
| Text.OneAndZeros | ms_test.go:18 | "1" followed by `k` zeros is `k`+1 bytes of digits worth 10^k |
| Grammar.AlternativeShape | ms.go:36 | every alternative of the unit group is a non-empty word of lower-case ASCII letters |
| Grammar.UnitTokenShape | ms.go:36 | a token the unit group accepts is non-empty ASCII and starts with a letter, so it cannot continue the number or the spaces |
| Grammar.ScanSound | ms.go:36 | the number, spaces and rest that the scanner splits off are well formed and spell the input back |
| Grammar.Recognise | ms.go:36-47 | the anchored match: what it returns is a well-formed decomposition of the input, spelling it back |
| Grammar.RecogniseComplete | ms.go:44-47 | every well-formed number, run of spaces and accepted unit token is matched, with that decomposition |
| Grammar.RecogniseDecides | ms.go:36 | the recogniser succeeds exactly on the pattern's language, and a match's decomposition is unique |
| Grammar.RecogniseLower | ms.go:36 | `(?i)`: lower-casing the input lower-cases the unit of the match and changes nothing else |
| Grammar.RecogniseNegation | ms.go:36 | `-?`: a leading minus on an unsigned input makes the match's number negative and changes nothing else |
| Grammar.WellFormedAscii | ms.go:36 | every input the pattern matches when letters are compared by ASCII case only is plain ASCII (Go's Unicode folding also lets U+017F and U+212A through: `CaseFolding`) |
| Parsing.SwitchUnit | ms.go:49-66 | the `switch` returns a unit whose case lists the token, and takes `default` only when no case lists it |
| Parsing.SwitchSelectsCase | ms.go:49-66 | the `switch` picks unit `u` exactly when `u`'s case lists the token |
| Parsing.SwitchCasesDisjoint | ms.go:50-62 | no token is listed in the cases of two units |
| Parsing.SwitchCoversGrammar | ms.go:49-66 | the `switch` has a case for a token exactly when the unit group accepts it (or it is empty): `default` is unreachable and no case is dead |
| Parsing.UnitOf | ms.go:49-63 | the unit chosen for an accepted token is one whose case lists its lower case |
| Parsing.UnitOfCase | ms.go:49-63 | every synonym listed in a case selects that case's unit, so all synonyms share one factor |
| Parsing.FloatValue | ms.go:48 | a number with a minus sign is at most zero, one without is at least zero |
| Parsing.FloatValueSign | ms.go:48 | the minus sign negates the value |
| Parsing.Parse | ms.go:40-67 | `ErrTooLong` exactly when the input is over 100 bytes; `ErrInvalidFormat` exactly when it fits and does not match |
| Parsing.MustParse | ms.go:70-76 | returns exactly when `Parse` succeeds, with its value; otherwise panics with `Parse`'s error |
| Parsing.ParseAcceptsLanguage | ms.go:40-47 | `Parse` succeeds exactly on inputs of at most 100 bytes in the pattern's language |
| Parsing.ParseValue | ms.go:48-63 | a spelled-out number, spaces and token of unit `u` parse to the number times `u`'s factor |
| Parsing.ParseUnitless | ms.go:62-63 | a number without a unit parses to itself, in milliseconds |
| Parsing.LexemeValueNegated | ms.go:48 | the value of a negative match is minus that of the positive one |
| Parsing.ParseNegation | ms.go:36 | a leading minus succeeds exactly when the unsigned input does, and negates its value |
| Parsing.LexemeValueLower | ms.go:49 | lower-casing the unit token does not change the value |
| Parsing.ParseLower | ms.go:49 | `Parse` of the lower-cased input equals `Parse` of the input |
| Parsing.ParseCaseInsensitive | ms.go:36 | inputs that differ only in the case of ASCII letters parse the same |
| Parsing.SpellLength | ms.go:41 | a matching input's byte length is its character count |
| Parsing.ParseIgnoresSpaces | ms.go:36 | any number of spaces between number and unit gives the same result as none |
| Formatting.Abs | ms.go:86 | `math.Abs`: non-negative, and `x` or `-x` |
| Formatting.Round | ms.go:88 | `%.0f`: within one half of `x`, and even on a tie |
| Formatting.RoundUnique | ms.go:88 | only one integer meets `Round`'s contract |
| Formatting.RoundNegate | ms.go:88 | rounding commutes with negation |
| Formatting.ThresholdTable | ms.go:87-96 | the brackets start at 86400000, 3600000, 60000, 1000 and 0 ms |
| Formatting.SelectionUnique | ms.go:86-99 | every magnitude selects exactly one bracket |
| Formatting.SelectsRange | ms.go:86-99 | the selected bracket is days from `d`, hours in [`h`, `d`), minutes in [`m`, `h`), seconds in [`s`, `m`), plain milliseconds below `s` |
| Formatting.MillisecondsBelowOneSecond | ms.go:96-99 | plain milliseconds are printed exactly below one second |
| Formatting.FormatShort | ms.go:79-100 | `ErrNaN` exactly for NaN, `ErrInfinity` exactly for either infinity |
| Formatting.FormatLong | ms.go:103-124 | `ErrNaN` exactly for NaN, `ErrInfinity` exactly for either infinity |
| Formatting.FormatShortSelects | ms.go:86-99 | the chain of tests prints the count of the selected bracket with its letter, or the number with "ms" |
| Formatting.FormatLongSelects | ms.go:110-123 | the chain of tests prints the count of the selected bracket with its name, singular exactly for ±1, or the number with " ms" |
| Formatting.RatioBounds | ms.go:127 | comparing `|ms|` with `n` and `1.5 × n` is comparing `|ms / n|` with 1 and 1.5 |
| Formatting.PluralByCount | ms.go:127 | once `|x| ≥ 1`, `|x| ≥ 1.5` holds exactly when `x` does not round to ±1 |
| Formatting.Plural | ms.go:126-132 | `plural`, given the magnitude of `ms` and at least one unit of it, adds "s" exactly when the printed count is not ±1 |
| Formatting.CountNonZero | ms.go:87-97 | in the day to second brackets the printed count is never 0, and at least 1 for positive input |
| Formatting.CountNegate | ms.go:88-97 | the printed count of `-ms` is minus that of `ms` |
| Formatting.CountedNegate | ms.go:129-131 | the long text of `-k` units is "-" followed by that of `k` units |
| Formatting.FormatShortNegate | ms.go:79-100 | from one second up, the short text of `-ms` is "-" followed by that of `ms` |
| Formatting.FormatLongNegate | ms.go:103-124 | from one second up, the long text of `-ms` is "-" followed by that of `ms` |
| Formatting.FormatsAgree | ms.go:86-123 | both formatters choose the same bracket for the same input |
| CaseFolding.Fold | ms.go:36 | the `(?i)` folding of a unit token: no ASCII upper-case letter, U+017F or U+212A is left, and no other character changes |
| CaseFolding.GoLower | ms.go:49 | `strings.ToLower` of a unit token: no ASCII upper-case letter or U+212A is left, U+017F is kept, and no other character changes |
| CaseFolding.AsciiFold | ms.go:36 | on ASCII text the pattern's folding is ASCII lower-casing |
| CaseFolding.MatchesUnitAsWritten | ms.go:36 | the unit group under Unicode folding accepts, on ASCII tokens, exactly what the ASCII-folding unit group accepts |
| CaseFolding.MatchesAsWritten | ms.go:36 | the anchored pattern under Unicode folding matches every input the ASCII-folding recogniser matches, and on ASCII input exactly those |
| CaseFolding.ParseAsWritten | ms.go:40-67 | the code as written: `ErrTooLong` exactly over 100 bytes, `ErrInvalidFormat` exactly when the input fits and the pattern does not match it under Unicode case folding |
| CaseFolding.MatchedTokenLetters | ms.go:36 | a unit token the pattern matches under Unicode case folding is spelled with ASCII letters, U+017F and U+212A only |
| CaseFolding.FoldWithoutLongS | ms.go:36-49 | without U+017F the pattern's case folding is `strings.ToLower` (which maps U+212A to `k`); without U+212A as well, both are ASCII lower-casing |
| CaseFolding.AcceptedMatches | ms.go:36 | every unit token of the ASCII-folding model is matched by the Unicode-folding pattern, with the same folding |
| CaseFolding.NonAsciiNotAccepted | ms.go:36 | a token with a character beyond ASCII is no unit token of the ASCII-folding model |
| CaseFolding.LongSNotListed | ms.go:49-66 | a token with U+017F is not a unit token and, after `strings.ToLower`, has no case in the `switch` |
| CaseFolding.AsWrittenPanics | ms.go:40-66 | the code as written panics exactly when the input fits, the pattern matches it under Unicode folding and its unit token holds U+017F; the corrected `Parse` refuses all such inputs |
| CaseFolding.AsWrittenFinished | ms.go:40-67 | when the code as written returns, it returns what the corrected `Parse` returns, except on inputs holding U+212A that it accepts and `Parse` refuses; so the two differ only on inputs holding U+017F or U+212A |
| CaseFolding.KelvinWeek | ms.go:36-53 | "1weeK" with U+212A for the last letter is one week, 604800000, in the code as written, and `ErrInvalidFormat` in the corrected `Parse` |
| CaseFolding.LongSPanics | ms.go:64-65 | "1ſ" reaches `panic("unreachable")` in the code as written; the corrected `Parse` returns `ErrInvalidFormat` |
| RoundTrip.BracketUnit | ms.go:87-97 | each counting bracket's unit has the bracket's threshold as its factor |
| RoundTrip.CountNear | ms.go:88 | the printed count, times its unit, is within half a unit of `ms` |
| RoundTrip.IntNumeral | ms.go:88 | the text `%.0f` prints for a whole number is a well-formed number of the pattern |
| RoundTrip.IntNumeralValue | ms.go:48 | that text parses to the number |
| RoundTrip.ParseSpelled | ms.go:40-67 | a number, spaces and a lower-case token of `u` parse to the number of `u` |
| RoundTrip.ParseCount | ms.go:40-67 | `k` printed by `%.0f`, spaces and a token of `u` parse to `k` units of `u` |
| RoundTrip.ParseMultiple | ms.go:48-63 | "1" plus a token of `u` parses to `u`'s factor, and `k` plus that token to `k` times it ("2d" is twice "1d") |
| RoundTrip.ParseShortText | ms.go:88-97 | a short counting text parses to its count of the bracket's unit |
| RoundTrip.ParseCounted | ms.go:129-131 | a long counting text, singular or plural, parses to its count of the unit |
| RoundTrip.ParseLongText | ms.go:112-121 | a long counting text of a bracket parses to its count of the bracket's unit |
| RoundTrip.ShortRoundTrip | ms.go:79-100 | from one second up, `Parse(FormatShort(ms))` is the count times the unit, within half a unit of `ms` |
| RoundTrip.LongRoundTrip | ms.go:103-124 | from one second up, `Parse(FormatLong(ms))` is the count times the unit, within half a unit of `ms` |
| RoundTrip.MillisecondsRoundTrip | ms.go:99 | below one second both texts parse back to `ms` exactly, given that the printed number is a numeral worth `ms` |
| Scenarios.UnitlessNumber | ms_test.go:17 | a run of at most 100 digits parses to its value |
| Scenarios.OneFollowedByZeros | ms_test.go:18 | "1" and `k` zeros parse to 10^k up to 99 zeros and are too long from 100 on |
| Scenarios.OneAndAHalfHours | ms_test.go:26 | "1.5h" is 5400000 |
| Scenarios.SpacedSecond | ms_test.go:27 | "1   s" is 1000 |
| Scenarios.UpperCaseHour | ms_test.go:28 | "1.5H" is 5400000 |
| Scenarios.HalfMillisecond | ms_test.go:29 | ".5ms" is 0.5 |
| Scenarios.MinusHalfHour | ms_test.go:33 | "-.5h" is -1800000 |
| Scenarios.FiftyThreeMilliseconds | ms_test.go:39 | "53 milliseconds" is 53 |
| Scenarios.TwoDays | ms_test.go:44 | "2 days" is 172800000 |
| Scenarios.TwoAndAHalfHours | ms_test.go:205 | "2.5 hrs" is 9000000 |
| Scenarios.OneYear | ms_test.go:213 | "1y" is 31557600000 |
| Scenarios.EmptyInput | ms_test.go:54 | "" is `ErrInvalidFormat` |
| Scenarios.NoDigits | ms_test.go:55 | "â˜ƒ" is `ErrInvalidFormat` |
| Scenarios.SignInside | ms_test.go:56 | "10-.5" is `ErrInvalidFormat` |
| Scenarios.TooManyDigits | ms_test.go:64-66 | 101 digits are `ErrTooLong` |
| Scenarios.TooManyBytes | ms.go:41 | 51 two-byte characters are `ErrTooLong` |
| Scenarios.MustParseTenHours | ms_test.go:244 | `MustParse("10 hours")` returns 36000000 |
| Scenarios.MustParseEmpty | ms.go:70-76 | `MustParse("")` panics with `ErrInvalidFormat` |
| Scenarios.OneMinute | ms_test.go:142 | 60000 is "1m" and "1 minute" |
| Scenarios.MinusThreeMinutes | ms_test.go:242 | -180000 is "-3m" and "-3 minutes" |
| Scenarios.AlmostThreeDays | ms_test.go:117 | 234234234 is "3d" and "3 days" |
| Scenarios.OneSecond | ms_test.go:137 | 1200 is "1s" and "1 second" |
| Scenarios.MinusOneSecond | ms_test.go:140 | -1200 is "-1s" and "-1 second" |
| Scenarios.TenSeconds | ms_test.go:138 | 10000 is "10s" and "10 seconds" |
| Scenarios.TiesToEven | ms.go:88 | 2500 is "2 seconds" and 3500 is "4s" |
| Scenarios.MillisecondExamples | ms_test.go:91-92 | 500 and -500 are printed by both formatters as `decimal` of the number followed by "ms" or " ms", which is "500ms", "-500ms", "500 ms" and "-500 ms" once `decimal` prints "500" and "-500" |
| Scenarios.SpecialValues | ms_test.go:173-193 | NaN gives `ErrNaN`, and +Inf and -Inf give `ErrInfinity`, in both `FormatShort` and `FormatLong` |

## Left out

- Floating-point arithmetic is not modelled. `ParseFloat`'s rounding to the nearest `float64`, the rounding of the products `n * y` and so on, and of the quotients `ms / d`, are replaced by exact arithmetic on reals. At most 100 digits fit the guard, so the value is always finite and `ParseFloat` never fails.
- `ParseFloat` is called with a bit size of 10, which Go treats as 64. The model reads the exact decimal value in every case.
- Negative zero is not modelled. `FormatFloat` of -0 prints "-0", and the reals have no such value. In the counting brackets the count is never 0 (`Formatting.CountNonZero`).
- `strconv.FormatFloat(ms, 'f', -1, 64)` is not modelled. It is the parameter `decimal` of both formatters, because its shortest-round-trip digit search works on binary floats.
- Byte strings that are not valid UTF-8 are left out, since a Dafny `string` cannot hold them.
- Go's regexp engine itself is not modelled. The pattern is a hand-written recogniser, proved to decide the pattern's language (`Grammar.RecogniseDecides`).
- Unicode case folding is not modelled in `Parsing.Parse`, which matches ASCII letters without regard to case. Go's `(?i)` also folds two non-ASCII characters onto letters of the unit alternatives: U+017F onto `s` and U+212A onto `k`. `CaseFolding` models both.
- Parsing.Parse: refuses the spellings of "week" and "weeks" with U+212A KELVIN SIGN for a `k`, which Go's code accepts as weeks (`CaseFolding.KelvinWeek`, `CaseFolding.AsWrittenFinished`), because it folds only ASCII letters.
- CaseFolding.GoLower: models `strings.ToLower` only on the characters a matched unit token can hold (`CaseFolding.MatchedTokenLetters`); its mapping of other non-ASCII characters never reaches the `switch`.
- The message texts of the four error values are left out, because only the identity of each error matters. This includes `ErrInfinity` reusing the text "ms is NaN" at ms.go:30.
- Panics are not modelled as control flow. They are result values: `Panicked` and `Unreachable`.
- Parsing.ParseNegation: requires the unsigned input to be under 100 bytes, so that the signed input also passes the guard.
- Formatting.FormatShortNegate: holds only from one second up, because below that the text comes from the abstract `decimal`.
- Formatting.FormatLongNegate: holds only from one second up, for the same reason.
- RoundTrip.ShortRoundTrip: requires the formatted text to fit the 100-byte guard.
- RoundTrip.LongRoundTrip: requires the formatted text to fit the 100-byte guard.
- Scenarios.MillisecondExamples: the digits "500" and "-500" come from the abstract `decimal`, so the test's exact texts are proved only given what `decimal` prints for 500 and -500.
- RoundTrip.MillisecondsRoundTrip: assumes that `decimal(ms)` is a numeral of the pattern worth exactly `ms`, a property of `FormatFloat` that is not part of this model.

## Findings

| source | as written | input that shows it | evidently intended | confidence | as-written member | corrected member |
|---|---|---|---|---|---|---|
| ms.go:36-65 | The pattern's `(?i)` uses Unicode simple case folding, under which U+017F LATIN SMALL LETTER LONG S matches `s`. The `switch` compares `strings.ToLower` of the token, which leaves U+017F unchanged, so no case matches and `default: panic("unreachable")` runs. | `Parse("1ſ")` | Return `ErrInvalidFormat`. The `default` is meant to be unreachable, and `Parse` is meant to return an error for bad input. | not executed | CaseFolding.ParseAsWritten, CaseFolding.LongSPanics | Parsing.Parse, Parsing.SwitchCoversGrammar |
