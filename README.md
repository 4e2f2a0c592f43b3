# String calculator

A Dafny model of the string calculator kata in `src/01/string-calculator.ts`.
`add(input)` sums the integers of a delimited string:

- An empty input gives 0.
- An optional header `//<spec>\n` chooses the delimiters. Three regular
  expressions (`PATTERNS`) are tried in order: multi-bracket, single-bracket,
  one character. Without a header, or when no pattern accepts it, the whole
  input is split on `,` and `\n`.
- The delimiters are regex-escaped and joined into one `RegExp`. The payload
  is split on it.
- Every token goes through `Number`, and `NaN` tokens are dropped.
- Negative numbers make `add` throw `negatives not allowed: ` followed by all
  of them, joined with `, `.
- Otherwise `add` returns the sum of the numbers that are at most 1000.

The source is pure, so the model is datatypes, functions and lemmas.

Modules:

- `Wrappers`: `Option` and `Outcome`.
- `JsString`: the string built-ins the code relies on: `startsWith`,
  `indexOf`, `slice`, `join`, the whitespace trimming `Number` does, and the
  ECMAScript line terminators.
- `JsRegExp`: the part of `RegExp` the code uses.
  - Patterns that are an alternation of literal texts, and the sticky match of
    one at a position. At each position the first alternative, in order, that
    matches wins.
  - `String.prototype.split`, following the loop of `RegExp.prototype[@@split]`
    in ECMAScript.
- `JsNumber`: `Number(text)` on integer numerals, and `String(n)`.
- `StringCalculator`: the functions of the source file, and what each of them
  promises.
- `CalculatorTheorems`: end-to-end statements about `add`. Take one or more
  integers written out and separated by default delimiters, by a
  one-character header, or by a bracket header. `add` then returns exactly
  what those integers decide: the negatives rejected, or their bounded sum.
  The delimiters must not be mistaken for parts of a numeral or of the
  header. The one-character delimiter is a single UTF-16 code unit that is
  not a digit, not `-` and not a line terminator. Bracket delimiters are
  non-empty, hold no `]` and no line terminator, and begin with distinct
  characters that are not digits or `-`. Without these conditions the claim
  fails: `//1\n112` splits into `""`, `""` and `2`, and in `//\r\n1\r2` the
  `\r` ends the header line, so the whole input is read with the defaults. Also: how the header falls back
  to the defaults, and the empty-pattern case.
- `CalculatorExamples`: the examples of `src/01/string-calculator.test.ts` and
  the comments in the source, plus corner cases, each worked out through the
  theorems.

The three header patterns share one shape: `^//BODY\n(.*)$`. `.` refuses all
four line terminators (`\n`, `\r`, U+2028, U+2029), and `$` has no `m` flag.
So a header is accepted only when two things hold:

- The first line terminator at or after index 2 is `\n`.
- The text after it holds no line terminator.

`HeaderAndRest` captures exactly that. The BODY of each pattern is then a
predicate on the header text:

- `MatchMultipleDelimiters` checks `BracketGroups`, for the lazy `(\[.+?\])+`.
- `MatchBracketDelimiter` checks `OneBracketGroup`, for `\[(.+)\]`.
- `MatchSimpleDelimiter` checks for length 1 and a character of one UTF-16
  code unit, for `(.)`.

The predicates `IsEmpty`, `IsValidNumber` and `IsCustomDelimiter` are
`isEmpty`, `isValidNumber` and `isCustomDelimiter`. `MAX_VALID_NUMBER`,
`NEGATIVES_MESSAGE_PREFIX` and `DEFAULT_DELIMITERS` are the constants 1000,
the message prefix and the literal `/,|\n/`.

The single-bracket handler is dead code. The multi-bracket pattern's lazy
groups accept every header the single-bracket pattern accepts, and
`parseDelimiterPattern` tries the multi-bracket pattern first.

The kata's requirements (the page linked at `src/01/string-calculator.ts:3`)
leave these cases open; the model follows the code:

- The delimiters come from `[^\]]+` groups, so `//[a]b]` declares only `a`.
- A header whose groups are all empty inside, such as `//[]]`, compiles to
  `new RegExp("")`. That pattern splits the payload into single characters.
- An empty token is `Number("") == 0`. It is kept, not dropped.
- A payload that holds a line terminator defeats every pattern. The whole
  input, `//` included, is then split on the defaults.

## Model

| member | source | states |
|---|---|---|
| StringCalculator.EscapeRegexRoundTrip | src/01/string-calculator.ts:53 | reading the escapes back (each backslash dropped, the character after it kept) gives the original text; the escaped text is at most twice as long |
| StringCalculator.ParseDelimiterPattern | src/01/string-calculator.ts:116-130 | a multi-bracket header gives the alternation of the extracted delimiters (the empty pattern when there are none) and the `(.*)` payload; a bracket header that the multi-bracket pattern refused gives its one delimiter; else a one-character header gives that character and the payload; with none of these, the defaults and the whole input |
| StringCalculator.ParseDelimiterPatternCases | src/01/string-calculator.ts:116-130 | the bracket case never arises on its own: with neither a multi-bracket nor a one-character header, the result is the defaults and the whole input |
| StringCalculator.ParseNumbers | src/01/string-calculator.ts:139-143 | never more numbers than pieces, and a number is kept exactly when some piece of the split reads as it |
| StringCalculator.DropNaNMembers | src/01/string-calculator.ts:142 | the numbers kept are exactly the conversions that are not `NaN` |
| StringCalculator.Add | src/01/string-calculator.ts:10-21 | an empty input returns 0; otherwise `add` throws exactly when a parsed number is negative, with the message listing the parsed negatives after the `negatives not allowed: ` prefix, and else returns the sum of the parsed numbers up to 1000, which is never negative |
| StringCalculator.EscapedTextParses | src/01/string-calculator.ts:53 | an escaped text, read as a pattern source, is the literal text itself as the first alternative, whatever follows it |
| StringCalculator.EscapedAlternationParses | src/01/string-calculator.ts:84-85 | the escaped delimiters joined with a vertical bar parse as exactly those delimiters, in order |
| StringCalculator.CompileEscapedAlternation | src/01/string-calculator.ts:85 | `new RegExp` of the escaped delimiters joined with a vertical bar is the alternation of the literal delimiters; with no delimiter it is the empty pattern |
| StringCalculator.CompileEscaped | src/01/string-calculator.ts:96 | `new RegExp(escapeRegex(d))` matches the literal `d` and nothing else |
| StringCalculator.BracketMatches | src/01/string-calculator.ts:62 | every match is `[`, one or more characters other than `]`, then `]` |
| StringCalculator.BracketMatchesSkip | src/01/string-calculator.ts:62 | text without `[` starts no match: the scan finds in `j + rest` exactly what it finds in `rest` |
| StringCalculator.BracketMatchesGroup | src/01/string-calculator.ts:62 | after text without `[`, a group `[d]` of a non-empty, `]`-free `d` is the next match, and the scan resumes right after it |
| StringCalculator.BracketMatchesOfGrouped | src/01/string-calculator.ts:61-64 | groups `[d]` of non-empty, `]`-free delimiters, with any `[`-free text before, between and after them, give back exactly those delimiters, left to right |
| StringCalculator.Unbracket | src/01/string-calculator.ts:63 | each result is its match without the first and the last character, in order |
| StringCalculator.ExtractDelimiters | src/01/string-calculator.ts:61-64 | every extracted delimiter is non-empty and holds no `]` |
| StringCalculator.ExtractDelimitersOfHeader | src/01/string-calculator.ts:62 | for an accepted header, what `slice(2, indexOf("\n"))` scans is exactly the header text |
| StringCalculator.BracketMatchesOfBracketed | src/01/string-calculator.ts:61-64 | a header `[d0][d1]...` of non-empty, `]`-free delimiters gives back exactly those delimiters, in left-to-right order |
| StringCalculator.HeaderAndRest | src/01/string-calculator.ts:69-73 | an accepted input is `//` + header + `\n` + payload, with neither the header nor the payload holding a line terminator |
| StringCalculator.MatchMultipleDelimiters | src/01/string-calculator.ts:70 | an accepted input is `//` + header + `\n` + payload, where the header is one or more lazy `[...]` groups and neither part holds a line terminator; the capture is the payload |
| StringCalculator.MatchBracketDelimiter | src/01/string-calculator.ts:71 | an accepted input is `//[` + a non-empty inside + `]\n` + payload, with no line terminator in either capture |
| StringCalculator.MatchSimpleDelimiter | src/01/string-calculator.ts:72 | an accepted input is `//` + one character + `\n` + payload, where the character is one UTF-16 code unit and no line terminator and the payload holds no line terminator |
| StringCalculator.HeaderAndRestComplete | src/01/string-calculator.ts:69-73 | every input of that shape is accepted, with that very header and payload |
| StringCalculator.BracketGroupsIsOneGroup | src/01/string-calculator.ts:70-71 | a header is a run of lazy bracket groups if and only if it is one bracket pair around at least one character |
| StringCalculator.BracketPatternSubsumed | src/01/string-calculator.ts:117-123 | the single-bracket pattern accepts an input if and only if the multi-bracket pattern does, so handleBracketDelimiter is never reached |
| StringCalculator.HandleMultipleDelimiters | src/01/string-calculator.ts:81-86 | the pattern is the alternation of the extracted delimiters, or the empty pattern when there are none, and the payload is the `(.*)` capture |
| StringCalculator.HandleBracketDelimiter | src/01/string-calculator.ts:94-97 | the pattern is the one literal delimiter between the brackets, and the payload is the `(.*)` capture |
| StringCalculator.HandleSimpleDelimiter | src/01/string-calculator.ts:105-108 | the pattern is the one literal header character, and the payload is the `(.*)` capture |
| StringCalculator.DropNaNAppend | src/01/string-calculator.ts:142 | dropping the `NaN` results spreads over a concatenation, so the kept numbers stay in their order |
| StringCalculator.ConvertTokens | src/01/string-calculator.ts:139-143 | conversion keeps token order, spreading over a concatenation; a single token gives its number, or nothing when it is `NaN` |
| StringCalculator.ConvertDecimalStrings | src/01/string-calculator.ts:139-143 | the texts of integers convert back to all of those integers, in order |
| StringCalculator.Negatives | src/01/string-calculator.ts:152 | every kept number is negative, and none is kept exactly when no number is negative |
| StringCalculator.NegativesOne | src/01/string-calculator.ts:152 | a single number is kept exactly when it is negative, and then as itself; with `NegativesAppend` this makes the result every negative of the input, in the order found |
| StringCalculator.NegativesAppend | src/01/string-calculator.ts:152 | the negatives of a concatenation are those of each part, in encounter order |
| StringCalculator.ValidateNumbers | src/01/string-calculator.ts:151-157 | it fails if and only if some number is negative |
| StringCalculator.NegativesMessageLists | src/01/string-calculator.ts:155 | the message is the fixed prefix, and the rest, split on `, ` and converted, is exactly the negatives, in order |
| StringCalculator.ValidNumbers | src/01/string-calculator.ts:165 | every kept number is at most 1000 |
| StringCalculator.SumValidNumbers | src/01/string-calculator.ts:165 | for numbers without negatives, the sum lies between 0 and 1000 times their count |
| StringCalculator.SumValidAppend | src/01/string-calculator.ts:165 | the bounded sum adds up over a concatenation |
| StringCalculator.AboveLimitIgnored | src/01/string-calculator.ts:37 | a number above 1000 leaves the sum unchanged wherever it stands |
| StringCalculator.SumValidOfValid | src/01/string-calculator.ts:165 | when every number is at most 1000, the bounded sum is the plain sum |
| JsString.IndexOf | src/01/string-calculator.ts:62 | the first position of the character, or -1 exactly when it is absent |
| JsString.Slice | src/01/string-calculator.ts:63 | in-range bounds give that substring; a negative end counts back from the end |
| JsString.FirstLineTerminator | src/01/string-calculator.ts:70-72 | the line terminator it finds is the first one from the start position |
| JsString.Trim | src/01/string-calculator.ts:140 | what `Number` reads is a slice of the token with only whitespace cut from either side, and it begins and ends with no whitespace |
| JsNumber.ToNumber | src/01/string-calculator.ts:140 | blank text reads as 0 |
| JsNumber.ToNumberOfDecimalString | src/01/string-calculator.ts:140 | `Number(String(n)) == n` for every integer `n` |
| JsNumber.NotANumeral | src/01/string-calculator.ts:142 | text with a character other than a digit or a leading sign is `NaN`, and is dropped |
| JsNumber.ToDecimalString | src/01/string-calculator.ts:155 | the text starts with `-` exactly for negatives, and is digits otherwise |
| JsRegExp.MatchAtIsFirstMatch | src/01/string-calculator.ts:140 | the separator matches at a position exactly when some alternative starts there, and then the first such alternative is taken |
| JsRegExp.SplitFromPieces | src/01/string-calculator.ts:140 | splitting non-empty text yields at least one piece |
| JsRegExp.SplitRejoin | src/01/string-calculator.ts:140 | splitting on one non-empty literal delimiter and joining with it gives back the text |
| JsRegExp.SplitAvoids | src/01/string-calculator.ts:140 | with non-empty delimiters, no piece contains a delimiter |
| JsRegExp.SplitOfInterleaved | src/01/string-calculator.ts:140 | for delimiters that are non-empty and begin with distinct characters, pieces that contain none of those first characters, joined by those delimiters, split back into exactly those pieces |
| JsRegExp.SplitIntoCharacters | src/01/string-calculator.ts:85 | splitting on `new RegExp("")` yields the characters of the text, in order |
| JsRegExp.JoinIsInterleave | src/01/string-calculator.ts:155 | joining with one separator is interleaving with that separator repeated |
| CalculatorTheorems.AddFallsBack | src/01/string-calculator.ts:116-130 | with no header the multi-bracket or one-character pattern accepts (and then the single-bracket one accepts none either), the whole input is split on `,` and `\n` |
| CalculatorTheorems.ParseInterleavedNumerals | src/01/string-calculator.ts:139-143 | integers joined by delimiters with distinct first characters, none a digit or minus, parse back to exactly those integers |
| CalculatorTheorems.NumeralFirst | src/01/string-calculator.ts:15 | text that begins with a numeral is not empty and has no header |
| CalculatorTheorems.AddOfDefaultDelimited | src/01/string-calculator.ts:15-20 | integers separated by any mix of `,` and `\n` give the answer those integers decide |
| CalculatorTheorems.AddOfCommaSeparated | src/01/string-calculator.ts:15-20 | comma-separated integers give the answer those integers decide |
| CalculatorTheorems.SimpleHeaderPattern | src/01/string-calculator.ts:125-127 | `//c\n` before a payload free of line terminators selects the one-character delimiter `c` and that payload |
| CalculatorTheorems.AddOfSimpleHeader | src/01/string-calculator.ts:105-108 | for a character `c` of one UTF-16 code unit that is not a digit, `-` or a line terminator, `//c\n` and one or more integers joined by `c` give the answer those integers decide |
| CalculatorTheorems.BracketedShape | src/01/string-calculator.ts:70-71 | a header `[d0][d1]...` of non-empty delimiters free of line terminators is one bracket pair without line terminators |
| CalculatorTheorems.AddOfBracketHeader | src/01/string-calculator.ts:117-119 | for one or more delimiters that are non-empty, hold no `]` and no line terminator, and begin with distinct characters that are not digits or `-`: `//[d0][d1]...\n` and integers separated by those delimiters give the answer those integers decide |
| CalculatorTheorems.HeaderWithBrokenPayload | src/01/string-calculator.ts:129 | a payload holding a line terminator defeats every pattern, and the whole input is split on the defaults |
| CalculatorTheorems.EmptyDelimiterHeader | src/01/string-calculator.ts:85 | a bracket header with no non-empty group gives the empty pattern, and the payload is read one character at a time |
| CalculatorExamples.AddOne | src/01/string-calculator.test.ts:33 | `add("1") == 1` |
| CalculatorExamples.AddOneTwo | src/01/string-calculator.test.ts:34 | `add("1,2") == 3` |
| CalculatorExamples.AddOneToThree | src/01/string-calculator.test.ts:38 | `add("1,2,3") == 6` |
| CalculatorExamples.AddOneToFour | src/01/string-calculator.test.ts:39 | `add("1,2,3,4") == 10` |
| CalculatorExamples.AddOneToFive | src/01/string-calculator.test.ts:40 | `add("1,2,3,4,5") == 15` |
| CalculatorExamples.AddNewlineAndComma | src/01/string-calculator.test.ts:44 | `add("1\n2,3") == 6` |
| CalculatorExamples.AddSemicolonHeader | src/01/string-calculator.test.ts:48 | `add("//;\n1;2") == 3` |
| CalculatorExamples.AddAboveLimit | src/01/string-calculator.ts:165 | `add("2,1001") == 2`: 1001 is parsed, raises no error and is left out of the sum |
| CalculatorExamples.AddNegatives | src/01/string-calculator.ts:151-157 | `add("1,-2,3,-4")` throws `negatives not allowed: -2, -4` |
| CalculatorExamples.AddTwoDelimiters | src/01/string-calculator.ts:70 | `add("//[*][%]\n1*2%3") == 6` |
| CalculatorExamples.AddLongDelimiter | src/01/string-calculator.ts:71 | `add("//[***]\n1***2***3") == 6` |
| CalculatorExamples.AddEmptyToken | src/01/string-calculator.ts:140 | `add("1,,2") == 3`: the empty token is `Number("") == 0` and is kept |
| CalculatorExamples.AddHeaderOnly | src/01/string-calculator.ts:140 | `add("//;\n") == 0`: the empty payload is one empty token |
| CalculatorTheorems.AstralHeaderFallsBack | src/01/string-calculator.ts:72 | `//c\n` with `c` above U+FFFF (two code units, which `(.)` cannot take) is no header: the whole input is split on `,` and `\n` |
| CalculatorExamples.AddAstralHeader | src/01/string-calculator.ts:72 | `add("//😀\n1😀2") == 0`: both tokens of the default split are `NaN` |
| CalculatorExamples.BrokenPayloadFallsBack | src/01/string-calculator.ts:72 | `//;\n1;2\n3` is split on the defaults, header included, into `//;`, `1;2` and `3` |
| CalculatorExamples.AddInnerBracket | src/01/string-calculator.ts:62 | `add("//[a]b]\n1a2") == 3`: the only delimiter is `a` |
| CalculatorExamples.AddEmptyPattern | src/01/string-calculator.ts:85 | `add("//[]]\n12") == 3`: the empty pattern cuts `12` into `1` and `2` |

## Left out

- `Number` on strings reads only integer numerals: optional surrounding whitespace, an optional sign, and decimal digits. Blank text reads as 0. Decimals (`1.5`), exponents (`1e3`), `0x`/`0o`/`0b` literals and `Infinity` are `NaN` in the model, so such tokens are dropped rather than read.
- Numbers are unbounded integers rather than IEEE doubles. Magnitudes beyond 2^53 and the rounding of long numerals are not modelled, and `-0` is the integer 0.
- Strings are sequences of Unicode scalar values (Dafny's `char`), not of UTF-16 code units. A character above U+FFFF is one `char` where JavaScript sees a surrogate pair, and a lone surrogate cannot be represented at all. The one place where the count of code units decides a match, `(.)` in the one-character header, is modelled by `IsCodeUnit`. `new RegExp("")` cuts such a character into one piece in the model where JavaScript cuts it into two lone surrogates; both give `NaN` and are dropped.
- `RegExp` is modelled only for the fragment the code builds: alternations of escaped literal texts, plus the three fixed header patterns, which are recognised by hand. There is no general regular-expression engine.
- The non-null assertions `!` on `match` results (lines 82, 95, 106) cannot fail, because each handler runs only after its pattern matched. The handlers therefore require a match instead of modelling a `TypeError`.
- The `Error` object thrown by `validateNumbers` is modelled by its message only: `Completion.Threw(message)`.
- `src/02/mock.test.ts` and `src/02/async.test.ts` are not part of this model: they test vitest mocks, fake timers and promises.
- `src/02/lib/user-service.ts` is not part of this model: it wraps a network `fetch` call and JSON decoding.
- `eslint.config.ts` is not part of this model: it is lint configuration.
