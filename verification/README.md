# String calculator, modelled in Dafny

A model of the string calculator kata in `src/lib.rs`. The entry point is
`add`. It takes a text of integers separated by commas or newlines, or by a
custom separator announced in a `//<c>\n` header. It returns their sum, or one
of the four `AddError`s:

- `ConsecutiveSeparators`: two separators with only spaces between them.
- `InvalidInput`: a header with no separator character.
- `NaN`: a piece that is not an `i64`.
- `HasNegative`: the list of negative values, in order.

Values above 1000 count as zero.

The project has four modules:

- `Text` (`text.dfy`) stands in for the standard-library pieces the code
  relies on: `Regex::split` on a one-class pattern, `str::trim` and
  `str::parse::<i64>`. It also covers the decimal rendering that the property
  test feeds back in. It proves the split/join round trips, the slice
  characterisation of `Trim`, and that parsing a rendered value gives it back.
- `Calculator` (`calculator.dfy`) is the pipeline itself:
  - `check_consecutive_separators` is an imperative `method` with a `for`
    loop, proved against a declarative condition;
  - `check_negatives`, `normalize_numbers`, `tokenizer`, the two handlers
    and `add` are functions, with the error cases in their contracts;
  - it also holds `AddAsWritten`, the code as written, including the regex
    panic (see Findings).
- `CalculatorProperties` (`properties.dfy`) holds lemmas that relate several
  calls:
  - the result on texts whose tokens all parse;
  - lone leading or trailing separators;
  - the ignored fourth header character;
  - the order-independence of the sum;
  - exactly when the code as written panics.
- `CalculatorExamples` (`examples.dfy`) has one lemma per assertion of the unit
  tests, and the commutativity property test as a lemma over all `a` and `b`
  in `[0, 1000)`. Each value-carrying test lemma rests on a generic lemma about
  rendered values, such as `DefaultFour` or `CustomThree`; the error cases and
  the empty text are proved directly.

Integers are unbounded. The `i64` range is enforced where the code enforces
it, in parsing. The final sum is bounded instead: `SumBounds` and the
handlers' contracts give `0 <= sum <= 1000 * token count`.

Two places where the code, which the model follows, behaves differently from
what a reader of the kata might expect:

- A lone trailing separator (`"1,"`) is not reported as
  `ConsecutiveSeparators`. The scan passes it, and the empty last piece fails
  to parse, giving `NaN` (`LoneTrailingSeparator`, `TrailingSeparatorIsNaN`).
  `add("1,\n")` is `ConsecutiveSeparators` only because `,` and `\n` are two
  adjacent separators.
- The scan skips spaces before it consults the separator list. A custom
  separator `' '` therefore never trips it (`IsSeparatorChar`,
  `SpaceSeparator`).

## Model

| member | source | states |
|---|---|---|
| Calculator.Negatives | src/lib.rs:17-20 | the negatives are exactly the values below zero: every value reported is negative and in the input, every negative value of the input is reported, and the list is empty exactly when every value is at least zero (order: `NegativesConcat`) |
| Calculator.NegativesConcat | src/lib.rs:17-20 | collecting negatives is a filter: it distributes over concatenation, so the order of the input is kept |
| Calculator.CheckNegatives | src/lib.rs:16-26 | `Ok` exactly when no value is negative; otherwise `HasNegative` with all the negatives in order, a non-empty list |
| Calculator.CheckConsecutiveSeparators | src/lib.rs:28-45 | the loop returns `Err(ConsecutiveSeparators)` exactly when two separators have only spaces between them, and `Ok` otherwise; spaces neither set nor clear the flag |
| Calculator.ScanDecides | src/lib.rs:28-45 | the flag-carrying scan, as a fold, fails exactly on the declarative condition |
| Calculator.NoConsecutiveInJoin | src/lib.rs:28-45 | single separators between pieces that each hold a non-space, non-separator character never trip the scan, whatever the first and last pieces are |
| Calculator.NormalizeNumbers | src/lib.rs:47-52 | same length and order; each value is kept when at most 1000 and replaced by 0 otherwise |
| Calculator.NormalizeIdempotent | src/lib.rs:47-52 | normalising twice is normalising once |
| Calculator.NormalizeBounds | src/lib.rs:47-52 | normalised non-negative values lie in `[0, 1000]` |
| Calculator.SumBounds | src/lib.rs:81 | a sum of values in `[0, 1000]` lies in `[0, 1000 * count]` |
| Calculator.SumRemove | src/lib.rs:89 | taking one value out of a list takes it out of the sum |
| Calculator.SumPermutation | src/lib.rs:89 | lists with the same multiset of values have the same sum |
| Calculator.SumSwap | src/lib.rs:81 | swapping two tokens leaves the sum unchanged |
| Calculator.ParseTokens | src/lib.rs:60-64 | `collect` over trim-then-parse: on success, one value per piece, each the parse of that trimmed piece; `None` exactly when some trimmed piece does not parse |
| Calculator.Tokenizer | src/lib.rs:54-72 | empty text gives `Ok([])`; `NaN` exactly when some piece fails to parse, which takes precedence over negatives; any other error is `HasNegative` with every negative parsed value; on success, one value per piece (separators + 1), each in `[0, 1000]`, equal to the normalised parsed list |
| Calculator.CustomBody | src/lib.rs:77 | skipping four characters: empty for short texts, otherwise the text from index 4 on |
| Calculator.HandleCustomSeparator | src/lib.rs:74-82 | `InvalidInput` exactly when there is no character at index 2; `ConsecutiveSeparators` exactly when the body after the header has adjacent separators; a header alone gives `Ok(0)`; `NaN` exactly when the body passes the scan and some piece of it does not parse; `HasNegative` carries the negatives of the parsed pieces; `Ok` on a non-empty body is the sum of the normalised parsed values, which lies in `[0, 1000 * token count]` |
| Calculator.HandleDefaultSeparator | src/lib.rs:84-90 | `ConsecutiveSeparators` exactly when the text has adjacent commas or newlines; never `InvalidInput`; empty text gives `Ok(0)`; `NaN` exactly when the text passes the scan and some piece does not parse; `HasNegative` carries the negatives of the parsed pieces; `Ok` on a non-empty text is the sum of the normalised parsed values, which lies in `[0, 1000 * token count]` |
| Calculator.Add | src/lib.rs:92-98 | total on every text; `InvalidInput` exactly for `"//"`; `ConsecutiveSeparators` exactly when the path chosen by the `//` prefix finds adjacent separators, so it is decided before any `NaN` or `HasNegative`; the empty text gives `Ok(0)`; sums are non-negative (the value of a sum and the `NaN` case: `AddIsVerdict`, `AddIsNaN`) |
| Calculator.AddAsWritten | src/lib.rs:58 | the code as written panics (`None`) exactly on custom-path texts whose separator breaks the class pattern `[c]`, whose body is non-empty and passes the scan; everywhere else it returns `Add`'s result |
| CalculatorProperties.AsWrittenPanics | src/lib.rs:58 | with a breaking separator and a non-empty body, the code as written panics exactly when `Add` does not report consecutive separators |
| CalculatorProperties.AddIsNaN | src/lib.rs:54-98 | `add` fails with `NaN` exactly when the text of its path (the body after the header, or the whole text) is non-empty, passes the scan, and holds a piece that does not parse |
| CalculatorProperties.AddIsVerdict | src/lib.rs:54-98 | every `Ok` or `HasNegative` result of `add` is the verdict on the parsed pieces of its path's text: `HasNegative` of their negatives if any, otherwise the sum of the normalised values; an empty text gives `Ok(0)` |
| CalculatorProperties.DefaultPathVerdict | src/lib.rs:84-90 | on the default path, once the scan passes and every piece parses, the result is `HasNegative` of the negatives if there are any, else the sum of the normalised values |
| CalculatorProperties.CustomPathVerdict | src/lib.rs:74-82 | the same on the custom path, for the body after the header split on the header's separator |
| CalculatorProperties.ParsedPieceBlocks | src/lib.rs:62-63 | a separator-free piece whose trimmed text parses holds a character that clears the scan's flag |
| CalculatorProperties.ParsePointwise | src/lib.rs:60-64 | pieces that each parse collect into exactly their values, in order |
| CalculatorProperties.WellFormedList | src/lib.rs:28-45 | a list of parseable separator-free pieces glued with single separators passes the scan, splits back into its pieces and parses to its values |
| CalculatorProperties.DefaultListVerdict | src/lib.rs:84-90 | `add` on such a comma/newline list is the verdict on its values |
| CalculatorProperties.CustomListVerdict | src/lib.rs:74-82 | `add` on a `//<sep><any>` header followed by such a list split by `sep` is the verdict on its values, for every separator including a space, which the scan never sees |
| CalculatorProperties.TrailingSeparatorIsNaN | src/lib.rs:54-69 | a default-path text ending with a lone separator passes the scan and fails with `NaN` through its empty last piece |
| CalculatorProperties.LeadingSeparatorIsNaN | src/lib.rs:54-69 | the same for a text starting with a separator |
| CalculatorProperties.HeaderFourthCharIgnored | src/lib.rs:76-77 | replacing the fourth character of a custom-path text never changes the result |
| CalculatorProperties.ParsePair | src/lib.rs:60-64 | two parseable pieces collect into their two values, in order |
| CalculatorProperties.PairSum | src/lib.rs:47-52 | the normalised sum of two values is the sum of each value kept or zeroed |
| CalculatorProperties.PairNegatives | src/lib.rs:16-26 | two values have no negatives exactly when both are at least zero |
| CalculatorProperties.PairVerdict | src/lib.rs:66-71 | two non-negative values give their normalised sum; a negative one gives `HasNegative` |
| CalculatorProperties.AddSwap | src/lib.rs:171-175 | for any two separator-free texts `x` and `y`, `x,y` and `y,x` give the same sum when either succeeds, and fail with `NaN` together |
| CalculatorExamples.DefaultOne | src/lib.rs:54-72 | a rendered i64 alone is the verdict on that value |
| CalculatorExamples.DefaultTwo | src/lib.rs:84-90 | two rendered i64s joined by a comma or newline, the second optionally after a space, give the verdict on both |
| CalculatorExamples.DefaultThree | src/lib.rs:84-90 | the same for three values |
| CalculatorExamples.DefaultFour | src/lib.rs:84-90 | the same for four values |
| CalculatorExamples.CustomTwo | src/lib.rs:74-82 | a `//<sep><any>` header and two rendered values split by `sep` give the verdict on both, for any separator outside digits, `-` and space |
| CalculatorExamples.CustomThree | src/lib.rs:74-82 | the same for three values |
| CalculatorExamples.CustomSpaceTwo | src/lib.rs:28-45 | a `// <any>` header and two rendered values split by a space give the verdict on both: a space separator never trips the scan |
| CalculatorExamples.SpaceSeparator | src/lib.rs:30-35 | `add("// \n1 2") == Ok(3)`: the scan skips the space before consulting the separator |
| CalculatorExamples.LastTwoNegative | src/lib.rs:17-20 | two non-negative values followed by two negative ones report exactly the last two, in order |
| CalculatorExamples.EmptyString | src/lib.rs:107 | `add("") == Ok(0)` |
| CalculatorExamples.OneNumber | src/lib.rs:112 | `add("1") == Ok(1)` |
| CalculatorExamples.OneZero | src/lib.rs:113 | `add("0") == Ok(0)` |
| CalculatorExamples.TwoNumbers | src/lib.rs:118 | `add("0, 1") == Ok(1)` |
| CalculatorExamples.ThreeNumbers | src/lib.rs:119 | `add("0, 1, 2") == Ok(3)` |
| CalculatorExamples.FourNumbers | src/lib.rs:120 | `add("0, 1, 2, 3") == Ok(6)` |
| CalculatorExamples.NewlineSeparator | src/lib.rs:125 | `add("1\n2,3") == Ok(6)` |
| CalculatorExamples.CommaNewlineAtEnd | src/lib.rs:130 | `add("1,\n")` is `ConsecutiveSeparators` |
| CalculatorExamples.CommaNewline | src/lib.rs:131 | `add("1,\n2")` is `ConsecutiveSeparators` |
| CalculatorExamples.NewlineComma | src/lib.rs:132 | `add("1\n,2")` is `ConsecutiveSeparators` |
| CalculatorExamples.BareMarker | src/lib.rs:137 | `add("//")` is `InvalidInput` |
| CalculatorExamples.SemicolonSeparator | src/lib.rs:142 | `add("//;\n1;2") == Ok(3)` |
| CalculatorExamples.LetterSeparator | src/lib.rs:143 | `add("//h\n1h3") == Ok(4)` |
| CalculatorExamples.NewlineAsCustomSeparator | src/lib.rs:144 | `add("//\n\n1\n4") == Ok(5)` |
| CalculatorExamples.CustomSeparatorTwice | src/lib.rs:145 | `add("//\n\n1\n\n2")` is `ConsecutiveSeparators` |
| CalculatorExamples.NegativeWithCustomSeparator | src/lib.rs:150 | `add("//;\n1;2;-3")` is `HasNegative([-3])` |
| CalculatorExamples.OneNegative | src/lib.rs:151 | `add("0, 1, 2, -3")` is `HasNegative([-3])` |
| CalculatorExamples.TwoNegatives | src/lib.rs:153-156 | `add("0, 1, -2, -3")` is `HasNegative([-2, -3])` |
| CalculatorExamples.BigValueWithCustomSeparator | src/lib.rs:161 | `add("//;\n1;2000") == Ok(1)` |
| CalculatorExamples.BigValues | src/lib.rs:162 | `add("0, 1, 2000, 1001") == Ok(1)` |
| CalculatorExamples.DefaultPair | src/lib.rs:172 | `format!("{},{}", a, b)` gives the verdict on `[a, b]` for every pair of i64s |
| CalculatorExamples.SumIsCommutative | src/lib.rs:171-175 | for all `a` and `b` in `[0, 1000)`, `add("a,b")` and `add("b,a")` are both `Ok(a + b)` |
| CalculatorExamples.HeaderOnly | src/lib.rs:74-82 | `add("//;") == Ok(0)`: a header with no body |
| CalculatorExamples.LoneTrailingSeparator | src/lib.rs:28-45 | `add("1,")` is `NaN`, not `ConsecutiveSeparators` |
| CalculatorExamples.PanicsOnBreakingSeparator | src/lib.rs:58 | for every breaking separator and any two i64s, the code as written panics on `//<sep><any>a<sep>b`, whose intended result is the verdict on `[a, b]` |
| CalculatorExamples.BracketSeparator | src/lib.rs:58 | the code as written panics on `//[\n1[2`; the intended result is `Ok(3)` |
| Text.Trim | src/lib.rs:62 | `str::trim`; its meaning is stated by `TrimSpec` |
| Calculator.Sum | src/lib.rs:81 | the `sum()` of the token list; bounded by `SumBounds`, order-independent by `SumPermutation` |
| Calculator.StartsWithMarker | src/lib.rs:94 | `starts_with("//")`, which chooses the custom path in `Add` |
| Calculator.HasConsecutiveSeparators | src/lib.rs:28-45 | the declarative condition `CheckConsecutiveSeparators` and `ScanDecides` are proved against: two separators with only spaces between them |
| Calculator.Scan | src/lib.rs:28-45 | the flag-carrying loop as a fold; `ScanDecides` proves it equals `HasConsecutiveSeparators` |
| Calculator.BreaksCharClass | src/lib.rs:58 | the separators `[`, `\` and `^` that make `[c]` an invalid pattern; used by `AddAsWritten` and `AsWrittenPanics` |
| Calculator.CustomPathPanics | src/lib.rs:58 | the custom-path texts on which the code as written panics; `AddAsWritten` returns `None` exactly on them |
| Text.TrimStartSpec | src/lib.rs:62 | leading trim keeps a suffix, drops only whitespace, and leaves no whitespace in front |
| Text.TrimEndSpec | src/lib.rs:62 | trailing trim keeps a prefix, drops only whitespace, and leaves no whitespace at the end |
| Text.TrimSpec | src/lib.rs:62 | `trim` gives a contiguous slice with whitespace only outside it and none at its ends |
| Text.TrimNoOp | src/lib.rs:62 | a text without whitespace at its ends is left unchanged |
| Text.SeparatorsIn | src/lib.rs:58-61 | the separators found are no more than the text's characters, and each belongs to the class |
| Text.Split | src/lib.rs:58-61 | splitting on a class gives one more piece than there are separators |
| Text.SplitJoin | src/lib.rs:58-61 | joining the pieces back with the separators found restores the text |
| Text.JoinSplit | src/lib.rs:58-61 | separator-free pieces glued with separators split back into exactly those pieces |
| Text.SplitTrailingSeparator | src/lib.rs:58-61 | a text ending with a separator has an empty last piece |
| Text.SplitFreePrefix | src/lib.rs:58-61 | a separator-free prefix becomes the start of the first piece |
| Text.ParseI64 | src/lib.rs:63 | a parsed value comes from an integer literal (optional sign, one or more ASCII digits), lies in the i64 range, and is negative only after `-`; anything else is an error |
| Text.ShowNat | src/lib.rs:172-173 | rendering a natural gives a non-empty string of digits |
| Text.ShowInt | src/lib.rs:172-173 | rendering starts with `-` exactly for negative values |
| Text.ShowNatValue | src/lib.rs:172-173 | the digits rendered read back as the value |
| Text.ParseShow | src/lib.rs:63 | every i64 rendered and then parsed gives itself back |

## Left out

- The `regex` crate is not part of this model. `Split` splits on the
  separator characters as plain characters. The one place the pattern
  matters, an unescaped separator breaking `[c]`, is modelled by
  `AddAsWritten` (see Findings).
- `str::trim` and `i64::from_str` are the standard library's own. `Trim` uses
  the Unicode White_Space set that `char::is_whitespace` tests. `ParseI64`
  accepts an optional sign and ASCII digits within the i64 range.
- The `thiserror` display messages are presentation only.
- The test harness and proptest's random generation are left out. The
  `doesnt_crash_on_random_input` property appears as `Add` being a total
  function with no precondition, and as `AddAsWritten` naming the one place
  where it is not.
- Calculator.Add: the final `sum` is over unbounded integers. An `i64`
  overflow would need more than 9 * 10^15 tokens, each at most 1000, so it
  is bounded (`SumBounds`) rather than modelled as wrap-around.
- Calculator.ParseTokens: `collect` into a `Result` stops at the first piece
  that fails to parse. The model returns `None` without saying which piece
  failed, since the error (`NaN`) carries no position.
- Strings are sequences of Unicode scalar values (`char`). Byte offsets and
  UTF-8 encoding do not appear, because the code only uses `chars()` and
  `&str` operations whose results do not depend on them.

## Findings

| source | as written | input that shows it | evidently intended | confidence | as-written member | corrected member |
|---|---|---|---|---|---|---|
| src/lib.rs:58 | `Regex::new(&format!(r"[{sep}]")).unwrap()` splices the custom separator into a character class unescaped, so `[`, `\` and `^` give an invalid pattern and `unwrap` panics | `add("//[\n1[2")` | split on the separator as a literal character, giving `Ok(3)` | not executed | CalculatorExamples.BracketSeparator | Calculator.Add |
