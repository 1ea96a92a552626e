# idcdump, modelled in Dafny

idcdump reads an IDA `.idc` script line by line. It picks out the
`set_name (0x<address>, "<name>")` directives and writes one line
`0x<address>: <name>` for each name the classifier keeps. The classifier
accepts names that look like C or C++ symbols: `@` or `_` first, or `_Z`,
`?` or `g_` first, or `::` inside. The names the pattern captures are made
of word characters, though, so for every record only the `_` and `g_`
prefixes decide. At the
end it prints how many names it wrote, as a percentage of the `set_name`
records it matched. This project models that filter:

- `wrappers.dfy`: the `Option` and `Result` datatypes.
- `line_pattern.dfy`: the line pattern
  `([\w|_]+)\s+\(0[x|X]([0-9|a-z|A-Z]+),\s+"([\w|_]+)"\)`, as a hand-written
  matcher over ASCII text.
  - The classes keep their literal `|` members.
  - The address class admits every ASCII letter.
  - `IsMatch` reads the pattern declaratively. `MatchBounds` is the greedy
    matcher at one start, proved sound and complete against it. A match at a
    given start is therefore unique.
  - `Captures` is the regex engine's leftmost-start search, proved to report
    the groups of the leftmost match.
- `radix_hex.dfy`: `usize::from_str_radix(_, 16)` on a 64-bit target, and the
  `{:x}` format. Includes both round trips between numbers and canonical
  lowercase hex text.
- `name_classifier.dfy`: `is_c_name`, `is_cxx_name` and `should_dump`.
- `line_parser.dfy`: `parse_line`. It yields no record, a record, or the
  panic of `unwrap` when the address text passes the pattern but is not a
  64-bit hex number.
- `driver.dfy`: the loop and summary of `main`, over a sequence of input
  lines.
  - The output file is the sequence of chunks written to it.
  - `Scan` and `Execute` define the run.
  - The method `Run` is the loop with its counters, proved to compute
    `Execute`.
  - Separately defined `Records`, `Kept` and `Render` say what the run writes
    and counts.

Some of the code's behaviour looks unintended, and the model keeps it as
written:

- The address class admits every ASCII letter and `|`, not only `|`.
- `0X` and `0|` are accepted as well as `0x`.
- An address of 2^64 or more aborts the run just as a bad digit does.
- Group 3 cannot hold `@`, `?` or `:`, so the `@`, `?` and `::` tests of the
  classifier never keep a record. Only names starting with `_` or `g_` are
  written.
- With no `set_name` record at all, the summary really divides by zero. The
  model has that as the outcome `Aborted(_, DivisionByZero)`. It does not
  report 0 percent.

## Model

| member | source | states |
|---|---|---|
| `LinePattern.RunEndIsLongestRun` | src/main.rs:12 | A greedy `+` repetition of one of the pattern's classes covers only characters of that class and stops at the end of the line or at a character outside the class. |
| `LinePattern.MatchBounds` | src/main.rs:12 | The greedy matcher at one start. Its contract is stated by `MatchBoundsExactly` and the three lemmas below it. |
| `LinePattern.MatchBoundsExactly` | src/main.rs:12 | The greedy matcher reports a cut of the line at a start exactly when that cut matches the pattern, so the match at a start is unique. |
| `LinePattern.MatchBoundsSound` | src/main.rs:12 | Whatever the greedy matcher reports at a start is a match of the whole pattern there. |
| `LinePattern.MatchBoundsComplete` | src/main.rs:12 | Every match of the pattern at a start is the one the greedy matcher reports, so the match at a start is unique. |
| `LinePattern.MatchBoundsNone` | src/main.rs:12 | The greedy matcher finds nothing at a start exactly when no cut of the line from there matches the pattern. |
| `LinePattern.GroupsInClass` | src/main.rs:12 | Each capture group of a match is non-empty. Groups 1 and 3 are word characters, including `_` and the pipe character; group 2 is digits, ASCII letters and the pipe. |
| `LinePattern.FindFromIsFirstMatch` | src/main.rs:28 | The search from a position reports the first start at or after it where the pattern matches, with that match. When it reports nothing, the pattern matches at no such start. |
| `LinePattern.Captures` | src/main.rs:28 | The regex engine's `captures`. Its contract is stated by `CapturesExactly` and the lemmas below it. |
| `LinePattern.CapturesExactly` | src/main.rs:28 | `captures` yields some groups exactly when they are the groups of a match with no match at any earlier start. |
| `LinePattern.CapturesExactlyWhenMatched` | src/main.rs:28 | `captures` yields nothing exactly when the pattern matches at no position of the line. |
| `LinePattern.CapturedGroupsInClass` | src/main.rs:28 | The groups `captures` reports are non-empty and each is drawn from its class. |
| `LinePattern.CapturesAreLeftmost` | src/main.rs:28 | What `captures` reports are the groups of a match with no match at any earlier start. |
| `LinePattern.LeftmostIsReported` | src/main.rs:28 | For any leftmost match, `captures` reports exactly its groups, whatever later matches the line holds. |
| `LinePattern.PatternLineMatches` | src/main.rs:12 | A line `directive (0<mark><digits>, "<name>")` built from parts in the pattern's classes matches the pattern from its first character. |
| `LinePattern.PatternLineGroups` | src/main.rs:12 | The groups of that match are the directive, the digits and the name the line was built from. |
| `LinePattern.PatternLineCaptures` | src/main.rs:28 | `captures` on such a line reports exactly its directive, digits and name. |
| `RadixHex.HexValueAppend` | src/main.rs:33 | Appending a hex digit multiplies the value by 16 and adds the digit. |
| `RadixHex.HexValuePrefixMonotone` | src/main.rs:33 | A prefix of hex text never denotes more than the whole text. |
| `RadixHex.AccumulateDigitsCorrect` | src/main.rs:33 | The digit loop of `from_str_radix` yields the value when the text is all hex digits and fits in 64 bits. It reports overflow when the text is all hex digits and too large, and fails otherwise. |
| `RadixHex.FromStrRadix16` | src/main.rs:33 | `Ok` exactly for non-empty all-hex text whose value is below 2^64, and then the value is that of the digits. `Empty` exactly for empty text. `PosOverflow` for all-hex text of 2^64 or more. |
| `RadixHex.LowerHexDigit` | src/main.rs:73 | The digit `{:x}` prints for a value below 16 is a lowercase hex digit that reads back as that value. |
| `RadixHex.ToLowerHex` | src/main.rs:73 | `{:x}` prints non-empty lowercase hex text with no leading zero other than the single `0`. It prints `0` exactly for zero. |
| `RadixHex.ToLowerHexValue` | src/main.rs:73 | The printed text denotes the printed number. |
| `RadixHex.FormatThenParse` | src/main.rs:73 | For an address below 2^64, `from_str_radix` on the `{:x}` text yields the address again. |
| `RadixHex.CanonicalTextIsPrinted` | src/main.rs:73 | Canonical lowercase hex text is exactly what `{:x}` prints for its value: the other round trip. |
| `NameClassifier.ContainsDoubleColon` | src/main.rs:48 | `contains("::")` holds exactly when two colons stand side by side somewhere in the name. |
| `NameClassifier.IsCName` | src/main.rs:40-42 | `is_c_name`. Its contract is stated by `IsCNameExactly`. |
| `NameClassifier.IsCNameExactly` | src/main.rs:40-42 | A name is a C name exactly when its first character is `@` or `_`. |
| `NameClassifier.IsCxxName` | src/main.rs:44-49 | `is_cxx_name`. Its contract is stated by `IsCxxNameExactly`. |
| `NameClassifier.IsCxxNameExactly` | src/main.rs:44-49 | A name is a C++ name exactly when it begins with `_Z`, `?` or `g_`, or holds two adjacent colons. |
| `NameClassifier.ShouldDump` | src/main.rs:51-53 | `should_dump`. Its contract is stated by `ShouldDumpExactly`. |
| `NameClassifier.ShouldDumpExactly` | src/main.rs:51-53 | A name is kept exactly when it starts with `@`, `_`, `?` or `g_`, or holds two adjacent colons. |
| `NameClassifier.ItaniumPrefixRedundant` | src/main.rs:44-49 | Dropping the `_Z` test changes no decision, since `is_c_name` accepts every name that starts with `_`. |
| `NameClassifier.RejectsPlainNames` | src/main.rs:40-53 | `hello`, `123abc`, `foo.bar` and `foo` are not kept. |
| `NameClassifier.KeepsSymbolNames` | src/main.rs:40-53 | A `_` name, an `@` name, an Itanium mangled name, an MSVC mangled name, a `g_` global and a `::` qualified name are kept. |
| `LineParser.ParseLine` | src/main.rs:27-38 | No record exactly when the line has no match or its leftmost match's directive is not `set_name`. A record carries group 3 as the name and the value of group 2, below 2^64, as the address. It panics when the directive is `set_name` and group 2 is not a 64-bit hex number. |
| `LineParser.ParseLineOfLeftmostMatch` | src/main.rs:27-38 | Given the leftmost match of a line: another directive yields no record; `set_name` with valid hex yields exactly that match's name and address; `set_name` with bad hex panics. |
| `LineParser.ParseLineWithoutMatch` | src/main.rs:28 | A line the pattern matches nowhere yields no record. |
| `LineParser.ParsesPatternLine` | src/main.rs:27-38 | On a well-formed `directive (0<mark><digits>, "<name>")` line, `parse_line` yields the record exactly for `set_name` with a 64-bit hex address. It panics for `set_name` with any other address text, and yields nothing for any other directive. |
| `LineParser.ParsesMainSymbol` | src/main.rs:27-38 | `set_name (0x401000, "_main")` yields `("_main", 0x401000)`. |
| `LineParser.ParsesFooSymbol` | src/main.rs:27-38 | `set_name (0x1, "foo")` yields `("foo", 1)`. |
| `LineParser.IgnoresOtherDirective` | src/main.rs:30-37 | `rename (0x500, "x")` yields no record. |
| `LineParser.LeftmostStartDecides` | src/main.rs:28-30 | In `xset_name (0x1, "a")` the directive is `xset_name`, not the `set_name` inside it, so no record results. |
| `LineParser.NonHexLetterAborts` | src/main.rs:31-34 | `0xZZ` passes the pattern and then panics in `unwrap`. |
| `LineParser.PipeDigitAborts` | src/main.rs:31-34 | An address of 1, a pipe and 2 passes the pattern and then panics in `unwrap`. |
| `LineParser.PipeRadixMarkAccepted` | src/main.rs:12 | The radix mark class admits the pipe character, so a line with a pipe in place of `x` yields `("a", 1)`. |
| `Driver.WordNameKeptByPrefix` | src/main.rs:40-53 | A non-empty name of word characters is kept exactly when it starts with `_` or with `g_`. |
| `Driver.RecordKeptByPrefix` | src/main.rs:70-72 | For every record `parse_line` yields, `should_dump` keeps it exactly when its name starts with `_` or with `g_`. |
| `Driver.FormatRecord` | src/main.rs:73 | The `format!` of an output line. Its contract is stated by `FormatRecordReadsBack`. |
| `Driver.FormatRecordReadsBack` | src/main.rs:73 | An output line is `0x`, then canonical lowercase hex text that parses back to the address, then `: `, the name and a line feed. |
| `Driver.FormatZeroAddress` | src/main.rs:73 | Address 0 is written `0x0`. |
| `Driver.Step` | src/main.rs:69-78 | One iteration of the loop body. Its contract is stated by `StepCounters`, `StepWithoutRecord` and `StepStateOf`. |
| `Driver.StepCounters` | src/main.rs:69-77 | One line raises each counter by at most one, and the dump counter only together with the record counter. It only appends to the output, one line per dumped name. |
| `Driver.StepWithoutRecord` | src/main.rs:77 | A line without a `set_name` record leaves both counters and the output unchanged. |
| `Driver.StepStateOf` | src/main.rs:70-76 | From the state that a list of records gives, one more non-panicking line moves to the state of that list plus the line's record, if it has one. |
| `Driver.ScanInvariant` | src/main.rs:68-79 | After every prefix of the input, dumped ≤ matched, and the output holds exactly one line per dumped name. |
| `Driver.ScanIsRecordsKeptRendered` | src/main.rs:68-79 | Without a panic, the counters are the number of records and of kept records, and the output is the kept records rendered in input order. |
| `Driver.CrashIsFinal` | src/main.rs:69 | Once a panic has stopped the loop, later lines change nothing. |
| `Driver.FirstPanicStopsRun` | src/main.rs:68-79 | A panic on line k aborts the run with the state reached over the lines before k. What was written up to then stays written, and nothing after it is. |
| `Driver.RunWithoutPanic` | src/main.rs:68-79 | Without a panic, the loop ends with the records counted and the kept ones written in order. |
| `Driver.Summarize` | src/main.rs:81-85 | The summary after the loop. Its contract is stated by `DivisionByZeroExactly` and `PercentAtMostHundred`. |
| `Driver.DivisionByZeroExactly` | src/main.rs:81-85 | The summary divides by zero exactly when no line panics and no line yields a record. |
| `Driver.PercentAtMostHundred` | src/main.rs:84 | A finished run reports `(dumped*100)/matched` with truncating division, matched > 0, and the percentage is at most 100. |
| `Driver.MainSymbolOutputLine` | src/main.rs:73 | The record `("_main", 0x401000)` is written as `0x401000: _main`. |
| `Driver.MainSymbolRun` | src/main.rs:57-87 | The one-line input `set_name (0x401000, "_main")` writes `0x401000: _main` and reports 100 percent. |
| `Driver.EmptyInputDividesByZero` | src/main.rs:81-85 | An empty input writes nothing and ends in the division by zero. |
| `Driver.Run` | src/main.rs:57-87 | The loop with its two counters and appended output computes `Execute`. Dumped ≤ matched, and the output has one line per dumped name. A finished run has matched > 0 and reports `(dumped*100)/matched`. |

## Left out

- Opening and creating the files, `BufReader`, `LineWriter` and the `?` error propagation (src/main.rs:63-69, 73) are I/O. The input is given as a sequence of lines, and the output file is a sequence of written chunks. I/O errors are not modelled.
- The command-line struct `Opt` and `Opt::from_args` (src/main.rs:16-23, 61) are argument parsing through a library not modelled here.
- The regex crate (src/main.rs:7, 60) is replaced by a hand-written matcher over ASCII text:
  - Rust's `\w` and `\s` also accept non-ASCII letters, digits and spaces, which the model does not.
  - Texts are sequences of characters; byte offsets and UTF-8 are not modelled.
- How `lines()` splits the file, including stripping a trailing `\r`, is not modelled: the lines arrive already split.
- The wording of the `println!` summary (src/main.rs:81-85) is not modelled; only its percentage is.
- Driver.Run: the counters are unbounded `nat`s. The source's counters are `i32` by type inference, and `total_lines += 1` and `dumped_funcs += 1` overflowing after 2^31 - 1 records is not modelled. Its percentage also differs from the source's once the product at src/main.rs:84 overflows, as described for `Driver.Summarize`.
- Driver.Summarize: the product `dumped_funcs * 100` (src/main.rs:84) is an `i32` and overflows once more than 21,474,836 names are dumped. A debug build then panics, and a release build wraps and prints a wrong, possibly negative, percentage. The model computes the exact product.
- Driver.PercentAtMostHundred: holds only while at most 21,474,836 names are dumped, because past that the source's `i32` product overflows as described for `Driver.Summarize`.
- RadixHex.FromStrRadix16: the leading `+` that `from_str_radix` accepts is not modelled, because the address class of the pattern can never capture a `+`.
- The address is a `nat` below 2^64, matching `usize` on a 64-bit target. Other widths are not modelled.
- The panic message of `unwrap` and the process exit status are not modelled. A panic is the outcome `Aborted(_, ParsePanic(kind))`, and the division by zero is `Aborted(_, DivisionByZero)`.
- The scenario lines are built with `PatternLine`, which puts exactly one space wherever the pattern allows any run of whitespace.
