# RTL waveform analyzer: debugger core in Dafny

This project models the core of an RTL waveform debugger that runs inside cocotb
testbenches. When a test records assertion violations, the debugger does four things:

1. It correlates the `VIOLATION at <t> ps` lines of the test's error log with the
   simulation trace.
2. It rebuilds the trace as a last-value-hold table with one row per change time.
3. It turns that table into a compact CSV: binary columns in hex, only the rows near
   the violations, and no mirrored `$rootio` columns.
4. It sends the CSV, the design specification and the violation log to a language-model
   service, and appends the answer to the error log.

Finally the test fails with an aggregate error that counts the violations.

The model is functional: every operation is a pure function, and the properties are
`ensures` clauses and lemmas. There are fifteen modules:

- `Wrappers`: `Option` and `Result`.
- `Text`: Python's substring search, `str.split`, `str.join` and `str.strip`.
- `Splitting`: what characterises the pieces of `str.split`.
- `Numerals`: rendering and reading decimal, binary and hex numerals.
- `Sorting`: sorted listings of sets and boolean-mask positions.
- `Correlator`: extracting violation timestamps from the log.
- `Timeline`: reconstructing the last-value-hold table and the time-to-row index.
- `Window`: keeping the rows within `W` of a violation.
- `Formatter`: hex normalisation, dropping `$rootio` columns, and CSV rendering.
- `VcdFormatter`: `extract_vcd_data` as a whole.
- `Prompt`: the system prompt `create_system_prompt` returns.
- `UserMessage`: the user message and its violation description.
- `AnalysisNote`: what `run_analysis` appends to the log after consulting the service.
- `OllamaClient`: the request and `run_analysis`.
- `CocotbUtils`: the `with_debug_tool` test wrapper.

Design decisions:

- **Parsed trace as input.** The VCD file is taken as already parsed: a list of signals,
  each with a name and its `(time, value)` changes in file order.
- **Absent files.** A file that is absent or unreadable is `None`.
- **Service as a parameter.** The language-model service is a total function from the
  request to either a reply or the text of the exception it raised.
- **Test body as an outcome.** The test body is given by what it leaves behind: the
  violations it appended, the text it logged at error level, and the exception it
  raised, if any.
- **Timestamps are `real`.** Violation timestamps are parsed to `real`, so that a
  float timestamp such as `155.0` matches the integer change time `155`, as the
  dictionary lookup `t in time_to_index` does in Python.

The test body can fail after recording violations. The `finally` block then raises the
aggregate `AssertionError`, which replaces the body's exception; the body's exception
survives only as implicit context. `CocotbUtils.Wrapper` keeps it as `context`.

## Model

| member | source | states |
|---|---|---|
| Text.IndexOf | debugger/vcd_formatter.py:30 | `marker in line`: when found, the result is the first position where the marker occurs; when not found, the marker occurs nowhere |
| Text.Split | debugger/vcd_formatter.py:32 | `str.split(sep)` gives at least one piece, and joining the pieces with `sep` gives the text back. Each piece but the last ends right where the first `sep` after its start begins, and the last piece holds no `sep`. With no separator the text itself is the only piece; otherwise the first piece is the text before the first separator |
| Splitting.SplitLast | debugger/vcd_formatter.py:32 | the last piece of `str.split(sep)` holds no `sep` |
| Splitting.SplitUnique | debugger/vcd_formatter.py:32 | the pieces of `str.split(sep)` are the only ones that join back to the text, each but the last ending at the first `sep` after it and the last holding none |
| Text.SplitJoin | debugger/vcd_formatter.py:32 | splitting a join on a one-character separator that no part contains gives back exactly the parts |
| Text.SplitTerminated | debugger/vcd_formatter.py:76 | newline-terminated lines split on newlines give the lines and one final empty piece |
| Text.Strip | debugger/ollama_client.py:31 | `str.strip()`: the result is a slice of the text with only whitespace before and after it, and it neither starts nor ends with whitespace. It is empty exactly when the text is all whitespace, and a text without whitespace is unchanged |
| Text.StripUnique | debugger/ollama_client.py:31 | the stripped text is the only slice with only whitespace outside it and no whitespace at its edges |
| Numerals.Numeral | debugger/vcd_formatter.py:76 | a number is rendered as a canonical numeral of the base: `"0"` exactly for zero, and no leading zero otherwise |
| Numerals.NumeralRoundTrip | debugger/vcd_formatter.py:60 | reading back a rendered numeral gives the number |
| Sorting.SetToSorted | debugger/vcd_formatter.py:39 | `sorted(set)` is strictly ascending, has exactly the set's members, and is as long as the set |
| Sorting.AscendingUnique | debugger/vcd_formatter.py:39 | two strictly ascending lists with the same members are equal, so the sorted listing is the only one |
| Sorting.Positions | debugger/vcd_formatter.py:74 | a boolean column mask gives ascending positions; each is in range and passes the test, and every position that passes is included |
| Correlator.ViolationTimes | debugger/vcd_formatter.py:26-28 | an absent log gives no violation times |
| Correlator.ParseLine | debugger/vcd_formatter.py:30-35 | a line without `VIOLATION at` gives no time; a line that gives a time contains `VIOLATION at ` |
| Correlator.ParseFloat | debugger/vcd_formatter.py:32 | `float()` of a blank token fails; a parsed time is at most zero when the stripped token starts with `-`, and at least zero otherwise |
| Correlator.ParseFloatInteger | debugger/vcd_formatter.py:32 | `float()` of a decimal integer after an optional sign, with any surrounding whitespace and leading zeros, is the integer's value, negated after `-` |
| Correlator.ParseFloatDecimal | debugger/vcd_formatter.py:32 | `float()` of `a.b` after an optional sign, with digits `a` and `b` not both empty, is the digits of `a` and `b` read as one integer and divided by ten to the length of `b`, negated after `-` |
| Correlator.ParseFloatForms | debugger/vcd_formatter.py:32 | every token `float()` accepts is, once stripped, one of those two forms, so the two lemmas above give the value of every accepted token |
| Correlator.ValueOfConcat | debugger/vcd_formatter.py:32 | the digits of `a` followed by those of `b` are worth `a` shifted left by the length of `b`, plus `b`; this links the fraction's value to the text after the point |
| Correlator.CollectSpec | debugger/vcd_formatter.py:29-35 | the k-th collected time is the parse of the k-th line that parses, in file order; unparsable lines are skipped |
| Correlator.CollectAppend | debugger/vcd_formatter.py:29-35 | collecting works line by line: the times of two consecutive blocks of lines are the first block's times followed by the second's |
| Correlator.StampOfLine | debugger/vcd_formatter.py:30-33 | a line `prefix + "VIOLATION at " + stamp + " ps: " + msg` yields the float of its stamp, when the prefix has no `V` and the stamp has no `V` or blank |
| Correlator.TestbenchLineRoundTrip | sample_designs/sync_fifo_dir/sync_fifo_tb.py:31-35 | the testbench's report line for an integer time reads back as that time |
| Correlator.FloatLineRoundTrip | sample_designs/sync_fifo_dir/sync_fifo_tb.py:31-35 | the report line for a time printed as a float (`155.0`) reads back as that time |
| Timeline.LastIndexAt | debugger/vcd_formatter.py:46-48 | `changes[-1]`: the last change listed at exactly time `t`, or none when no change is at `t` |
| Timeline.HeldTraces | debugger/vcd_formatter.py:43-50 | the value carried into row `i` comes from a change at one of the row times up to `i`; no value means no change at any of those times |
| Timeline.HeldIsLastValueHold | debugger/vcd_formatter.py:40-49 | the row-by-row carry of `last_vals` equals the declarative hold: the value of the last change at or before the row time, or none before the first change |
| Timeline.HoldsAtUnique | debugger/vcd_formatter.py:40-49 | at most one value is held at any time |
| Timeline.HoldsAtSameHistory | debugger/vcd_formatter.py:40-49 | a held value stays held at any later time with the same past changes |
| Timeline.IndexMap | debugger/vcd_formatter.py:42-51 | `time_to_index` maps every row time to a row index, and every key to the row at that time |
| Timeline.TimeTable | debugger/vcd_formatter.py:40-51 | given the change times in ascending order, the table has one row per time, in that order, with one column per signal, and every cell holds its signal's value at the row time |
| Timeline.Reconstruct | debugger/vcd_formatter.py:37-54 | the table is well shaped and has one column per signal, in order. Its rows are at exactly the change times, strictly ascending. Every cell holds its signal's value at the row time. The index maps each row time to its row and has no other keys |
| Timeline.SilentSignalColumn | debugger/vcd_formatter.py:40-49 | a signal with no changes is empty (`None`) in every row |
| Window.MatchedKey | debugger/vcd_formatter.py:66-68 | a violation time names a row time exactly when it equals that time as a number |
| Window.RowWindow | debugger/vcd_formatter.py:69-71 | the window of row `idx` holds the rows `idx - W` to `idx + W`, clipped to the table |
| Window.RowWindowSize | debugger/vcd_formatter.py:69-71 | a window holds at most `2W + 1` rows |
| Window.KeptIndices | debugger/vcd_formatter.py:65-71 | every kept index is a row of the table, and nothing is kept when no violation time names a row time |
| Window.KeptIndicesSpec | debugger/vcd_formatter.py:65-71 | a row is kept exactly when it lies in the window of some violation time that names a row time |
| Window.KeptIndicesSize | debugger/vcd_formatter.py:65-71 | at most `2W + 1` rows are kept per distinct named row time |
| Window.KeptRows | debugger/vcd_formatter.py:72 | `sorted(indices_to_keep)`: strictly ascending, in range, exactly the covered rows |
| Window.Select | debugger/vcd_formatter.py:64-72 | no violation times keep the table as it is; otherwise the kept rows are taken in ascending order, with the columns unchanged |
| Window.UnmatchedKeepNothing | debugger/vcd_formatter.py:64-72 | when violation times exist but none names a row time, no row is kept |
| Window.MatchedRowKept | debugger/vcd_formatter.py:66-71 | the row a violation time names is itself kept |
| Window.SelectKeepsOrder | debugger/vcd_formatter.py:72 | selection yields rows of the table only and keeps them in strictly ascending time order |
| Window.NamedRowSelected | debugger/vcd_formatter.py:64-72 | the row time a violation time names survives the selection |
| Formatter.ToHex | debugger/vcd_formatter.py:60 | `hex(int(x, 2))` is `0x` followed by a canonical lower-case hex numeral of the same value |
| Formatter.NormalizeHex | debugger/vcd_formatter.py:57-62 | conversion is all-or-nothing per column: a column whose values are all binary is converted in every row; a column with any other value is left exactly as it was; times and shape are unchanged |
| Formatter.HexIsNotBinary | debugger/vcd_formatter.py:60 | a converted value is never binary |
| Formatter.NormalizeHexIdempotent | debugger/vcd_formatter.py:57-62 | normalising a second time changes nothing |
| Formatter.DropMirrors | debugger/vcd_formatter.py:74 | no remaining column name starts with `$rootio`; the remaining columns keep their order, names and values; times are unchanged |
| Formatter.ToCsv | debugger/vcd_formatter.py:76 | the CSV text opens with the header line (`Time`, then the column names) and its newline, and ends with a newline |
| Formatter.CsvReadBack | debugger/vcd_formatter.py:76 | for texts without comma, newline, carriage return or double quote, the CSV text splits back into its lines and a final empty piece. The header splits into `Time` and the column names. Each data line splits into the row's decimal time and its cells, with an empty field for no value |
| VcdFormatter.ExtractFrameShape | debugger/vcd_formatter.py:22-76 | the columns are the non-mirror signals, in trace order. The rows are strictly ascending, each at a change time. With no violation time every change time has a row. Otherwise there are at most `2W + 1` rows per change time the log names, and each named change time keeps its row |
| VcdFormatter.ExtractShowsHeldValues | debugger/vcd_formatter.py:37-74 | every cell of the rendered table shows the value its signal holds at the row's time, either as is or converted to hex |
| VcdFormatter.MatchedKeysOver | debugger/vcd_formatter.py:66-68 | the row times the violation times name are exactly the keys that some violation time equals |
| VcdFormatter.FrameWindowed | debugger/vcd_formatter.py:64-72 | the window bound and the keeping of named rows, stated over the change times of the trace |
| VcdFormatter.ExtractVcdData | debugger/vcd_formatter.py:22-76 | the returned CSV opens with the header line of the rendered table and its newline, and ends with a newline |
| UserMessage.Narrative | debugger/ollama_client.py:36-42 | the violation description is never empty and has no surrounding whitespace. An absent or blank log gives the skip sentinel; any other log gives a slice of itself with only whitespace outside it |
| UserMessage.UserContent | debugger/ollama_client.py:47 | the user message holds, one after the other and nothing else: `SPECIFICATION: ` and the specification, a newline, `WAVEFORM: ` and the CSV, a newline, `VIOLATION: ` and the description, and the closing line |
| UserMessage.LaidOutDetermines | debugger/ollama_client.py:47 | any text laid out that way is the user message, so the layout fixes the message |
| Prompt.PromptNamesMarkers | debugger/ollama_client.py:6-22 | the system prompt announces the quoted markers `WAVEFORM:`, `SPECIFICATION:` and `VIOLATION:` |
| OllamaClient.SystemMessage | debugger/ollama_client.py:6-22 | `create_system_prompt` gives a message with role `system` whose content announces the three quoted markers the user message uses |
| UserMessage.WaveSection | debugger/ollama_client.py:47 | the CSV follows `WAVEFORM: ` at the start of the second line, right after the newline that ends the specification's line |
| UserMessage.ViolSection | debugger/ollama_client.py:47 | the violation description follows `VIOLATION: ` at the start of the third line, right after a newline. The message ends with `End of user input` right after the description, and its length is fixed by the three texts |
| OllamaClient.BuildRequest | debugger/ollama_client.py:28-49 | the request names the configured model and has two messages: the system prompt first, then the user message. The user message is laid out from the stripped specification, the CSV of the trace and the violation description of the log |
| AnalysisNote.FailureNote | debugger/ollama_client.py:57-59 | the failure note is the failure prefix, the exception's text and a final newline, read off by position; it starts a new line with `E`, so it is never taken for a banner |
| AnalysisNote.Answered | debugger/ollama_client.py:53-56 | an answer is laid out as the opening banner, the content and the closing banner, read off by position; the text starts with a newline and the banner's `=` and ends with a newline |
| AnalysisNote.Unanswered | debugger/ollama_client.py:53-59 | a reply missing a key leaves the opening banner, then the failure note naming the key in Python's quotes; the text starts like an answer and ends with a newline |
| AnalysisNote.Appendix | debugger/ollama_client.py:51-59 | the appended text starts and ends with a newline. It opens with the answer banner exactly when the service answered. An answer sits between the opening and closing banners. A reply missing a key gets the opening banner and then the failure note naming the quoted key. A failed call gets the failure note alone |
| OllamaClient.RunAnalysis | debugger/ollama_client.py:24-59 | an unreadable specification fails first, then an unreadable trace; otherwise the analysis completes. The old log is kept as a prefix, and the text for the service's outcome follows it |
| OllamaClient.RequestIndependentOfService | debugger/ollama_client.py:28-49 | whether the analysis fails, and the request it sends, do not depend on the service |
| CocotbUtils.Wrapper | debugger/cocotb_utils.py:39-53 | the analysis runs exactly when the debugger is enabled and violations were recorded. The test passes exactly when there are no violations and the body raised nothing. A body error with no violations propagates unchanged. With violations, the raised error carries the body's error as context. The aggregate message counts the violations. The error log only grows, and an unreadable specification or trace leaves it unchanged, since the analysis raises before appending |
| CocotbUtils.Finish | debugger/cocotb_utils.py:46-53 | the `finally` block, given the analysis result: an analysis failure replaces the body's exception, violations raise the aggregate error over it, no violations leave the body's own exception or a pass. The log only grows, and a failed analysis leaves it exactly as the body left it |
| CocotbUtils.AggregateRaisedExactly | debugger/cocotb_utils.py:46-53 | the aggregate error is raised exactly when there are violations and the analysis did not fail; an analysis failure surfaces instead, with its cause |
| CocotbUtils.VerdictIndependentOfService | debugger/cocotb_utils.py:46-53 | the service's answer never changes how the test ends or whether the analysis ran |
| CocotbUtils.DisabledIsPlainCheck | debugger/cocotb_utils.py:47 | with the debugger disabled, the workspace and the service are never consulted, and the log is untouched |
| CocotbUtils.AnalysisAppended | debugger/cocotb_utils.py:47-51 | a completed analysis leaves the error log as the body's log followed by the service's answer or its failure note |
| CocotbUtils.AggregateMessage | debugger/cocotb_utils.py:53 | the text before the aggregate message's first blank is the violation count in canonical decimal, with no leading zero except for `0` itself, and the text after it names the test |

## Left out

- Parsing the VCD file itself (the `vcdvcd` library) is not modelled. The trace is
  given already parsed, and an unreadable dump is `None`.
- File I/O is not modelled. Files are contents or `None`, and a failure while writing
  the log is not modelled. The log file is read once, so the two reads of the same
  log (in `extract_vcd_data` and in `run_analysis`) see the same text.
- Correlator.ParseFloat: accepts an optional sign, digits and an optional fraction,
  with surrounding whitespace. It does not accept the exponent, `inf`/`nan` or
  underscore forms Python's `float` also takes. The testbench never writes those.
- Floating-point rounding is not modelled. Times are exact reals, while Python parses
  them to binary64 floats: `155.00000000000000001`, or an integer above 2^53, rounds in
  Python and can then match a row time that the exact value does not.
- Formatter.ToHex: the argument is a non-empty string of `0`/`1`. Python's
  `int(x, 2)` also accepts a sign, a `0b` prefix, underscores and surrounding
  whitespace. Simulator values never have these, so a column holding them would
  convert in Python but is left unconverted here.
- The pandas `dtype == object` test is not modelled. The parsed trace's values are
  always strings, so that test always holds.
- CSV quoting is not modelled. `Formatter.CsvReadBack` assumes that no name or value
  contains a comma, a newline, a carriage return or a double quote; pandas would quote
  such a field.
- Universal-newline translation of the log is not modelled. Lines are split on `\n`
  only, and the text is kept as read. Python reads the log in text mode, which has two
  effects the model misses. First, a lone `\r` ends a line in Python, so a log with
  such line ends can yield more violation times in Python than here. Second, `\r\n` is
  rewritten to `\n` in the violation description sent to the service. A `\r` right
  before `\n` does not change the parsed times, since `float` strips it as whitespace.
- Duplicate signal names are not modelled. They would make `vcd_df[sig]` select
  several columns at once, and then `vcd_df[sig].dtype` (debugger/vcd_formatter.py:58)
  raises `AttributeError` outside any `try`, so `extract_vcd_data` fails. The model
  identifies columns by position instead and carries on.
- Replies whose content is not a string are not modelled. `AnalysisNote.Reply` has
  only string content and a missing key. Content that is not a `str` would make `f.write` raise `TypeError` after the
  opening banner is written, so the log would get `BeginBanner` followed by the
  failure note for that `TypeError`. The model has no such case.
- `setup_loggers` is not modelled. It creates the result directory and the logging
  handlers and formats log records. The error log is the text the body logged, and
  the model takes it as given.
- The paths of the dump and specification files are not modelled (`RESULTS_DIR`,
  `os.getcwd()`). Those files are given through `Workspace`.
- cocotb's scheduling and the `@cocotb.test` registration are not modelled. The body
  is taken after it has run.
- `add_cycle_count` is not modelled. The source marks it as unused.
- The configuration constants of debugger/config.py are parameters (`Config`). The
  shipped values are the constant `CocotbUtils.Shipped`.
