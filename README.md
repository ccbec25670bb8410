# QC report metric extractor

This is a Dafny model of `get_report_info` from `qc_ccdg_smartsheet.py`. The
function reads a sequencing quality-control report line by line and fills a
dictionary with five counts. Its keys are `Pass`, `Fail`, `FreemixFail`,
`CovFail` and `OtherFail (discordant/interchromosomal)`.

How the scan works:

- A one-way boolean flag, `failed_samples`, is set by the first line
  containing "Failed Samples". The FREEMIX, HAPLOID_COVERAGE and rate checks
  apply only while it is set.
- Every line goes through seven independent `if` tests in source order.
- `Pass` and `Fail` read, as an integer, the text between the first and the
  second `=` (or the end of the line when there is no second one). The
  failure causes read the text between the first and the second `:` in the
  same way.
- Four entries are overwritten. `OtherFail` is added to.
- The first line containing "Summary Statistics" returns the dictionary, but
  only after its own checks have run.

The model has three modules:

- `PyStr` (`pystr.dfy`) models the Python built-ins the function uses:
  - `p in s`;
  - `s.split(d)` and the field `s.split(d)[1]`, which is `None` where Python
    raises `IndexError`;
  - `int()` on a string: surrounding white space of the kind `int()` skips
    (`\t`, `\n`, `\v`, `\f`, `\r`, space and the non-ASCII white space
    listed in `IsIntSpace`), an optional sign, then ASCII digits; anything
    else is an error, where Python raises `ValueError`.

  Each comes with its partner: occurrence at an index (`OccursAt`, through
  `ContainsIff`) for `p in s`; `Join` for `Split`; the text between the
  first and the next `d` (`FieldSpec`) for `split(d)[1]`; and, for `int()`,
  the shape white space, optional sign, digits, white space
  (`ParseIntShape` and `ParseIntAccepts`) together with `FormatInt`
  (`str()`).
- `QcReport` (`qc_report.dfy`) holds the record, the specification and the
  loop:
  - The record is `Report`; `ToDict` turns it into the source's dictionary.
  - `ReportInfo` is the specification: a recursive scan that returns
    `Success(record)` or `Failure(Error(line, metric, cause))`.
  - `GetReportInfo` is the source's loop. It updates a `map<string, int>` and
    the flag, returns early on the terminator, and is proved equal to
    `ReportInfo`.
  - The loop body is the method `CheckLine`. It runs the five checks through
    `Check` and the flag test inline, in source order.
- `QcReportProperties` (`qc_report_properties.dfy`) proves what the function
  promises about a whole report. The right-hand sides it uses are
  independent reference definitions:
  - which line is the terminator;
  - whether the flag is set at line `j`;
  - the last line each check applies to;
  - the sum of the rate fields;
  - well-formedness of the scanned lines.

Two representation choices:

- The flag is a plain boolean, as in the source.
- The error is Python's exception, `IndexError` or `ValueError(text)`,
  extended with the 0-based index of the line and the metric whose check
  raised, so that lemmas can say which line failed.

## Model

| member | source | states |
|---|---|---|
| PyStr.Contains | qc_ccdg_smartsheet.py:33 | `p in s`; `ContainsIff` states what it means |
| PyStr.ContainsIff | qc_ccdg_smartsheet.py:33 | `Contains(s, p)`, the model of `p in s`, holds exactly when `p` occurs in `s` at some index |
| PyStr.FirstIndex | qc_ccdg_smartsheet.py:34 | the index found holds `d` and no earlier character is `d` |
| PyStr.Split | qc_ccdg_smartsheet.py:34 | `s.split(d)`; `SplitSpec` and `SplitJoin` state its properties |
| PyStr.SplitSpec | qc_ccdg_smartsheet.py:34 | the pieces of `split(d)` are `d`-free, at least one, more than one exactly when `d` occurs, and `Join` of them is the input |
| PyStr.SplitPiecesFree | qc_ccdg_smartsheet.py:34 | `split(d)` yields at least one piece, more than one iff `d` occurs, none containing `d` |
| PyStr.SplitJoinsBack | qc_ccdg_smartsheet.py:34 | joining the pieces of `split(d)` with `d` gives the input back |
| PyStr.SplitJoin | qc_ccdg_smartsheet.py:34 | splitting a join of `d`-free pieces gives the pieces back |
| PyStr.Field | qc_ccdg_smartsheet.py:34 | `s.split(d)[1]`, or nothing where Python raises `IndexError`; `FieldSpec` states what it is |
| PyStr.FieldSpec | qc_ccdg_smartsheet.py:34 | `split(d)[1]` is missing (IndexError) iff `d` does not occur; otherwise it is the text after the first `d` up to the next `d` or the end |
| PyStr.StripLeftSpec | qc_ccdg_smartsheet.py:34 | skipping the leading white space `int()` ignores keeps a suffix, drops only such white space, and what is left does not start with it |
| PyStr.StripRightSpec | qc_ccdg_smartsheet.py:34 | skipping the trailing white space `int()` ignores keeps a prefix, drops only such white space, and what is left does not end with it |
| PyStr.StripPadded | qc_ccdg_smartsheet.py:34 | skipping the white space `int()` ignores around a string that starts and ends with other characters gives that string back |
| PyStr.ParseInt | qc_ccdg_smartsheet.py:34 | `int(s)`; `ParseIntShape` and `ParseIntAccepts` state which strings it accepts and what it returns |
| PyStr.ParseIntShape | qc_ccdg_smartsheet.py:34 | a string `int()` accepts is white space it skips, an optional `+`/`-`, at least one digit and white space again, and the result is the digits' value, negated after `-`; so `"0.05"`, `"3x"` or `"5 5"` raise ValueError |
| PyStr.ParseIntAccepts | qc_ccdg_smartsheet.py:34 | conversely every such string is accepted with that value, `+`-signed and zero-led digit strings such as `"+5"` and `"007"` included |
| PyStr.FormatNat | qc_ccdg_smartsheet.py:34 | `str(n)` of a natural number is a non-empty run of decimal digits |
| PyStr.DigitsValueFormatNat | qc_ccdg_smartsheet.py:34 | reading the digits of `str(n)` gives back `n` |
| PyStr.ParseSignedFormatInt | qc_ccdg_smartsheet.py:34 | a signed literal parses back to the integer it prints |
| PyStr.ParseFormatInt | qc_ccdg_smartsheet.py:34 | `int(lead + str(n) + trail)` is `n` when the padding is white space `int()` skips, such as the newline a line read from a file ends with |
| PyStr.ParseIntNeedsDigit | qc_ccdg_smartsheet.py:34 | a string with no decimal digit makes `int()` raise ValueError |
| PyStr.SeparatorNotSkipped | qc_ccdg_smartsheet.py:34 | a number followed by one of the separators `\x1c`..`\x1f` (white space to `str.isspace()`, not to `int()`) makes `int()` raise ValueError |
| QcReport.Put | qc_ccdg_smartsheet.py:33-44 | `report_results[key] = v` sets that entry to `v` and leaves the other four unchanged |
| QcReport.ToDict | qc_ccdg_smartsheet.py:28-29 | the dictionary has exactly the five keys, each bound to its entry of the record |
| QcReport.ToDictPut | qc_ccdg_smartsheet.py:33-44 | updating the record and then converting it is the same as updating the dictionary's key |
| QcReport.Fires | qc_ccdg_smartsheet.py:33-43 | the test of each `if`: its marker is in the line and, for the three failure causes, the flag is set; `MarkerLineEligible` and `NoFailedSamplesNoCauses` state its consequences |
| QcReport.ReadField | qc_ccdg_smartsheet.py:34 | `int(line.split(d)[1])` with `d` the metric's delimiter, or the exception Python raises |
| QcReport.IntField | qc_ccdg_smartsheet.py:34-44 | `ReadField` with its exception tagged by line and metric; `ProcessLineFailure` and `ErrorLocation` state the causes |
| QcReport.Step | qc_ccdg_smartsheet.py:33-44 | one dictionary-updating `if`; `Check` is its model on the dictionary and `ProcessLineEntries` states its effect |
| QcReport.ProcessLine | qc_ccdg_smartsheet.py:33-44 | the loop body; `ProcessLineOk`, `ProcessLineEntries` and `ProcessLineFailure` state when it succeeds, what it leaves and what it raises |
| QcReport.ScanFrom | qc_ccdg_smartsheet.py:32-48 | the loop from line `i` on, with the early return; `ScanFromPrefix` states it as the loop body over the scanned lines |
| QcReport.ReportInfo | qc_ccdg_smartsheet.py:25-48 | `get_report_info` on the record; `ReportInfoPrefix`, `ReportInfoSucceeds`, `LastMatchWins`, `OtherFailIsSum` and `ErrorLocation` state what it returns |
| QcReport.Check | qc_ccdg_smartsheet.py:33-44 | one `if` on the dictionary: it succeeds iff the record step does, and then leaves exactly the stepped record's dictionary; it raises the step's error otherwise |
| QcReport.CheckLine | qc_ccdg_smartsheet.py:33-44 | the loop body on the dictionary and the flag: same success, same dictionary, same new flag and same error as `ProcessLine` |
| QcReport.GetReportInfo | qc_ccdg_smartsheet.py:25-48 | the loop returns a dictionary iff `ReportInfo` succeeds; the dictionary is `ToDict` of its record; otherwise it returns the same error |
| QcReportProperties.ProcessLineOk | qc_ccdg_smartsheet.py:33-44 | a line succeeds iff every check that applies to it parses, the failure causes seeing the flag already updated by this line |
| QcReportProperties.ProcessLineEntries | qc_ccdg_smartsheet.py:33-44 | after a successful line the flag is the old flag or "Failed Samples" in the line, and each entry has been updated by its own check alone |
| QcReportProperties.ProcessLineFailure | qc_ccdg_smartsheet.py:33-44 | a failing line reports the first applicable check, in source order, whose field does not parse, and the exception it raises |
| QcReportProperties.MarkerLineEligible | qc_ccdg_smartsheet.py:37-40 | a line containing both "Failed Samples" and FREEMIX sets the flag and records its FREEMIX value, even when the flag was clear before it |
| QcReportProperties.BothRatesAddOnce | qc_ccdg_smartsheet.py:43-44 | a line carrying both INTERCHROMOSOMAL_RATE and DISCORDANT_RATE adds its value to `OtherFail` exactly once, whether the flag was set before it or is set by the line itself |
| QcReportProperties.TerminatorFrom | qc_ccdg_smartsheet.py:45-46 | the index found is a "Summary Statistics" line and no earlier line at or after the start is |
| QcReportProperties.Scanned | qc_ccdg_smartsheet.py:45-48 | the function scans no more lines than the report has |
| QcReportProperties.PrefixFailureStays | qc_ccdg_smartsheet.py:33-44 | a raised error is never undone by later lines |
| QcReportProperties.ScanFromPrefix | qc_ccdg_smartsheet.py:32-48 | from any line before the terminator, the scan ends with the loop body run over exactly the scanned lines |
| QcReportProperties.ReportInfoPrefix | qc_ccdg_smartsheet.py:32-48 | `get_report_info` is the loop body run over the lines up to and including the first "Summary Statistics" line, or over all lines when there is none |
| QcReportProperties.AppendAfterTerminator | qc_ccdg_smartsheet.py:45-46 | lines appended after the terminator never change the result, whether it is a value or an error |
| QcReportProperties.NoTerminatorScansAll | qc_ccdg_smartsheet.py:48 | with no "Summary Statistics" line every line is scanned, and the result is an error only when some line is malformed |
| QcReportProperties.SeenMarkerIff | qc_ccdg_smartsheet.py:31-38 | the flag after `n` lines holds exactly when one of them contains "Failed Samples" |
| QcReportProperties.SeenMarkerMonotone | qc_ccdg_smartsheet.py:37-38 | once a "Failed Samples" line is among the first `a` lines, it is among the first `b` for every `b >= a` |
| QcReportProperties.FlagOneWay | qc_ccdg_smartsheet.py:31-44 | the scan's flag is one-way: set after `a` lines, it is still set after any later `b` lines the scan gets through |
| QcReportProperties.LastFiring | qc_ccdg_smartsheet.py:33-46 | the line found is one that the metric's check applies to, and no later scanned line is |
| QcReportProperties.ExpectedStep | qc_ccdg_smartsheet.py:33-44 | the reference entries after one more line are that line's check applied to the previous ones |
| QcReportProperties.WellFormedStep | qc_ccdg_smartsheet.py:33-44 | `n` lines are well formed iff the first `n - 1` are and every check that applies to line `n - 1` parses |
| QcReportProperties.ScanPrefixSpec | qc_ccdg_smartsheet.py:31-44 | the loop body over `n` lines succeeds iff they are well formed; then the flag is "Failed Samples seen", overwritten entries hold their last value and `OtherFail` holds the sum |
| QcReportProperties.ScanPrefixError | qc_ccdg_smartsheet.py:33-44 | a failing prefix reports its first malformed line and, on it, the first raising check in source order with its exception |
| QcReportProperties.ReportInfoSucceeds | qc_ccdg_smartsheet.py:33-46 | `get_report_info` returns a value iff every check that applies to a scanned line parses, so a malformed field is never read as 0 |
| QcReportProperties.LastMatchWins | qc_ccdg_smartsheet.py:33-42 | `Pass`, `Fail`, `FreemixFail` and `CovFail` hold the value of the last scanned line their check applies to, or 0 when there is none |
| QcReportProperties.OtherFailIsSum | qc_ccdg_smartsheet.py:43-44 | `OtherFail` is the sum of the `:` fields of the scanned lines that carry either rate while the flag is set |
| QcReportProperties.NoFailedSamplesNoCauses | qc_ccdg_smartsheet.py:31-44 | without a scanned "Failed Samples" line, `FreemixFail`, `CovFail` and `OtherFail` are 0 whatever other lines appear |
| QcReportProperties.ErrorLocation | qc_ccdg_smartsheet.py:33-46 | a failing report names its first malformed scanned line, the first raising check on it, and `IndexError` or `ValueError` as Python raises them |
| QcReportProperties.ResultHasAllKeys | qc_ccdg_smartsheet.py:28-29 | the result always has exactly the five keys, including the full literal `OtherFail (discordant/interchromosomal)` |
| QcReportProperties.MissingDelimiterExample | qc_ccdg_smartsheet.py:33-34 | a "Samples That Meet QC Criteria" line without `=` is an `IndexError` of the `Pass` check on line 0 |

## Left out

- Reading the report file (`open`, and iterating over the file lines; qc_ccdg_smartsheet.py:30-32). The input is the sequence of lines as Python yields them, trailing newline included. Text decoding and newline translation are not modelled.
- Everything outside `get_report_info`, because it is process or network input and output:
  - command-line handling;
  - the environment-variable API key;
  - the Smartsheet client calls;
  - reading the manifest CSV and locating the report with `glob`;
  - date reformatting with `strptime`/`strftime`;
  - assembling rows and cells;
  - `sleep`, `os.chdir` and the MIME-type choice for attachments.
- PyStr.ParseInt: accepts only ASCII digits. Python's `int()` also accepts other Unicode decimal digits and, from Python 3.6 on, underscores between digits. Report fields are ASCII counts.
- PyStr.IsIntSpace: the ASCII white space `int()` skips is exactly `\t`, `\n`, `\v`, `\f`, `\r` and space; beyond ASCII the predicate lists the Basic Multilingual Plane characters `str.isspace()` accepts. Python's Unicode database is not modelled beyond them.
- QcReport.CheckLine: the five dictionary-updating `if`s go through one generic method, `Check`, parameterized by the metric and its test `Fires`. The source writes them out one by one. Their order, their tests and the flag update between them are as in the source.
