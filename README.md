# AVG engine adapter of Malice, in Dafny

Malice scans a sample with several anti-virus engines. Each engine has an
adapter that wraps its command-line programs. This project models the AVG
adapter, `modules/av/avg.py`. The adapter wraps `/usr/bin/avgscan` and
`/usr/bin/avgupdate` and does four things:

- It checks that both programs are installed (`is_installed`).
- It reads the engine version from the first `--version` output line that
  mentions "version" (`version`).
- It asks the updater whether an update is due and runs it only then
  (`update_available`, `update_definitions`).
- It writes the sample to a temporary file and scans that file (`do_scan`).
  It reads the scan report from fixed line positions (`format_output`).

The project has four files:

- `wrappers.dfy` holds `Option` and `Result`. A Python exception that escapes
  the adapter is a `Failure`.
- `python_str.dfy` (module `PyStr`) models the Python 2 `str` operations the
  adapter applies to process output:
  - `sub in s`;
  - `split(sep)`, `split(sep, 1)` and `split()`;
  - `strip()`;
  - `splitlines()`;
  - `filter(None, …)`.

  Each `char` stands for one byte of a Python 2 byte string. Whitespace is
  what `str.isspace()` accepts: space, `\t`, `\n`, `\v`, `\f` and `\r`.
  `splitlines()` breaks at `\n`, `\r` and `\r\n`, as Python 2 does.
  `split()` is computed from the right end of the string. It yields the same
  maximal runs as CPython's left-to-right scan.
- `avg_output.dfy` (module `AvgOutput`) holds the parsers. Each one is a
  function of the captured stdout. `FormatOutput` cuts the report into its
  non-empty lines and hands them to `ReadReport`, which reads the fields.
  The early-return search loop that `version`, `update_available` and
  `update_definitions` share is the method `FindFirstMatch`, proved equal to
  the function `FirstMatch`.
- `avg_adapter.dfy` (module `AvgAdapter`) holds the adapter object `Avg` and
  the `Machine` it runs on.
  - The machine's `files` map paths to bytes. The `started` log records every
    program the adapter starts, in order.
  - Starting a program is an oracle, `Runner`. It gives the stdout a program
    prints, given the files present when it starts.
  - `Avg.IsInstalled` is `is_installed`: both program paths are files on the
    machine.

Three behaviours of the code are worth noting; the model follows the code:

- When no line mentions "version", `version` returns the string
  "Error: version failed to execute." as an ordinary value, not an error.
- `format_output` and `do_scan` raise an index error on a short or malformed
  report. They do not turn it into an error field of the result.
- The definitions date is parsed, then replaced by the fixed text "Problem".

## Model

| member | source | states |
|---|---|---|
| PyStr.Contains | modules/av/avg.py:53 | `sub in s`, a left-to-right search; `ContainsIffOccurs`, `ContainsChar` and `ContainsLength` carry its contract |
| PyStr.ContainsIffOccurs | modules/av/avg.py:53 | `sub in s` holds exactly when `sub` occurs as a slice of `s` at some position |
| PyStr.ContainsChar | modules/av/avg.py:89 | for a one-byte needle, `c in s` is plain membership of the byte |
| PyStr.ContainsLength | modules/av/avg.py:66 | a line can contain a phrase only when it is at least as long, so an empty line never matches a non-empty phrase |
| PyStr.IndexOf | modules/av/avg.py:91 | the first position of a byte from a set: no earlier byte is in the set, and the byte found is in the set; `|s|` when there is none |
| PyStr.Split | modules/av/avg.py:86 | `split(sep)` gives at least one piece; exactly one when `sep` is absent; no piece holds `sep` |
| PyStr.JoinSplit | modules/av/avg.py:86 | joining the pieces of `split(sep)` with `sep` gives back the string |
| PyStr.SplitJoin | modules/av/avg.py:86 | splitting the join of separator-free pieces gives back the pieces |
| PyStr.SplitSecondField | modules/av/avg.py:54 | `split(':')[1]` is the text between the first and the second ':' (or the end) |
| PyStr.SplitOnce | modules/av/avg.py:91-93 | `split(':', 1)` cuts once, at the first ':', exactly when there is one; the second piece is all the rest, later ':' kept |
| PyStr.SplitOnceAgreesWithSplit | modules/av/avg.py:91 | `split(sep, 1)` and `split(sep)` share their first piece; the second piece of the former splits into the rest of the latter |
| PyStr.Words | modules/av/avg.py:90 | `split()` with no argument; `WordsAreTokens`, `WordsEmptyIff` and `LastWord` carry its contract |
| PyStr.WordsAreTokens | modules/av/avg.py:90 | every piece of `split()` is non-empty and holds no whitespace |
| PyStr.WordsEmptyIff | modules/av/avg.py:90 | `split()` is empty exactly when the text is all whitespace |
| PyStr.LastWord | modules/av/avg.py:90 | `split()[-1]` is the last run of non-whitespace bytes: a suffix of `rstrip()` preceded by whitespace or by nothing |
| PyStr.RunStart | modules/av/avg.py:90 | the trailing run starts after a whitespace byte (or at 0) and holds no whitespace |
| PyStr.TrimEnd | modules/av/avg.py:89 | `rstrip()` is a prefix that ends in a non-whitespace byte, and only whitespace follows it |
| PyStr.TrimEndKeeps | modules/av/avg.py:89 | `rstrip()` keeps every non-whitespace byte |
| PyStr.Strip | modules/av/avg.py:89-94 | `strip()` is empty exactly when the text is all whitespace; otherwise it starts and ends with non-whitespace |
| PyStr.StripKeeps | modules/av/avg.py:89 | `strip()` keeps every non-whitespace byte and adds none |
| PyStr.LeadingSpace | modules/av/avg.py:54 | the leading run that `lstrip()` removes is all whitespace and is followed by a non-whitespace byte or the end |
| PyStr.StripAfterLeading | modules/av/avg.py:54 | `strip()` is `rstrip()` applied after the leading whitespace is removed |
| PyStr.StripSlice | modules/av/avg.py:54 | `strip()` is the slice of the text between its leading and its trailing whitespace, and only whitespace lies outside it |
| PyStr.StripNoSpace | modules/av/avg.py:90 | stripping a whitespace-free token leaves it unchanged |
| PyStr.SplitLines | modules/av/avg.py:51 | `splitlines()` is empty exactly for empty text, and no line holds `\n` or `\r` |
| PyStr.SplitLinesBySplit | modules/av/avg.py:51 | for every text, `splitlines()` is `split('\n')` of the text with each "\r\n" and lone "\r" written as "\n", less the empty piece a final line break leaves |
| PyStr.NonEmpty | modules/av/avg.py:87 | `filter(None, lines)` keeps exactly the non-empty lines, so it is never longer |
| PyStr.NonEmptyAppend | modules/av/avg.py:87 | filtering distributes over concatenation |
| PyStr.SplitLinesWithoutCarriageReturn | modules/av/avg.py:86 | without `\r`, the non-empty lines of `splitlines()` and of `split('\n')` coincide |
| AvgOutput.FirstMatch | modules/av/avg.py:52-54 | the index of the first line that holds the phrase; none exactly when no line holds it |
| AvgOutput.FindFirstMatch | modules/av/avg.py:52-55 | the early-return loop over the lines finds exactly `FirstMatch` |
| AvgOutput.FirstMatchNonEmpty | modules/av/avg.py:64-68 | dropping empty lines first does not change whether a non-empty phrase is found |
| AvgOutput.OutputLines | modules/av/avg.py:51 | `filter(None, r.std_out.splitlines())`: every line kept is non-empty and holds no `\n` or `\r` |
| AvgOutput.ParseVersion | modules/av/avg.py:51-55 | the `version` property on the captured stdout; only an index error can escape it; `VersionFailedIff` and `VersionFromFirstMatch` say which result comes when |
| AvgOutput.VersionFailedIff | modules/av/avg.py:51-55 | `version` returns the fixed error text exactly when no output line mentions "version" |
| AvgOutput.SecondFieldIsNotVersionFailed | modules/av/avg.py:54-55 | a version cut out at ':' can never equal the error text, which holds a ':' |
| AvgOutput.VersionFromFirstMatch | modules/av/avg.py:51-54 | the first "version" line decides: with no ':' it raises an index error; otherwise the result is the stripped text between its first and second ':' |
| AvgOutput.ParseUpdateAvailable | modules/av/avg.py:64-68 | `update_available` on the checker's stdout; `UpdateAvailableIff` carries its contract |
| AvgOutput.UpdateAvailableIff | modules/av/avg.py:64-68 | `update_available` is false exactly when some output line says "You are currently up-to-date" |
| AvgOutput.ParseUpdateOutcome | modules/av/avg.py:73-82 | `update_definitions` on the two outputs; the result is one of the three fixed texts; `UpdateOutcomeCases` says which one when |
| AvgOutput.UpdateOutcomeCases | modules/av/avg.py:73-82 | each of the three update outcomes holds exactly under its own condition on the checker's and the updater's output |
| AvgOutput.UpToDateIgnoresUpdater | modules/av/avg.py:73-82 | when no update is available, the outcome is up-to-date whatever the updater would print |
| AvgOutput.ReportLines | modules/av/avg.py:86-87 | `filter(None, output.split('\n'))`: every line kept is non-empty and holds no `\n` |
| AvgOutput.FormatOutput | modules/av/avg.py:84-96 | `format_output`: a report it returns is named 'AVG' and has the definitions "Problem"; it reads the non-empty lines of `output.split('\n')` with `ReadReport` |
| AvgOutput.ReadReport | modules/av/avg.py:88-96 | the fields of `format_output`, read in the source's order; `ReadReportOutcome` and `ReadReportFields` carry its contract |
| AvgOutput.ReadReportOutcome | modules/av/avg.py:88-94 | on the non-empty lines, a report is returned exactly when there are 12 lines, lines 2 and 3 hold ':', line 6 has a token and the date parses; an index error exactly when the shape is wrong; a date error exactly when only the date fails |
| AvgOutput.ReadReportFields | modules/av/avg.py:88-96 | a report is named 'AVG'; infected exactly when line 11 holds a '1'; the infection name is the last token of line 6; the engine is line 2 after its first ':', stripped; the definitions are "Problem" |
| AvgOutput.ReportEngine | modules/av/avg.py:91-92 | the engine is the stripped text after the first ':' of line 2 |
| AvgOutput.LastToken | modules/av/avg.py:90 | the last token of a line is non-empty, whitespace-free, unchanged by `strip()` and the line's last run |
| AvgOutput.InfectedFlag | modules/av/avg.py:89 | `'1' in line.strip()` holds exactly when the line holds a '1' |
| AvgAdapter.Named | modules/av/avg.py:127 | a scan result is paired with the name 'AVG'; an error raised while reading the report passes through unchanged |
| AvgAdapter.Avg.IsInstalled | modules/av/avg.py:36-37 | `is_installed`: both the scanner and the updater path are files on the machine; `DoScan` states what follows from it |
| AvgAdapter.Avg.constructor | modules/av/avg.py:31-33 | the adapter keeps the sample it was built with |
| AvgAdapter.Avg.Version | modules/av/avg.py:47-55 | `version` starts the scanner once and returns `ParseVersion` of its stdout |
| AvgAdapter.Avg.UpdateAvailable | modules/av/avg.py:58-68 | `update_available` starts the checker once and returns `ParseUpdateAvailable` of its stdout |
| AvgAdapter.Avg.UpdateDefinitions | modules/av/avg.py:71-82 | the checker runs once; the updater runs once exactly when an update is available; the result is `ParseUpdateOutcome` |
| AvgAdapter.Avg.DoScan | modules/av/avg.py:114-129 | not installed: nothing starts and the result is 'AVG' with the not-installed error alone; installed: one scan of the sample written to a fresh file, whose report is `format_output` of the scan's stdout; the adapter's own write of the temporary file is undone by its `unlink`, even when parsing raises, so the files end as they were |

## Left out

- `settings.py` is not part of this model. It only assigns configuration constants.
- The programs the adapter starts change no file in this model: the definitions `avgupdate` installs are not modelled, and a later scan sees the files as they were.
- AvgAdapter.Avg.DoScan: `m.files == old(m.files)` covers only the adapter's own write and `unlink` of the temporary file; `avgscan` is taken to write nothing.
- `Runner` makes a program's stdout depend only on the command and the files on the machine. The clock, the update server that `avgupdate -c` asks, and earlier runs play no part, so two runs of the same command on the same files print the same here; the real programs do not promise that. No lemma relies on it across calls.
- The `file_object` argument of `do_scan` (modules/av/avg.py:114) is never read by the source, which writes `self.data` instead. `Avg.DoScan` has no such parameter.
- Process execution by `envoy.run` is left out: the 15-second timeouts, `sudo`, the shell strings, exit status and stderr. A `Runner` oracle stands for the stdout each command prints.
- `tempfile.mkstemp` is left out: how it picks the name, its prefix and suffix, and the open file handle it returns. `Avg.DoScan` takes the name as a parameter that must not be an existing file, which is what `mkstemp` guarantees.
- I/O errors from writing or deleting the temporary file are not modelled.
- `isfile` is modelled as membership in a map of regular files. Directories and links are not modelled.
- `dateutil.parser.parse` is an oracle `dateParses`: whether it accepts a text. The parsed value is discarded by the source, so the model never builds it.
- AvgOutput.FormatOutput: `.decode('utf-8')` is the identity here. A report that is not valid UTF-8 would raise `UnicodeDecodeError` in the source; the model does not raise it, because bytes are not decoded.
- Exceptions other than index errors and date-parse errors are not modelled: memory errors, interrupts, and `OSError` from `unlink`.
- The `AntiVirus` base class, `L32_PLATFORM`, `authors` and `references` are left out. They come from code not shown here and carry no logic of this adapter.
- The `engine_path` and `update_path` properties are left out as members. Only their constants `EnginePath` and `UpdatePath` are kept.
- The commented-out marker-based parser (modules/av/avg.py:97-111) is dead code and is left out. So are the trailing commented lines.
- The `exists(name)` call after `unlink` has no effect and is left out.
