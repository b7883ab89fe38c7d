# Automated Log Cleaner — a Dafny model of the retention sweep and the report

The log cleaner walks a directory tree and removes every file that is older
than a maximum age (in days) or larger than a maximum size (in megabytes).
It collects the paths it removed. When that list is not empty it writes a
text report named `log_cleanup_report_<stamp>.txt`, which is then mailed to
an operator.

This project models the two pieces of logic in that pipeline and proves
their properties:

- `sweep.dfy`, module `Sweep`: the sweep `clean_logs`. The file system is an
  input: the sequence of directory listings the walk yields, in walk order.
  Each file carries the metadata `os.stat` reports for it and the outcome
  `os.remove` gives for it, either success or an exception with its message.
  The sweep is a method with two nested loops, one over the listings and one
  over the files of each listing. It is proved against the specification
  functions `DeletedFiles` and `RemovalCalls`.
- `timestamp.dfy`, module `Timestamp`: the two `strftime` layouts the report
  uses. These are `%Y-%m-%d_%H-%M-%S` in the file name and
  `%Y-%m-%d %H:%M:%S` on the date line. Both come with parsers and round-trip
  proofs.
- `report.dfy`, module `Report`: `generate_report` as a pure function. It
  yields nothing for an empty list. Otherwise it yields the report's file
  name and the text written to it. Parsers for the name and the text give
  the round trips.
- `wrappers.dfy`, module `Wrappers`: the `Option` type standing for Python's
  `None`.

Modelling decisions:

- Clock readings are parameters. `time.time()` becomes the `now` parameter
  of the sweep. The two `datetime.now()` readings of the report, one for the
  name and one for the date line, become two separate `DateTime` parameters,
  because the source reads the clock twice.
- Modification times and the current time are exact reals. Sizes are
  natural numbers of bytes. Thresholds are integers. The age and size
  divisions are exact, with no floating-point rounding.
- Paths are built by POSIX path joining (`Sweep.Join`) of each listing's
  directory with each file name.
- A missing root directory is not an error: `os.walk` yields nothing for it,
  so the sweep returns an empty list. In the model an empty sequence of
  listings gives an empty result.
- Removal failures are not told apart: one `except Exception`
  (log_cleaner.py:34-35) catches them all and only prints. The model has one
  failure outcome, `Raised(cause)`, and returns no messages.

## Model

| member | source | states |
|---|---|---|
| `Sweep.Join` | log_cleaner.py:22 | The full path ends with the file name. For a relative name the path is the directory, then the name. A single `/` is inserted between them exactly when the directory is non-empty and does not already end in `/`. An absolute name replaces the directory. |
| `Sweep.AgeDays` | log_cleaner.py:26 | The age in days, multiplied by 86400, is the time elapsed since the last modification. |
| `Sweep.SizeMb` | log_cleaner.py:27 | The size in MB is non-negative and, multiplied by 1048576, is the size in bytes. |
| `Sweep.Walk` | log_cleaner.py:20-22 | A record is visited iff it is some file of some listing, named by joining that listing's directory with the file's name. |
| `Sweep.Qualifies` | log_cleaner.py:26-29 | A file qualifies iff its age in days exceeds the age limit or its size in MB exceeds the size limit. Either alone suffices. It is equivalent to `now - mtime > maxAgeDays * 86400` or `size > maxSizeMb * 1048576`. |
| `Sweep.CleanLogs` | log_cleaner.py:15-37 | The nested loops over the walk return exactly `DeletedFiles` of the walked files as the deleted list. They return exactly `RemovalCalls` as the sequence of removal requests. |
| `Sweep.SweepComposes` | log_cleaner.py:20-35 | Sweeping `a + b` handles `a`, then handles every file of `b` as if on its own. So a failed removal in `a` never stops or changes the handling of later files. This holds for removal requests, deleted paths and surviving files. |
| `Sweep.WalkAppend` | log_cleaner.py:20-22 | The files visited for two runs of listings are those of the first run followed by those of the second. |
| `Sweep.Membership` | log_cleaner.py:29-35 | A path is in the deleted list iff some visited file with that path qualifies and its removal succeeded. A path is handed to removal iff some visited file with that path qualifies. |
| `Sweep.Disposition` | log_cleaner.py:29-35 | With unique paths, a file's removal is requested iff it qualifies. It is listed as deleted iff it qualifies and its removal succeeded. So a file under both limits is never touched, and a failed removal is never listed. |
| `Sweep.InTraversalOrder` | log_cleaner.py:20-32 | The deleted paths are a subsequence of the requested removals. The requested removals are a subsequence of the visited paths in walk order. The deleted paths are a subsequence of the visited paths. |
| `Sweep.NoDuplicates` | log_cleaner.py:20-32 | When visited paths are unique, neither the removal requests nor the deleted list contains a path twice. |
| `Sweep.Idempotent` | log_cleaner.py:29-35 | Every file is either deleted or survives. A file survives iff the sweep does not delete it, and the survivors keep their walk order (a subsequence of the files) and number `|files|` minus the deleted count. No survivor is one the sweep deletes, though a survivor whose removal failed still qualifies. Assuming each failed removal fails again, a second sweep at the same moment over the survivors retries exactly the failed removals and deletes nothing. |
| `Timestamp.Format` | log_cleaner.py:46 | The layout is nineteen characters long. The separators sit at positions 4, 7, 10, 13 and 16, and every other position is a digit. |
| `Timestamp.FileStamp` | log_cleaner.py:46 | The `%Y-%m-%d_%H-%M-%S` stamp of a date-time parses back to that date-time. |
| `Timestamp.DateStamp` | log_cleaner.py:52 | The `%Y-%m-%d %H:%M:%S` stamp of a date-time parses back to that date-time. |
| `Timestamp.Digits` | log_cleaner.py:46 | A zero-padded decimal field has exactly the requested width and consists of digits only. |
| `Timestamp.ValueOfDigits` | log_cleaner.py:46 | Reading a zero-padded decimal field gives back the number. |
| `Timestamp.DigitsOfValue` | log_cleaner.py:46 | Padding the value of a digit string to its own length gives back the string. |
| `Timestamp.ParseFormat` | log_cleaner.py:46-52 | Parsing a formatted timestamp gives back the date-time, for both layouts. |
| `Timestamp.FormatParse` | log_cleaner.py:46-52 | Whatever parses is a valid date-time that formats back to the same string. |
| `Report.GenerateReport` | log_cleaner.py:40-58 | There is no report iff the list is empty. Otherwise the name parses back to the name's clock reading. The text is the lines `Log Cleanup Report`, `Date: <stamp>`, a blank line, `Deleted Files:` and then each path, each line ending in a newline. For newline-free paths, the text parses back to the date and the exact list. |
| `Report.ReportName` | log_cleaner.py:47 | The name is `log_cleanup_report_`, then the nineteen-character file-name stamp, then `.txt`. |
| `Report.ReportBody` | log_cleaner.py:50-55 | The text, written as three header writes followed by one write per path, equals the four header lines followed by the path lines. |
| `Report.SplitLinesOfLines` | log_cleaner.py:54-55 | Splitting newline-terminated text into lines gives back the lines, provided none of them contains a newline. |
| `Report.ReportRoundTrip` | log_cleaner.py:50-55 | For newline-free paths, parsing the report text gives the date of the date line and exactly the deleted paths, in their order. |
| `Report.ReportNameRoundTrip` | log_cleaner.py:46-47 | The report name `log_cleanup_report_<stamp>.txt` parses back to the date-time it was made from. |
| `Report.ParsedNameIsReportName` | log_cleaner.py:46-47 | Any name that parses to a date-time is the report name of that date-time. |
| `Report.DistinctSecondsDistinctNames` | log_cleaner.py:46-47 | Two different second-precision clock readings give two different report names. |
| `Report.NewlineInPathIsAmbiguous` | log_cleaner.py:54-55 | One path `a\nb` gives the same report text as the two paths `a` and `b`. So the round trip needs newline-free paths. |

## Left out

- `send_email_report` (SMTP, STARTTLS, login, MIME construction): network I/O through a library.
- `main`: hard-coded configuration and glue between the three steps.
- Real directory traversal, `os.stat` and `os.remove`: they are replaced by the input listings and the removal outcome each file carries. The order of the walk across subdirectories is whatever the input says.
- `Sweep.CleanLogs`: the sweep is modelled as always running to the end. In the source it can abort, and `clean_logs` then returns nothing. `os.stat` sits outside the `try` (log_cleaner.py:23), so it raises out of the whole sweep for a file that vanished between listing and `stat`, and on every run for a dangling symbolic link. The `print` in the `except` branch (log_cleaner.py:35) can raise too, for example when a path that cannot be encoded for the console first fails the `print` at log_cleaner.py:33 and then fails again at :35.
- The subdirectory names that `os.walk` yields: the sweep never uses them.
- Console output: the `print` messages, with their `:.2f` float formatting.
- Floating-point rounding of the age and size divisions: the model divides exactly.
- Writing the report file (`open`, `write`, `close`) and any failure to write it: the model returns the text and the name.
- `Timestamp.Format`: the year is always four zero-padded digits. Some platform C libraries print years below 1000 without padding. Clock readings never reach such years.
- Clock reads: the current time and the two report timestamps are parameters.
