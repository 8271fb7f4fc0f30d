# Squid proxy log statistics, modelled in Dafny

The program reads one or more Squid access logs. These are whitespace-separated
text files without a header. For each file it computes the statistics selected
on the command line and writes them to one JSON report, keyed by file path:

- `--mfip`: the most frequent client address (column 2);
- `--lfip`: the least frequent client address (column 2);
- `--eps`: the average number of events per second. Each timestamp (column 0)
  is rounded to the whole second, the events of each second are counted, and
  the counts are averaged over the seconds that have any event;
- `--bytes`: the total number of bytes exchanged (column 4).

The program has two stages, and the model has one module for each.

- The input stage (`InputParser`, after `inputParser.py`):
  - The four metric flags, and the check that at least one of them is set.
  - The check of the input and output paths. It fails on the first of three
    categories that is not empty, and reports only that one: every missing
    input; otherwise every unreadable input; otherwise an output path that
    cannot be written.
  - Reading a whitespace-separated file as a table.
  - Loading every `.log` file. Other files, and `.log` files that fail to
    parse, are logged and skipped.
  - The class `InputParse` keeps the loaded files and the log in its fields.
- The analysis stage (`Parser`, after `Parser.py`):
  - Finding the `p_` processing methods, and checking them against the
    declared flags.
  - Running the selected statistics on every file.
  - Gathering each file's statistics under its path for the report.
  - The class `Analyser` holds the method mapping, the files, the flag values
    and the output path.

The statistics live in `Metrics`. `ValueCounts` models the frequency counting
they use. `Numbers` models numeric tokens and rounding to the nearest second.
The file system is a parameter: which paths exist, which are readable, which
output paths are writable, and each readable file's lines. The command line
is a parameter too: the input paths, the output path and the set flags.

Decisions the code leaves open:

- Among equally frequent addresses, the first one seen wins, for both the
  most and the least frequent address.
- Table shape follows the table reader the code uses (`header=None`, split on
  runs of whitespace):
  - Whitespace is every character Python counts as whitespace, the Unicode
    spaces (such as the no-break space U+00A0) included.
  - The first line that has fields fixes the number of columns.
  - A shorter line is padded with missing cells.
  - Only a line with more fields than the first line that has fields is a bad
    line: it is logged and gets no row.
  - Blank lines are skipped.
  - A field that spells one of the reader's default missing values ("NA",
    "N/A", "null", "None", "nan" and the rest) is a missing cell.
- Every statistic skips missing cells.
- A statistic applied to a table without its column fails with
  `MissingColumn`. The code fails there with an uncaught indexing error.
- The most or least frequent address of an empty column fails with
  `EmptyColumn`. The code fails there with an uncaught indexing error.
- The average of an empty timestamp column is `NotANumber`, as the code's
  mean of no values is NaN.
- A failing statistic ends the analysis with an error value. The code ends
  with an uncaught exception.

- A byte cell that is not an integer is an error (`NotNumeric`), not a
  dropped row: the code drops no row. In the code, the final conversion of
  the sum to an integer is what fails.

## Model

| member | source | states |
|---|---|---|
| InputParser.StrippedFlagArgs | inputParser.py:17-20 | Stripping the dashes off each of the four declared flags gives mfip, lfip, eps and bytes, in declaration order. |
| InputParser.FlagValues | inputParser.py:95 | One entry per declared flag, in declaration order. Each entry holds the stripped flag name and whether that name was given. |
| InputParser.CountSet | inputParser.py:97 | The number of set flags is at most the number of flags. It is zero exactly when no flag is set. |
| InputParser.NoFlagSetMeansNoMetric | inputParser.py:95-98 | The set-flag count is zero exactly when none of the four metric names was given. |
| InputParser.NotInCounts | inputParser.py:40-46 | A path report holds every refused path as often as it was given, and no other path. |
| InputParser.NotInConcat | inputParser.py:40-46 | A path report keeps the order of the given paths: two lists checked in turn report the first list's refused paths, then the second's. |
| InputParser.LocationCheck | inputParser.py:37-59 | Pass exactly when every input exists and is readable and the output is writable. A missing input takes precedence and reports exactly the missing inputs. Unreadable inputs are reported only when all inputs exist, and the report names exactly the unreadable ones. Each report is NotIn of the inputs, so it lists the refused inputs in input order, repeats kept. The output path is reported only when all inputs pass. |
| InputParser.InputParse.VerifyFileLocations | inputParser.py:37-59 | The loop gathers the missing and the unreadable inputs. The result equals LocationCheck. |
| InputParser.Tokens | inputParser.py:88 | The fields of a line are non-empty and contain no whitespace, Unicode whitespace included. A line has no field exactly when it is all whitespace. |
| InputParser.TokensAfterSpace | inputParser.py:88 | Any whitespace character, tabs and Unicode spaces included, before a line yields no field. |
| InputParser.TokensNoBreakSpace | inputParser.py:88 | The line "a", no-break space, "b" has the two fields "a" and "b". |
| InputParser.TokensOfJoin | inputParser.py:88 | Splitting fields joined by single spaces gives back the same fields. |
| InputParser.ParseSsv | inputParser.py:80-90 | The only way a line list fails to parse is NoColumns. |
| InputParser.ParseSsvShape | inputParser.py:84-88 | Parsing fails exactly when no line has a field. Otherwise: the first line with fields is the first row and fixes the width; every row has that width; every bad line has more fields than that. |
| InputParser.ParseSsvAccountsForLines | inputParser.py:84-88 | Rows plus bad lines equal the number of non-blank lines: no line is lost. |
| InputParser.ParsedRowsComeFromLines | inputParser.py:88 | Every row is the padded fields of some input line: no row is made up. |
| InputParser.DropBadLine | inputParser.py:84-88 | A line longer than the table is wide leaves the table unchanged. Its fields are added to the bad lines at its place. |
| InputParser.Loaded | inputParser.py:61-78 | At most one loaded file per given path. |
| InputParser.LoadedOnlyLogs | inputParser.py:66-70 | Every loaded file has a path that ends in ".log" and was given. |
| InputParser.LoadedKeepsParsedLog | inputParser.py:66-70 | A ".log" file that parses is loaded with its table, in its place. Its bad lines are logged as warnings. |
| InputParser.SkipsUnparsedLog | inputParser.py:67-72 | A ".log" file that fails to parse is logged and skipped. The files around it load as if it were absent. |
| InputParser.SkipsOtherFormats | inputParser.py:75-76 | A path without ".log" is logged as not recognised and never read. The other files load as if it were absent. |
| InputParser.LoadedIgnoresOtherFiles | inputParser.py:64-76 | Loading depends only on the contents of the given ".log" paths. |
| InputParser.LoadedConcat | inputParser.py:64-76 | Loading two path lists one after the other gives the concatenation of their files. |
| InputParser.LoadLogConcat | inputParser.py:64-76 | Loading two path lists one after the other gives the concatenation of their logs. |
| InputParser.LoadFile | inputParser.py:65-76 | Loading one path yields exactly what Loaded and LoadLog assign to it. A file is kept exactly when its path ends in ".log" and it parses. |
| InputParser.InputParse.LoadFiles | inputParser.py:61-78 | The loop appends exactly Loaded(paths) to the files and LoadLog(paths) to the log. |
| InputParser.ConfigCheck | inputParser.py:92-100 | Pass exactly when some metric flag is set and the path check passes. No flag set gives NoMetricSelected before any path is looked at. A location failure carries the path check's error. |
| InputParser.InputParse.Run | inputParser.py:92-103 | Fails exactly when ConfigCheck fails, with its error, and then nothing is loaded. On success the loaded files and log are appended, and the result is the files, the flag values and the output path. |
| ValueCounts.TallyFacts | Parser.py:62 | Every tallied value occurs at least once. Each value of the column has a tally entry, and only those. The counts add up to the column's length. |
| Metrics.MostFrequentIp | Parser.py:59-64 | Fails exactly when column 2 is missing (MissingColumn) or empty (EmptyColumn). Otherwise: the address is in the column; no address is more frequent; among equally frequent addresses it appears first. |
| Metrics.LeastFrequentIp | Parser.py:66-71 | Fails exactly when column 2 is missing or empty, with the matching error. Otherwise: the address is in the column; no address is rarer; among equally rare addresses it appears first. |
| Metrics.ParsedColumnHasNoMissingSpelling | inputParser.py:88 | No value of any column of a parsed table spells one of the reader's default missing values, so no statistic counts, sums or converts one. |
| Metrics.MissingSpellingNotCounted | Parser.py:59-64 | Two "NA" address cells and one "1.1.1.1": the most frequent address is "1.1.1.1", because "NA" cells are missing. |
| Metrics.MostFrequentIpUnique | Parser.py:59-64 | Any address with the highest count and no tied address before it is the result. |
| Metrics.LeastFrequentIpUnique | Parser.py:66-71 | Any address with the lowest count and no tied address before it is the result. |
| Metrics.FrequentIpFromRows | Parser.py:61-64 | The most or least frequent address is held by some row in column 2. |
| Numbers.ParseDecimalPoint | Parser.py:75 | The timestamp "w.f" reads as w·10^\|f\| + f over 10^\|f\|. |
| Numbers.RoundHalfEven | Parser.py:76 | The rounded second is within half a second of the timestamp. On an exact half it is even. A whole number is unchanged. |
| Numbers.RoundHalfEvenUnique | Parser.py:76 | Only one integer is nearest with ties to even, so the rounding is determined. |
| Metrics.EventsPerSecond | Parser.py:73-80 | Fails exactly when column 0 is missing (MissingColumn) or holds a non-number (NotNumeric). NotANumber exactly when the column is empty. Any mean is at least 1. |
| Metrics.EventsOverSeconds | Parser.py:75-80 | The mean is the number of events over the number of distinct rounded seconds. |
| Metrics.EventsPerSecondPermutation | Parser.py:73-80 | Reordering the rows does not change the result. |
| Metrics.EventsPerSecondExample | Parser.py:73-80 | Events at 1.2 s, 0.9 s and 3 s round to seconds 1, 1 and 3. The result is 1.5 events per second. |
| Metrics.TotalBytes | Parser.py:82-87 | Fails exactly when column 4 is missing (MissingColumn) or holds a non-integer (NotNumeric). A column of zeros totals 0. |
| Metrics.TotalBytesEmpty | Parser.py:84-87 | A table without rows exchanged 0 bytes. |
| Metrics.TotalBytesConcat | Parser.py:84-87 | The total over two blocks of rows is the sum of their totals. |
| Metrics.TotalBytesSingleRow | Parser.py:84-87 | A single row whose byte cell spells n totals exactly n. |
| Parser.MethodsOfParser | Parser.py:26-35 | Scanning the analyser's method names gives the mapping bytes, eps, lfip and mfip, each to its own metric. |
| Parser.MethodsOfParserByName | Parser.py:32-35 | The mapping's keys are the four flag names. Each metric is found under its own name. |
| Parser.Analyser.MapProcessingMethods | Parser.py:26-35 | The loop adds MethodsOf(the method names) to the mapping and nothing else. |
| Parser.FlagCheck | Parser.py:17-22 | No warning exactly when the declared flags, minus "--", are the mapping's keys. A warning lists exactly the declared flags that lack a method: each listed flag is declared and lacks a method, and each declared flag without a method is listed. |
| Parser.FlagNamesAgree | Parser.py:17 | Removing "--" from a declared flag gives the name the input stage strips it to. |
| Parser.FlagsAllImplemented | Parser.py:17-22 | With the analyser's own methods, no flag lacks its method, so there is no warning. |
| Parser.Analyser.constructor | Parser.py:10-24 | The mapping is built from the methods, and the flag check is recorded. Files, flags and output come from the input stage. |
| Parser.Start | Parser.py:10-24 | Fails exactly when the input stage's checks fail, with their error. On success: the loaded files, the flag values and the output are set, the full mapping is in place, and no flag is unimplemented. |
| Parser.FileStatsHoldEnabled | Parser.py:43-47 | A file's statistics hold exactly the set flags, in flag order. Each value is what that flag's metric computes on the file. |
| Parser.FileStatsSucceed | Parser.py:44-47 | A file's analysis succeeds exactly when every set flag has a method that succeeds on the file. |
| Parser.AllStatsPerFile | Parser.py:39-48 | One entry per loaded file, in order, each holding that file's path and statistics. |
| Parser.AllStatsSucceed | Parser.py:39-48 | The analysis succeeds exactly when every file's analysis succeeds. |
| Parser.StatsOfGivenFlags | Parser.py:44-47 | With the input stage's flags and the analyser's methods, a file's statistics are named exactly by the metrics given on the command line. |
| Parser.ToJson | Parser.py:52-54 | The report's keys are exactly the analysed paths. |
| Parser.ToJsonLastWins | Parser.py:54 | For a repeated path, the report holds the statistics of its last occurrence. |
| Parser.Analyser.AnalyseFile | Parser.py:43-47 | The inner loop over the flags gives exactly FileStats for the file: the set flags' values in flag order, or the first failure. |
| Parser.Analyser.Run | Parser.py:37-50 | The nested loops give exactly Analysis: each file's statistics gathered by path, or the first failure. |

## Left out

- Argument parsing (help texts, usage errors, a missing `-i` or `-o`). The command line arrives already parsed, as the input paths, the output path and the set of given flag names.
- Removing and truncating an existing output file while its writability is checked. Writability is one set of the file-system parameter. Operating-system errors other than a denied permission are not modelled. So when an input path is also the output path, the code deletes that file and re-creates it empty, and then skips it as a file without columns. The model still loads the file's original lines.
- Writing the JSON file. The report is returned as a map, so its key order and formatting are not modelled.
- Informational log lines ("Loading file", "Analysing", "Writing json"). Only bad-line warnings and file-level errors are kept in the log.
- The `__main__` block, which only wires the two stages together.
- Parser.MethodsOfParser: the `dir`/`getattr` reflection is replaced by the fixed list of the analyser's own method names and a closed set of four metrics. Inherited and dynamically added attributes are not modelled.
- Parser.Start: in the code, the method mapping and the flag check come before the input stage. The model runs the input stage first. Both are free of side effects apart from logging, so only the order of log lines differs.
- Parser.FileStats: a file's statistics are an ordered list of (flag, value) pairs rather than a dictionary. This matches because flag names are unique.
- Metrics.MostFrequentIp: the ranking utility's own order among equally frequent values is replaced by the first-seen rule.
- Metrics.LeastFrequentIp: the ranking utility's own order among equally rare values is replaced by the first-seen rule.
- Metrics.MostFrequentIp: column-type inference is not modelled. When every cell of the address column reads as a number, the code turns the column into numbers. It then counts spellings of one number ("1", "01", "1.0") as one value and returns a number, not text. The model counts each spelling on its own.
- Metrics.LeastFrequentIp: column-type inference is not modelled, as for MostFrequentIp. Spellings of one number ("1", "01", "1.0") in an all-numeric address column are one value in the code and separate values in the model.
- Metrics.EventsPerSecond: timestamps are exact decimals, not floating-point datetimes, so precision loss in large timestamps is not modelled. Exponent notation (`1e9`) is treated as a non-number.
- Metrics.EventsPerSecond: the nanosecond datetime range is not modelled. A timestamp beyond about 9.2·10⁹ seconds from the epoch, either way, makes the code's datetime conversion fail. The model still returns a rate.
- Metrics.TotalBytes: the sum is an unbounded integer, not a 64-bit integer that could overflow. Fractional and exponent tokens give NotNumeric, where the code sums them as floats and truncates the total. A text column is NotNumeric in the model. The code joins its cells into one text and converts that to an integer. This usually fails, but when the joined text spells an integer (cells "-" and "5" join to "-5"), the code returns that integer.
