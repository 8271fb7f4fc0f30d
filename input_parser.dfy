/** The input side of the log analyser: the metric flags, the checks on the
    input and output paths, splitting a whitespace-separated log into a
    table, and loading every recognised log file.

    The file system is a parameter: which paths exist, which can be read,
    which output paths can be opened for writing, and the lines of every
    file that can be read. */
module InputParser {
  import opened Wrappers

  // ---------------------------------------------------------------------
  // Metric flags
  // ---------------------------------------------------------------------

  /** The metric flags with their help texts, in declaration order. */
  const FlagArgs: seq<(string, string)> := [
    ("--mfip", "Most frequent IP"),
    ("--lfip", "Least frequent IP"),
    ("--eps", "Events per Second"),
    ("--bytes", "Total amount of bytes exchanged")
  ]

  /** The flag names once their dashes are stripped, in declaration order. */
  const FlagNames: seq<string> := ["mfip", "lfip", "eps", "bytes"]

  function TrimLeadingDashes(s: string): (r: string)
    ensures |r| <= |s|
    ensures r == [] || r[0] != '-'
  {
    if |s| > 0 && s[0] == '-' then TrimLeadingDashes(s[1..]) else s
  }

  function TrimTrailingDashes(s: string): (r: string)
    ensures |r| <= |s| && r == s[..|r|]
    ensures r == [] || r[|r| - 1] != '-'
  {
    if |s| > 0 && s[|s| - 1] == '-' then TrimTrailingDashes(s[..|s| - 1]) else s
  }

  /** A name with every leading and trailing '-' removed. */
  function StripDashes(s: string): (r: string)
    ensures r == [] || (r[0] != '-' && r[|r| - 1] != '-')
  {
    var t := TrimLeadingDashes(s);
    TrimTrailingDashes(t)
  }

  /** Stripping the dashes off "--name" gives back a name that neither starts nor ends with one. */
  lemma StripDoubleDash(name: string)
    requires |name| > 0 && name[0] != '-' && name[|name| - 1] != '-'
    ensures StripDashes("--" + name) == name
  {
    var s := "--" + name;
    assert s[1..] == "-" + name && s[1..][1..] == name;
    assert TrimLeadingDashes(name) == name;
    assert TrimLeadingDashes(s[1..]) == TrimLeadingDashes(name);
    assert TrimLeadingDashes(s) == name;
    assert TrimTrailingDashes(name) == name;
  }

  /** Every declared flag is "--" followed by its metric name. */
  lemma FlagArgsShape()
    ensures |FlagArgs| == |FlagNames|
    ensures forall i | 0 <= i < |FlagArgs| :: FlagArgs[i].0 == "--" + FlagNames[i]
  {
    assert FlagArgs[0].0 == "--" + "mfip";
    assert FlagArgs[1].0 == "--" + "lfip";
    assert FlagArgs[2].0 == "--" + "eps";
    assert FlagArgs[3].0 == "--" + "bytes";
  }

  /** The declared flags strip to the four metric names. */
  lemma StrippedFlagArgs()
    ensures forall i | 0 <= i < |FlagArgs| :: StripDashes(FlagArgs[i].0) == FlagNames[i]
  {
    FlagArgsShape();
    forall i | 0 <= i < |FlagArgs|
      ensures StripDashes(FlagArgs[i].0) == FlagNames[i]
    {
      var name := FlagNames[i];
      assert |name| > 0 && name[0] != '-' && name[|name| - 1] != '-';
      StripDoubleDash(name);
    }
  }

  /** The value of every declared flag: the stripped name, paired with
      whether it was given on the command line, in declaration order. */
  function FlagValues(given: set<string>): (flags: seq<(string, bool)>)
    ensures |flags| == |FlagNames|
    ensures forall i | 0 <= i < |flags| :: flags[i] == (FlagNames[i], FlagNames[i] in given)
  {
    StrippedFlagArgs();
    seq(|FlagArgs|, i requires 0 <= i < |FlagArgs| =>
      var name := StripDashes(FlagArgs[i].0);
      (name, name in given))
  }

  /** How many flags are set. */
  function CountSet(flags: seq<(string, bool)>): (n: nat)
    ensures n <= |flags|
    ensures n == 0 <==> forall i | 0 <= i < |flags| :: !flags[i].1
  {
    if flags == [] then 0
    else CountSet(flags[1..]) + (if flags[0].1 then 1 else 0)
  }

  /** No metric is selected exactly when none of the four flag names was given. */
  lemma NoFlagSetMeansNoMetric(given: set<string>)
    ensures CountSet(FlagValues(given)) == 0 <==> forall i | 0 <= i < |FlagNames| :: FlagNames[i] !in given
  {
  }

  // ---------------------------------------------------------------------
  // Path checks
  // ---------------------------------------------------------------------

  /** What the file system answers about paths: which exist, which the process
      may read, which output paths it may open for writing, and the lines of
      every file that can actually be read. */
  datatype FileSystem = FileSystem(
    existing: set<string>,
    readable: set<string>,
    writable: set<string>,
    contents: map<string, seq<string>>)

  datatype LocationError =
    | FileNotFound(paths: seq<string>)
    | PermissionDenied(paths: seq<string>)
    | OutputNotWritable(path: string)

  /** The paths of `paths` that are not in `allowed`, in order, repetitions kept. */
  function NotIn(paths: seq<string>, allowed: set<string>): (r: seq<string>)
    ensures |r| <= |paths|
    ensures forall p :: p in r <==> p in paths && p !in allowed
    ensures r == [] <==> forall p | p in paths :: p in allowed
  {
    if paths == [] then []
    else
      var p := paths[..|paths| - 1];
      var last := paths[|paths| - 1];
      assert paths == p + [last];
      NotIn(p, allowed) + (if last in allowed then [] else [last])
  }

  /** The outcome of checking the input and output paths: every missing input
      is reported, and that report takes precedence over unreadable inputs;
      the output path is looked at only once every input passed. */
  function LocationCheck(inputs: seq<string>, output: string, fs: FileSystem): (r: Outcome<LocationError>)
    ensures r == Pass <==>
      (forall p | p in inputs :: p in fs.existing && p in fs.readable) && output in fs.writable
    ensures r.Fail? && r.error.FileNotFound? ==>
      r.error.paths != [] && forall p :: p in r.error.paths <==> p in inputs && p !in fs.existing
    ensures r.Fail? && r.error.PermissionDenied? ==>
      (forall p | p in inputs :: p in fs.existing) &&
      r.error.paths != [] && forall p :: p in r.error.paths <==> p in inputs && p !in fs.readable
    ensures r.Fail? && r.error.OutputNotWritable? ==>
      (forall p | p in inputs :: p in fs.existing && p in fs.readable) && r.error.path == output && output !in fs.writable
    ensures (exists p | p in inputs :: p !in fs.existing) ==> r.Fail? && r.error.FileNotFound?
    ensures r.Fail? && r.error.FileNotFound? ==> r.error.paths == NotIn(inputs, fs.existing)
    ensures r.Fail? && r.error.PermissionDenied? ==> r.error.paths == NotIn(inputs, fs.readable)
  {
    var notFound := NotIn(inputs, fs.existing);
    var notReadable := NotIn(inputs, fs.readable);
    if notFound != [] then Fail(FileNotFound(notFound))
    else if notReadable != [] then Fail(PermissionDenied(notReadable))
    else if output !in fs.writable then Fail(OutputNotWritable(output))
    else Pass
  }

  /** The report keeps every refused path as often as it is given, and no other. */
  lemma {:induction false} NotInCounts(paths: seq<string>, allowed: set<string>)
    ensures forall p :: multiset(NotIn(paths, allowed))[p] == if p in allowed then 0 else multiset(paths)[p]
  {
    if paths != [] {
      var init := paths[..|paths| - 1];
      assert paths == init + [paths[|paths| - 1]];
      NotInCounts(init, allowed);
    }
  }

  /** The report keeps the order of the paths: checking two lists one after the
      other reports the first list's refused paths, then the second's. */
  lemma {:induction false} NotInConcat(a: seq<string>, b: seq<string>, allowed: set<string>)
    ensures NotIn(a + b, allowed) == NotIn(a, allowed) + NotIn(b, allowed)
    decreases |b|
  {
    if b == [] {
      assert a + b == a;
    } else {
      var init, last := b[..|b| - 1], b[|b| - 1];
      var tail := if last in allowed then [] else [last];
      assert b == init + [last];
      assert a + b == (a + init) + [last];
      calc {
        NotIn(a + b, allowed);
        { NotInAppend(a + init, last, allowed); }
        NotIn(a + init, allowed) + tail;
        { NotInConcat(a, init, allowed); }
        (NotIn(a, allowed) + NotIn(init, allowed)) + tail;
        NotIn(a, allowed) + (NotIn(init, allowed) + tail);
        { NotInAppend(init, last, allowed); }
        NotIn(a, allowed) + NotIn(b, allowed);
      }
    }
  }

  lemma NotInAppend(paths: seq<string>, p: string, allowed: set<string>)
    ensures NotIn(paths + [p], allowed) == NotIn(paths, allowed) + (if p in allowed then [] else [p])
  {
    assert (paths + [p])[..|paths|] == paths;
  }

  /** Checking one more path adds it to the report exactly when it is not allowed. */
  lemma NotInSnoc(paths: seq<string>, i: nat, allowed: set<string>)
    requires i < |paths|
    ensures NotIn(paths[..i + 1], allowed)
         == NotIn(paths[..i], allowed) + (if paths[i] in allowed then [] else [paths[i]])
  {
    assert paths[..i + 1][..i] == paths[..i];
  }

  // ---------------------------------------------------------------------
  // Splitting a line into fields
  // ---------------------------------------------------------------------

  /** The characters a run of whitespace is made of: every character Python
      counts as whitespace, both when it strips a line and when `\s` matches.
      Besides the six ASCII ones these are the information separators
      U+001C-U+001F, the next-line U+0085, the no-break spaces and the other
      Unicode space, line- and paragraph-separator characters. */
  predicate IsSpace(c: char)
  {
    ('\U{0009}' <= c <= '\U{000D}') || ('\U{001C}' <= c <= '\U{0020}')
    || c == '\U{0085}' || c == '\U{00A0}' || c == '\U{1680}'
    || ('\U{2000}' <= c <= '\U{200A}') || c == '\U{2028}' || c == '\U{2029}'
    || c == '\U{202F}' || c == '\U{205F}' || c == '\U{3000}'
  }

  predicate IsWord(s: string)
  {
    |s| > 0 && forall i | 0 <= i < |s| :: !IsSpace(s[i])
  }

  /** Length of the run of non-whitespace characters that starts `s`. */
  function WordLength(s: string): (n: nat)
    requires |s| > 0 && !IsSpace(s[0])
    ensures 0 < n <= |s|
    ensures forall i | 0 <= i < n :: !IsSpace(s[i])
    ensures n < |s| ==> IsSpace(s[n])
  {
    if |s| == 1 || IsSpace(s[1]) then 1 else 1 + WordLength(s[1..])
  }

  /** The fields of a line: its maximal runs of non-whitespace characters, in
      order; leading and trailing whitespace yields no field. */
  function Tokens(s: string): (ts: seq<string>)
    ensures forall i | 0 <= i < |ts| :: IsWord(ts[i])
    ensures ts == [] <==> forall i | 0 <= i < |s| :: IsSpace(s[i])
    decreases |s|
  {
    if s == [] then []
    else if IsSpace(s[0]) then
      var ts := Tokens(s[1..]);
      assert ts == [] <==> forall i | 0 <= i < |s| :: IsSpace(s[i]) by {
        assert forall i | 1 <= i < |s| :: s[i] == s[1..][i - 1];
      }
      ts
    else
      var n := WordLength(s);
      [s[..n]] + Tokens(s[n..])
  }

  /** Fields written out with one space between them. */
  function Join(ts: seq<string>): string
  {
    if ts == [] then "" else if |ts| == 1 then ts[0] else ts[0] + " " + Join(ts[1..])
  }

  lemma {:induction false} WordLengthOfWord(w: string, rest: string)
    requires IsWord(w) && (rest == [] || IsSpace(rest[0]))
    ensures WordLength(w + rest) == |w|
  {
    if |w| > 1 {
      assert (w + rest)[1..] == w[1..] + rest;
      WordLengthOfWord(w[1..], rest);
    }
  }

  /** Splitting fields that were joined with single spaces gives the fields back. */
  lemma {:induction false} TokensOfJoin(ts: seq<string>)
    requires forall i | 0 <= i < |ts| :: IsWord(ts[i])
    ensures Tokens(Join(ts)) == ts
  {
    if |ts| == 1 {
      TokensAfterWord(ts[0], "");
      assert ts[0] + "" == ts[0];
    } else if |ts| > 1 {
      var w, tail := ts[0], Join(ts[1..]);
      assert Tokens(Join(ts)) == [w] + Tokens(tail) by {
        assert Join(ts) == w + (" " + tail);
        TokensAfterWord(w, " " + tail);
        TokensAfterSpace(' ', tail);
      }
      TokensOfJoin(ts[1..]);
      assert ts == [w] + ts[1..];
    }
  }

  /** A word followed by whitespace, or by nothing, is the first field. */
  lemma TokensAfterWord(w: string, rest: string)
    requires IsWord(w) && (rest == [] || IsSpace(rest[0]))
    ensures Tokens(w + rest) == [w] + Tokens(rest)
  {
    WordLengthOfWord(w, rest);
    var s := w + rest;
    assert s[0] == w[0];
    assert s[..|w|] == w && s[|w|..] == rest;
  }

  /** Leading whitespace, of any kind, yields no field. */
  lemma TokensAfterSpace(c: char, x: string)
    requires IsSpace(c)
    ensures Tokens([c] + x) == Tokens(x)
  {
    assert ([c] + x)[0] == c && ([c] + x)[1..] == x;
  }

  /** A no-break space separates fields like a plain space does. */
  lemma TokensNoBreakSpace()
    ensures Tokens("a\U{00A0}b") == ["a", "b"]
  {
    var rest := ['\U{00A0}'] + "b";
    assert "a\U{00A0}b" == "a" + rest;
    TokensAfterWord("a", rest);
    TokensAfterSpace('\U{00A0}', "b");
    TokensAfterWord("b", "");
    assert "b" + "" == "b";
    assert Tokens("b") == ["b"];
  }

  // ---------------------------------------------------------------------
  // Tables
  // ---------------------------------------------------------------------

  /** One cell of a table: a field's text, or nothing where a line was shorter
      than the table is wide. */
  datatype Cell = Present(text: string) | Absent

  type Row = seq<Cell>

  /** A table with no header: `width` columns, numbered from 0. */
  datatype Table = Table(width: nat, rows: seq<Row>)

  /** The spellings the table reader takes for a missing value by default
      (pandas 2). "#N/A N/A" and "" can never be a field, but belong to the set. */
  const MissingSpellings: set<string> :=
    {"-1.#IND", "1.#QNAN", "1.#IND", "-1.#QNAN", "#N/A N/A", "#N/A", "N/A", "n/a", "NA", "<NA>",
     "#NA", "NULL", "null", "NaN", "-NaN", "nan", "-nan", "None", ""}

  /** The cell a field becomes: missing when it spells a missing value, its text otherwise. */
  function CellOf(field: string): (c: Cell)
    ensures c == Absent <==> field in MissingSpellings
    ensures c.Present? ==> c.text == field
  {
    if field in MissingSpellings then Absent else Present(field)
  }

  /** A line's fields as a row of `width` cells, missing cells at the end. */
  function Pad(fields: seq<string>, width: nat): (row: Row)
    requires |fields| <= width
    ensures |row| == width
    ensures forall i | 0 <= i < |fields| :: row[i] == CellOf(fields[i])
    ensures forall i | |fields| <= i < width :: row[i] == Absent
  {
    seq(width, i requires 0 <= i < width => if i < |fields| then CellOf(fields[i]) else Absent)
  }

  /** What a single line yields once the table's width is known. */
  datatype LineReading = Blank | Fits(row: Row) | TooLong(fields: seq<string>)

  function ReadLine(line: string, width: nat): LineReading
  {
    var fields := Tokens(line);
    if fields == [] then Blank
    else if |fields| <= width then Fits(Pad(fields, width))
    else TooLong(fields)
  }

  /** The row a line contributes: one if it fits, none otherwise. */
  function RowOf(line: string, width: nat): (rows: seq<Row>)
    ensures |rows| <= 1
  {
    match ReadLine(line, width)
    case Fits(row) => [row]
    case _ => []
  }

  /** The bad line a line contributes: its fields if there are too many, nothing otherwise. */
  function BadLineOf(line: string, width: nat): (bad: seq<seq<string>>)
    ensures |bad| <= 1
  {
    match ReadLine(line, width)
    case TooLong(fields) => [fields]
    case _ => []
  }

  /** The rows of the lines that fit the width, in order. */
  function Rows(lines: seq<string>, width: nat): (rows: seq<Row>)
    ensures forall i | 0 <= i < |rows| :: |rows[i]| == width
  {
    if lines == [] then [] else RowOf(lines[0], width) + Rows(lines[1..], width)
  }

  /** The fields of the lines that are too long, in order. */
  function BadLines(lines: seq<string>, width: nat): (bad: seq<seq<string>>)
    ensures forall i | 0 <= i < |bad| :: |bad[i]| > width
  {
    if lines == [] then [] else BadLineOf(lines[0], width) + BadLines(lines[1..], width)
  }

  function NonBlankCount(lines: seq<string>): nat
  {
    if lines == [] then 0 else (if Tokens(lines[0]) == [] then 0 else 1) + NonBlankCount(lines[1..])
  }

  /** Position of the first line with a field, or |lines| if there is none. */
  function FirstNonBlank(lines: seq<string>): (k: nat)
    ensures k <= |lines|
    ensures k < |lines| ==> Tokens(lines[k]) != []
    ensures forall j | 0 <= j < k :: Tokens(lines[j]) == []
  {
    if lines == [] then 0
    else if Tokens(lines[0]) != [] then 0
    else 1 + FirstNonBlank(lines[1..])
  }

  datatype Parsed = Parsed(table: Table, badLines: seq<seq<string>>)

  datatype ParseError = NoColumns | Unreadable

  /** Reads the lines of a whitespace-separated file as a table. There is no
      header: the first line with a field is data, and its field count fixes
      the width. Blank lines are skipped; a line with fewer fields is padded
      with missing cells; a line with more fields is a bad line, kept aside as
      a warning and given no row. A file without any field has no columns.
      ParseSsvShape states what the result is. */
  function ParseSsv(lines: seq<string>): (r: Result<Parsed, ParseError>)
    ensures r.Failure? ==> r.error == NoColumns
  {
    var k := FirstNonBlank(lines);
    if k == |lines| then Failure(NoColumns)
    else
      var width := |Tokens(lines[k])|;
      var rest := lines[k..];
      Success(Parsed(Table(width, Rows(rest, width)), BadLines(rest, width)))
  }

  /** Parsing fails exactly when no line has a field; otherwise the first line
      with fields is the first row and fixes the width, every row has that
      width, and every bad line is longer. */
  lemma ParseSsvShape(lines: seq<string>)
    ensures ParseSsv(lines).Failure? <==> forall i | 0 <= i < |lines| :: Tokens(lines[i]) == []
    ensures ParseSsv(lines).Success? ==>
      var k := FirstNonBlank(lines);
      var t := ParseSsv(lines).value.table;
      && k < |lines|
      && t.width == |Tokens(lines[k])|
      && |t.rows| >= 1
      && t.rows[0] == Pad(Tokens(lines[k]), t.width)
      && (forall i | 0 <= i < |t.rows| :: |t.rows[i]| == t.width)
      && (forall i | 0 <= i < |ParseSsv(lines).value.badLines| :: |ParseSsv(lines).value.badLines[i]| > t.width)
  {
    var k := FirstNonBlank(lines);
    if k < |lines| {
      var width := |Tokens(lines[k])|;
      var rest := lines[k..];
      assert rest[0] == lines[k];
      assert ReadLine(rest[0], width) == Fits(Pad(Tokens(lines[k]), width));
      assert Rows(rest, width) == RowOf(rest[0], width) + Rows(rest[1..], width);
    }
  }

  /** The rows of two blocks of lines are the rows of the first, then those of the second. */
  lemma {:induction false} RowsConcat(a: seq<string>, b: seq<string>, width: nat)
    ensures Rows(a + b, width) == Rows(a, width) + Rows(b, width)
  {
    if a == [] {
      assert a + b == b;
    } else {
      assert (a + b)[0] == a[0];
      assert (a + b)[1..] == a[1..] + b;
      RowsConcat(a[1..], b, width);
      assert Rows(a + b, width) == RowOf(a[0], width) + Rows(a[1..] + b, width);
    }
  }

  /** Likewise for the bad lines. */
  lemma {:induction false} BadLinesConcat(a: seq<string>, b: seq<string>, width: nat)
    ensures BadLines(a + b, width) == BadLines(a, width) + BadLines(b, width)
  {
    if a == [] {
      assert a + b == b;
    } else {
      assert (a + b)[0] == a[0];
      assert (a + b)[1..] == a[1..] + b;
      BadLinesConcat(a[1..], b, width);
      assert BadLines(a + b, width) == BadLineOf(a[0], width) + BadLines(a[1..] + b, width);
    }
  }

  /** Every non-blank line becomes either a row or a bad line, never both. */
  lemma {:induction false} EveryLineAccountedFor(lines: seq<string>, width: nat)
    ensures |Rows(lines, width)| + |BadLines(lines, width)| == NonBlankCount(lines)
  {
    if lines != [] {
      EveryLineAccountedFor(lines[1..], width);
    }
  }

  lemma {:induction false} BlankPrefix(lines: seq<string>, k: nat)
    requires k <= |lines|
    requires forall j | 0 <= j < k :: Tokens(lines[j]) == []
    ensures NonBlankCount(lines) == NonBlankCount(lines[k..])
  {
    if k > 0 {
      assert lines[1..][k - 1..] == lines[k..];
      BlankPrefix(lines[1..], k - 1);
    }
  }

  /** A parsed file loses no non-blank line: each one is a row or a reported bad line. */
  lemma ParseSsvAccountsForLines(lines: seq<string>)
    requires ParseSsv(lines).Success?
    ensures |ParseSsv(lines).value.table.rows| + |ParseSsv(lines).value.badLines| == NonBlankCount(lines)
  {
    var k := FirstNonBlank(lines);
    BlankPrefix(lines, k);
    EveryLineAccountedFor(lines[k..], |Tokens(lines[k])|);
  }

  /** Rows are never made up: each is the padded fields of some input line. */
  lemma {:induction false} RowsComeFromLines(lines: seq<string>, width: nat)
    ensures forall i | 0 <= i < |Rows(lines, width)| ::
      exists j | 0 <= j < |lines| :: ReadLine(lines[j], width) == Fits(Rows(lines, width)[i])
  {
    if lines == [] {
      assert Rows(lines, width) == [];
    } else {
      var tail := Rows(lines[1..], width);
      RowsComeFromLines(lines[1..], width);
      var head := RowOf(lines[0], width);
      var rows := Rows(lines, width);
      assert rows == head + tail;
      forall i | 0 <= i < |rows|
        ensures exists j | 0 <= j < |lines| :: ReadLine(lines[j], width) == Fits(rows[i])
      {
        if i < |head| {
          assert ReadLine(lines[0], width).Fits? && head == [ReadLine(lines[0], width).row];
          assert ReadLine(lines[0], width) == Fits(rows[i]);
        } else {
          assert rows[i] == tail[i - |head|];
          var j :| 0 <= j < |lines[1..]| && ReadLine(lines[1..][j], width) == Fits(tail[i - |head|]);
          assert lines[1..][j] == lines[j + 1];
          assert ReadLine(lines[j + 1], width) == Fits(rows[i]);
        }
      }
    }
  }

  lemma ParsedRowsComeFromLines(lines: seq<string>)
    requires ParseSsv(lines).Success?
    ensures var t := ParseSsv(lines).value.table;
      forall i | 0 <= i < |t.rows| :: exists j | 0 <= j < |lines| :: ReadLine(lines[j], t.width) == Fits(t.rows[i])
  {
    var k := FirstNonBlank(lines);
    var width := |Tokens(lines[k])|;
    RowsComeFromLines(lines[k..], width);
    forall i | 0 <= i < |Rows(lines[k..], width)|
      ensures exists j | 0 <= j < |lines| :: ReadLine(lines[j], width) == Fits(Rows(lines[k..], width)[i])
    {
      var j :| 0 <= j < |lines[k..]| && ReadLine(lines[k..][j], width) == Fits(Rows(lines[k..], width)[i]);
      assert lines[k..][j] == lines[k + j];
    }
  }

  lemma {:induction false} FirstNonBlankPrefix(a: seq<string>, c: seq<string>)
    requires FirstNonBlank(a) < |a|
    ensures FirstNonBlank(a + c) == FirstNonBlank(a)
  {
    assert (a + c)[0] == a[0];
    if Tokens(a[0]) == [] {
      assert (a + c)[1..] == a[1..] + c;
      FirstNonBlankPrefix(a[1..], c);
    }
  }

  /** A bad line after the first line with fields changes nothing in the
      table: it is dropped, and only its fields join the reported bad lines. */
  lemma DropBadLine(a: seq<string>, bad: string, b: seq<string>)
    requires ParseSsv(a).Success?
    requires |Tokens(bad)| > ParseSsv(a).value.table.width
    ensures ParseSsv(a + [bad] + b).Success? && ParseSsv(a + b).Success?
    ensures ParseSsv(a + [bad] + b).value.table == ParseSsv(a + b).value.table
    ensures ParseSsv(a + [bad] + b).value.badLines
         == ParseSsv(a).value.badLines + [Tokens(bad)] + BadLines(b, ParseSsv(a).value.table.width)
  {
    var k := FirstNonBlank(a);
    var width := |Tokens(a[k])|;
    assert a + [bad] + b == a + ([bad] + b);
    SameStart(a, [bad] + b);
    SameStart(a, b);
    ParseAt(a + ([bad] + b));
    ParseAt(a + b);
    ParseAt(a);
    SkipLongLine(a[k..], bad, b, width);
  }

  /** Unfolds a successful parse: the table starts at the first line with fields. */
  lemma ParseAt(lines: seq<string>)
    requires FirstNonBlank(lines) < |lines|
    ensures var k := FirstNonBlank(lines); var width := |Tokens(lines[k])|;
      ParseSsv(lines) == Success(Parsed(Table(width, Rows(lines[k..], width)), BadLines(lines[k..], width)))
  {
  }

  /** A line with more fields than the width yields no row and one bad line. */
  lemma SkipLongLine(prefix: seq<string>, bad: string, b: seq<string>, width: nat)
    requires |Tokens(bad)| > width
    ensures Rows(prefix + ([bad] + b), width) == Rows(prefix + b, width)
    ensures BadLines(prefix + ([bad] + b), width) == BadLines(prefix, width) + [Tokens(bad)] + BadLines(b, width)
  {
    LongLineAlone(bad, width);
    SkipRowless(prefix, bad, b, width);
    BadLinesBetween(prefix, bad, b, width);
  }

  /** A line that yields no row leaves the rows of the lines around it as they are. */
  lemma SkipRowless(prefix: seq<string>, line: string, b: seq<string>, width: nat)
    requires RowOf(line, width) == []
    ensures Rows(prefix + ([line] + b), width) == Rows(prefix + b, width)
  {
    RowsBetween(prefix, line, b, width);
    RowsConcat(prefix, b, width);
    assert [] + Rows(b, width) == Rows(b, width);
  }

  /** The rows of the lines before one line, of that line, and of the lines after it, in order. */
  lemma RowsBetween(prefix: seq<string>, line: string, b: seq<string>, width: nat)
    ensures Rows(prefix + ([line] + b), width) == Rows(prefix, width) + (RowOf(line, width) + Rows(b, width))
  {
    RowsConcat(prefix, [line] + b, width);
    assert ([line] + b)[0] == line && ([line] + b)[1..] == b;
  }

  /** Likewise for the bad lines. */
  lemma BadLinesBetween(prefix: seq<string>, line: string, b: seq<string>, width: nat)
    ensures BadLines(prefix + ([line] + b), width) == BadLines(prefix, width) + (BadLineOf(line, width) + BadLines(b, width))
  {
    BadLinesConcat(prefix, [line] + b, width);
    assert ([line] + b)[0] == line && ([line] + b)[1..] == b;
  }

  lemma LongLineAlone(bad: string, width: nat)
    requires |Tokens(bad)| > width
    ensures RowOf(bad, width) == [] && BadLineOf(bad, width) == [Tokens(bad)]
  {
    assert ReadLine(bad, width) == TooLong(Tokens(bad));
  }

  /** Lines added after a parsed prefix do not move the first line with fields. */
  lemma SameStart(a: seq<string>, c: seq<string>)
    requires ParseSsv(a).Success?
    ensures FirstNonBlank(a + c) == FirstNonBlank(a) < |a|
    ensures (a + c)[FirstNonBlank(a)] == a[FirstNonBlank(a)]
    ensures (a + c)[FirstNonBlank(a)..] == a[FirstNonBlank(a)..] + c
  {
    FirstNonBlankPrefix(a, c);
  }

  // ---------------------------------------------------------------------
  // Loading files
  // ---------------------------------------------------------------------

  /** The file-name ending that marks a whitespace-separated log. */
  const LogSuffix := ".log"

  predicate EndsWith(s: string, suffix: string)
  {
    |suffix| <= |s| && s[|s| - |suffix|..] == suffix
  }

  /** A path with the table read from it. */
  datatype LogFile = LogFile(path: string, table: Table)

  /** What loading writes to the log: a bad line's fields, a log file that
      could not be read as a table, and a path that is not a log file. */
  datatype LogEntry =
    | BadLine(path: string, fields: seq<string>)
    | NotSsv(path: string)
    | FormatNotRecognised(path: string)

  /** Reads and parses one file; a file that cannot be read fails like a
      malformed one. */
  function ReadSsv(path: string, contents: map<string, seq<string>>): Result<Parsed, ParseError>
  {
    if path in contents then ParseSsv(contents[path]) else Failure(Unreadable)
  }

  function BadLineEntries(path: string, bad: seq<seq<string>>): (log: seq<LogEntry>)
    ensures |log| == |bad|
    ensures forall i | 0 <= i < |log| :: log[i] == BadLine(path, bad[i])
  {
    seq(|bad|, i requires 0 <= i < |bad| => BadLine(path, bad[i]))
  }

  /** The file loading one path yields: the path with its table if it is a
      ".log" file that parses, nothing otherwise. */
  function LoadedFrom(path: string, contents: map<string, seq<string>>): (files: seq<LogFile>)
    ensures |files| <= 1
  {
    if EndsWith(path, LogSuffix) && ReadSsv(path, contents).Success?
    then [LogFile(path, ReadSsv(path, contents).value.table)] else []
  }

  /** The log written while loading one path. */
  function LogFrom(path: string, contents: map<string, seq<string>>): seq<LogEntry>
  {
    if !EndsWith(path, LogSuffix) then [FormatNotRecognised(path)]
    else match ReadSsv(path, contents)
      case Success(parsed) => BadLineEntries(path, parsed.badLines)
      case Failure(_) => [NotSsv(path)]
  }

  /** The files loaded from `paths`: the ".log" files that parse, in order. */
  function Loaded(paths: seq<string>, contents: map<string, seq<string>>): (files: seq<LogFile>)
    ensures |files| <= |paths|
  {
    if paths == [] then [] else LoadedFrom(paths[0], contents) + Loaded(paths[1..], contents)
  }

  /** The log written while loading `paths`, in order. */
  function LoadLog(paths: seq<string>, contents: map<string, seq<string>>): seq<LogEntry>
  {
    if paths == [] then [] else LogFrom(paths[0], contents) + LoadLog(paths[1..], contents)
  }

  /** Loading keeps only ".log" paths, each one of the given paths. */
  lemma {:induction false} LoadedOnlyLogs(paths: seq<string>, contents: map<string, seq<string>>)
    ensures forall i | 0 <= i < |Loaded(paths, contents)| ::
      EndsWith(Loaded(paths, contents)[i].path, LogSuffix) && Loaded(paths, contents)[i].path in paths
  {
    if paths != [] {
      LoadedOnlyLogs(paths[1..], contents);
      var head, tail := LoadedFrom(paths[0], contents), Loaded(paths[1..], contents);
      var all: seq<LogFile> := head + tail;
      assert Loaded(paths, contents) == all;
      forall i | 0 <= i < |all|
        ensures EndsWith(all[i].path, LogSuffix) && all[i].path in paths
      {
        if i >= |head| {
          assert all[i] == tail[i - |head|];
          assert tail[i - |head|].path in paths[1..];
        }
      }
    }
  }

  lemma LoadedAround(a: seq<string>, path: string, b: seq<string>, contents: map<string, seq<string>>)
    ensures Loaded(a + [path] + b, contents) == Loaded(a, contents) + LoadedFrom(path, contents) + Loaded(b, contents)
  {
    LoadedConcat(a + [path], b, contents);
    LoadedConcat(a, [path], contents);
    LoadedOne(path, contents);
  }

  lemma LoadedOne(path: string, contents: map<string, seq<string>>)
    ensures Loaded([path], contents) == LoadedFrom(path, contents)
    ensures LoadLog([path], contents) == LogFrom(path, contents)
  {
    assert [path][1..] == [];
    assert LoadedFrom(path, contents) + [] == LoadedFrom(path, contents);
    assert LogFrom(path, contents) + [] == LogFrom(path, contents);
  }

  lemma LoadLogAround(a: seq<string>, path: string, b: seq<string>, contents: map<string, seq<string>>)
    ensures LoadLog(a + [path] + b, contents) == LoadLog(a, contents) + LogFrom(path, contents) + LoadLog(b, contents)
  {
    LoadLogConcat(a + [path], b, contents);
    LoadLogConcat(a, [path], contents);
    LoadedOne(path, contents);
  }

  /** A ".log" file that parses is loaded with its table, wherever it stands in the list. */
  lemma LoadedKeepsParsedLog(a: seq<string>, path: string, b: seq<string>, contents: map<string, seq<string>>)
    requires EndsWith(path, LogSuffix) && ReadSsv(path, contents).Success?
    ensures Loaded(a + [path] + b, contents)
         == Loaded(a, contents) + [LogFile(path, ReadSsv(path, contents).value.table)] + Loaded(b, contents)
    ensures LoadLog(a + [path] + b, contents)
         == LoadLog(a, contents) + BadLineEntries(path, ReadSsv(path, contents).value.badLines) + LoadLog(b, contents)
  {
    LoadedAround(a, path, b, contents);
    LoadLogAround(a, path, b, contents);
  }

  /** A ".log" file that fails to parse is skipped and logged; the paths after
      it are loaded exactly as if it were not there. */
  lemma SkipsUnparsedLog(a: seq<string>, path: string, b: seq<string>, contents: map<string, seq<string>>)
    requires EndsWith(path, LogSuffix) && ReadSsv(path, contents).Failure?
    ensures Loaded(a + [path] + b, contents) == Loaded(a + b, contents)
    ensures LoadLog(a + [path] + b, contents) == LoadLog(a, contents) + [NotSsv(path)] + LoadLog(b, contents)
  {
    assert Loaded(a + [path] + b, contents) == Loaded(a + b, contents) by {
      assert LoadedFrom(path, contents) == [];
      LoadedAround(a, path, b, contents);
      LoadedConcat(a, b, contents);
    }
    assert LogFrom(path, contents) == [NotSsv(path)];
    LoadLogAround(a, path, b, contents);
  }

  /** A path without the ".log" ending is never read: only its name is logged. */
  lemma SkipsOtherFormats(a: seq<string>, path: string, b: seq<string>, contents: map<string, seq<string>>)
    requires !EndsWith(path, LogSuffix)
    ensures Loaded(a + [path] + b, contents) == Loaded(a + b, contents)
    ensures LoadLog(a + [path] + b, contents) == LoadLog(a, contents) + [FormatNotRecognised(path)] + LoadLog(b, contents)
  {
    LoadedAround(a, path, b, contents);
    LoadLogAround(a, path, b, contents);
    LoadedConcat(a, b, contents);
  }

  /** Only the ".log" files' contents matter: two file systems that agree on
      them load the same tables and write the same log. */
  lemma {:induction false} LoadedIgnoresOtherFiles(paths: seq<string>, c1: map<string, seq<string>>, c2: map<string, seq<string>>)
    requires forall p | p in paths && EndsWith(p, LogSuffix) :: ReadSsv(p, c1) == ReadSsv(p, c2)
    ensures Loaded(paths, c1) == Loaded(paths, c2)
    ensures LoadLog(paths, c1) == LoadLog(paths, c2)
  {
    if paths != [] {
      assert paths[0] in paths;
      LoadedFromAgrees(paths[0], c1, c2);
      assert forall p | p in paths[1..] :: p in paths;
      LoadedIgnoresOtherFiles(paths[1..], c1, c2);
    }
  }

  lemma LoadedFromAgrees(path: string, c1: map<string, seq<string>>, c2: map<string, seq<string>>)
    requires EndsWith(path, LogSuffix) ==> ReadSsv(path, c1) == ReadSsv(path, c2)
    ensures LoadedFrom(path, c1) == LoadedFrom(path, c2)
    ensures LogFrom(path, c1) == LogFrom(path, c2)
  {
  }

  // ---------------------------------------------------------------------
  // The input stage as a whole
  // ---------------------------------------------------------------------

  /** What the command line holds: the input paths, the output path, and the
      names of the metric flags given. */
  datatype CommandLine = CommandLine(inputs: seq<string>, output: string, given: set<string>)

  datatype ConfigError = NoMetricSelected | BadLocation(error: LocationError)

  /** What the input stage hands on: the loaded files, the flag values and the output path. */
  datatype Inputs = Inputs(files: seq<LogFile>, flags: seq<(string, bool)>, output: string)

  /** The checks made before any file is read: at least one metric flag, then
      the paths. */
  function ConfigCheck(cmd: CommandLine, fs: FileSystem): (r: Outcome<ConfigError>)
    ensures r == Pass <==>
      (exists i | 0 <= i < |FlagNames| :: FlagNames[i] in cmd.given) && LocationCheck(cmd.inputs, cmd.output, fs) == Pass
    ensures (forall i | 0 <= i < |FlagNames| :: FlagNames[i] !in cmd.given) ==> r == Fail(NoMetricSelected)
    ensures r.Fail? && r.error.BadLocation? ==> LocationCheck(cmd.inputs, cmd.output, fs) == Fail(r.error.error)
  {
    NoFlagSetMeansNoMetric(cmd.given);
    if CountSet(FlagValues(cmd.given)) == 0 then Fail(NoMetricSelected)
    else match LocationCheck(cmd.inputs, cmd.output, fs)
      case Pass => Pass
      case Fail(e) => Fail(BadLocation(e))
  }

  class InputParse {
    /** The files loaded so far, with their tables. */
    var files: seq<LogFile>
    /** The warnings and errors written while loading. */
    var log: seq<LogEntry>

    constructor ()
      ensures files == [] && log == []
    {
      files := [];
      log := [];
    }

    /** Checks every input path, then the output path; all missing inputs are
        reported together, and so are all unreadable ones. */
    method VerifyFileLocations(inputs: seq<string>, output: string, fs: FileSystem)
      returns (r: Outcome<LocationError>)
      ensures r == LocationCheck(inputs, output, fs)
    {
      var notFound: seq<string> := [];
      var notReadable: seq<string> := [];
      var i := 0;
      while i < |inputs|
        invariant 0 <= i <= |inputs|
        invariant notFound == NotIn(inputs[..i], fs.existing)
        invariant notReadable == NotIn(inputs[..i], fs.readable)
      {
        var file := inputs[i];
        NotInSnoc(inputs, i, fs.existing);
        NotInSnoc(inputs, i, fs.readable);
        if file !in fs.existing {
          notFound := notFound + [file];
        }
        if file !in fs.readable {
          notReadable := notReadable + [file];
        }
        i := i + 1;
      }
      assert inputs[..|inputs|] == inputs;
      if notFound != [] {
        return Fail(FileNotFound(notFound));
      }
      if notReadable != [] {
        return Fail(PermissionDenied(notReadable));
      }
      if output !in fs.writable {
        return Fail(OutputNotWritable(output));
      }
      return Pass;
    }

    /** The input stage: refuses a command line without a metric flag, checks
        the paths, then loads the input files. Nothing is loaded when a check
        fails. */
    method Run(cmd: CommandLine, fs: FileSystem) returns (r: Result<Inputs, ConfigError>)
      modifies this
      ensures r.Failure? <==> ConfigCheck(cmd, fs).Fail?
      ensures r.Failure? ==> r.error == ConfigCheck(cmd, fs).error && files == old(files) && log == old(log)
      ensures r.Success? ==>
        && files == old(files) + Loaded(cmd.inputs, fs.contents)
        && log == old(log) + LoadLog(cmd.inputs, fs.contents)
        && r.value == Inputs(files, FlagValues(cmd.given), cmd.output)
    {
      var flags := FlagValues(cmd.given);
      if CountSet(flags) == 0 {
        NoFlagSetMeansNoMetric(cmd.given);
        return Failure(NoMetricSelected);
      }
      var location := VerifyFileLocations(cmd.inputs, cmd.output, fs);
      if location.Fail? {
        return Failure(BadLocation(location.error));
      }
      LoadFiles(cmd.inputs, fs.contents);
      return Success(Inputs(files, flags, cmd.output));
    }

    /** Loads every ".log" path that parses and appends it to `files`; other
        paths, and ".log" files that fail to parse, are logged and skipped. */
    method LoadFiles(paths: seq<string>, contents: map<string, seq<string>>)
      modifies this
      ensures files == old(files) + Loaded(paths, contents)
      ensures log == old(log) + LoadLog(paths, contents)
    {
      var i := 0;
      while i < |paths|
        invariant 0 <= i <= |paths|
        invariant files == old(files) + Loaded(paths[..i], contents)
        invariant log == old(log) + LoadLog(paths[..i], contents)
      {
        var path := paths[i];
        var kept, written := LoadFile(path, contents);
        LoadedSnoc(paths, i, contents);
        AppendStep(old(files), Loaded(paths[..i], contents), kept);
        AppendStep(old(log), LoadLog(paths[..i], contents), written);
        files := files + kept;
        log := log + written;
        i := i + 1;
      }
      assert paths[..|paths|] == paths;
    }
  }

  /** Loads one path: a ".log" file that parses yields its table and a
      warning per bad line; a ".log" file that does not parse yields an error
      entry; any other path yields a "format not recognised" entry. */
  method LoadFile(path: string, contents: map<string, seq<string>>)
    returns (kept: seq<LogFile>, written: seq<LogEntry>)
    ensures kept == LoadedFrom(path, contents) && written == LogFrom(path, contents)
    ensures |kept| == 1 <==> EndsWith(path, LogSuffix) && ReadSsv(path, contents).Success?
  {
    kept := [];
    if EndsWith(path, LogSuffix) {
      var parsed := ReadSsv(path, contents);
      match parsed {
        case Success(p) =>
          written := BadLineEntries(path, p.badLines);
          kept := [LogFile(path, p.table)];
        case Failure(_) =>
          written := [NotSsv(path)];
      }
    } else {
      written := [FormatNotRecognised(path)];
    }
  }

  lemma AppendStep<T>(a: seq<T>, b: seq<T>, c: seq<T>)
    ensures a + b + c == a + (b + c)
  {
  }

  /** Loading one list of paths and then another is loading them one after the
      other: a file that fails does not stop the files after it. */
  lemma {:induction false} LoadedConcat(a: seq<string>, b: seq<string>, contents: map<string, seq<string>>)
    ensures Loaded(a + b, contents) == Loaded(a, contents) + Loaded(b, contents)
  {
    if a == [] {
      assert a + b == b;
    } else {
      assert (a + b)[1..] == a[1..] + b;
      LoadedConcat(a[1..], b, contents);
    }
  }

  /** Loading one more path adds what that path yields. */
  lemma LoadedSnoc(paths: seq<string>, i: nat, contents: map<string, seq<string>>)
    requires i < |paths|
    ensures Loaded(paths[..i + 1], contents) == Loaded(paths[..i], contents) + LoadedFrom(paths[i], contents)
    ensures LoadLog(paths[..i + 1], contents) == LoadLog(paths[..i], contents) + LogFrom(paths[i], contents)
  {
    assert paths[..i + 1] == paths[..i] + [paths[i]];
    LoadedConcat(paths[..i], [paths[i]], contents);
    LoadLogConcat(paths[..i], [paths[i]], contents);
  }

  /** The log of two lists of paths is the log of the first followed by that of the second. */
  lemma {:induction false} LoadLogConcat(a: seq<string>, b: seq<string>, contents: map<string, seq<string>>)
    ensures LoadLog(a + b, contents) == LoadLog(a, contents) + LoadLog(b, contents)
  {
    if a == [] {
      assert a + b == b;
    } else {
      assert (a + b)[1..] == a[1..] + b;
      LoadLogConcat(a[1..], b, contents);
    }
  }
}
