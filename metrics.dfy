/** The four per-file statistics of a proxy log table: the most and the least
    frequent client address, the average number of events per second, and
    the total number of bytes exchanged.

    Columns are positional: the timestamp is column 0, the client address
    column 2 and the byte count column 4. A missing cell (a line shorter
    than the table) is skipped by every statistic. */
module Metrics {
  import opened Wrappers
  import opened Numbers
  import opened ValueCounts
  import opened InputParser

  const TimeColumn: nat := 0
  const IpColumn: nat := 2
  const BytesColumn: nat := 4

  datatype MetricError =
    | MissingColumn(column: nat)  // the table has no such column
    | EmptyColumn(column: nat)    // the column holds no value to rank
    | NotNumeric(column: nat)     // a value of a numeric column is not a number

  // ---------------------------------------------------------------------
  // Columns
  // ---------------------------------------------------------------------

  /** The text of a row's cell `k`, if it is there. */
  function CellText(row: Row, k: nat): (xs: seq<string>)
    ensures |xs| <= 1
  {
    if k < |row| && row[k].Present? then [row[k].text] else []
  }

  /** The texts of column `k`, top to bottom, missing cells skipped. */
  function Column(rows: seq<Row>, k: nat): (xs: seq<string>)
    ensures |xs| <= |rows|
  {
    if rows == [] then [] else Column(rows[..|rows| - 1], k) + CellText(rows[|rows| - 1], k)
  }

  lemma {:induction false} ColumnConcat(a: seq<Row>, b: seq<Row>, k: nat)
    ensures Column(a + b, k) == Column(a, k) + Column(b, k)
  {
    if b == [] {
      assert a + b == a;
    } else {
      var b' := b[..|b| - 1];
      assert (a + b)[..|a + b| - 1] == a + b';
      assert (a + b)[|a + b| - 1] == b[|b| - 1];
      ColumnConcat(a, b', k);
    }
  }

  /** A column holds exactly the texts present at position `k` of some row. */
  lemma {:induction false} ColumnMembers(rows: seq<Row>, k: nat)
    ensures forall x :: x in Column(rows, k) <==>
      exists i | 0 <= i < |rows| :: k < |rows[i]| && rows[i][k] == Present(x)
  {
    if rows != [] {
      var p := rows[..|rows| - 1];
      ColumnMembers(p, k);
      forall x
        ensures x in Column(rows, k) <==> exists i | 0 <= i < |rows| :: k < |rows[i]| && rows[i][k] == Present(x)
      {
        if x in Column(p, k) {
          var i :| 0 <= i < |p| && k < |p[i]| && p[i][k] == Present(x);
          assert rows[i] == p[i];
        }
        if exists i | 0 <= i < |rows| :: k < |rows[i]| && rows[i][k] == Present(x) {
          var i :| 0 <= i < |rows| && k < |rows[i]| && rows[i][k] == Present(x);
          if i < |p| {
            assert p[i] == rows[i];
          }
        }
      }
    }
  }

  /** Reordering the rows reorders the column the same way. */
  lemma {:induction false} ColumnPermutation(r1: seq<Row>, r2: seq<Row>, k: nat)
    requires multiset(r1) == multiset(r2)
    ensures multiset(Column(r1, k)) == multiset(Column(r2, k))
    decreases |r1|
  {
    if r1 == [] {
      assert multiset(r2) == multiset{};
      assert r2 == [];
    } else {
      var j := PermutationSplit(r1, r2);
      var c, d := r2[..j], r2[j + 1..];
      var x := r2[j];
      ColumnPermutation(r1[..|r1| - 1], c + d, k);
      ColumnConcat(c, d, k);
      ColumnConcat(c, [x], k);
      ColumnConcat(c + [x], d, k);
      assert Column([x], k) == Column([], k) + CellText(x, k);
      assert r2 == c + [x] + d;
    }
  }

  /** `f` applied to every element, in order. */
  function MapSeq<A, B>(f: A -> B, xs: seq<A>): (ys: seq<B>)
    ensures |ys| == |xs|
    ensures forall i | 0 <= i < |xs| :: ys[i] == f(xs[i])
  {
    seq(|xs|, i requires 0 <= i < |xs| => f(xs[i]))
  }

  lemma MapConcat<A, B>(f: A -> B, a: seq<A>, b: seq<A>)
    ensures MapSeq(f, a + b) == MapSeq(f, a) + MapSeq(f, b)
  {
  }

  lemma {:induction false} MapPermutation<A, B>(f: A -> B, xs: seq<A>, ys: seq<A>)
    requires multiset(xs) == multiset(ys)
    ensures multiset(MapSeq(f, xs)) == multiset(MapSeq(f, ys))
    decreases |xs|
  {
    if xs == [] {
      assert multiset(ys) == multiset{};
      assert ys == [];
    } else {
      var j := PermutationSplit(xs, ys);
      var c, d := ys[..j], ys[j + 1..];
      var xs' := xs[..|xs| - 1];
      var x := ys[j];
      MapPermutation(f, xs', c + d);
      assert xs == xs' + [x];
      MapConcat(f, xs', [x]);
      MapConcat(f, c + [x], d);
      MapConcat(f, c, [x]);
      MapConcat(f, c, d);
      var mc, md, mx := MapSeq(f, c), MapSeq(f, d), MapSeq(f, [x]);
      assert multiset(MapSeq(f, xs)) == multiset(mc + md) + multiset(mx);
      assert multiset(MapSeq(f, ys)) == multiset(mc) + multiset(mx) + multiset(md);
    }
  }

  // ---------------------------------------------------------------------
  // Most and least frequent client address
  // ---------------------------------------------------------------------

  /** The client address seen most often; among equally frequent addresses,
      the one that appears first. A table without the column, or whose column
      holds no address, has no answer. */
  function MostFrequentIp(t: Table): (r: Result<string, MetricError>)
    ensures r.Failure? <==> t.width <= IpColumn || Column(t.rows, IpColumn) == []
    ensures r.Failure? ==> r.error == (if t.width <= IpColumn then MissingColumn(IpColumn) else EmptyColumn(IpColumn))
    ensures r.Success? ==>
      var xs := Column(t.rows, IpColumn);
      && r.value in xs
      && (forall y | y in xs :: Count(xs, y) <= Count(xs, r.value))
      && (forall y | y in xs && Count(xs, y) == Count(xs, r.value) :: FirstIndex(xs, r.value) <= FirstIndex(xs, y))
  {
    if t.width <= IpColumn then Failure(MissingColumn(IpColumn))
    else
      var xs := Column(t.rows, IpColumn);
      if xs == [] then Failure(EmptyColumn(IpColumn))
      else
        var k := MostFrequentIndex(xs);
        FirstOfTies(xs, k, true);
        Success(xs[k])
  }

  /** The client address seen least often; among equally rare addresses, the
      one that appears first. */
  function LeastFrequentIp(t: Table): (r: Result<string, MetricError>)
    ensures r.Failure? <==> t.width <= IpColumn || Column(t.rows, IpColumn) == []
    ensures r.Failure? ==> r.error == (if t.width <= IpColumn then MissingColumn(IpColumn) else EmptyColumn(IpColumn))
    ensures r.Success? ==>
      var xs := Column(t.rows, IpColumn);
      && r.value in xs
      && (forall y | y in xs :: Count(xs, r.value) <= Count(xs, y))
      && (forall y | y in xs && Count(xs, y) == Count(xs, r.value) :: FirstIndex(xs, r.value) <= FirstIndex(xs, y))
  {
    if t.width <= IpColumn then Failure(MissingColumn(IpColumn))
    else
      var xs := Column(t.rows, IpColumn);
      if xs == [] then Failure(EmptyColumn(IpColumn))
      else
        var k := LeastFrequentIndex(xs);
        FirstOfTies(xs, k, false);
        Success(xs[k])
  }

  /** A position whose value beats every value before it (strictly more
      frequent when `most`, strictly rarer otherwise) is the first occurrence
      of that value, and no value tied with it appears earlier. */
  lemma FirstOfTies(xs: seq<string>, k: nat, most: bool)
    requires k < |xs|
    requires most ==> forall j | 0 <= j < k :: Count(xs, xs[j]) < Count(xs, xs[k])
    requires !most ==> forall j | 0 <= j < k :: Count(xs, xs[k]) < Count(xs, xs[j])
    ensures forall y | y in xs && Count(xs, y) == Count(xs, xs[k]) :: FirstIndex(xs, xs[k]) <= FirstIndex(xs, y)
  {
    var f := FirstIndex(xs, xs[k]);
    assert Count(xs, xs[f]) == Count(xs, xs[k]);
    forall y | y in xs && Count(xs, y) == Count(xs, xs[k])
      ensures k <= FirstIndex(xs, y)
    {
      var g := FirstIndex(xs, y);
      assert Count(xs, xs[g]) == Count(xs, xs[k]);
    }
  }

  /** The tie rule names one address only: any address of the column with the
      highest count and no equally frequent address before it is the answer. */
  lemma MostFrequentIpUnique(t: Table, ip: string)
    requires t.width > IpColumn
    requires var xs := Column(t.rows, IpColumn);
      && ip in xs
      && (forall y | y in xs :: Count(xs, y) <= Count(xs, ip))
      && (forall y | y in xs && Count(xs, y) == Count(xs, ip) :: FirstIndex(xs, ip) <= FirstIndex(xs, y))
    ensures MostFrequentIp(t) == Success(ip)
  {
    var xs := Column(t.rows, IpColumn);
    var r := MostFrequentIp(t).value;
    assert Count(xs, r) == Count(xs, ip);
    assert FirstIndex(xs, r) == FirstIndex(xs, ip);
  }

  /** Likewise for the least frequent address. */
  lemma LeastFrequentIpUnique(t: Table, ip: string)
    requires t.width > IpColumn
    requires var xs := Column(t.rows, IpColumn);
      && ip in xs
      && (forall y | y in xs :: Count(xs, ip) <= Count(xs, y))
      && (forall y | y in xs && Count(xs, y) == Count(xs, ip) :: FirstIndex(xs, ip) <= FirstIndex(xs, y))
    ensures LeastFrequentIp(t) == Success(ip)
  {
    var xs := Column(t.rows, IpColumn);
    var r := LeastFrequentIp(t).value;
    assert Count(xs, r) == Count(xs, ip);
    assert FirstIndex(xs, r) == FirstIndex(xs, ip);
  }

  /** The answer is an address that some row holds in column 2. */
  lemma FrequentIpFromRows(t: Table)
    ensures MostFrequentIp(t).Success? ==>
      exists i | 0 <= i < |t.rows| :: IpColumn < |t.rows[i]| && t.rows[i][IpColumn] == Present(MostFrequentIp(t).value)
    ensures LeastFrequentIp(t).Success? ==>
      exists i | 0 <= i < |t.rows| :: IpColumn < |t.rows[i]| && t.rows[i][IpColumn] == Present(LeastFrequentIp(t).value)
  {
    ColumnMembers(t.rows, IpColumn);
  }

  /** No statistic ever sees a missing-value spelling: every value of a parsed
      table's column is the text of a field that is not one. */
  lemma ParsedColumnHasNoMissingSpelling(lines: seq<string>, k: nat)
    requires ParseSsv(lines).Success?
    ensures forall x | x in Column(ParseSsv(lines).value.table.rows, k) :: x !in MissingSpellings
  {
    var t := ParseSsv(lines).value.table;
    ParsedRowsComeFromLines(lines);
    ColumnMembers(t.rows, k);
    forall x | x in Column(t.rows, k)
      ensures x !in MissingSpellings
    {
      var i :| 0 <= i < |t.rows| && k < |t.rows[i]| && t.rows[i][k] == Present(x);
      var j :| 0 <= j < |lines| && ReadLine(lines[j], t.width) == Fits(t.rows[i]);
      var fields := Tokens(lines[j]);
      assert t.rows[i] == Pad(fields, t.width);
      assert k < |fields| && CellOf(fields[k]) == Present(x);
    }
  }

  /** Cells spelled "NA" are missing, so they are not counted: one real address
      beats two "NA" cells. */
  lemma MissingSpellingNotCounted(t: Table, r1: Row, r2: Row, r3: Row)
    requires t.width > IpColumn && t.rows == [r1, r2, r3]
    requires |r1| > IpColumn && |r2| > IpColumn && |r3| > IpColumn
    requires r1[IpColumn] == CellOf("NA") && r2[IpColumn] == CellOf("NA") && r3[IpColumn] == Present("1.1.1.1")
    ensures MostFrequentIp(t) == Success("1.1.1.1")
  {
    assert "NA" in MissingSpellings;
    assert t.rows[..2] == [r1, r2] && [r1, r2][..1] == [r1] && [r1][..0] == [];
    assert Column([r1], IpColumn) == [];
    assert Column([r1, r2], IpColumn) == [];
    assert Column(t.rows, IpColumn) == ["1.1.1.1"];
  }

  // ---------------------------------------------------------------------
  // Events per second
  // ---------------------------------------------------------------------

  /** An average that may be undefined, as the mean of no values is. */
  datatype Average = Mean(avg: real) | NotANumber

  predicate AllDecimals(xs: seq<string>)
  {
    forall i | 0 <= i < |xs| :: ParseDecimal(xs[i]).Some?
  }

  /** A timestamp in seconds rounded to the whole second, ties to even; a
      token that is not a number is given 0 and is never used that way. */
  function SecondOf(x: string): int
  {
    match ParseDecimal(x)
    case Some(d) => RoundHalfEven(d)
    case None => 0
  }

  /** The mean of the counts in a tally. */
  function MeanCount(t: seq<(int, nat)>): Average
  {
    if t == [] then NotANumber else Mean(SumOfCounts(t) as real / |t| as real)
  }

  /** The average number of events per second: every timestamp is rounded to
      its second, the events of each second are counted, and the counts are
      averaged. A column without any timestamp gives no number. */
  function EventsPerSecond(t: Table): (r: Result<Average, MetricError>)
    ensures r.Failure? <==> t.width <= TimeColumn || !AllDecimals(Column(t.rows, TimeColumn))
    ensures r.Failure? ==> r.error == (if t.width <= TimeColumn then MissingColumn(TimeColumn) else NotNumeric(TimeColumn))
    ensures r.Success? ==> (r.value == NotANumber <==> Column(t.rows, TimeColumn) == [])
    ensures r.Success? && r.value.Mean? ==> r.value.avg >= 1.0
  {
    if t.width <= TimeColumn then Failure(MissingColumn(TimeColumn))
    else
      var xs := Column(t.rows, TimeColumn);
      if !AllDecimals(xs) then Failure(NotNumeric(TimeColumn))
      else
        var secs := MapSeq(SecondOf, xs);
        MeanOfSeconds(secs);
        Success(MeanCount(Tally(secs)))
  }

  /** The mean count per second is the number of events over the number of
      distinct seconds, and so at least one. */
  lemma MeanOfSeconds(secs: seq<int>)
    ensures secs != [] ==> |Elements(secs)| > 0
    ensures MeanCount(Tally(secs)) == (if secs == [] then NotANumber
      else Mean(|secs| as real / |Elements(secs)| as real))
    ensures secs != [] ==> |secs| as real / |Elements(secs)| as real >= 1.0
  {
    TallyFacts(secs);
    DistinctCardinality(secs);
    if secs != [] {
      assert secs[0] in Elements(secs);
      AtLeastOne(|secs|, |Elements(secs)|);
    }
  }

  lemma AtLeastOne(a: nat, b: nat)
    requires 0 < b <= a
    ensures a as real / b as real >= 1.0
  {
  }

  /** The average is the number of events over the number of distinct seconds
      in which they happened. */
  lemma EventsOverSeconds(t: Table)
    requires EventsPerSecond(t).Success? && EventsPerSecond(t).value.Mean?
    ensures |Elements(MapSeq(SecondOf, Column(t.rows, TimeColumn)))| > 0
    ensures var secs := MapSeq(SecondOf, Column(t.rows, TimeColumn));
      EventsPerSecond(t).value.avg == |secs| as real / |Elements(secs)| as real
  {
    var secs := MapSeq(SecondOf, Column(t.rows, TimeColumn));
    assert EventsPerSecond(t) == Success(MeanCount(Tally(secs)));
    MeanOfSeconds(secs);
  }

  /** The order of the lines does not matter. */
  lemma EventsPerSecondPermutation(t1: Table, t2: Table)
    requires t1.width == t2.width && multiset(t1.rows) == multiset(t2.rows)
    ensures EventsPerSecond(t1) == EventsPerSecond(t2)
  {
    var xs1, xs2 := Column(t1.rows, TimeColumn), Column(t2.rows, TimeColumn);
    ColumnPermutation(t1.rows, t2.rows, TimeColumn);
    if AllDecimals(xs1) {
      AllDecimalsPermutation(xs1, xs2);
    }
    if AllDecimals(xs2) {
      AllDecimalsPermutation(xs2, xs1);
    }
    EventsPerSecondIs(t1);
    EventsPerSecondIs(t2);
    if t1.width > TimeColumn && AllDecimals(xs1) {
      var s1, s2 := MapSeq(SecondOf, xs1), MapSeq(SecondOf, xs2);
      MapPermutation(SecondOf, xs1, xs2);
      assert |s1| == |s2| by {
        assert |multiset(s1)| == |multiset(s2)|;
      }
      assert Elements(s1) == Elements(s2) by {
        SameElements(s1, s2);
        SameElements(s2, s1);
      }
      MeanOfSeconds(s1);
      MeanOfSeconds(s2);
    }
  }

  /** Which statistic the events-per-second computation yields, unfolded. */
  lemma EventsPerSecondIs(t: Table)
    ensures t.width > TimeColumn && AllDecimals(Column(t.rows, TimeColumn)) ==>
      EventsPerSecond(t) == Success(MeanCount(Tally(MapSeq(SecondOf, Column(t.rows, TimeColumn)))))
    ensures t.width <= TimeColumn ==> EventsPerSecond(t) == Failure(MissingColumn(TimeColumn))
    ensures t.width > TimeColumn && !AllDecimals(Column(t.rows, TimeColumn)) ==>
      EventsPerSecond(t) == Failure(NotNumeric(TimeColumn))
  {
  }

  lemma AllDecimalsPermutation(xs: seq<string>, ys: seq<string>)
    requires multiset(xs) == multiset(ys) && AllDecimals(xs)
    ensures AllDecimals(ys)
  {
    forall i | 0 <= i < |ys|
      ensures ParseDecimal(ys[i]).Some?
    {
      assert ys[i] in multiset(xs);
      var j :| 0 <= j < |xs| && xs[j] == ys[i];
    }
  }

  /** Three events at 1.2 s, 0.9 s and 3 s fall into the seconds 1, 1 and 3:
      two distinct seconds, one and a half events per second. */
  lemma EventsPerSecondExample(row1: Row, row2: Row, row3: Row)
    requires |row1| == |row2| == |row3| == 5
    requires row1[TimeColumn] == Present("1.2") && row2[TimeColumn] == Present("0.9") && row3[TimeColumn] == Present("3")
    ensures EventsPerSecond(Table(5, [row1, row2, row3])) == Success(Mean(1.5))
  {
    var t := Table(5, [row1, row2, row3]);
    assert EventsPerSecond(t) == Success(MeanCount(Tally([1, 1, 3]))) by {
      ExampleColumn(row1, row2, row3);
      ExampleSeconds();
      EventsPerSecondIs(t);
    }
    ExampleMean();
  }

  lemma ExampleMean()
    ensures MeanCount(Tally([1, 1, 3])) == Mean(1.5)
  {
    var secs := [1, 1, 3];
    MeanOfSeconds(secs);
    assert |Elements(secs)| == 2 by {
      assert Elements(secs) == {1, 3};
    }
    assert 3 as real / 2 as real == 1.5;
  }

  lemma ExampleColumn(row1: Row, row2: Row, row3: Row)
    requires |row1| == |row2| == |row3| == 5
    requires row1[TimeColumn] == Present("1.2") && row2[TimeColumn] == Present("0.9") && row3[TimeColumn] == Present("3")
    ensures Column([row1, row2, row3], TimeColumn) == ["1.2", "0.9", "3"]
  {
    assert Column([row1], TimeColumn) == ["1.2"] by {
      assert [row1][..0] == [];
      assert Column([row1], TimeColumn) == Column([], TimeColumn) + CellText(row1, TimeColumn);
    }
    assert Column([row1, row2], TimeColumn) == ["1.2", "0.9"] by {
      assert [row1, row2][..1] == [row1];
      assert Column([row1, row2], TimeColumn) == Column([row1], TimeColumn) + CellText(row2, TimeColumn);
    }
    assert [row1, row2, row3][..2] == [row1, row2];
    assert Column([row1, row2, row3], TimeColumn) == Column([row1, row2], TimeColumn) + CellText(row3, TimeColumn);
  }

  lemma ExampleSeconds()
    ensures AllDecimals(["1.2", "0.9", "3"])
    ensures MapSeq(SecondOf, ["1.2", "0.9", "3"]) == [1, 1, 3]
  {
    SecondOneTwo();
    SecondZeroNine();
    SecondThree();
    SecondsOfThree("1.2", "0.9", "3", 1, 1, 3);
  }

  lemma SecondsOfThree(x: string, y: string, z: string, a: int, b: int, c: int)
    requires ParseDecimal(x).Some? && ParseDecimal(y).Some? && ParseDecimal(z).Some?
    requires SecondOf(x) == a && SecondOf(y) == b && SecondOf(z) == c
    ensures AllDecimals([x, y, z])
    ensures MapSeq(SecondOf, [x, y, z]) == [a, b, c]
  {
    MapThree(SecondOf, x, y, z);
    DecimalsOfThree(x, y, z);
  }

  lemma DecimalsOfThree(x: string, y: string, z: string)
    requires ParseDecimal(x).Some? && ParseDecimal(y).Some? && ParseDecimal(z).Some?
    ensures AllDecimals([x, y, z])
  {
    var xs := [x, y, z];
    assert xs[0] == x && xs[1] == y && xs[2] == z;
  }

  lemma MapThree<A, B>(f: A -> B, x: A, y: A, z: A)
    ensures MapSeq(f, [x, y, z]) == [f(x), f(y), f(z)]
  {
    var ys := MapSeq(f, [x, y, z]);
    assert ys[0] == f(x) && ys[1] == f(y) && ys[2] == f(z);
  }

  lemma SecondOneTwo()
    ensures ParseDecimal("1.2").Some? && SecondOf("1.2") == 1
  {
    TimestampOneTwo();
    assert RoundHalfEven(Decimal(12, 1)) == 1 by {
      assert Pow10(1) == 10;
    }
  }

  lemma SecondZeroNine()
    ensures ParseDecimal("0.9").Some? && SecondOf("0.9") == 1
  {
    TimestampZeroNine();
    assert RoundHalfEven(Decimal(9, 1)) == 1 by {
      assert Pow10(1) == 10;
    }
  }

  lemma SecondThree()
    ensures ParseDecimal("3").Some? && SecondOf("3") == 3
  {
    TimestampThree();
  }

  lemma TimestampOneTwo()
    ensures ParseDecimal("1.2") == Some(Decimal(12, 1))
  {
    OneDecimalPlace('1', '2', "1.2");
  }

  lemma TimestampZeroNine()
    ensures ParseDecimal("0.9") == Some(Decimal(9, 1))
  {
    OneDecimalPlace('0', '9', "0.9");
  }

  /** A token of one digit, a point and one digit reads as tenths. */
  lemma OneDecimalPlace(w: char, f: char, s: string)
    requires IsDigit(w) && IsDigit(f) && s == [w, '.', f]
    ensures ParseDecimal(s) == Some(Decimal(10 * DigitValue(w) + DigitValue(f), 1))
  {
    var x, y := [w], [f];
    assert x + "." + y == s;
    assert AllDigits(x) && AllDigits(y);
    ParseDecimalPoint(x, y);
    assert DigitsValue(x) == DigitValue(w) && DigitsValue(y) == DigitValue(f) by {
      assert x[..0] == [] && y[..0] == [];
    }
    assert Pow10(|y|) == 10 by {
      assert Pow10(0) == 1;
    }
  }

  lemma TimestampThree()
    ensures ParseDecimal("3") == Some(Decimal(3, 0))
  {
    assert ShowInt(3) == "3";
    ParseShowInt(3);
    DecimalExtendsInteger("3");
  }

  /** Sequences with the same multiset have the same elements. */
  lemma SameElements<T>(xs: seq<T>, ys: seq<T>)
    requires multiset(xs) == multiset(ys)
    ensures forall x | x in ys :: x in xs
  {
    forall x | x in ys
      ensures x in xs
    {
      assert x in multiset(ys);
    }
  }

  // ---------------------------------------------------------------------
  // Total bytes
  // ---------------------------------------------------------------------

  predicate AllIntegers(xs: seq<string>)
  {
    forall i | 0 <= i < |xs| :: ParseInteger(xs[i]).Some?
  }

  /** The value of a whole-number token; 0 for any other token, which is never used that way. */
  function IntegerOf(x: string): int
  {
    match ParseInteger(x)
    case Some(v) => v
    case None => 0
  }

  function Sum(xs: seq<int>): int
  {
    if xs == [] then 0 else Sum(xs[..|xs| - 1]) + xs[|xs| - 1]
  }

  lemma {:induction false} SumConcat(a: seq<int>, b: seq<int>)
    ensures Sum(a + b) == Sum(a) + Sum(b)
  {
    if b == [] {
      assert a + b == a;
    } else {
      assert (a + b)[..|a + b| - 1] == a + b[..|b| - 1];
      SumConcat(a, b[..|b| - 1]);
    }
  }

  /** The exact sum of the byte counts; a missing cell adds nothing. */
  function TotalBytes(t: Table): (r: Result<int, MetricError>)
    ensures r.Failure? <==> t.width <= BytesColumn || !AllIntegers(Column(t.rows, BytesColumn))
    ensures r.Failure? ==> r.error == (if t.width <= BytesColumn then MissingColumn(BytesColumn) else NotNumeric(BytesColumn))
    ensures r.Success? ==>
      ((forall i | 0 <= i < |Column(t.rows, BytesColumn)| :: ParseInteger(Column(t.rows, BytesColumn)[i]) == Some(0))
       ==> r.value == 0)
  {
    if t.width <= BytesColumn then Failure(MissingColumn(BytesColumn))
    else
      var xs := Column(t.rows, BytesColumn);
      if !AllIntegers(xs) then Failure(NotNumeric(BytesColumn))
      else
        SumOfZeros(MapSeq(IntegerOf, xs));
        Success(Sum(MapSeq(IntegerOf, xs)))
  }

  lemma {:induction false} SumOfZeros(xs: seq<int>)
    ensures (forall i | 0 <= i < |xs| :: xs[i] == 0) ==> Sum(xs) == 0
  {
    if xs != [] {
      SumOfZeros(xs[..|xs| - 1]);
    }
  }

  /** A table without rows exchanged no bytes. */
  lemma TotalBytesEmpty(width: nat)
    requires width > BytesColumn
    ensures TotalBytes(Table(width, [])) == Success(0)
  {
  }

  /** The total over two tables' rows together is the sum of their totals. */
  lemma TotalBytesConcat(width: nat, a: seq<Row>, b: seq<Row>)
    requires TotalBytes(Table(width, a)).Success? && TotalBytes(Table(width, b)).Success?
    ensures TotalBytes(Table(width, a + b))
         == Success(TotalBytes(Table(width, a)).value + TotalBytes(Table(width, b)).value)
  {
    var xa, xb := Column(a, BytesColumn), Column(b, BytesColumn);
    var ia, ib := MapSeq(IntegerOf, xa), MapSeq(IntegerOf, xb);
    TotalBytesIs(Table(width, a));
    TotalBytesIs(Table(width, b));
    ColumnConcat(a, b, BytesColumn);
    AllIntegersConcat(xa, xb);
    TotalBytesIs(Table(width, a + b));
    MapConcat(IntegerOf, xa, xb);
    SumConcat(ia, ib);
  }

  /** A successful total is the sum of the column's values. */
  lemma TotalBytesIs(t: Table)
    ensures TotalBytes(t).Success? <==> t.width > BytesColumn && AllIntegers(Column(t.rows, BytesColumn))
    ensures TotalBytes(t).Success? ==> TotalBytes(t).value == Sum(MapSeq(IntegerOf, Column(t.rows, BytesColumn)))
  {
  }

  lemma AllIntegersConcat(a: seq<string>, b: seq<string>)
    requires AllIntegers(a) && AllIntegers(b)
    ensures AllIntegers(a + b)
  {
    forall i | 0 <= i < |a + b|
      ensures ParseInteger((a + b)[i]).Some?
    {
      if i < |a| {
        assert (a + b)[i] == a[i];
      } else {
        assert (a + b)[i] == b[i - |a|];
      }
    }
  }

  /** A single row whose byte cell spells `n` exchanged exactly `n` bytes. */
  lemma TotalBytesSingleRow(row: Row, n: int)
    requires |row| > BytesColumn && row[BytesColumn] == Present(ShowInt(n))
    ensures TotalBytes(Table(|row|, [row])) == Success(n)
  {
    assert [row][..0] == [];
    assert Column([row], BytesColumn) == Column([], BytesColumn) + CellText(row, BytesColumn);
    ParseShowInt(n);
    var ints := MapSeq(IntegerOf, [ShowInt(n)]);
    assert ints == [n];
    assert Sum(ints) == Sum([]) + n;
  }
}
