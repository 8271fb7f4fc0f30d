/** Occurrence counting over a column of values: how often each value
    occurs, the distinct values in order of first appearance, the
    per-value tally, and the positions of a most and a least frequent value.
    This is the part of a frequency ranking that the statistics rely on;
    the ranking's own order among equal counts is replaced by an explicit
    rule: the value seen first wins a tie. */
module ValueCounts {

  /** How many times `x` occurs in `xs`. */
  function Count<T(==)>(xs: seq<T>, x: T): nat
  {
    multiset(xs)[x]
  }

  predicate NoDuplicates<T(==)>(xs: seq<T>)
  {
    forall i, j | 0 <= i < j < |xs| :: xs[i] != xs[j]
  }

  function Elements<T(==)>(xs: seq<T>): set<T>
  {
    set x | x in xs
  }

  /** The distinct values of `xs`, each once, in order of first appearance. */
  function Distinct<T(==,!new)>(xs: seq<T>): (d: seq<T>)
    ensures NoDuplicates(d)
    ensures forall x :: x in d <==> x in xs
    ensures |d| <= |xs|
  {
    if xs == [] then []
    else
      var d := Distinct(xs[..|xs| - 1]);
      var x := xs[|xs| - 1];
      assert forall y :: y in xs <==> y in xs[..|xs| - 1] || y == x by {
        assert xs == xs[..|xs| - 1] + [x];
      }
      if x in d then d else d + [x]
  }

  /** A list without repetitions is as long as the set of its elements. */
  lemma {:induction false} NoDuplicatesCardinality<T>(d: seq<T>)
    requires NoDuplicates(d)
    ensures |Elements(d)| == |d|
  {
    if d != [] {
      var p := d[..|d| - 1];
      var x := d[|d| - 1];
      assert d == p + [x];
      NoDuplicatesCardinality(p);
      assert x !in Elements(p);
      assert Elements(d) == Elements(p) + {x};
    }
  }

  /** There are as many distinct values as elements in the set of values. */
  lemma DistinctCardinality<T(!new)>(xs: seq<T>)
    ensures |Distinct(xs)| == |Elements(xs)|
  {
    NoDuplicatesCardinality(Distinct(xs));
    assert Elements(Distinct(xs)) == Elements(xs);
  }

  /** The total of the counts of the values in `d`, each counted in `xs`. */
  function CountsOver<T(==)>(d: seq<T>, xs: seq<T>): nat
  {
    if d == [] then 0 else CountsOver(d[..|d| - 1], xs) + Count(xs, d[|d| - 1])
  }

  /** One more occurrence of `x` in the counted column adds one to the total
      exactly when `x` is among the (distinct) values summed over. */
  lemma {:induction false} CountsOverSnoc<T>(d: seq<T>, xs: seq<T>, x: T)
    requires NoDuplicates(d)
    ensures CountsOver(d, xs + [x]) == CountsOver(d, xs) + (if x in d then 1 else 0)
  {
    if d != [] {
      var p := d[..|d| - 1];
      assert d == p + [d[|d| - 1]];
      CountsOverSnoc(p, xs, x);
      assert multiset(xs + [x]) == multiset(xs) + multiset{x};
    }
  }

  /** Summing each distinct value's count gives back the number of values. */
  lemma {:induction false} CountsOverDistinct<T(!new)>(xs: seq<T>)
    ensures CountsOver(Distinct(xs), xs) == |xs|
  {
    if xs != [] {
      var p := xs[..|xs| - 1];
      var x := xs[|xs| - 1];
      assert xs == p + [x];
      CountsOverDistinct(p);
      var d := Distinct(p);
      CountsOverSnoc(d, p, x);
      if x !in d {
        assert Distinct(xs) == d + [x];
        assert (d + [x])[..|d|] == d;
        assert multiset(xs)[x] == multiset(p)[x] + 1;
      }
    }
  }

  /** A per-value tally: each distinct value with its number of occurrences,
      in order of first appearance. */
  function Tally<T(==,!new)>(xs: seq<T>): (t: seq<(T, nat)>)
    ensures |t| == |Distinct(xs)|
    ensures forall i | 0 <= i < |t| :: t[i].0 == Distinct(xs)[i] && t[i].1 == Count(xs, t[i].0)
  {
    var d := Distinct(xs);
    seq(|d|, i requires 0 <= i < |d| => (d[i], Count(xs, d[i])))
  }

  function SumOfCounts<T>(t: seq<(T, nat)>): nat
  {
    if t == [] then 0 else SumOfCounts(t[..|t| - 1]) + t[|t| - 1].1
  }

  /** Every value in the tally occurs at least once, each value of the column
      has exactly one entry, and the counts add up to the column's length. */
  lemma TallyFacts<T(!new)>(xs: seq<T>)
    ensures forall i | 0 <= i < |Tally(xs)| :: Tally(xs)[i].1 >= 1
    ensures forall x :: x in xs <==> exists i | 0 <= i < |Tally(xs)| :: Tally(xs)[i].0 == x
    ensures SumOfCounts(Tally(xs)) == |xs|
  {
    var d := Distinct(xs);
    forall i | 0 <= i < |d|
      ensures Tally(xs)[i].1 >= 1
    {
      assert d[i] in xs;
    }
    forall x | x in xs
      ensures exists i | 0 <= i < |Tally(xs)| :: Tally(xs)[i].0 == x
    {
      var i :| 0 <= i < |d| && d[i] == x;
      assert Tally(xs)[i].0 == x;
    }
    SumOfTally(xs, |d|);
    assert Tally(xs)[..|d|] == Tally(xs);
    assert d[..|d|] == d;
    CountsOverDistinct(xs);
  }

  lemma {:induction false} SumOfTally<T(!new)>(xs: seq<T>, n: nat)
    requires n <= |Distinct(xs)|
    ensures SumOfCounts(Tally(xs)[..n]) == CountsOver(Distinct(xs)[..n], xs)
  {
    if n > 0 {
      SumOfTally(xs, n - 1);
      assert Tally(xs)[..n][..n - 1] == Tally(xs)[..n - 1];
      assert Distinct(xs)[..n][..n - 1] == Distinct(xs)[..n - 1];
    }
  }

  /** Scans positions i.. keeping `best`, the first position of a value with
      the highest count seen so far. */
  function MaxScan<T(==)>(xs: seq<T>, i: nat, best: nat): (k: nat)
    requires best < i <= |xs|
    requires forall j | 0 <= j < i :: Count(xs, xs[j]) <= Count(xs, xs[best])
    requires forall j | 0 <= j < best :: Count(xs, xs[j]) < Count(xs, xs[best])
    ensures k < |xs|
    ensures forall j | 0 <= j < |xs| :: Count(xs, xs[j]) <= Count(xs, xs[k])
    ensures forall j | 0 <= j < k :: Count(xs, xs[j]) < Count(xs, xs[k])
    decreases |xs| - i
  {
    if i == |xs| then best
    else if Count(xs, xs[i]) > Count(xs, xs[best]) then MaxScan(xs, i + 1, i)
    else MaxScan(xs, i + 1, best)
  }

  /** Scans positions i.. keeping `best`, the first position of a value with
      the lowest count seen so far. */
  function MinScan<T(==)>(xs: seq<T>, i: nat, best: nat): (k: nat)
    requires best < i <= |xs|
    requires forall j | 0 <= j < i :: Count(xs, xs[best]) <= Count(xs, xs[j])
    requires forall j | 0 <= j < best :: Count(xs, xs[best]) < Count(xs, xs[j])
    ensures k < |xs|
    ensures forall j | 0 <= j < |xs| :: Count(xs, xs[k]) <= Count(xs, xs[j])
    ensures forall j | 0 <= j < k :: Count(xs, xs[k]) < Count(xs, xs[j])
    decreases |xs| - i
  {
    if i == |xs| then best
    else if Count(xs, xs[i]) < Count(xs, xs[best]) then MinScan(xs, i + 1, i)
    else MinScan(xs, i + 1, best)
  }

  /** The first position holding a value of the highest count: its value
      occurs at least as often as any other, and strictly more often than
      every value that appears before it. */
  function MostFrequentIndex<T(==)>(xs: seq<T>): (k: nat)
    requires |xs| > 0
    ensures k < |xs|
    ensures forall j | 0 <= j < |xs| :: Count(xs, xs[j]) <= Count(xs, xs[k])
    ensures forall j | 0 <= j < k :: Count(xs, xs[j]) < Count(xs, xs[k])
  {
    MaxScan(xs, 1, 0)
  }

  /** The first position holding a value of the lowest count: its value
      occurs at most as often as any other, and strictly less often than
      every value that appears before it. */
  function LeastFrequentIndex<T(==)>(xs: seq<T>): (k: nat)
    requires |xs| > 0
    ensures k < |xs|
    ensures forall j | 0 <= j < |xs| :: Count(xs, xs[k]) <= Count(xs, xs[j])
    ensures forall j | 0 <= j < k :: Count(xs, xs[k]) < Count(xs, xs[j])
  {
    MinScan(xs, 1, 0)
  }

  /** The position of the first occurrence of `x` in `xs`. */
  function FirstIndex<T(==)>(xs: seq<T>, x: T): (k: nat)
    requires x in xs
    ensures k < |xs| && xs[k] == x
    ensures forall j | 0 <= j < k :: xs[j] != x
  {
    if xs[0] == x then 0 else 1 + FirstIndex(xs[1..], x)
  }

  /** Two sequences with the same elements, counted with multiplicity: the last
      element of the first sits at some position `j` of the second, and what
      remains of each is again the same multiset. */
  lemma PermutationSplit<T>(xs: seq<T>, ys: seq<T>) returns (j: nat)
    requires multiset(xs) == multiset(ys) && |xs| > 0
    ensures j < |ys| && ys[j] == xs[|xs| - 1]
    ensures ys == ys[..j] + [ys[j]] + ys[j + 1..]
    ensures multiset(xs[..|xs| - 1]) == multiset(ys[..j] + ys[j + 1..])
  {
    var x := xs[|xs| - 1];
    assert xs == xs[..|xs| - 1] + [x];
    assert x in multiset(ys);
    j :| 0 <= j < |ys| && ys[j] == x;
    assert ys == ys[..j] + [ys[j]] + ys[j + 1..];
    assert multiset(ys) == multiset(ys[..j]) + multiset{x} + multiset(ys[j + 1..]);
    assert multiset(xs) == multiset(xs[..|xs| - 1]) + multiset{x};
    assert multiset(ys[..j] + ys[j + 1..]) == multiset(ys[..j]) + multiset(ys[j + 1..]);
    assert multiset(xs[..|xs| - 1]) == multiset(xs) - multiset{x};
    assert multiset(ys[..j] + ys[j + 1..]) == multiset(ys) - multiset{x};
  }
}
