/**
 * `basic_stats` of the refactoring unit `tasks/py/r02_stats`: count,
 * minimum, maximum, mean, median and mode of a list of numbers. The
 * statistics are taken over a sorted copy, so the caller's list is never
 * changed.
 */
module Stats {
  import opened Text

  /** The result dict; `None` fields are None, the numbers Python returns as floats are reals. */
  datatype Stats = Stats(
    count: nat,
    min: Option<real>,
    max: Option<real>,
    mean: Option<real>,
    median: Option<real>,
    mode: Option<seq<real>>)

  const NoStats := Stats(0, None, None, None, None, None)

  predicate Sorted(s: seq<real>)
  {
    forall i, j :: 0 <= i < j < |s| ==> s[i] <= s[j]
  }

  /** `x` placed into the sorted list `s` before the first larger element. */
  function Insert(x: real, s: seq<real>): (r: seq<real>)
    requires Sorted(s)
    ensures Sorted(r) && multiset(r) == multiset(s) + multiset{x} && |r| == |s| + 1
    ensures r[0] == x || (s != [] && r[0] == s[0])
  {
    if s == [] || x <= s[0] then [x] + s
    else
      var rest := Insert(x, s[1..]);
      assert s == [s[0]] + s[1..];
      [s[0]] + rest
  }

  /** `list.sort()`: the sorted permutation of `s`. */
  function Sort(s: seq<real>): (r: seq<real>)
    ensures Sorted(r) && multiset(r) == multiset(s) && |r| == |s|
  {
    if s == [] then []
    else
      assert s == [s[0]] + s[1..];
      Insert(s[0], Sort(s[1..]))
  }

  /** `sum(float(x) for x in s)`, adding from the left. */
  function Sum(s: seq<real>): real
  {
    if s == [] then 0.0 else Sum(s[..|s| - 1]) + s[|s| - 1]
  }

  /** How often `x` occurs in `s` (`Counter(s)[x]`). */
  function Count(s: seq<real>, x: real): nat
  {
    multiset(s)[x]
  }

  /** The largest count of an element of `xs` in `s`. */
  function MaxCountOver(s: seq<real>, xs: seq<real>): (m: nat)
    ensures forall k :: 0 <= k < |xs| ==> Count(s, xs[k]) <= m
    ensures xs != [] ==> exists k :: 0 <= k < |xs| && Count(s, xs[k]) == m
  {
    if xs == [] then 0
    else
      var rest := MaxCountOver(s, xs[1..]);
      if Count(s, xs[0]) >= rest then Count(s, xs[0]) else rest
  }

  /** `max(Counter(s).values())`. */
  function MaxCount(s: seq<real>): nat
  {
    MaxCountOver(s, s)
  }

  /** The distinct values of a sorted list, ascending: the keys of `Counter(s)` in insertion order. */
  function Distinct(s: seq<real>): (r: seq<real>)
    requires Sorted(s)
    ensures forall x :: x in r <==> x in s
    ensures forall i, j :: 0 <= i < j < |r| ==> r[i] < r[j]
  {
    if s == [] then []
    else
      var rest := Distinct(s[1..]);
      if rest != [] && rest[0] == s[0] then rest else [s[0]] + rest
  }

  /** The keys of `d` whose count in `s` is `m`, in order. */
  function WithCount(s: seq<real>, d: seq<real>, m: nat): (r: seq<real>)
    requires forall i, j :: 0 <= i < j < |d| ==> d[i] < d[j]
    ensures forall x :: x in r <==> x in d && Count(s, x) == m
    ensures forall i, j :: 0 <= i < j < |r| ==> r[i] < r[j]
  {
    if d == [] then []
    else
      var rest := WithCount(s, d[1..], m);
      assert forall x :: x in d[1..] ==> d[0] < x;
      assert forall j :: 0 <= j < |rest| ==> d[0] < rest[j] by {
        forall j | 0 <= j < |rest| ensures d[0] < rest[j] {
          assert rest[j] in rest;
        }
      }
      if Count(s, d[0]) == m then [d[0]] + rest else rest
  }

  /** The mode list of the sorted data: [] when every value occurs once. */
  function ModeOf(sorted: seq<real>): seq<real>
    requires Sorted(sorted)
  {
    var m := MaxCount(sorted);
    if m == 1 then [] else WithCount(sorted, Distinct(sorted), m)
  }

  /** The median of sorted, non-empty data. */
  function Median(sorted: seq<real>): real
    requires sorted != []
  {
    var n := |sorted|;
    if n % 2 == 1 then sorted[n / 2]
    else (sorted[n / 2 - 1] + sorted[n / 2]) / 2.0
  }

  /** `basic_stats(values)`; None for Python's None. */
  function StatsOf(values: Option<seq<real>>): Stats
  {
    if values.None? || values.value == [] then NoStats else StatsOfSorted(Sort(values.value))
  }

  /** The statistics of the sorted, non-empty data. */
  function StatsOfSorted(data: seq<real>): Stats
    requires data != [] && Sorted(data)
  {
    var n := |data|;
    Stats(n, Some(data[0]), Some(data[n - 1]), Some(Sum(data) / n as real), Some(Median(data)), Some(ModeOf(data)))
  }

  /**
   * `basic_stats` over a list held by the caller (`null` for None). The
   * method has no `modifies` clause: the caller's list is left as it was.
   */
  method BasicStats(values: array?<real>) returns (r: Stats)
    ensures r == StatsOf(if values == null then None else Some(values[..]))
  {
    if values == null {
      return NoStats;
    }
    var data := values[..];
    if |data| == 0 {
      return NoStats;
    }
    data := Sort(data);
    assert StatsOf(Some(values[..])) == StatsOfSorted(data);
    r := Describe(data);
  }

  /** The statistics of the sorted, non-empty copy: the rest of `basic_stats`. */
  method Describe(data: seq<real>) returns (r: Stats)
    requires data != [] && Sorted(data)
    ensures r == StatsOfSorted(data)
  {
    var total := Total(data);
    var mean := total / |data| as real;
    var n := |data|;
    var median: real;
    if n % 2 == 1 {
      median := data[n / 2];
      assert median == Median(data);
    } else {
      var mid := n / 2;
      median := (data[mid - 1] + data[mid]) / 2.0;
      assert median == Median(data);
    }
    var maxCount := MaxCount(data);
    var mode: seq<real>;
    if maxCount == 1 {
      mode := [];
    } else {
      mode := WithCount(data, Distinct(data), maxCount);
    }
    assert mode == ModeOf(data);
    r := Stats(n, Some(data[0]), Some(data[n - 1]), Some(mean), Some(median), Some(mode));
    assert r == StatsOfSorted(data);
  }

  /** The `for x in data: total += float(x)` loop. */
  method Total(data: seq<real>) returns (total: real)
    ensures total == Sum(data)
  {
    total := 0.0;
    var i := 0;
    while i < |data|
      invariant 0 <= i <= |data|
      invariant total == Sum(data[..i])
    {
      assert data[..i + 1][..i] == data[..i];
      total := total + data[i];
      i := i + 1;
    }
    assert data[..i] == data;
  }

  // ---------------------------------------------------------------------
  // What the statistics mean
  // ---------------------------------------------------------------------

  /** None, or an empty list, gives count 0 and no statistics. */
  lemma EmptyStats(values: Option<seq<real>>)
    requires values.None? || values.value == []
    ensures StatsOf(values) == Stats(0, None, None, None, None, None)
  {
  }

  /** The count is the number of values; min and max are the smallest and the largest of them. */
  lemma CountMinMax(values: seq<real>)
    requires values != []
    ensures var st := StatsOf(Some(values));
      && st.count == |values|
      && st.min.Some? && st.max.Some?
      && (exists k :: 0 <= k < |values| && st.min.value == values[k])
      && (exists k :: 0 <= k < |values| && st.max.value == values[k])
      && (forall k :: 0 <= k < |values| ==> st.min.value <= values[k] <= st.max.value)
  {
    var data := Sort(values);
    assert StatsOf(Some(values)) == StatsOfSorted(data);
    SortedExtremes(values, data);
  }

  /** The ends of a sorted permutation are elements of the original and bound all of them. */
  lemma SortedExtremes(values: seq<real>, data: seq<real>)
    requires data != [] && Sorted(data) && multiset(data) == multiset(values)
    ensures data[0] in values && data[|data| - 1] in values
    ensures forall k :: 0 <= k < |values| ==> data[0] <= values[k] <= data[|data| - 1]
  {
    assert data[0] in multiset(values) && data[|data| - 1] in multiset(values);
    forall k | 0 <= k < |values| ensures data[0] <= values[k] <= data[|data| - 1] {
      assert values[k] in multiset(data);
      var j :| 0 <= j < |data| && data[j] == values[k];
    }
  }

  /** The median lies between the minimum and the maximum. */
  lemma MedianBetween(values: seq<real>)
    requires values != []
    ensures var st := StatsOf(Some(values));
      st.min.Some? && st.median.Some? && st.max.Some? && st.min.value <= st.median.value <= st.max.value
  {
    var data := Sort(values);
    assert StatsOf(Some(values)) == StatsOfSorted(data);
    MedianWithin(data);
  }

  lemma MedianWithin(data: seq<real>)
    requires data != [] && Sorted(data)
    ensures data[0] <= Median(data) <= data[|data| - 1]
  {
    var n := |data|;
    assert data[0] <= data[n / 2] <= data[n - 1];
    if n % 2 == 0 {
      assert data[0] <= data[n / 2 - 1] <= data[n - 1];
    }
  }

  lemma {:induction false} SumBetween(s: seq<real>, lo: real, hi: real)
    requires forall k :: 0 <= k < |s| ==> lo <= s[k] <= hi
    ensures |s| as real * lo <= Sum(s) <= |s| as real * hi
  {
    if s != [] {
      SumBetween(s[..|s| - 1], lo, hi);
    }
  }

  /** The mean (the sum over the count) also lies between the minimum and the maximum. */
  lemma MeanBetween(values: seq<real>)
    requires values != []
    ensures var st := StatsOf(Some(values));
      && st.mean == Some(Sum(Sort(values)) / st.count as real)
      && st.min.value <= st.mean.value <= st.max.value
  {
    var data := Sort(values);
    assert StatsOf(Some(values)) == StatsOfSorted(data);
    SortedBounds(data);
    MeanWithin(data, data[0], data[|data| - 1]);
  }

  /** Every element of sorted data lies between its first and its last. */
  lemma SortedBounds(data: seq<real>)
    requires data != [] && Sorted(data)
    ensures forall k :: 0 <= k < |data| ==> data[0] <= data[k] <= data[|data| - 1]
  {
    forall k | 0 <= k < |data| ensures data[0] <= data[k] <= data[|data| - 1] {
      if 0 < k < |data| - 1 {
        assert data[0] <= data[k] && data[k] <= data[|data| - 1];
      }
    }
  }

  lemma MeanWithin(data: seq<real>, lo: real, hi: real)
    requires data != [] && forall k :: 0 <= k < |data| ==> lo <= data[k] <= hi
    ensures lo <= Sum(data) / |data| as real <= hi
  {
    SumBetween(data, lo, hi);
    QuotientBetween(Sum(data), |data| as real, lo, hi);
  }

  lemma QuotientBetween(a: real, n: real, lo: real, hi: real)
    requires n > 0.0 && n * lo <= a <= n * hi
    ensures lo <= a / n <= hi
  {
    assert a / n * n == a;
  }

  /** No value occurs twice. */
  predicate AllDistinct(s: seq<real>)
  {
    forall i, j :: 0 <= i < j < |s| ==> s[i] != s[j]
  }

  lemma CountOfTwice(s: seq<real>, i: nat, j: nat)
    requires i < j < |s| && s[i] == s[j]
    ensures Count(s, s[i]) >= 2
  {
    assert s == s[..i] + [s[i]] + s[i + 1..j] + [s[j]] + s[j + 1..];
  }

  lemma {:induction false} CountOfDistinct(s: seq<real>, x: real)
    requires AllDistinct(s) && x in s
    ensures Count(s, x) == 1
  {
    var k :| 0 <= k < |s| && s[k] == x;
    var before, after := s[..k], s[k + 1..];
    assert x !in before by {
      forall j | 0 <= j < |before| ensures before[j] != x {
        assert before[j] == s[j];
      }
    }
    assert x !in after by {
      forall j | 0 <= j < |after| ensures after[j] != x {
        assert after[j] == s[k + 1 + j];
      }
    }
    assert s == before + [x] + after;
    assert multiset(s) == multiset(before) + multiset{x} + multiset(after);
  }

  /**
   * The mode list is empty exactly when all values are distinct; otherwise
   * it holds, in ascending order, exactly the values occurring the largest
   * number of times.
   */
  lemma ModeMeaning(values: seq<real>)
    requires values != []
    ensures var mode := ModeOf(Sort(values));
      && (mode == [] <==> AllDistinct(values))
      && (!AllDistinct(values) ==> forall x :: x in mode <==> x in values && Count(values, x) == MaxCount(values))
      && (forall i, j :: 0 <= i < j < |mode| ==> mode[i] < mode[j])
  {
    var data := Sort(values);
    var mode := ModeOf(data);
    var m := MaxCount(data);
    SameCounts(values, data);
    assert forall x :: x in data <==> x in values by {
      forall x ensures x in data <==> x in values {
        assert x in data <==> x in multiset(data);
      }
    }
    if AllDistinct(values) {
      forall k | 0 <= k < |data| ensures Count(data, data[k]) == 1 {
        CountOfDistinct(values, data[k]);
      }
      assert m == 1;
    } else {
      var i, j :| 0 <= i < j < |values| && values[i] == values[j];
      CountOfTwice(values, i, j);
      assert m >= 2;
      var k :| 0 <= k < |data| && Count(data, data[k]) == m;
      assert data[k] in Distinct(data);
      assert data[k] in mode;
    }
  }

  /** Sorting changes no count, so neither does it change the largest count. */
  lemma SameCounts(values: seq<real>, data: seq<real>)
    requires multiset(values) == multiset(data)
    ensures forall x :: Count(values, x) == Count(data, x)
    ensures MaxCount(values) == MaxCount(data)
  {
    CountsBelow(values, data);
    CountsBelow(data, values);
  }

  lemma CountsBelow(values: seq<real>, data: seq<real>)
    requires multiset(values) == multiset(data)
    ensures MaxCount(values) <= MaxCount(data)
  {
    if values != [] {
      var i :| 0 <= i < |values| && Count(values, values[i]) == MaxCount(values);
      assert values[i] in multiset(data);
      var j :| 0 <= j < |data| && data[j] == values[i];
      assert Count(data, data[j]) <= MaxCount(data);
    }
  }

  lemma SortedTail(t: seq<real>)
    requires t != [] && Sorted(t)
    ensures Sorted(t[1..])
  {
    var rest := t[1..];
    assert forall i :: 0 <= i < |rest| ==> rest[i] == t[i + 1];
  }

  /** Two sorted lists with the same elements are equal: `Sort(s)` is the only sorted permutation of `s`. */
  lemma {:induction false} SortedUnique(t: seq<real>, u: seq<real>)
    requires Sorted(t) && Sorted(u) && multiset(t) == multiset(u)
    ensures t == u
    decreases |t|
  {
    if t == [] {
      assert |u| == |multiset(u)| == 0;
    } else {
      SameHeads(t, u);
      TailMultiset(t);
      TailMultiset(u);
      SortedTail(t);
      SortedTail(u);
      SortedUnique(t[1..], u[1..]);
      assert t == [t[0]] + t[1..] && u == [u[0]] + u[1..];
    }
  }

  lemma TailMultiset(t: seq<real>)
    requires t != []
    ensures multiset(t[1..]) == multiset(t) - multiset{t[0]}
  {
    assert t == [t[0]] + t[1..];
  }

  /** Sorted lists with the same elements start with the same (smallest) element. */
  lemma SameHeads(t: seq<real>, u: seq<real>)
    requires Sorted(t) && Sorted(u) && multiset(t) == multiset(u) && t != []
    ensures u != [] && t[0] == u[0]
  {
    assert t[0] in multiset(u);
    assert u != [];
    assert u[0] in multiset(t);
    var i :| 0 <= i < |u| && u[i] == t[0];
    var j :| 0 <= j < |t| && t[j] == u[0];
    assert u[0] <= u[i] && t[0] <= t[j];
  }

  lemma SortExample(values: seq<real>, sorted: seq<real>)
    requires values == [3.0, 1.0, 2.0, 2.0] && sorted == [1.0, 2.0, 2.0, 3.0]
    ensures Sort(values) == sorted
  {
    assert Sorted(sorted);
    assert multiset(values) == multiset(sorted);
    SortedUnique(Sort(values), sorted);
  }

  /** With [3, 1, 2, 2]: count 4, min 1, max 3, median 2. */
  lemma ExampleStats(values: seq<real>)
    requires values == [3.0, 1.0, 2.0, 2.0]
    ensures var st := StatsOf(Some(values));
      st.count == 4 && st.min == Some(1.0) && st.max == Some(3.0) && st.median == Some(2.0)
  {
    var sorted := [1.0, 2.0, 2.0, 3.0];
    SortExample(values, sorted);
    SortedFields(values);
    assert Median(sorted) == 2.0 by {
      assert |sorted| % 2 == 0 && sorted[1] == 2.0 && sorted[2] == 2.0;
    }
  }

  lemma SortedFields(values: seq<real>)
    requires values != []
    ensures var st := StatsOf(Some(values)); var data := Sort(values);
      && st.count == |values| && st.min == Some(data[0]) && st.max == Some(data[|data| - 1])
      && st.median == Some(Median(data))
  {
  }
}
