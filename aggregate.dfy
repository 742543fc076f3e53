/**
 * `aggregate_timeseries` (datakube/df_utils.py): every data frame's value column is reduced per
 * index entry with a pandas aggregation, the reduced series become the columns `prefix.0`,
 * `prefix.1`, ... of one frame on the union of their indices, the interior gaps of each column are
 * forward-filled and the frame is sorted by its index.
 */
module Aggregate {
  import opened Wrappers
  import opened Seqs
  import opened Text
  import Pivot

  /** One entry of a value column: its index (the offset in seconds) and its value, NaN as `None`. */
  datatype Point = Point(index: int, value: Option<int>)

  type Series = seq<Point>

  /**
   * The pandas reductions: like their SQL counterparts they skip NaN, but `sum` of nothing is 0
   * (its `min_count` is 0) where `min` and `max` of nothing are NaN.
   */
  function GroupAggregate(f: Pivot.AggFunc, vs: seq<Option<int>>): (r: Option<int>)
    ensures r.None? <==> f != Pivot.Sum && forall i | 0 <= i < |vs| :: vs[i].None?
    ensures (exists i | 0 <= i < |vs| :: vs[i].Some?) ==> r == Pivot.Aggregate(f, vs)
    ensures f == Pivot.Sum && (forall i | 0 <= i < |vs| :: vs[i].None?) ==> r == Some(0)
  {
    if f == Pivot.Sum then
      if exists i | 0 <= i < |vs| :: vs[i].Some? then
        Pivot.AggregateSum(vs);
        Some(Pivot.SumPresent(vs))
      else
        Pivot.SumPresentNone(vs);
        Some(Pivot.SumPresent(vs))
    else Pivot.Aggregate(f, vs)
  }

  function Indexes(s: Series): (r: seq<int>)
    ensures |r| == |s| && forall i | 0 <= i < |s| :: r[i] == s[i].index
  {
    seq(|s|, i requires 0 <= i < |s| => s[i].index)
  }

  /** The values of the entries at index `x`, in order. */
  function ValuesAt(s: Series, x: int): seq<Option<int>>
  {
    var ps := Filter(s, (p: Point) => p.index == x);
    seq(|ps|, i requires 0 <= i < |ps| => ps[i].value)
  }

  predicate StrictlyIncreasing(xs: seq<int>)
  {
    forall i, j | 0 <= i < j < |xs| :: xs[i] < xs[j]
  }

  function InsertUnique(x: int, s: seq<int>): (r: seq<int>)
    requires StrictlyIncreasing(s)
    ensures StrictlyIncreasing(r)
    ensures forall y :: y in r <==> y == x || y in s
  {
    if s == [] then [x]
    else if x < s[0] then [x] + s
    else if x == s[0] then s
    else
      assert s == [s[0]] + s[1..];
      var rest := InsertUnique(x, s[1..]);
      assert forall k | 0 <= k < |rest| :: s[0] < rest[k] by {
        forall k | 0 <= k < |rest| ensures s[0] < rest[k] {
          assert rest[k] in rest;
        }
      }
      [s[0]] + rest
  }

  /** The distinct values of `xs` in increasing order: the index `groupby` produces. */
  function SortedDistinct(xs: seq<int>): (r: seq<int>)
    ensures StrictlyIncreasing(r)
    ensures forall y :: y in r <==> y in xs
  {
    if xs == [] then []
    else
      assert xs == xs[..|xs| - 1] + [xs[|xs| - 1]];
      InsertUnique(xs[|xs| - 1], SortedDistinct(xs[..|xs| - 1]))
  }

  /** `df[value].groupby(level=0).aggregate(f)`: one entry per distinct index, in increasing order. */
  function Grouped(s: Series, f: Pivot.AggFunc): (g: Series)
  {
    var ks := SortedDistinct(Indexes(s));
    seq(|ks|, i requires 0 <= i < |ks| => Point(ks[i], GroupAggregate(f, ValuesAt(s, ks[i]))))
  }

  /** What the reduced series holds at `x`, independently of how it is laid out: NaN off its index. */
  function Reduced(s: Series, f: Pivot.AggFunc, x: int): Option<int>
  {
    if x in Indexes(s) then GroupAggregate(f, ValuesAt(s, x)) else None
  }

  /** The value a series holds at index `x` (alignment by label); NaN when `x` is not in its index. */
  function Lookup(g: Series, x: int): (v: Option<int>)
    ensures (forall i | 0 <= i < |g| :: g[i].index != x) ==> v.None?
  {
    if g == [] then None
    else if g[0].index == x then g[0].value
    else Lookup(g[1..], x)
  }

  lemma {:induction false} LookupAt(g: Series, x: int, i: nat)
    requires i < |g| && g[i].index == x
    requires forall j | 0 <= j < i :: g[j].index != x
    ensures Lookup(g, x) == g[i].value
  {
    if i > 0 {
      LookupAt(g[1..], x, i - 1);
    }
  }

  /** Aligning the reduced series at `x` gives exactly its aggregate there, NaN off its index. */
  lemma LookupGrouped(s: Series, f: Pivot.AggFunc, x: int)
    ensures Lookup(Grouped(s, f), x) == Reduced(s, f, x)
  {
    var ks := SortedDistinct(Indexes(s));
    var g := Grouped(s, f);
    if x in Indexes(s) {
      var i :| 0 <= i < |ks| && ks[i] == x;
      LookupAt(g, x, i);
    }
  }

  /** Every index of every series, series by series. */
  function AllIndexes(gs: seq<Series>): (r: seq<int>)
    ensures forall x :: x in r <==> exists c | 0 <= c < |gs| :: x in Indexes(gs[c])
  {
    if gs == [] then []
    else
      var n := |gs| - 1;
      var prev := AllIndexes(gs[..n]);
      assert forall c | 0 <= c < n :: gs[..n][c] == gs[c];
      prev + Indexes(gs[n])
  }

  /**
   * The index `pd.concat(axis=1)` builds: the union of the indices in order of first appearance
   * (the first series' index, then the new entries of each later one), not sorted.
   */
  function UnionInOrder(gs: seq<Series>): seq<int>
  {
    DedupBy(AllIndexes(gs), Identity)
  }

  function Identity(x: int): int { x }

  /** The union of the indices, sorted. */
  function SortedUnion(gs: seq<Series>): (r: seq<int>)
    ensures StrictlyIncreasing(r)
    ensures forall x :: x in r <==> exists c | 0 <= c < |gs| :: x in Indexes(gs[c])
  {
    SortedDistinct(AllIndexes(gs))
  }

  /** A row of the combined frame: its index and one cell per series. */
  datatype Line = Line(index: int, cells: seq<Option<int>>)

  function LineIndexes(lines: seq<Line>): (r: seq<int>)
    ensures |r| == |lines| && forall i | 0 <= i < |lines| :: r[i] == lines[i].index
  {
    seq(|lines|, i requires 0 <= i < |lines| => lines[i].index)
  }

  /** A data frame: its column names and its rows. */
  datatype Frame = Frame(columns: seq<string>, lines: seq<Line>)

  predicate Rect(lines: seq<Line>, n: nat)
  {
    forall r | 0 <= r < |lines| :: |lines[r].cells| == n
  }

  /** The series side by side on `index`, each aligned by label. */
  function Aligned(gs: seq<Series>, index: seq<int>): (lines: seq<Line>)
    ensures |lines| == |index| && Rect(lines, |gs|)
  {
    seq(|index|, r requires 0 <= r < |index| =>
      Line(index[r], seq(|gs|, c requires 0 <= c < |gs| => Lookup(gs[c], index[r]))))
  }

  function ColumnOf(lines: seq<Line>, n: nat, c: nat): (col: seq<Option<int>>)
    requires Rect(lines, n) && c < n
    ensures |col| == |lines|
  {
    seq(|lines|, r requires 0 <= r < |lines| => lines[r].cells[c])
  }

  /**
   * `ffill(limit_area="inside")` on one column: a NaN with a value somewhere after it takes the
   * last value before it; leading and trailing NaN stay.
   */
  function FillInside(col: seq<Option<int>>): (r: seq<Option<int>>)
    ensures |r| == |col|
  {
    seq(|col|, i requires 0 <= i < |col| =>
      if col[i].Some? || LastSome(col[i + 1..]).None? then col[i] else LastSome(col[..i]))
  }

  /**
   * The meaning of the inside fill at one position: values stay, a NaN before the first or after
   * the last value stays, and any other NaN becomes the nearest value before it.
   */
  lemma FillInsideAt(col: seq<Option<int>>, i: nat)
    requires i < |col|
    ensures col[i].Some? ==> FillInside(col)[i] == col[i]
    ensures col[i].None? && (forall j | 0 <= j < i :: col[j].None?) ==> FillInside(col)[i].None?
    ensures col[i].None? && (forall j | i < j < |col| :: col[j].None?) ==> FillInside(col)[i].None?
    ensures col[i].None? && (exists j | 0 <= j < i :: col[j].Some?) && (exists j | i < j < |col| :: col[j].Some?) ==>
      exists j | 0 <= j < i :: col[j].Some? && FillInside(col)[i] == col[j] && forall k | j < k < i :: col[k].None?
  {
    LastSomeSlice(col, 0, i);
    LastSomeSlice(col, i + 1, |col|);
    assert col[..i] == col[0..i];
  }

  /** Every column of the frame filled inside. */
  function FillColumns(lines: seq<Line>, n: nat): (r: seq<Line>)
    requires Rect(lines, n)
    ensures |r| == |lines| && Rect(r, n)
    ensures forall i | 0 <= i < |r| :: r[i].index == lines[i].index
  {
    seq(|lines|, i requires 0 <= i < |lines| =>
      Line(lines[i].index, seq(n, c requires 0 <= c < n => FillInside(ColumnOf(lines, n, c))[i])))
  }

  function Groups(dfs: seq<Series>, f: Pivot.AggFunc): (gs: seq<Series>)
    ensures |gs| == |dfs|
  {
    seq(|dfs|, i requires 0 <= i < |dfs| => Grouped(dfs[i], f))
  }

  /** The column names `prefix.0`, `prefix.1`, ... */
  function Keys(prefix: string, n: nat): (ks: seq<string>)
    ensures |ks| == n
  {
    seq(n, i requires 0 <= i < n => Dotted(prefix, i))
  }

  function LineLe(a: Line, b: Line): bool
  {
    a.index <= b.index
  }

  lemma LineLeTotal()
    ensures TotalPreorder(LineLe)
  {
  }

  /**
   * The frame `aggregate_timeseries` returns as written, for a non-empty list of frames: the inside
   * fill runs on the unsorted union, then the rows are sorted.
   */
  function AggregateAsWritten(dfs: seq<Series>, prefix: string, f: Pivot.AggFunc): Frame
  {
    var gs := Groups(dfs, f);
    LineLeTotal();
    Frame(Keys(prefix, |dfs|), SortBy(FillColumns(Aligned(gs, UnionInOrder(gs)), |gs|), LineLe))
  }

  /** The frame `aggregate_timeseries` is meant to return for a non-empty list: the inside fill runs along increasing time. */
  function AggregateTimeseriesOf(dfs: seq<Series>, prefix: string, f: Pivot.AggFunc): Frame
  {
    var gs := Groups(dfs, f);
    Frame(Keys(prefix, |dfs|), FillColumns(Aligned(gs, SortedUnion(gs)), |gs|))
  }

  lemma GroupsStep(dfs: seq<Series>, prefix: string, i: nat, f: Pivot.AggFunc)
    requires i < |dfs|
    ensures Groups(dfs[..i + 1], f) == Groups(dfs[..i], f) + [Grouped(dfs[i], f)]
    ensures Keys(prefix, i + 1) == Keys(prefix, i) + [Dotted(prefix, i)]
  {
  }

  /** `pd.concat` of an empty list raises `ValueError("No objects to concatenate")`. */
  datatype AggError = NoObjectsToConcatenate

  /**
   * The loop of `aggregate_timeseries`, collecting the reduced series and their names, then the
   * concatenation, which fails on an empty list of frames.
   */
  method AggregateTimeseries(dfs: seq<Series>, prefix: string, f: Pivot.AggFunc) returns (r: Result<Frame, AggError>)
    ensures r.Err? <==> dfs == []
    ensures r.Ok? ==> r.value == AggregateTimeseriesOf(dfs, prefix, f)
  {
    var data: seq<Series> := [];
    var keys: seq<string> := [];
    for i := 0 to |dfs|
      invariant data == Groups(dfs[..i], f)
      invariant keys == Keys(prefix, i)
    {
      GroupsStep(dfs, prefix, i, f);
      data := data + [Grouped(dfs[i], f)];
      keys := keys + [Dotted(prefix, i)];
    }
    assert dfs[..|dfs|] == dfs;
    if data == [] {
      return Err(NoObjectsToConcatenate);
    }
    r := Ok(Frame(keys, FillColumns(Aligned(data, SortedUnion(data)), |data|)));
  }

  /**
   * The frame's shape: one distinctly named column per input frame; the rows are in strictly
   * increasing index order and their indices are exactly the indices of the inputs.
   */
  lemma AggregateShape(dfs: seq<Series>, prefix: string, f: Pivot.AggFunc)
    ensures var t := AggregateTimeseriesOf(dfs, prefix, f);
      && |t.columns| == |dfs|
      && (forall i, j | 0 <= i < j < |dfs| :: t.columns[i] != t.columns[j])
      && Rect(t.lines, |dfs|)
      && (forall i, j | 0 <= i < j < |t.lines| :: t.lines[i].index < t.lines[j].index)
      && (forall x :: x in LineIndexes(t.lines) <==> exists c | 0 <= c < |dfs| :: x in Indexes(dfs[c]))
  {
    var t := AggregateTimeseriesOf(dfs, prefix, f);
    var gs := Groups(dfs, f);
    var u := SortedUnion(gs);
    forall i, j | 0 <= i < j < |dfs| ensures t.columns[i] != t.columns[j] {
      if t.columns[i] == t.columns[j] {
        DottedInjective(prefix, i, j);
      }
    }
    forall c | 0 <= c < |dfs| ensures forall x :: x in Indexes(gs[c]) <==> x in Indexes(dfs[c]) {
      assert Indexes(gs[c]) == SortedDistinct(Indexes(dfs[c]));
    }
    assert LineIndexes(t.lines) == u;
  }

  /** The cells of column `c` before the fill, read straight off the input: its reduced values in index order. */
  function RawColumn(dfs: seq<Series>, f: Pivot.AggFunc, c: nat): (col: seq<Option<int>>)
    requires c < |dfs|
  {
    var u := SortedUnion(Groups(dfs, f));
    seq(|u|, r requires 0 <= r < |u| => Reduced(dfs[c], f, u[r]))
  }

  lemma RawColumnIs(dfs: seq<Series>, f: Pivot.AggFunc, c: nat)
    requires c < |dfs|
    ensures var gs := Groups(dfs, f);
      ColumnOf(Aligned(gs, SortedUnion(gs)), |gs|, c) == RawColumn(dfs, f, c)
  {
    var gs := Groups(dfs, f);
    var u := SortedUnion(gs);
    forall r | 0 <= r < |u| ensures Lookup(gs[c], u[r]) == Reduced(dfs[c], f, u[r]) {
      LookupGrouped(dfs[c], f, u[r]);
    }
  }

  /**
   * A cell of the frame: the aggregate of its series at that index when there is one; a gap
   * before the series' first or after its last value stays NaN; any other gap carries the series'
   * latest value at an earlier index.
   */
  lemma AggregateCell(dfs: seq<Series>, prefix: string, f: Pivot.AggFunc, r: nat, c: nat)
    requires c < |dfs| && r < |AggregateTimeseriesOf(dfs, prefix, f).lines|
    ensures var t := AggregateTimeseriesOf(dfs, prefix, f);
      var raw := RawColumn(dfs, f, c);
      var v := t.lines[r].cells[c];
      && |raw| == |t.lines|
      && (forall k | 0 <= k < |raw| :: raw[k] == Reduced(dfs[c], f, t.lines[k].index))
      && (raw[r].Some? ==> v == raw[r])
      && (raw[r].None? && (forall k | 0 <= k < r :: raw[k].None?) ==> v.None?)
      && (raw[r].None? && (forall k | r < k < |raw| :: raw[k].None?) ==> v.None?)
      && (raw[r].None? && (exists k | 0 <= k < r :: raw[k].Some?) && (exists k | r < k < |raw| :: raw[k].Some?) ==>
            exists k | 0 <= k < r :: raw[k].Some? && v == raw[k] && forall m | k < m < r :: raw[m].None?)
  {
    RawColumnIs(dfs, f, c);
    FillInsideAt(RawColumn(dfs, f, c), r);
  }

  lemma {:induction false} InsertUniqueLast(x: int, s: seq<int>)
    requires StrictlyIncreasing(s) && forall k | 0 <= k < |s| :: s[k] < x
    ensures InsertUnique(x, s) == s + [x]
  {
    if s != [] {
      InsertUniqueLast(x, s[1..]);
    }
  }

  /** Already distinct and increasing indices are their own `groupby` index. */
  lemma {:induction false} SortedDistinctIncreasing(xs: seq<int>)
    requires StrictlyIncreasing(xs)
    ensures SortedDistinct(xs) == xs
  {
    if xs != [] {
      var n := |xs| - 1;
      SortedDistinctIncreasing(xs[..n]);
      InsertUniqueLast(xs[n], xs[..n]);
      assert xs[..n] + [xs[n]] == xs;
    }
  }

  /**
   * A series with one present value per index, in increasing index order, comes out of the
   * `groupby` unchanged, whatever the reduction.
   */
  lemma GroupedIncreasing(s: Series, f: Pivot.AggFunc)
    requires StrictlyIncreasing(Indexes(s))
    requires forall i | 0 <= i < |s| :: s[i].value.Some?
    ensures Grouped(s, f) == s
  {
    SortedDistinctIncreasing(Indexes(s));
    forall i | 0 <= i < |s| ensures GroupAggregate(f, ValuesAt(s, s[i].index)) == s[i].value {
      FilterSlice(s, (p: Point) => p.index == s[i].index, i, i + 1);
      assert ValuesAt(s, s[i].index) == [s[i].value];
      assert Pivot.Aggregate(f, [s[i].value]) == s[i].value;
    }
  }

  lemma FirstIn(s: seq<int>)
    ensures |s| > 0 ==> s[0] in s
  {
  }

  /** Two increasing sequences with the same elements are the same sequence. */
  lemma {:induction false} IncreasingUnique(a: seq<int>, b: seq<int>)
    requires StrictlyIncreasing(a) && StrictlyIncreasing(b)
    requires forall x :: x in a <==> x in b
    ensures a == b
  {
    if a == [] || b == [] {
      FirstIn(a);
      FirstIn(b);
    } else {
      assert a[0] in b && b[0] in a;
      assert a[0] == b[0];
      forall x ensures x in a[1..] <==> x in b[1..] {
        if x in a[1..] {
          assert x in b && x > a[0];
        }
        if x in b[1..] {
          assert x in a && x > b[0];
        }
      }
      IncreasingUnique(a[1..], b[1..]);
      assert a == [a[0]] + a[1..] && b == [b[0]] + b[1..];
    }
  }

  lemma {:induction false} InsertAfterAll(x: Line, s: seq<Line>)
    requires TotalPreorder(LineLe) && SortedBy(s, LineLe)
    requires forall k | 0 <= k < |s| :: s[k].index < x.index
    ensures Insert(x, s, LineLe) == s + [x]
  {
    if s != [] {
      InsertAfterAll(x, s[1..]);
    }
  }

  lemma SplitIncreasing(s: seq<Line>)
    requires s != [] && StrictlyIncreasing(LineIndexes(s))
    ensures var n := |s| - 1;
      && StrictlyIncreasing(LineIndexes(s[..n]))
      && (forall k | 0 <= k < n :: s[..n][k].index < s[n].index)
      && s[..n] + [s[n]] == s
  {
    var n := |s| - 1;
    assert LineIndexes(s[..n]) == LineIndexes(s)[..n];
    assert forall k | 0 <= k < n :: s[..n][k].index == LineIndexes(s)[k] && s[n].index == LineIndexes(s)[n];
  }

  /** Sorting rows already in increasing index order leaves them where they are. */
  lemma {:induction false} SortIncreasing(s: seq<Line>)
    requires TotalPreorder(LineLe)
    requires StrictlyIncreasing(LineIndexes(s))
    ensures SortBy(s, LineLe) == s
  {
    if s != [] {
      var n := |s| - 1;
      var init, last := s[..n], s[n];
      SplitIncreasing(s);
      SortIncreasing(init);
      InsertAfterAll(last, init);
      assert SortBy(s, LineLe) == Insert(last, SortBy(init, LineLe), LineLe);
    }
  }

  /** Both unions hold the same indices. */
  lemma UnionInOrderMembers(gs: seq<Series>)
    ensures forall x :: x in UnionInOrder(gs) <==> x in SortedUnion(gs)
  {
    var all := AllIndexes(gs);
    var u := UnionInOrder(gs);
    forall x ensures x in u <==> x in all {
      if x in all {
        var i :| 0 <= i < |all| && all[i] == x;
        assert HasKey(u, Identity, x) by { assert Identity(all[i]) == x; }
      }
    }
  }

  /**
   * When the union in order of first appearance happens to be increasing (for instance, when
   * every index is already in the first frame), the code as written computes the intended frame.
   */
  lemma AsWrittenWhenOrdered(dfs: seq<Series>, prefix: string, f: Pivot.AggFunc)
    requires StrictlyIncreasing(UnionInOrder(Groups(dfs, f)))
    ensures AggregateAsWritten(dfs, prefix, f) == AggregateTimeseriesOf(dfs, prefix, f)
  {
    var gs := Groups(dfs, f);
    var u := UnionInOrder(gs);
    assert u == SortedUnion(gs) by {
      UnionInOrderMembers(gs);
      IncreasingUnique(u, SortedUnion(gs));
    }
    var filled := FillColumns(Aligned(gs, u), |gs|);
    assert LineIndexes(filled) == u;
    LineLeTotal();
    SortIncreasing(filled);
  }

  /** Two frames whose indices interleave: the second series covers index 1, the first does not. */
  function GapExample(): seq<Series>
  {
    [[Point(0, Some(1)), Point(2, Some(3))], [Point(0, Some(5)), Point(1, Some(5)), Point(2, Some(5))]]
  }

  lemma GapExampleGroups(d: seq<Series>, f: Pivot.AggFunc)
    requires d == GapExample()
    ensures Groups(d, f) == d
  {
    GroupedIncreasing(d[0], f);
    GroupedIncreasing(d[1], f);
  }

  lemma GapExampleAll(d: seq<Series>)
    requires d == GapExample()
    ensures AllIndexes(d) == [0, 2, 0, 1, 2]
  {
    assert AllIndexes(d[..1]) == [0, 2] by {
      assert d[..1][..0] == [];
    }
    assert d[..1] == d[..|d| - 1];
  }

  /** Appending an index not seen before adds it to the union. */
  lemma UnionAppendNew(s: seq<int>, x: int, r: seq<int>)
    requires DedupBy(s, Identity) == r && x !in s
    ensures DedupBy(s + [x], Identity) == r + [x]
  {
    var t := s + [x];
    assert t[..|t| - 1] == s && t[|t| - 1] == x;
  }

  /** Appending an index seen before leaves the union as it was. */
  lemma UnionAppendOld(s: seq<int>, x: int, r: seq<int>)
    requires DedupBy(s, Identity) == r && x in s
    ensures DedupBy(s + [x], Identity) == r
  {
    var t := s + [x];
    assert t[..|t| - 1] == s && t[|t| - 1] == x;
    var i :| 0 <= i < |s| && s[i] == x;
    assert Identity(s[i]) == x;
  }

  lemma GapExampleDedupPrefix(a: int, b: int)
    requires a != b
    ensures DedupBy([a] + [b] + [a], Identity) == [a] + [b]
  {
    assert DedupBy([], Identity) == [];
    UnionAppendNew([], a, []);
    assert [] + [a] == [a];
    UnionAppendNew([a], b, [a]);
    UnionAppendOld([a] + [b], a, [a] + [b]);
  }

  lemma GapExampleDedup(xs: seq<int>, a: int, b: int, c: int)
    requires xs == [a, b, a, c, b] && a != b && a != c && b != c
    ensures DedupBy(xs, Identity) == [a, b, c]
  {
    var s3, r2 := [a] + [b] + [a], [a] + [b];
    GapExampleSeqs(xs, a, b, c);
    GapExampleDedupPrefix(a, b);
    UnionAppendNew(s3, c, r2);
    UnionAppendOld(s3 + [c], b, r2 + [c]);
  }

  lemma GapExampleSeqs(xs: seq<int>, a: int, b: int, c: int)
    requires xs == [a, b, a, c, b]
    ensures xs == [a] + [b] + [a] + [c] + [b]
    ensures [a] + [b] + [c] == [a, b, c]
  {
  }

  lemma GapExampleSorted(xs: seq<int>)
    requires xs == [0, 2, 0, 1, 2]
    ensures SortedDistinct(xs) == [0, 1, 2]
  {
    assert SortedDistinct(xs[..2]) == [0, 2] by {
      SortedDistinctIncreasing(xs[..2]);
    }
    assert SortedDistinct(xs[..3]) == [0, 2] by {
      assert xs[..3][..2] == xs[..2];
    }
    assert SortedDistinct(xs[..4]) == [0, 1, 2] by {
      assert xs[..4][..3] == xs[..3];
      var s: seq<int> := [0, 2];
      assert InsertUnique(1, s) == [0, 1, 2] by {
        assert s[1..] == [2];
      }
    }
    assert xs[..4] == xs[..|xs| - 1];
    var s: seq<int> := [0, 1, 2];
    assert InsertUnique(2, s) == s by {
      assert s[1..] == [1, 2];
      assert s[1..][1..] == [2];
    }
  }

  lemma GapExampleUnions(d: seq<Series>)
    requires d == GapExample()
    ensures UnionInOrder(d) == [0, 2, 1]
    ensures SortedUnion(d) == [0, 1, 2]
  {
    GapExampleAll(d);
    GapExampleDedup(AllIndexes(d), 0, 2, 1);
    GapExampleSorted(AllIndexes(d));
  }

  /** Column 0 of the example, in the order the fill sees it. */
  lemma GapExampleFills()
    ensures FillInside([Some(1), Some(3), None]) == [Some(1), Some(3), None]
    ensures FillInside([Some(1), None, Some(3)]) == [Some(1), Some(1), Some(3)]
  {
    var a: seq<Option<int>> := [Some(1), Some(3), None];
    assert a[3..] == [];
    var b: seq<Option<int>> := [Some(1), None, Some(3)];
    assert b[2..] == [Some(3)] && b[..1] == [Some(1)];
    assert LastSome(b[..1]) == Some(1);
  }

  lemma GapExampleAligned(d: seq<Series>, index: seq<int>)
    requires d == GapExample() && |index| == 3
    ensures forall r | 0 <= r < 3 :: Aligned(d, index)[r] == Line(index[r], [Lookup(d[0], index[r]), Lookup(d[1], index[r])])
  {
  }

  lemma GapExampleLookups(d: seq<Series>)
    requires d == GapExample()
    ensures Lookup(d[0], 0) == Some(1) && Lookup(d[0], 1) == None && Lookup(d[0], 2) == Some(3)
    ensures Lookup(d[1], 0) == Some(5) && Lookup(d[1], 1) == Some(5) && Lookup(d[1], 2) == Some(5)
  {
    assert d[0][1..] == [Point(2, Some(3))];
    assert d[1][1..] == [Point(1, Some(5)), Point(2, Some(5))];
    assert d[1][1..][1..] == [Point(2, Some(5))];
  }

  /** Filling the columns of a two-column frame whose columns are known. */
  lemma FillTwoColumns(lines: seq<Line>, a: seq<Option<int>>, b: seq<Option<int>>)
    requires Rect(lines, 2) && |a| == |b| == |lines|
    requires forall r | 0 <= r < |lines| :: lines[r].cells == [a[r], b[r]]
    ensures forall r | 0 <= r < |lines| :: FillColumns(lines, 2)[r] == Line(lines[r].index, [FillInside(a)[r], FillInside(b)[r]])
  {
    assert ColumnOf(lines, 2, 0) == a;
    assert ColumnOf(lines, 2, 1) == b;
  }

  lemma GapExampleAlignedAt(gs: seq<Series>, index: seq<int>, a: int, b: int, c: int)
    requires gs == GapExample() && index == [a, b, c]
    ensures Aligned(gs, index) == [
      Line(a, [Lookup(gs[0], a), Lookup(gs[1], a)]),
      Line(b, [Lookup(gs[0], b), Lookup(gs[1], b)]),
      Line(c, [Lookup(gs[0], c), Lookup(gs[1], c)])]
  {
    GapExampleAligned(gs, index);
  }

  lemma GapExampleAlignedInOrder(d: seq<Series>, f: Pivot.AggFunc)
    requires d == GapExample()
    ensures var gs := Groups(d, f);
      Aligned(gs, UnionInOrder(gs)) == [Line(0, [Some(1), Some(5)]), Line(2, [Some(3), Some(5)]), Line(1, [None, Some(5)])]
  {
    var gs := Groups(d, f);
    assert gs == d by {
      GapExampleGroups(d, f);
    }
    GapExampleUnions(d);
    GapExampleAlignedAt(d, UnionInOrder(d), 0, 2, 1);
    GapExampleLookups(d);
  }

  lemma GapExampleFilledInOrder(lines: seq<Line>)
    requires lines == [Line(0, [Some(1), Some(5)]), Line(2, [Some(3), Some(5)]), Line(1, [None, Some(5)])]
    ensures FillColumns(lines, 2) == lines
  {
    var five: seq<Option<int>> := [Some(5), Some(5), Some(5)];
    FillTwoColumns(lines, [Some(1), Some(3), None], five);
    GapExampleFills();
    assert FillInside(five) == five;
  }

  lemma GapExampleAsWritten(d: seq<Series>, f: Pivot.AggFunc)
    requires d == GapExample()
    ensures AggregateAsWritten(d, "m", f).lines
      == [Line(0, [Some(1), Some(5)]), Line(1, [None, Some(5)]), Line(2, [Some(3), Some(5)])]
  {
    var l0, l1, l2 := Line(0, [Some(1), Some(5)]), Line(1, [None, Some(5)]), Line(2, [Some(3), Some(5)]);
    var gs := Groups(d, f);
    var lines := Aligned(gs, UnionInOrder(gs));
    GapExampleAlignedInOrder(d, f);
    GapExampleFilledInOrder(lines);
    SortExample(lines, l0, l1, l2);
  }

  lemma SortExample(s: seq<Line>, l0: Line, l1: Line, l2: Line)
    requires s == [l0, l2, l1] && l0.index == 0 && l1.index == 1 && l2.index == 2
    ensures TotalPreorder(LineLe) && SortBy(s, LineLe) == [l0, l1, l2]
  {
    LineLeTotal();
    assert s[..2] == [l0, l2];
    assert s[..2][..1] == [l0];
    assert [l0][..0] == [];
    assert SortBy([l0], LineLe) == [l0];
    assert SortBy([l0, l2], LineLe) == [l0, l2] by {
      assert [l0, l2][..1] == [l0];
    }
    assert [l0, l2][1..] == [l2];
  }

  lemma GapExampleAlignedSorted(d: seq<Series>, f: Pivot.AggFunc)
    requires d == GapExample()
    ensures var gs := Groups(d, f);
      Aligned(gs, SortedUnion(gs)) == [Line(0, [Some(1), Some(5)]), Line(1, [None, Some(5)]), Line(2, [Some(3), Some(5)])]
  {
    var gs := Groups(d, f);
    assert gs == d by {
      GapExampleGroups(d, f);
    }
    GapExampleUnions(d);
    GapExampleAlignedAt(d, SortedUnion(d), 0, 1, 2);
    GapExampleLookups(d);
  }

  lemma GapExampleFilledSorted(lines: seq<Line>)
    requires lines == [Line(0, [Some(1), Some(5)]), Line(1, [None, Some(5)]), Line(2, [Some(3), Some(5)])]
    ensures FillColumns(lines, 2) == [Line(0, [Some(1), Some(5)]), Line(1, [Some(1), Some(5)]), Line(2, [Some(3), Some(5)])]
  {
    var five: seq<Option<int>> := [Some(5), Some(5), Some(5)];
    FillTwoColumns(lines, [Some(1), None, Some(3)], five);
    GapExampleFills();
    assert FillInside(five) == five;
  }

  lemma GapExampleIntended(d: seq<Series>, f: Pivot.AggFunc)
    requires d == GapExample()
    ensures AggregateTimeseriesOf(d, "m", f).lines
      == [Line(0, [Some(1), Some(5)]), Line(1, [Some(1), Some(5)]), Line(2, [Some(3), Some(5)])]
  {
    var gs := Groups(d, f);
    GapExampleAlignedSorted(d, f);
    GapExampleFilledSorted(Aligned(gs, SortedUnion(gs)));
  }

  /**
   * The fill as written sees the first series' column in the order `0, 2, 1`, where the gap at
   * index 1 trails, so it stays NaN after sorting; filled along time it takes the value at 0.
   */
  lemma FillBeforeSortLeavesGap(d: seq<Series>, f: Pivot.AggFunc)
    requires d == GapExample()
    ensures var t := AggregateAsWritten(d, "m", f).lines; |t| == 3 && t[1] == Line(1, [None, Some(5)])
    ensures var t := AggregateTimeseriesOf(d, "m", f).lines; |t| == 3 && t[1] == Line(1, [Some(1), Some(5)])
  {
    GapExampleAsWritten(d, f);
    GapExampleIntended(d, f);
  }
}
