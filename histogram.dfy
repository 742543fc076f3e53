/**
 * The counter helpers of datakube/data_utils.py (`counter_diff`, `delta_histogram`) and the
 * `delta_histogram` of datakube/df_utils.py. A data frame is a sequence of numeric columns whose
 * cells may be NaN; bin edges are exact rationals.
 */
module Histogram {
  import opened Wrappers
  import opened Seqs

  type Column = seq<Option<int>>

  /** `Series.diff()`: NaN in the first row and wherever either neighbour is NaN. */
  function Diff(col: Column): (d: Column)
    ensures |d| == |col|
    ensures |d| > 0 ==> d[0].None?
    ensures forall i | 1 <= i < |col| ::
      d[i] == if col[i].Some? && col[i - 1].Some? then Some(col[i].value - col[i - 1].value) else None
  {
    seq(|col|, i requires 0 <= i < |col| =>
      if i > 0 && col[i].Some? && col[i - 1].Some? then Some(col[i].value - col[i - 1].value) else None)
  }

  /** `df_diff[df_diff < 0] = 0` on one cell: a negative delta becomes 0, NaN stays NaN. */
  function ClampCell(v: Option<int>): Option<int>
  {
    if v.Some? && v.value < 0 then Some(0) else v
  }

  function Clamp(col: Column): (c: Column)
    ensures |c| == |col|
  {
    seq(|col|, i requires 0 <= i < |col| => ClampCell(col[i]))
  }

  /** The clamped first differences of one column. */
  function CounterDiffOf(col: Column): (d: Column)
    ensures |d| == |col|
  {
    Clamp(Diff(col))
  }

  /**
   * `counter_diff` keeps its promise: the first row is NaN; every later cell is NaN when either
   * neighbour is, and otherwise `max(0, x[i] - x[i-1])` — the increase of the counter, with a
   * reset (a decrease) counted as no increase; no cell is negative.
   */
  lemma CounterDiffAt(col: Column, i: nat)
    requires i < |col|
    ensures var d := CounterDiffOf(col);
      && (i == 0 ==> d[i].None?)
      && (i > 0 ==> (d[i].None? <==> col[i].None? || col[i - 1].None?))
      && (d[i].Some? ==> d[i].value >= 0)
      && (d[i].Some? && col[i].value >= col[i - 1].value ==> d[i].value == col[i].value - col[i - 1].value)
      && (d[i].Some? && col[i].value < col[i - 1].value ==> d[i].value == 0)
  {
  }

  /** The counter column of the test data: a reset from 14 to 11 and from 16 to 15 each count 0. */
  lemma CounterDiffExample()
    ensures CounterDiffOf([Some(-11), Some(14), Some(11), Some(12), Some(13), Some(16), Some(15), Some(16), Some(18), Some(20)])
         == [None, Some(25), Some(0), Some(1), Some(1), Some(3), Some(0), Some(1), Some(2), Some(2)]
  {
    var col := [Some(-11), Some(14), Some(11), Some(12), Some(13), Some(16), Some(15), Some(16), Some(18), Some(20)];
    var d := CounterDiffOf(col);
    assert d[1] == Some(25) && d[2] == Some(0) && d[6] == Some(0);
  }

  /**
   * `counter_diff(df)`, in place as the source does it: `df.diff()` into a fresh buffer, then every
   * negative cell overwritten with 0 one column at a time.
   */
  method CounterDiff(df: seq<Column>) returns (r: seq<Column>)
    ensures |r| == |df|
    ensures forall c | 0 <= c < |df| :: r[c] == CounterDiffOf(df[c])
  {
    r := [];
    for c := 0 to |df|
      invariant |r| == c
      invariant forall k | 0 <= k < c :: r[k] == CounterDiffOf(df[k])
    {
      var d := Diff(df[c]);
      var buf := new Option<int>[|d|](i requires 0 <= i < |d| => d[i]);
      ClampNegatives(buf);
      r := r + [buf[..]];
    }
  }

  /** The masked assignment `x[x < 0] = 0` on one column buffer. */
  method ClampNegatives(a: array<Option<int>>)
    modifies a
    ensures a[..] == Clamp(old(a[..]))
  {
    for i := 0 to a.Length
      invariant forall k | 0 <= k < i :: a[k] == ClampCell(old(a[k]))
      invariant forall k | i <= k < a.Length :: a[k] == old(a[k])
    {
      if a[i].Some? && a[i].value < 0 {
        a[i] := Some(0);
      }
    }
  }

  /** `deltas.loc[deltas[col] > baseline, col]`: the non-NaN cells above the baseline, in row order. */
  function Above(col: Column, baseline: int): (s: seq<int>)
  {
    if col == [] then []
    else
      var prev := Above(col[..|col| - 1], baseline);
      var v := col[|col| - 1];
      if v.Some? && v.value > baseline then prev + [v.value] else prev
  }

  /** An element is pooled from a column exactly when it is a non-NaN cell above the baseline. */
  lemma {:induction false} AboveMember(col: Column, baseline: int, x: int)
    ensures x in Above(col, baseline) <==> Some(x) in col && x > baseline
  {
    if col != [] {
      var init := col[..|col| - 1];
      AboveMember(init, baseline, x);
      assert col == init + [col[|col| - 1]];
    }
  }

  /** `pd.concat` of the columns' selections: the pool, column after column. */
  function Pool(df: seq<Column>, baseline: int): (s: seq<int>)
  {
    if df == [] then [] else Pool(df[..|df| - 1], baseline) + Above(df[|df| - 1], baseline)
  }

  lemma {:induction false} PoolMember(df: seq<Column>, baseline: int, x: int)
    ensures x in Pool(df, baseline) <==> x > baseline && exists c | 0 <= c < |df| :: Some(x) in df[c]
  {
    if df != [] {
      var n := |df| - 1;
      PoolMember(df[..n], baseline, x);
      AboveMember(df[n], baseline, x);
      assert forall c | 0 <= c < n :: df[..n][c] == df[c];
      if x > baseline && exists c | 0 <= c < |df| :: Some(x) in df[c] {
        var c :| 0 <= c < |df| && Some(x) in df[c];
        if c < n {
          assert Some(x) in df[..n][c];
        }
      }
    }
  }

  /**
   * The edges of `nbins` bins on `[0, dmax]`: the left ends of `pd.interval_range(0, dmax, nbins)`
   * followed by `dmax`.
   */
  function BinEdges(nbins: nat, dmax: int): (e: seq<real>)
    ensures |e| == nbins + 1
  {
    seq(nbins, k requires 0 <= k < nbins => (k as real) * (dmax as real) / (nbins as real)) + [dmax as real]
  }

  /** The edges start at 0 (with at least one bin), end at `dmax` and are equally spaced. */
  lemma BinEdgesShape(nbins: nat, dmax: int)
    ensures var e := BinEdges(nbins, dmax);
      && e[nbins] == dmax as real
      && (nbins > 0 ==> e[0] == 0.0)
      && forall k | 0 <= k < nbins :: e[k + 1] - e[k] == (dmax as real) / (nbins as real)
  {
    var e := BinEdges(nbins, dmax);
    forall k | 0 <= k < nbins ensures e[k + 1] - e[k] == (dmax as real) / (nbins as real) {
      var w := (dmax as real) / (nbins as real);
      assert (k as real) * (dmax as real) / (nbins as real) == (k as real) * w;
      if k + 1 < nbins {
        assert e[k + 1] == ((k + 1) as real) * w;
      } else {
        assert (nbins as real) * w == dmax as real;
      }
    }
  }

  /** The sorted pooled deltas and the bin edges handed to `np.histogram`. */
  datatype Hist = Hist(sample: seq<int>, edges: seq<real>)

  /**
   * An empty pool has no last element (`iloc[-1]` fails); a negative greatest delta makes the
   * intervals run backwards, which `interval_range` refuses.
   */
  datatype HistError = EmptySample | DecreasingEdges

  /** The histogram of a frame of deltas: pool, sort, take the last as `dmax`, build the edges. */
  function HistogramOf(deltas: seq<Column>, nbins: nat, baseline: int): (r: Result<Hist, HistError>)
  {
    var pool := Pool(deltas, baseline);
    IntLeTotal();
    var sorted := SortBy(pool, IntLe);
    if sorted == [] then Err(EmptySample)
    else
      var dmax := sorted[|sorted| - 1];
      if nbins > 0 && dmax < 0 then Err(DecreasingEdges)
      else Ok(Hist(sorted, BinEdges(nbins, dmax)))
  }

  /**
   * What the histogram promises: it fails exactly when nothing is pooled (or, with bins, when the
   * greatest pooled delta is negative); otherwise the sample is the pool sorted ascending — every
   * delta above the baseline in some column, each as often as it occurs — and the edges run from
   * 0 to the greatest pooled delta.
   */
  lemma HistogramSpec(deltas: seq<Column>, nbins: nat, baseline: int)
    ensures var pool, r := Pool(deltas, baseline), HistogramOf(deltas, nbins, baseline);
      && (r == Err(EmptySample) <==> pool == [])
      && (r == Err(DecreasingEdges) <==> pool != [] && nbins > 0 && forall x <- pool :: x < 0)
      && (r.Ok? ==>
            && multiset(r.value.sample) == multiset(pool)
            && (forall i, j | 0 <= i < j < |r.value.sample| :: r.value.sample[i] <= r.value.sample[j])
            && (forall x <- r.value.sample :: x > baseline && exists c | 0 <= c < |deltas| :: Some(x) in deltas[c])
            && r.value.edges == BinEdges(nbins, r.value.sample[|r.value.sample| - 1])
            && r.value.sample[|r.value.sample| - 1] in pool
            && (forall x <- pool :: x <= r.value.sample[|r.value.sample| - 1]))
  {
    HistogramErrors(deltas, nbins, baseline);
    HistogramOk(deltas, nbins, baseline);
  }

  lemma HistogramErrors(deltas: seq<Column>, nbins: nat, baseline: int)
    ensures var pool, r := Pool(deltas, baseline), HistogramOf(deltas, nbins, baseline);
      && (r == Err(EmptySample) <==> pool == [])
      && (r == Err(DecreasingEdges) <==> pool != [] && nbins > 0 && forall x <- pool :: x < 0)
  {
    var pool := Pool(deltas, baseline);
    IntLeTotal();
    var sorted := SortBy(pool, IntLe);
    if sorted != [] {
      SortedLastIsMax(sorted, pool);
      assert pool != [];
    } else {
      assert |pool| == |multiset(pool)| == 0;
    }
  }

  lemma HistogramOk(deltas: seq<Column>, nbins: nat, baseline: int)
    ensures var pool, r := Pool(deltas, baseline), HistogramOf(deltas, nbins, baseline);
      r.Ok? ==>
        && multiset(r.value.sample) == multiset(pool)
        && (forall i, j | 0 <= i < j < |r.value.sample| :: r.value.sample[i] <= r.value.sample[j])
        && (forall x <- r.value.sample :: x > baseline && exists c | 0 <= c < |deltas| :: Some(x) in deltas[c])
        && r.value.edges == BinEdges(nbins, r.value.sample[|r.value.sample| - 1])
        && r.value.sample[|r.value.sample| - 1] in pool
        && (forall x <- pool :: x <= r.value.sample[|r.value.sample| - 1])
  {
    var pool := Pool(deltas, baseline);
    IntLeTotal();
    var sorted := SortBy(pool, IntLe);
    if sorted != [] {
      SortedLastIsMax(sorted, pool);
      SortedPoolMembers(deltas, baseline, sorted);
    }
  }

  /** Whatever is a permutation of the pool holds only deltas above the baseline taken from some column. */
  lemma SortedPoolMembers(deltas: seq<Column>, baseline: int, sorted: seq<int>)
    requires multiset(sorted) == multiset(Pool(deltas, baseline))
    ensures forall x <- sorted :: x > baseline && exists c | 0 <= c < |deltas| :: Some(x) in deltas[c]
  {
    forall x <- sorted ensures x > baseline && exists c | 0 <= c < |deltas| :: Some(x) in deltas[c] {
      assert x in multiset(Pool(deltas, baseline));
      PoolMember(deltas, baseline, x);
    }
  }

  /** The last element of a sorted permutation is the greatest element of the original. */
  lemma SortedLastIsMax(sorted: seq<int>, pool: seq<int>)
    requires sorted != [] && multiset(sorted) == multiset(pool) && SortedBy(sorted, IntLe)
    ensures sorted[|sorted| - 1] in pool
    ensures forall x <- pool :: x <= sorted[|sorted| - 1]
  {
    var dmax := sorted[|sorted| - 1];
    assert dmax in multiset(pool);
    forall x <- pool ensures x <= dmax {
      assert x in multiset(sorted);
      var i :| 0 <= i < |sorted| && sorted[i] == x;
      assert i == |sorted| - 1 || IntLe(sorted[i], sorted[|sorted| - 1]);
    }
  }

  /** data_utils `delta_histogram`: the histogram of the clamped deltas. */
  function DeltaHistogram(df: seq<Column>, nbins: nat, baseline: int): Result<Hist, HistError>
  {
    HistogramOf(seq(|df|, c requires 0 <= c < |df| => CounterDiffOf(df[c])), nbins, baseline)
  }

  /** Clamped deltas are never negative, so the data_utils edges never run backwards. */
  lemma DeltaHistogramNeverBackwards(df: seq<Column>, nbins: nat, baseline: int)
    ensures DeltaHistogram(df, nbins, baseline) != Err(DecreasingEdges)
  {
    var deltas := seq(|df|, c requires 0 <= c < |df| => CounterDiffOf(df[c]));
    HistogramSpec(deltas, nbins, baseline);
    var pool := Pool(deltas, baseline);
    if pool != [] {
      var x := pool[0];
      PoolMember(deltas, baseline, x);
      var c :| 0 <= c < |deltas| && Some(x) in deltas[c];
      var i :| 0 <= i < |deltas[c]| && deltas[c][i] == Some(x);
      CounterDiffAt(df[c], i);
    }
  }

  /** df_utils `delta_histogram`: the histogram of the raw deltas, resets included. */
  function RawDeltaHistogram(df: seq<Column>, nbins: nat, baseline: int): Result<Hist, HistError>
  {
    HistogramOf(seq(|df|, c requires 0 <= c < |df| => Diff(df[c])), nbins, baseline)
  }

  /**
   * Without clamping, a negative baseline can pool only decreases, and then the df_utils variant
   * fails where the data_utils one does not: a counter going 5, 3 with baseline -5.
   */
  lemma RawDeltaHistogramBackwards()
    ensures RawDeltaHistogram([[Some(5), Some(3)]], 1, -5) == Err(DecreasingEdges)
    ensures DeltaHistogram([[Some(5), Some(3)]], 1, -5).Ok?
  {
    var df := [[Some(5), Some(3)]];
    var d := Diff(df[0]);
    assert d == [None, Some(-2)];
    var raw := seq(1, c requires 0 <= c < 1 => Diff(df[c]));
    assert raw == [d];
    assert Pool(raw, -5) == [-2] by {
      assert raw[..0] == [];
      assert d[..1] == [None] && d[..1][..0] == [];
      assert Above(d[..1], -5) == [];
      assert Above(d, -5) == [-2];
    }
    var cd := CounterDiffOf(df[0]);
    assert cd == [None, Some(0)];
    var clamped := seq(1, c requires 0 <= c < 1 => CounterDiffOf(df[c]));
    assert clamped == [cd];
    assert Pool(clamped, -5) == [0] by {
      assert clamped[..0] == [];
      assert cd[..1] == [None] && cd[..1][..0] == [];
    }
  }
}
