/**
 * The pandas helpers of datakube/df_utils.py: `sanitize`, `partition_and_normalize` and
 * `extract_labels_to_columns`. Timestamps are epoch milliseconds.
 */
module DfUtils {
  import opened Wrappers
  import opened Seqs
  import opened Text
  import Normalize

  /** `dt.floor("1s")` on an epoch-millisecond timestamp (towards the past, also before 1970). */
  function FloorToSecond(ms: int): (f: int)
    ensures f % 1000 == 0
    ensures f <= ms < f + 1000
  {
    (ms / 1000) * 1000
  }

  /** Flooring is the identity on whole seconds, so it is idempotent. */
  lemma FloorToSecondIdempotent(ms: int)
    ensures FloorToSecond(FloorToSecond(ms)) == FloorToSecond(ms)
    ensures ms % 1000 == 0 ==> FloorToSecond(ms) == ms
  {
    var f := FloorToSecond(ms);
    assert f == (f / 1000) * 1000;
  }

  function FloorAll(ts: seq<int>): (r: seq<int>)
    ensures |r| == |ts|
  {
    seq(|ts|, i requires 0 <= i < |ts| => FloorToSecond(ts[i]))
  }

  /** Sanitizing sanitized timestamps changes nothing. */
  lemma SanitizeIdempotent(ts: seq<int>)
    ensures FloorAll(FloorAll(ts)) == FloorAll(ts)
  {
    forall i | 0 <= i < |ts| ensures FloorAll(FloorAll(ts))[i] == FloorAll(ts)[i] {
      FloorToSecondIdempotent(ts[i]);
    }
  }

  /** `sanitize(df)`: the timestamp column overwritten in place with its whole seconds. */
  method Sanitize(ts: array<int>)
    modifies ts
    ensures ts[..] == FloorAll(old(ts[..]))
  {
    for i := 0 to ts.Length
      invariant forall k | 0 <= k < i :: ts[k] == FloorToSecond(old(ts[k]))
      invariant forall k | i <= k < ts.Length :: ts[k] == old(ts[k])
    {
      ts[i] := FloorToSecond(ts[i]);
    }
  }

  /** A data-frame row: its timestamp (ms), value and labels. */
  datatype DfRow = DfRow(timestamp: int, value: Option<int>, labels: Option<string>)

  /** A row of a partition, indexed by NORM_TS_KEY. */
  datatype Indexed = Indexed(index: int, row: DfRow)

  predicate InRange(sp: Normalize.Split, r: DfRow)
  {
    Normalize.InSplit(sp, r.timestamp)
  }

  /**
   * One partition: the rows with `start <= timestamp <= end` (`between` is inclusive), in order,
   * indexed by the whole seconds since `start`.
   */
  function PartitionOf(df: seq<DfRow>, sp: Normalize.Split): (p: seq<Indexed>)
  {
    var kept := Filter(df, r => InRange(sp, r));
    seq(|kept|, i requires 0 <= i < |kept| => Indexed((kept[i].timestamp - sp.start) / 1000, kept[i]))
  }

  /**
   * A partition holds exactly the rows of its split, and every index lies in
   * `[0, (end - start) / 1000]`: it counts from the split's start, not from the first row.
   */
  lemma PartitionMember(df: seq<DfRow>, sp: Normalize.Split, r: DfRow)
    ensures (exists e <- PartitionOf(df, sp) :: e.row == r) <==> r in df && sp.start <= r.timestamp <= sp.end
    ensures forall e <- PartitionOf(df, sp) ::
      e.index == (e.row.timestamp - sp.start) / 1000 && 0 <= e.index <= (sp.end - sp.start) / 1000
  {
    var kept := Filter(df, r => InRange(sp, r));
    var p := PartitionOf(df, sp);
    FilterMember(df, r => InRange(sp, r), r);
    if r in kept {
      var i :| 0 <= i < |kept| && kept[i] == r;
      assert p[i].row == r;
    }
    forall e <- p ensures 0 <= e.index <= (sp.end - sp.start) / 1000 {
      var i :| 0 <= i < |p| && p[i] == e;
      FilterMember(df, r => InRange(sp, r), kept[i]);
      DivMonotone(e.row.timestamp - sp.start, sp.end - sp.start);
    }
  }

  lemma DivMonotone(a: int, b: int)
    requires 0 <= a <= b
    ensures 0 <= a / 1000 <= b / 1000
  {
  }

  /**
   * `partition_and_normalize(df, splits)`: one partition per split, in split order, appended one
   * after the other; a row in several splits lands in each of them.
   */
  method PartitionAndNormalize(df: seq<DfRow>, splits: seq<Normalize.Split>) returns (parts: seq<seq<Indexed>>)
    ensures |parts| == |splits|
    ensures forall k | 0 <= k < |splits| :: parts[k] == PartitionOf(df, splits[k])
  {
    parts := [];
    for k := 0 to |splits|
      invariant |parts| == k
      invariant forall j | 0 <= j < k :: parts[j] == PartitionOf(df, splits[j])
    {
      var partition := PartitionOf(df, splits[k]);
      parts := parts + [partition];
    }
  }

  function Indices(p: seq<Indexed>): (r: seq<int>)
    ensures |r| == |p|
  {
    seq(|p|, i requires 0 <= i < |p| => p[i].index)
  }

  /**
   * Ten rows at 10 s .. 19 s split by `[11 s, 13 s]` and `[15 s, 18 s]`: three rows indexed
   * 0, 1, 2 and four rows indexed 0, 1, 2, 3.
   */
  lemma PartitionExample(df: seq<DfRow>)
    requires |df| == 10 && forall i | 0 <= i < 10 :: df[i].timestamp == 10000 + 1000 * i
    ensures Indices(PartitionOf(df, Normalize.Split(11000, 13000))) == [0, 1, 2]
    ensures Indices(PartitionOf(df, Normalize.Split(15000, 18000))) == [0, 1, 2, 3]
  {
    PartitionWindow(df, 1, 3);
    PartitionWindow(df, 5, 4);
  }

  /**
   * Rows one second apart from 10 s: the split from row `a` to row `a + n - 1` keeps those `n`
   * rows, indexed `0 .. n - 1`.
   */
  lemma PartitionWindow(df: seq<DfRow>, a: nat, n: nat)
    requires forall i | 0 <= i < |df| :: df[i].timestamp == 10000 + 1000 * i
    requires n > 0 && a + n <= |df|
    ensures Indices(PartitionOf(df, Normalize.Split(10000 + 1000 * a, 10000 + 1000 * (a + n - 1)))) == seq(n, i => i)
  {
    var sp := Normalize.Split(10000 + 1000 * a, 10000 + 1000 * (a + n - 1));
    var p := (r: DfRow) => InRange(sp, r);
    assert forall i | 0 <= i < |df| :: p(df[i]) <==> a <= i < a + n by {
      forall i | 0 <= i < |df| ensures p(df[i]) <==> a <= i < a + n {
        assert df[i].timestamp == 10000 + 1000 * i;
      }
    }
    FilterSlice(df, p, a, a + n);
    var kept := Filter(df, p);
    forall i | 0 <= i < n ensures Indices(PartitionOf(df, sp))[i] == i {
      assert kept[i] == df[a + i];
    }
  }

  /** The part of `u` before its first comma (all of `u` without one): `(.*?)(?:,|$)`. */
  function UpToComma(u: string): (v: string)
    ensures ',' !in v
    ensures IsPrefix(v, u)
    ensures |v| == |u| || u[|v|] == ','
  {
    if u == [] then []
    else if u[0] == ',' then []
    else [u[0]] + UpToComma(u[1..])
  }

  /**
   * `str.extract("label=(.*?)(?:,|$)")` on one cell: the text after the first occurrence of
   * `label=` up to the next comma or the end; NaN for a NaN cell or when `label=` is absent.
   */
  function ExtractLabel(cell: Option<string>, key: string): (v: Option<string>)
    ensures cell.None? ==> v.None?
    ensures cell.Some? ==> (v.None? <==> !Contains(cell.value, key + "="))
    ensures v.Some? ==> ',' !in v.value
    ensures v.Some? ==> exists p: nat ::
      && OccursAt(cell.value, key + "=", p)
      && (forall k: nat | k < p :: !OccursAt(cell.value, key + "=", k))
      && v.value == UpToComma(cell.value[p + |key| + 1..])
  {
    if cell.None? then None
    else
      var p := Find(cell.value, key + "=");
      if p.None? then None
      else Some(UpToComma(cell.value[p.value + |key| + 1..]))
  }

  /**
   * The search is not anchored at a key: asking for `name` in `owner_name=web,name=api` finds the
   * `name=` inside `owner_name=` and yields `web`.
   */
  lemma ExtractUnanchored()
    ensures ExtractLabel(Some("owner_name=web,name=api"), "name") == Some("web")
  {
    var s := "owner_name=web,name=api";
    assert UpToComma(s[11..]) == "web" by {
      assert s[11..] == "web,name=api";
      assert "web,name=api"[1..] == "eb,name=api";
      assert "eb,name=api"[1..] == "b,name=api";
    }
    assert ExtractLabel(Some(s), "name") == Some(UpToComma(s[11..])) by {
      FindNameInOwnerName();
    }
  }

  lemma FindNameInOwnerName()
    ensures Find("owner_name=web,name=api", "name" + "=") == Some(6)
  {
    var s := "owner_name=web,name=api";
    var t := "name" + "=";
    assert OccursAt(s, t, 6) by {
      assert s[6..11] == "name=";
    }
    forall k: nat | k < 6 ensures !OccursAt(s, t, k) {
      assert s[k + 4] != '=';
    }
    assert Contains(s, t);
  }

  function ExtractColumn(col: seq<Option<string>>, key: string): (r: seq<Option<string>>)
    ensures |r| == |col|
    ensures forall i | 0 <= i < |col| :: r[i] == ExtractLabel(col[i], key)
  {
    seq(|col|, i requires 0 <= i < |col| => ExtractLabel(col[i], key))
  }

  /** A single label name or a list of them; a single name is a one-element list. */
  datatype LabelSpec = One(name: string) | Many(names: seq<string>)

  function LabelList(spec: LabelSpec): (ls: seq<string>)
    ensures spec.One? ==> ls == [spec.name]
    ensures spec.Many? ==> ls == spec.names
  {
    match spec
    case One(name) => [name]
    case Many(names) => names
  }

  datatype FrameError = NoLabelsColumn

  /**
   * The string columns after extracting `labels` one after the other; each extraction reads the
   * `labels` column as it is at that moment, so extracting a label named `labels` replaces it.
   */
  function Extracted(columns: map<string, seq<Option<string>>>, labels: seq<string>): (r: map<string, seq<Option<string>>>)
    requires labels == [] || "labels" in columns
    ensures "labels" in columns ==> "labels" in r
    ensures r.Keys == columns.Keys + set l <- labels
  {
    if labels == [] then columns
    else
      var prev := Extracted(columns, labels[..|labels| - 1]);
      var l := labels[|labels| - 1];
      assert labels == labels[..|labels| - 1] + [l];
      prev[l := ExtractColumn(prev["labels"], l)]
  }

  /**
   * When no label is named `labels`, every requested label becomes the extraction of the original
   * `labels` column, the `labels` column is untouched, and every other column is kept.
   */
  lemma {:induction false} ExtractedSpec(columns: map<string, seq<Option<string>>>, labels: seq<string>)
    requires "labels" in columns && "labels" !in labels
    ensures var r := Extracted(columns, labels);
      && r["labels"] == columns["labels"]
      && (forall l <- labels :: r[l] == ExtractColumn(columns["labels"], l))
      && (forall c <- columns.Keys | c !in labels :: r[c] == columns[c])
  {
    if labels != [] {
      var init := labels[..|labels| - 1];
      ExtractedSpec(columns, init);
      assert labels == init + [labels[|labels| - 1]];
    }
  }

  /** The frame `extract_labels_to_columns` writes into: its string columns by name. */
  class LabelFrame {
    var columns: map<string, seq<Option<string>>>

    constructor (columns: map<string, seq<Option<string>>>)
      ensures this.columns == columns
    {
      this.columns := columns;
    }

    /**
     * `extract_labels_to_columns(df, labels)`: one new column per label, added to the caller's
     * frame; the first label read from a frame without a `labels` column raises a `KeyError` and
     * nothing is added, while an empty list never reads that column and leaves the frame as it is.
     */
    method ExtractLabelsToColumns(spec: LabelSpec) returns (r: Result<(), FrameError>)
      modifies this
      ensures r.Err? <==> LabelList(spec) != [] && "labels" !in old(columns)
      ensures r.Err? ==> columns == old(columns)
      ensures r.Ok? ==> columns == Extracted(old(columns), LabelList(spec))
    {
      var labels := LabelList(spec);
      if labels != [] && "labels" !in columns {
        return Err(NoLabelsColumn);
      }
      for i := 0 to |labels|
        invariant labels == [] || "labels" in columns
        invariant columns == Extracted(old(columns), labels[..i])
      {
        assert labels[..i + 1][..i] == labels[..i];
        columns := columns[labels[i] := ExtractColumn(columns["labels"], labels[i])];
      }
      assert labels[..|labels|] == labels;
      r := Ok(());
    }
  }
}
