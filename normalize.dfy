/**
 * The meaning of the SQL in `DataKubeRelation.partition_and_normalize` (datakube/data_utils.py):
 * a `CASE` that names each row after the first split containing its timestamp, and an offset from
 * the least timestamp among the rows carrying the same name.
 */
module Normalize {
  import opened Wrappers
  import opened Text
  import opened Rows

  /** A closed interval `[start, end]` of timestamps (SQL `BETWEEN` includes both ends). */
  datatype Split = Split(start: int, end: int)

  predicate InSplit(sp: Split, ts: int)
  {
    sp.start <= ts <= sp.end
  }

  /** The first `WHEN` branch that fires: the least `i` whose split contains `ts`. */
  function FirstSplit(splits: seq<Split>, ts: int): (r: Option<nat>)
    ensures r.None? <==> forall j | 0 <= j < |splits| :: !InSplit(splits[j], ts)
    ensures r.Some? ==> r.value < |splits| && InSplit(splits[r.value], ts)
    ensures r.Some? ==> forall j | 0 <= j < r.value :: !InSplit(splits[j], ts)
  {
    if splits == [] then None
    else if InSplit(splits[0], ts) then Some(0)
    else
      var rest := FirstSplit(splits[1..], ts);
      assert forall j | 1 <= j < |splits| :: splits[j] == splits[1..][j - 1];
      if rest.None? then None else Some(rest.value + 1)
  }

  /** The `CASE ... END` column: `prefix.i` for the first matching split, NULL when none matches. */
  function PartOf(splits: seq<Split>, prefix: string, ts: int): Option<string>
  {
    var i := FirstSplit(splits, ts);
    if i.Some? then Some(Dotted(prefix, i.value)) else None
  }

  /**
   * The least of the timestamps `ts[j]` whose partition `ps[j]` is `p`; NULL partitions form a
   * partition of their own, as `PARTITION BY` groups NULLs together.
   */
  function PartMin(ts: seq<int>, ps: seq<Option<string>>, p: Option<string>): (m: Option<int>)
    requires |ts| == |ps|
    ensures m.None? <==> forall j | 0 <= j < |ps| :: ps[j] != p
    ensures m.Some? ==> forall j | 0 <= j < |ps| && ps[j] == p :: m.value <= ts[j]
    ensures m.Some? ==> exists j | 0 <= j < |ps| :: ps[j] == p && ts[j] == m.value
  {
    if ts == [] then None
    else
      var n := |ts| - 1;
      var m := PartMin(ts[..n], ps[..n], p);
      assert forall j | 0 <= j < n :: ps[..n][j] == ps[j] && ts[..n][j] == ts[j];
      if ps[n] != p then m
      else if m.None? || ts[n] < m.value then Some(ts[n])
      else m
  }

  /** The partition column of every row. */
  function Parts(rows: seq<Row>, splits: seq<Split>, prefix: string): (ps: seq<Option<string>>)
    ensures |ps| == |rows|
  {
    seq(|rows|, i requires 0 <= i < |rows| => PartOf(splits, prefix, rows[i].timestamp))
  }

  function Timestamps(rows: seq<Row>): (ts: seq<int>)
    ensures |ts| == |rows|
  {
    seq(|rows|, i requires 0 <= i < |rows| => rows[i].timestamp)
  }

  /** `timestamp - min(timestamp) OVER (PARTITION BY prefix ORDER BY timestamp)` for row `i`. */
  function Offset(ts: seq<int>, ps: seq<Option<string>>, i: nat): int
    requires |ts| == |ps| && i < |ts|
  {
    var m := PartMin(ts, ps, ps[i]);
    assert m.Some?;
    ts[i] - m.value
  }

  datatype NormError = NoSplits

  /**
   * The relation after `partition_and_normalize(splits, prefix)`: every row kept, in order, with its
   * partition and offset. With no splits the `CASE` has no branch, which SQL refuses.
   */
  function Normalize(rows: seq<Row>, splits: seq<Split>, prefix: string): (r: Result<seq<Row>, NormError>)
    ensures r.Err? <==> splits == []
    ensures r.Ok? ==> |r.value| == |rows|
    ensures r.Ok? ==> forall i | 0 <= i < |rows| ::
      r.value[i] == rows[i].(norm := r.value[i].norm)
      && r.value[i].norm.Some?
      && r.value[i].norm.value.part == PartOf(splits, prefix, rows[i].timestamp)
  {
    if splits == [] then Err(NoSplits)
    else
      var ts, ps := Timestamps(rows), Parts(rows, splits, prefix);
      Ok(seq(|rows|, i requires 0 <= i < |rows| => rows[i].(norm := Some(Norm(ps[i], Offset(ts, ps, i))))))
  }

  /**
   * Offsets are never negative, and every partition that has rows has a row at offset 0: the
   * offset of a row is its distance from that partition's earliest row.
   */
  lemma NormalizeOffsets(rows: seq<Row>, splits: seq<Split>, prefix: string, i: nat)
    requires splits != [] && i < |rows|
    ensures var out := Normalize(rows, splits, prefix).value;
      && out[i].norm.value.offset >= 0
      && exists k | 0 <= k < |out| ::
           && out[k].norm.value.part == out[i].norm.value.part
           && out[k].norm.value.offset == 0
           && out[i].norm.value.offset == rows[i].timestamp - rows[k].timestamp
  {
    var out := Normalize(rows, splits, prefix).value;
    var ts, ps := Timestamps(rows), Parts(rows, splits, prefix);
    var m := PartMin(ts, ps, ps[i]);
    var k :| 0 <= k < |ps| && ps[k] == ps[i] && ts[k] == m.value;
    assert out[k].norm.value.offset == Offset(ts, ps, k);
  }

  /**
   * With pairwise disjoint splits the `CASE` order no longer matters: a row is named `prefix.i`
   * exactly when split `i` contains its timestamp, and it is NULL exactly when no split does.
   */
  lemma DisjointSplitsPart(splits: seq<Split>, prefix: string, ts: int, i: nat)
    requires forall a, b | 0 <= a < b < |splits| :: splits[a].end < splits[b].start || splits[b].end < splits[a].start
    requires i < |splits|
    ensures PartOf(splits, prefix, ts) == Some(Dotted(prefix, i)) <==> InSplit(splits[i], ts)
    ensures PartOf(splits, prefix, ts).None? <==> forall j | 0 <= j < |splits| :: !InSplit(splits[j], ts)
  {
    var f := FirstSplit(splits, ts);
    if PartOf(splits, prefix, ts) == Some(Dotted(prefix, i)) {
      DottedInjective(prefix, f.value, i);
    }
  }

  /** The partition of each of ten rows at seconds 10..19 under the splits `[11, 13]` and `[15, 18]`. */
  lemma ExampleParts(rows: seq<Row>, j: nat)
    requires |rows| == 10 && forall i | 0 <= i < 10 :: rows[i].timestamp == 10 + i
    requires j < 10
    ensures Parts(rows, [Split(11, 13), Split(15, 18)], "sim")[j]
         == if 1 <= j <= 3 then Some("sim.0") else if 5 <= j <= 8 then Some("sim.1") else None
  {
    var splits, ts := [Split(11, 13), Split(15, 18)], rows[j].timestamp;
    assert Dotted("sim", 0) == "sim.0" && Dotted("sim", 1) == "sim.1";
    assert ts == 10 + j;
    assert splits[1..] == [Split(15, 18)] && splits[1..][1..] == [];
    assert FirstSplit(splits, ts) == if 1 <= j <= 3 then Some(0) else if 5 <= j <= 8 then Some(1) else None;
  }

  /** A value of a partition's timestamps that no other of them undercuts is the partition's least. */
  lemma PartMinIs(ts: seq<int>, ps: seq<Option<string>>, p: Option<string>, k: nat)
    requires |ts| == |ps| && k < |ts| && ps[k] == p
    requires forall j | 0 <= j < |ps| && ps[j] == p :: ts[k] <= ts[j]
    ensures PartMin(ts, ps, p) == Some(ts[k])
  {
  }

  /** The least timestamp of each of the three partitions of the example. */
  lemma ExampleMins(rows: seq<Row>)
    requires |rows| == 10 && forall i | 0 <= i < 10 :: rows[i].timestamp == 10 + i
    ensures var ts, ps := Timestamps(rows), Parts(rows, [Split(11, 13), Split(15, 18)], "sim");
      && PartMin(ts, ps, Some("sim.0")) == Some(11)
      && PartMin(ts, ps, Some("sim.1")) == Some(15)
      && PartMin(ts, ps, None) == Some(10)
  {
    var ts, ps := Timestamps(rows), Parts(rows, [Split(11, 13), Split(15, 18)], "sim");
    forall j | 0 <= j < 10
      ensures ts[j] == 10 + j
      ensures ps[j] == if 1 <= j <= 3 then Some("sim.0") else if 5 <= j <= 8 then Some("sim.1") else None
    {
      ExampleParts(rows, j);
    }
    PartMinIs(ts, ps, Some("sim.0"), 1);
    PartMinIs(ts, ps, Some("sim.1"), 5);
    PartMinIs(ts, ps, None, 0);
  }

  /**
   * Ten rows at seconds 10..19 split by `[11, 13]` and `[15, 18]`: three rows named `sim.0` at
   * offsets 0, 1, 2, four rows named `sim.1` at offsets 0..3; the three rows outside both splits
   * keep a NULL name and are offsets from the earliest of them.
   */
  lemma NormalizeExample(rows: seq<Row>)
    requires |rows| == 10 && forall i | 0 <= i < 10 :: rows[i].timestamp == 10 + i
    ensures var out := Normalize(rows, [Split(11, 13), Split(15, 18)], "sim").value;
      forall i | 0 <= i < 10 :: out[i].norm.value ==
        if 1 <= i <= 3 then Norm(Some("sim.0"), i - 1)
        else if 5 <= i <= 8 then Norm(Some("sim.1"), i - 5)
        else Norm(None, i)
  {
    forall i | 0 <= i < 10
      ensures Normalize(rows, [Split(11, 13), Split(15, 18)], "sim").value[i].norm.value ==
        if 1 <= i <= 3 then Norm(Some("sim.0"), i - 1)
        else if 5 <= i <= 8 then Norm(Some("sim.1"), i - 5)
        else Norm(None, i)
    {
      ExampleRow(rows, i);
    }
  }

  lemma ExampleRow(rows: seq<Row>, i: nat)
    requires |rows| == 10 && forall i | 0 <= i < 10 :: rows[i].timestamp == 10 + i
    requires i < 10
    ensures Normalize(rows, [Split(11, 13), Split(15, 18)], "sim").value[i].norm.value ==
        if 1 <= i <= 3 then Norm(Some("sim.0"), i - 1)
        else if 5 <= i <= 8 then Norm(Some("sim.1"), i - 5)
        else Norm(None, i)
  {
    var splits := [Split(11, 13), Split(15, 18)];
    var ts, ps := Timestamps(rows), Parts(rows, splits, "sim");
    var p := ps[i];
    var out := Normalize(rows, splits, "sim").value;
    assert rows[i].timestamp == 10 + i;
    assert p == if 1 <= i <= 3 then Some("sim.0") else if 5 <= i <= 8 then Some("sim.1") else None by {
      ExampleParts(rows, i);
    }
    assert PartMin(ts, ps, p) == if 1 <= i <= 3 then Some(11) else if 5 <= i <= 8 then Some(15) else Some(10) by {
      ExampleMins(rows);
    }
    assert out[i].norm.value == Norm(p, rows[i].timestamp - PartMin(ts, ps, p).value) by {
      NormalizeAt(rows, splits, "sim", i);
    }
  }

  /** Row `i` after normalization: its partition, and its distance from the partition's least timestamp. */
  lemma NormalizeAt(rows: seq<Row>, splits: seq<Split>, prefix: string, i: nat)
    requires splits != [] && i < |rows|
    ensures var ts, ps := Timestamps(rows), Parts(rows, splits, prefix);
      && PartMin(ts, ps, ps[i]).Some?
      && Normalize(rows, splits, prefix).value[i].norm.value == Norm(ps[i], rows[i].timestamp - PartMin(ts, ps, ps[i]).value)
  {
    var ts, ps := Timestamps(rows), Parts(rows, splits, prefix);
    assert Normalize(rows, splits, prefix).value[i].norm.value == Norm(ps[i], Offset(ts, ps, i));
  }
}
