/**
 * The meaning of `DataKubeRelation.to_pivot_table` (datakube/data_utils.py): the SQL `PIVOT` of the
 * normalized relation on its partition column, right-joined onto the whole-second offset index
 * `0 .. max_time - 1`, with the remaining NULLs optionally replaced by `fill_value`.
 */
module Pivot {
  import opened Wrappers
  import opened Seqs
  import opened Rows

  /** The SQL aggregates `to_pivot_table` is used with. */
  datatype AggFunc = Sum | Min | Max

  function Combine(f: AggFunc, a: int, b: int): int
  {
    match f
    case Sum => a + b
    case Min => if b < a then b else a
    case Max => if b > a then b else a
  }

  /** A SQL aggregate over a column: NULLs are skipped, and it is NULL when nothing is left. */
  function Aggregate(f: AggFunc, vs: seq<Option<int>>): (r: Option<int>)
    ensures r.None? <==> forall i | 0 <= i < |vs| :: vs[i].None?
    ensures r.Some? && f != Sum ==> exists i | 0 <= i < |vs| :: vs[i] == r
    ensures r.Some? && f == Max ==> forall i | 0 <= i < |vs| && vs[i].Some? :: vs[i].value <= r.value
    ensures r.Some? && f == Min ==> forall i | 0 <= i < |vs| && vs[i].Some? :: r.value <= vs[i].value
  {
    if vs == [] then None
    else
      var n := |vs| - 1;
      var a := Aggregate(f, vs[..n]);
      assert forall i | 0 <= i < n :: vs[..n][i] == vs[i];
      if vs[n].None? then a
      else if a.None? then vs[n]
      else Some(Combine(f, a.value, vs[n].value))
  }

  /** The sum of the non-NULL values. */
  function SumPresent(vs: seq<Option<int>>): int
  {
    if vs == [] then 0
    else SumPresent(vs[..|vs| - 1]) + (if vs[|vs| - 1].Some? then vs[|vs| - 1].value else 0)
  }

  /** `sum` adds up exactly the non-NULL values. */
  lemma {:induction false} AggregateSum(vs: seq<Option<int>>)
    requires exists i | 0 <= i < |vs| :: vs[i].Some?
    ensures Aggregate(Sum, vs) == Some(SumPresent(vs))
  {
    var n := |vs| - 1;
    if Aggregate(Sum, vs[..n]).Some? {
      AggregateSum(vs[..n]);
    } else {
      assert forall i | 0 <= i < n :: vs[..n][i] == vs[i];
      SumPresentNone(vs[..n]);
    }
  }

  lemma {:induction false} SumPresentNone(vs: seq<Option<int>>)
    requires forall i | 0 <= i < |vs| :: vs[i].None?
    ensures SumPresent(vs) == 0
  {
    if vs != [] {
      var n := |vs| - 1;
      assert forall i | 0 <= i < n :: vs[..n][i] == vs[i];
      SumPresentNone(vs[..n]);
    }
  }

  /** The result: the offset index, one column per partition, and `cells[k][j]` for offset `k` and column `j`. */
  datatype PivotTable = PivotTable(index: seq<int>, columns: seq<Option<string>>, cells: seq<seq<Option<int>>>)

  datatype PivotError = NoMaxTime

  predicate Normalized(rows: seq<Row>)
  {
    forall r <- rows :: r.norm.Some?
  }

  /** The partition column. */
  function PartsOf(rows: seq<Row>): (ps: seq<Option<string>>)
    requires Normalized(rows)
    ensures |ps| == |rows|
  {
    seq(|rows|, i requires 0 <= i < |rows| => rows[i].norm.value.part)
  }

  /** The pivot's columns: each partition once, in order of first appearance. */
  function Columns(rows: seq<Row>): (cs: seq<Option<string>>)
    requires Normalized(rows)
  {
    DedupBy(PartsOf(rows), (p: Option<string>) => p)
  }

  /** `max(NORM_TS_KEY)`: NULL on an empty relation. */
  function MaxOffset(rows: seq<Row>): (m: Option<int>)
    requires Normalized(rows)
    ensures m.None? <==> rows == []
    ensures m.Some? ==> forall i | 0 <= i < |rows| :: rows[i].norm.value.offset <= m.value
    ensures m.Some? ==> exists i | 0 <= i < |rows| :: rows[i].norm.value.offset == m.value
  {
    if rows == [] then None
    else
      var n := |rows| - 1;
      var m := MaxOffset(rows[..n]);
      assert forall i | 0 <= i < n :: rows[..n][i] == rows[i];
      var o := rows[n].norm.value.offset;
      if m.None? || o > m.value then Some(o) else m
  }

  /**
   * The number of index entries, `int(max_time)` clipped at 0 (`range` of a non-positive bound is
   * empty). Without `max_time` it is the greatest offset, which fails on an empty relation.
   */
  function IndexLength(rows: seq<Row>, maxTime: Option<int>): (r: Result<nat, PivotError>)
    requires Normalized(rows)
    ensures r.Err? <==> maxTime.None? && rows == []
  {
    var t := if maxTime.Some? then Some(maxTime.value) else MaxOffset(rows);
    if t.None? then Err(NoMaxTime)
    else if t.value > 0 then Ok(t.value)
    else Ok(0)
  }

  predicate AtCell(k: int, c: Option<string>, r: Row)
  {
    r.norm.Some? && r.norm.value.offset == k && r.norm.value.part == c
  }

  /** The `value`s of the rows at offset `k` in partition `c`. */
  function CellValues(rows: seq<Row>, k: int, c: Option<string>): seq<Option<int>>
  {
    var rs := Filter(rows, r => AtCell(k, c, r));
    seq(|rs|, i requires 0 <= i < |rs| => rs[i].value)
  }

  /** `fillna(fill_value)`, a no-op without `fill_value`. */
  function FillNull(v: Option<int>, fill: Option<int>): (r: Option<int>)
    ensures fill.None? ==> r == v
    ensures fill.Some? ==> r.Some?
    ensures v.Some? ==> r == v
  {
    if v.None? then fill else v
  }

  function PivotOf(rows: seq<Row>, f: AggFunc, maxTime: Option<int>, fill: Option<int>): (r: Result<PivotTable, PivotError>)
    requires Normalized(rows)
    ensures r.Err? <==> maxTime.None? && rows == []
  {
    var n := IndexLength(rows, maxTime);
    if n.Err? then Err(n.error)
    else
      var cols := Columns(rows);
      Ok(PivotTable(
        seq(n.value, k => k),
        cols,
        seq(n.value, k => seq(|cols|, j requires 0 <= j < |cols| => FillNull(Aggregate(f, CellValues(rows, k, cols[j])), fill)))))
  }

  /**
   * The shape of the table: the index is exactly `0, 1, ..., n - 1` for `n` the clipped
   * `max_time`; there is one column per distinct partition of the relation and no other; every
   * index entry has one cell per column.
   */
  lemma PivotShape(rows: seq<Row>, f: AggFunc, maxTime: Option<int>, fill: Option<int>)
    requires Normalized(rows) && (maxTime.Some? || rows != [])
    ensures var t := PivotOf(rows, f, maxTime, fill).value;
      var n := IndexLength(rows, maxTime).value;
      && |t.index| == n && (forall k | 0 <= k < n :: t.index[k] == k)
      && (forall i, j | 0 <= i < j < |t.columns| :: t.columns[i] != t.columns[j])
      && (forall r <- rows :: r.norm.value.part in t.columns)
      && (forall c <- t.columns :: exists r <- rows :: r.norm.value.part == c)
      && |t.cells| == n && (forall k | 0 <= k < n :: |t.cells[k]| == |t.columns|)
  {
    var t := PivotOf(rows, f, maxTime, fill).value;
    var ps := PartsOf(rows);
    forall r <- rows ensures r.norm.value.part in t.columns {
      var i :| 0 <= i < |rows| && rows[i] == r;
      assert HasKey(t.columns, (p: Option<string>) => p, ps[i]);
    }
    forall c <- t.columns ensures exists r <- rows :: r.norm.value.part == c {
      var i :| 0 <= i < |ps| && ps[i] == c && !HasKey(ps[..i], (p: Option<string>) => p, c);
      assert rows[i] in rows;
    }
  }

  /**
   * A cell is the aggregate of the values at its offset and partition, or `fill_value` when that
   * aggregate is NULL; without `fill_value` it is NULL exactly when no such row has a value.
   */
  lemma PivotCell(rows: seq<Row>, f: AggFunc, maxTime: Option<int>, fill: Option<int>, k: nat, j: nat)
    requires Normalized(rows) && (maxTime.Some? || rows != [])
    requires k < |PivotOf(rows, f, maxTime, fill).value.cells|
    requires j < |Columns(rows)|
    ensures var t := PivotOf(rows, f, maxTime, fill).value;
      var c, v := t.columns[j], t.cells[k][j];
      var a := Aggregate(f, CellValues(rows, k, c));
      && j < |t.cells[k]|
      && v == (if a.None? then fill else a)
      && (fill.None? ==> (v.None? <==> forall r <- rows :: AtCell(k, c, r) ==> r.value.None?))
  {
    var t := PivotOf(rows, f, maxTime, fill).value;
    var c := t.columns[j];
    var rs := Filter(rows, r => AtCell(k, c, r));
    var vs := CellValues(rows, k, c);
    forall r <- rows | AtCell(k, c, r) ensures r in rs {
      FilterMember(rows, r => AtCell(k, c, r), r);
    }
    forall i | 0 <= i < |rs| ensures AtCell(k, c, rs[i]) && rs[i] in rows {
      FilterMember(rows, r => AtCell(k, c, r), rs[i]);
    }
    if Aggregate(f, vs).None? {
      forall r <- rows | AtCell(k, c, r) ensures r.value.None? {
        var i :| 0 <= i < |rs| && rs[i] == r;
        assert vs[i] == r.value;
      }
    }
  }

  /** With `fill_value` no cell is NULL. */
  lemma PivotFilled(rows: seq<Row>, f: AggFunc, maxTime: Option<int>, fill: Option<int>)
    requires Normalized(rows) && (maxTime.Some? || rows != []) && fill.Some?
    ensures var t := PivotOf(rows, f, maxTime, fill).value;
      forall k, j | 0 <= k < |t.cells| && 0 <= j < |t.cells[k]| :: t.cells[k][j].Some?
  {
  }

  /**
   * Without `max_time` the index stops one short of the greatest offset: `range` excludes its
   * bound, so the rows at the greatest offset reach no cell of the table.
   */
  lemma PivotDropsLastOffset(rows: seq<Row>, f: AggFunc, fill: Option<int>)
    requires Normalized(rows) && rows != []
    ensures var t := PivotOf(rows, f, None, fill).value;
      var m := MaxOffset(rows).value;
      && m !in t.index
      && (m > 0 ==> |t.index| == m && t.index[m - 1] == m - 1)
      && exists r <- rows :: r.norm.value.offset == m
  {
    var t := PivotOf(rows, f, None, fill).value;
    var m := MaxOffset(rows).value;
    var i :| 0 <= i < |rows| && rows[i].norm.value.offset == m;
    assert rows[i] in rows;
  }
}
