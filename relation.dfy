/**
 * `DataKubeRelation` (datakube/data_utils.py): a fluent wrapper whose methods replace the relation
 * it holds. The relation is a sequence of rows plus its schema: the string key columns every row
 * carries, the type of the `timestamp` column, and the name of the partition column once
 * `partition_and_normalize` has run.
 */
module DataKube {
  import opened Wrappers
  import opened Seqs
  import opened Rows
  import Fill
  import Normalize
  import Pivot

  /**
   * The type of the `timestamp` column: integer epoch milliseconds, as the metric files hold it,
   * or a `TIMESTAMPTZ`, as `fill_missing_data` leaves it.
   */
  datatype TimeKind = EpochMillis | Instant

  /**
   * `TimestampIsInstant`: `timestamp / 1000` is not defined on a `TIMESTAMPTZ`.
   * `TimestampIsEpoch`: an integer column cannot be compared with the split bounds, which are
   * timestamp strings.
   */
  datatype RelError =
    | MissingColumn(name: string) | NoOffsetColumn | NoSplits | NoMaxTime
    | TimestampIsInstant | TimestampIsEpoch

  class Relation {
    var rows: seq<Row>
    var keys: set<string>
    var time: TimeKind
    var partition: Option<string>

    /**
     * Every row has exactly the key columns, and a normalization exactly when the schema has one;
     * only a relation with a `TIMESTAMPTZ` column can have been normalized.
     */
    ghost predicate Valid()
      reads this
    {
      && (forall r <- rows :: r.attrs.Keys == keys && (r.norm.Some? <==> partition.Some?))
      && (partition.Some? ==> time == Instant)
    }

    constructor (rows: seq<Row>, keys: set<string>, time: TimeKind)
      requires forall r <- rows :: r.attrs.Keys == keys && r.norm.None?
      ensures Valid() && this.rows == rows && this.keys == keys && this.time == time && partition.None?
    {
      this.rows := rows;
      this.keys := keys;
      this.time := time;
      this.partition := None;
    }

    /** `df()`: the rows of the relation. */
    function Df(): seq<Row>
      reads this
    {
      rows
    }

    /**
     * `fill_missing_data(grouper, window_size)`: the relation becomes the dense per-second fill of
     * its groups, whose only key column is `grouper`, and its timestamps become `TIMESTAMPTZ`s.
     * The rounding projection is bound first, so a relation already filled fails there; grouping
     * on a column the relation does not have fails next. A failure leaves the relation as it was.
     */
    method FillMissingData(grouper: string, windowSize: nat) returns (r: Result<(), RelError>)
      requires Valid()
      modifies this
      ensures Valid()
      ensures r.Err? <==> old(time) == Instant || grouper !in old(keys)
      ensures r.Err? ==> unchanged(this)
      ensures r.Err? ==> r.error == if old(time) == Instant then TimestampIsInstant else MissingColumn(grouper)
      ensures r.Ok? ==> rows == Fill.FillMissing(old(rows), grouper, windowSize) && keys == {grouper} && time == Instant && partition.None?
    {
      if time == Instant {
        return Err(TimestampIsInstant);
      }
      if grouper !in keys {
        return Err(MissingColumn(grouper));
      }
      rows := Fill.FillMissing(rows, grouper, windowSize);
      keys := {grouper};
      time := Instant;
      partition := None;
      r := Ok(());
    }

    /**
     * `partition_and_normalize(splits, prefix)`: every row gains its partition `prefix.i` and its
     * offset within it. With no splits the `CASE` does not parse; on integer epoch milliseconds the
     * comparison with the split bounds fails; either way the relation is left as it was.
     */
    method PartitionAndNormalize(splits: seq<Normalize.Split>, prefix: string) returns (r: Result<(), RelError>)
      requires Valid()
      modifies this
      ensures Valid()
      ensures r.Err? <==> splits == [] || old(time) == EpochMillis
      ensures r.Err? ==> unchanged(this)
      ensures r.Err? ==> r.error == if splits == [] then NoSplits else TimestampIsEpoch
      ensures r.Ok? ==> rows == Normalize.Normalize(old(rows), splits, prefix).value && keys == old(keys) && time == Instant && partition == Some(prefix)
    {
      var n := Normalize.Normalize(rows, splits, prefix);
      if n.Err? {
        return Err(NoSplits);
      }
      if time == EpochMillis {
        return Err(TimestampIsEpoch);
      }
      rows := n.value;
      partition := Some(prefix);
      r := Ok(());
    }

    /**
     * `to_pivot_table(aggfunc, max_time, fill_value)` on the partition column: fails on a relation
     * that was never normalized (it has no offset column) and, without `max_time`, on an empty one.
     */
    method ToPivotTable(f: Pivot.AggFunc, maxTime: Option<int>, fill: Option<int>) returns (r: Result<Pivot.PivotTable, RelError>)
      requires Valid()
      ensures partition.None? ==> r == Err(NoOffsetColumn)
      ensures partition.Some? ==> (r.Err? <==> maxTime.None? && rows == [])
      ensures partition.Some? && r.Err? ==> r.error == NoMaxTime
      ensures partition.Some? && r.Ok? ==> Pivot.Normalized(rows) && r.value == Pivot.PivotOf(rows, f, maxTime, fill).value
    {
      if partition.None? {
        return Err(NoOffsetColumn);
      }
      assert Pivot.Normalized(rows);
      var p := Pivot.PivotOf(rows, f, maxTime, fill);
      if p.Err? {
        return Err(NoMaxTime);
      }
      r := Ok(p.value);
    }

    /** `with_label(key, value)`: keeps the rows whose labels match `%key=value%`. */
    method WithLabel(key: string, value: string)
      requires Valid()
      modifies this`rows
      ensures Valid()
      ensures rows == Filter(old(rows), r => HasLabel(key, value, r))
    {
      rows := Filter(rows, r => HasLabel(key, value, r));
      KeptValid(old(rows), rows, r => HasLabel(key, value, r));
    }

    /** `with_namespace(ns)`: keeps the rows of namespace `ns`; fails without a namespace column. */
    method WithNamespace(ns: string) returns (r: Result<(), RelError>)
      requires Valid()
      modifies this`rows
      ensures Valid()
      ensures r.Err? <==> "namespace" !in keys
      ensures r.Err? ==> r.error == MissingColumn("namespace") && rows == old(rows)
      ensures r.Ok? ==> rows == Filter(old(rows), r => InNamespace(ns, r))
    {
      if "namespace" !in keys {
        return Err(MissingColumn("namespace"));
      }
      rows := Filter(rows, r => InNamespace(ns, r));
      KeptValid(old(rows), rows, r => InNamespace(ns, r));
      r := Ok(());
    }

    /** `with_value(val, cmp)`: keeps the rows whose value compares to `val` as `cmp` says. */
    method WithValue(val: int, cmp: Comparison)
      requires Valid()
      modifies this`rows
      ensures Valid()
      ensures rows == Filter(old(rows), r => HasValue(val, cmp, r))
    {
      rows := Filter(rows, r => HasValue(val, cmp, r));
      KeptValid(old(rows), rows, r => HasValue(val, cmp, r));
    }

    /** The rows a filter keeps satisfy whatever every row satisfied. */
    static lemma KeptValid(before: seq<Row>, after: seq<Row>, p: Row -> bool)
      requires after == Filter(before, p)
      ensures forall r <- after :: r in before
    {
      forall r <- after ensures r in before {
        FilterMember(before, p, r);
      }
    }
  }

  /**
   * The filters only ever remove rows, and chaining them is their conjunction, whatever the
   * order: `with_label(k, v).with_namespace(ns).with_value(x, c)` keeps exactly the rows meeting
   * all three conditions.
   */
  lemma {:induction false} ChainedFilters(rows: seq<Row>, key: string, value: string, ns: string, val: int, cmp: Comparison)
    ensures var kept := Filter(Filter(Filter(rows, r => HasLabel(key, value, r)), r => InNamespace(ns, r)), r => HasValue(val, cmp, r));
      && multiset(kept) <= multiset(rows)
      && kept == Filter(rows, r => HasValue(val, cmp, r) && InNamespace(ns, r) && HasLabel(key, value, r))
  {
    FilterChain(rows, r => HasLabel(key, value, r), r => InNamespace(ns, r), r => HasValue(val, cmp, r),
      r => HasValue(val, cmp, r) && InNamespace(ns, r) && HasLabel(key, value, r));
  }
}
