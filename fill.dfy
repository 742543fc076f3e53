/**
 * The meaning of `DataKubeRelation.fill_missing_data(grouper, window_size)` (datakube/data_utils.py):
 * round every timestamp down to the second, build one dense per-second grid per group from the
 * group's least to its greatest rounded second, LEFT JOIN the samples onto it, and give every grid
 * row the last non-null value (and, independently, labels) among itself and the `window_size`
 * preceding rows of its group.
 */
module Fill {
  import opened Wrappers
  import opened Seqs
  import opened Rows

  /** One row of `joined_timestamps`: a grid second and the joined sample's value and labels. */
  datatype Slot = Slot(ts: int, value: Option<int>, labels: Option<string>)

  /** `time_bucket(INTERVAL '1s', to_timestamp(timestamp / 1000))` on epoch milliseconds. */
  function RoundToSecond(ms: int): (s: int)
    ensures s * 1000 <= ms < s * 1000 + 1000
  {
    ms / 1000
  }

  predicate InGroup(grouper: string, g: string, r: Row)
  {
    grouper in r.attrs && r.attrs[grouper] == g
  }

  function ToSlot(r: Row): Slot
  {
    Slot(RoundToSecond(r.timestamp), r.value, r.labels)
  }

  /** `rounded_times` restricted to group `g`, in input order. */
  function Samples(rows: seq<Row>, grouper: string, g: string): (ss: seq<Slot>)
  {
    var mine := Filter(rows, r => InGroup(grouper, g, r));
    seq(|mine|, i requires 0 <= i < |mine| => ToSlot(mine[i]))
  }

  function MinTs(ss: seq<Slot>): (m: int)
    requires |ss| > 0
    ensures exists i | 0 <= i < |ss| :: ss[i].ts == m
    ensures forall i | 0 <= i < |ss| :: m <= ss[i].ts
  {
    if |ss| == 1 then ss[0].ts
    else
      var m := MinTs(ss[..|ss| - 1]);
      if ss[|ss| - 1].ts < m then ss[|ss| - 1].ts else m
  }

  function MaxTs(ss: seq<Slot>): (m: int)
    requires |ss| > 0
    ensures exists i | 0 <= i < |ss| :: ss[i].ts == m
    ensures forall i | 0 <= i < |ss| :: ss[i].ts <= m
  {
    if |ss| == 1 then ss[0].ts
    else
      var m := MaxTs(ss[..|ss| - 1]);
      if ss[|ss| - 1].ts > m then ss[|ss| - 1].ts else m
  }

  /** The slots at second `t`, in order. */
  function AtSecond(ss: seq<Slot>, t: int): seq<Slot>
  {
    Filter(ss, (s: Slot) => s.ts == t)
  }

  /** The LEFT JOIN at one grid second: every sample of that second, or one all-NULL row. */
  function Cell(ss: seq<Slot>, t: int): (c: seq<Slot>)
    ensures |c| >= 1
  {
    var m := AtSecond(ss, t);
    if m == [] then [Slot(t, None, None)] else m
  }

  /** `joined_timestamps` for one group: the cells of the `n` seconds from `lo` upward. */
  function Grid(ss: seq<Slot>, lo: int, n: nat): (g: seq<Slot>)
  {
    if n == 0 then [] else Grid(ss, lo, n - 1) + Cell(ss, lo + n - 1)
  }

  /** The first row of the frame `ROWS BETWEEN w PRECEDING AND CURRENT ROW` of row `i`. */
  function FrameStart(i: nat, w: nat): nat
  {
    if i >= w then i - w else 0
  }

  function Values(ss: seq<Slot>): (vs: seq<Option<int>>)
    ensures |vs| == |ss| && forall k | 0 <= k < |ss| :: vs[k] == ss[k].value
  {
    seq(|ss|, k requires 0 <= k < |ss| => ss[k].value)
  }

  function LabelsOf(ss: seq<Slot>): (ls: seq<Option<string>>)
    ensures |ls| == |ss| && forall k | 0 <= k < |ss| :: ls[k] == ss[k].labels
  {
    seq(|ss|, k requires 0 <= k < |ss| => ss[k].labels)
  }

  /** `last_value(value IGNORE NULLS) OVER group_window` at row `i`. */
  function FrameValue(grid: seq<Slot>, w: nat, i: nat): Option<int>
    requires i < |grid|
  {
    LastSome(Values(grid)[FrameStart(i, w)..i + 1])
  }

  /** `last_value(labels IGNORE NULLS) OVER group_window` at row `i`. */
  function FrameLabels(grid: seq<Slot>, w: nat, i: nat): Option<string>
    requires i < |grid|
  {
    LastSome(LabelsOf(grid)[FrameStart(i, w)..i + 1])
  }

  /** The windowed grid: each row keeps its second and takes its frame's last non-null value and labels. */
  function Carry(grid: seq<Slot>, w: nat): (c: seq<Slot>)
    ensures |c| == |grid|
  {
    seq(|grid|, i requires 0 <= i < |grid| => Slot(grid[i].ts, FrameValue(grid, w, i), FrameLabels(grid, w, i)))
  }

  /** The least and greatest rounded second of a group (`time_ranges`), as a grid. */
  function GroupGrid(rows: seq<Row>, grouper: string, g: string): seq<Slot>
  {
    var ss := Samples(rows, grouper, g);
    if ss == [] then [] else Grid(ss, MinTs(ss), MaxTs(ss) - MinTs(ss) + 1)
  }

  /** The output rows of one group: timestamp, grouper column, value, labels and nothing else. */
  function FillGroup(rows: seq<Row>, grouper: string, g: string, w: nat): (out: seq<Row>)
    ensures forall r <- out :: r.attrs == map[grouper := g] && r.norm.None?
  {
    var filled := Carry(GroupGrid(rows, grouper, g), w);
    seq(|filled|, i requires 0 <= i < |filled| =>
      Row(filled[i].ts, map[grouper := g], filled[i].value, filled[i].labels, None))
  }

  function FillGroups(rows: seq<Row>, grouper: string, gs: seq<string>, w: nat): (out: seq<Row>)
    ensures forall r <- out :: exists g <- gs :: r.attrs == map[grouper := g] && r.norm.None?
  {
    if gs == [] then []
    else FillGroups(rows, grouper, gs[..|gs| - 1], w) + FillGroup(rows, grouper, gs[|gs| - 1], w)
  }

  /** The values of the grouper column, in input order. */
  function GroupValues(rows: seq<Row>, grouper: string): seq<string>
  {
    if rows == [] then []
    else
      var prev := GroupValues(rows[..|rows| - 1], grouper);
      var r := rows[|rows| - 1];
      if grouper in r.attrs then prev + [r.attrs[grouper]] else prev
  }

  function Distinct(s: seq<string>): seq<string>
  {
    DedupBy(s, (x: string) => x)
  }

  /**
   * `fill_missing_data`: the groups one after another in order of first appearance, each on
   * its own grid (the order of a SQL result is unspecified; this is the order chosen here).
   */
  function FillMissing(rows: seq<Row>, grouper: string, w: nat): (out: seq<Row>)
    ensures forall r <- out :: r.attrs.Keys == {grouper} && r.norm.None?
  {
    FillGroups(rows, grouper, Distinct(GroupValues(rows, grouper)), w)
  }

  /** Every row of a cell is at the cell's second, and is a sample or the all-NULL filler. */
  lemma CellRows(ss: seq<Slot>, t: int)
    ensures forall s <- Cell(ss, t) :: s.ts == t && (s in ss || (s.value.None? && s.labels.None?))
  {
    forall s <- AtSecond(ss, t) ensures s.ts == t && s in ss {
      FilterMember(ss, (s: Slot) => s.ts == t, s);
    }
  }

  lemma CellAt(ss: seq<Slot>, t': int, t: int)
    ensures AtSecond(Cell(ss, t'), t) == if t == t' then Cell(ss, t') else []
  {
    CellRows(ss, t');
    if t == t' {
      FilterAll(Cell(ss, t'), (s: Slot) => s.ts == t);
    } else {
      FilterNone(Cell(ss, t'), (s: Slot) => s.ts == t);
    }
  }

  lemma AtSecondAppend(a: seq<Slot>, b: seq<Slot>, t: int)
    ensures AtSecond(a + b, t) == AtSecond(a, t) + AtSecond(b, t)
  {
    FilterAppend(a, b, (s: Slot) => s.ts == t);
  }

  /** The grid rows at second `t` are exactly the LEFT JOIN's cell for `t` inside the range, and none outside. */
  lemma {:induction false} GridAt(ss: seq<Slot>, lo: int, n: nat, t: int)
    ensures AtSecond(Grid(ss, lo, n), t) == if lo <= t < lo + n then Cell(ss, t) else []
  {
    if n == 0 {
      assert Grid(ss, lo, n) == [];
      FilterNone(Grid(ss, lo, n), (s: Slot) => s.ts == t);
    } else {
      var a, c := Grid(ss, lo, n - 1), Cell(ss, lo + n - 1);
      assert Grid(ss, lo, n) == a + c;
      GridAt(ss, lo, n - 1, t);
      AtSecondAppend(a, c, t);
      CellAt(ss, lo + n - 1, t);
      if t == lo + n - 1 {
        assert AtSecond(a, t) == [];
      } else if lo <= t < lo + n - 1 {
        assert AtSecond(c, t) == [];
      } else {
        assert AtSecond(a, t) == [] && AtSecond(c, t) == [];
      }
    }
  }

  /** Every grid row is a sample of the group or an all-NULL filler row. */
  lemma {:induction false} GridFromSamples(ss: seq<Slot>, lo: int, n: nat)
    ensures forall s <- Grid(ss, lo, n) :: s in ss || (s.value.None? && s.labels.None?)
  {
    if n > 0 {
      var a, c := Grid(ss, lo, n - 1), Cell(ss, lo + n - 1);
      GridFromSamples(ss, lo, n - 1);
      CellRows(ss, lo + n - 1);
      assert Grid(ss, lo, n) == a + c;
      forall s <- a + c ensures s in ss || (s.value.None? && s.labels.None?) {
        if s !in a {
          assert s in c;
        }
      }
    }
  }

  /** A group value is listed exactly when some row carries it. */
  lemma {:induction false} GroupValuesMember(rows: seq<Row>, grouper: string, g: string)
    ensures g in GroupValues(rows, grouper) <==> exists r <- rows :: InGroup(grouper, g, r)
  {
    if rows != [] {
      var init, last := rows[..|rows| - 1], rows[|rows| - 1];
      GroupValuesMember(init, grouper, g);
      assert rows == init + [last];
      var gv, gi := GroupValues(rows, grouper), GroupValues(init, grouper);
      assert gv == if grouper in last.attrs then gi + [last.attrs[grouper]] else gi;
      if g in gv {
        if InGroup(grouper, g, last) {
          assert last in rows;
        } else {
          assert g in gi;
          var r :| r in init && InGroup(grouper, g, r);
          assert r in rows;
        }
      }
      if exists r <- rows :: InGroup(grouper, g, r) {
        var r :| r in rows && InGroup(grouper, g, r);
        if r != last {
          assert r in init;
          assert g in gi;
        }
      }
    }
  }

  lemma DistinctMember(s: seq<string>, g: string)
    ensures g in Distinct(s) <==> g in s
    ensures forall i, j | 0 <= i < j < |Distinct(s)| :: Distinct(s)[i] != Distinct(s)[j]
  {
    var d := Distinct(s);
    if g in s {
      var i :| 0 <= i < |s| && s[i] == g;
      assert HasKey(d, (x: string) => x, s[i]);
    }
  }

  lemma FillGroupOf(rows: seq<Row>, grouper: string, g': string, w: nat, g: string)
    ensures Filter(FillGroup(rows, grouper, g', w), r => InGroup(grouper, g, r))
         == if g == g' then FillGroup(rows, grouper, g', w) else []
  {
    if g == g' {
      FilterAll(FillGroup(rows, grouper, g', w), r => InGroup(grouper, g, r));
    } else {
      FilterNone(FillGroup(rows, grouper, g', w), r => InGroup(grouper, g, r));
    }
  }

  lemma {:induction false} FillGroupsOf(rows: seq<Row>, grouper: string, gs: seq<string>, w: nat, g: string)
    requires forall i, j | 0 <= i < j < |gs| :: gs[i] != gs[j]
    ensures Filter(FillGroups(rows, grouper, gs, w), r => InGroup(grouper, g, r))
         == if g in gs then FillGroup(rows, grouper, g, w) else []
  {
    if gs == [] {
      FilterNone(FillGroups(rows, grouper, gs, w), r => InGroup(grouper, g, r));
    } else {
      var init, last := gs[..|gs| - 1], gs[|gs| - 1];
      FillGroupsOf(rows, grouper, init, w, g);
      FilterAppend(FillGroups(rows, grouper, init, w), FillGroup(rows, grouper, last, w), r => InGroup(grouper, g, r));
      FillGroupOf(rows, grouper, last, w, g);
      assert g in gs <==> g in init || g == last;
      assert g == last ==> g !in init;
    }
  }

  /**
   * Nothing leaks across groups: the output rows of group `g` are exactly that group's own fill,
   * and a value that no input row carries has no output rows.
   */
  lemma FillMissingIsolated(rows: seq<Row>, grouper: string, w: nat, g: string)
    ensures Filter(FillMissing(rows, grouper, w), r => InGroup(grouper, g, r)) == FillGroup(rows, grouper, g, w)
  {
    var gs := Distinct(GroupValues(rows, grouper));
    DistinctMember(GroupValues(rows, grouper), g);
    GroupValuesMember(rows, grouper, g);
    FillGroupsOf(rows, grouper, gs, w, g);
    if g !in gs {
      FilterNone(rows, r => InGroup(grouper, g, r));
      assert Samples(rows, grouper, g) == [];
    }
  }

  /**
   * The dense grid: a group with samples has, at every second `t` from its least to its greatest
   * rounded second, one row per sample rounded to `t` (the LEFT JOIN keeps duplicates), or exactly
   * one row when there is none; it has no rows outside that range. A group without samples has none.
   */
  lemma FillMissingGrid(rows: seq<Row>, grouper: string, w: nat, g: string, t: int)
    ensures var ss := Samples(rows, grouper, g);
      var mine := Filter(FillMissing(rows, grouper, w), r => InGroup(grouper, g, r));
      |Filter(mine, (r: Row) => r.timestamp == t)|
        == if ss != [] && MinTs(ss) <= t <= MaxTs(ss) then
             (if AtSecond(ss, t) == [] then 1 else |AtSecond(ss, t)|)
           else 0
  {
    FillMissingIsolated(rows, grouper, w, g);
    FillGroupCount(rows, grouper, g, w, t);
    GroupGridAt(rows, grouper, g, t);
  }

  lemma GroupGridAt(rows: seq<Row>, grouper: string, g: string, t: int)
    ensures var ss := Samples(rows, grouper, g);
      |AtSecond(GroupGrid(rows, grouper, g), t)|
        == if ss != [] && MinTs(ss) <= t <= MaxTs(ss) then
             (if AtSecond(ss, t) == [] then 1 else |AtSecond(ss, t)|)
           else 0
  {
    var ss := Samples(rows, grouper, g);
    if ss != [] {
      var lo, n := MinTs(ss), MaxTs(ss) - MinTs(ss) + 1;
      assert GroupGrid(rows, grouper, g) == Grid(ss, lo, n);
      GridAt(ss, lo, n, t);
    } else {
      assert GroupGrid(rows, grouper, g) == [];
      FilterNone(GroupGrid(rows, grouper, g), (s: Slot) => s.ts == t);
    }
  }

  /** The rows of one group at second `t` are as many as the slots of its grid at `t`. */
  lemma FillGroupCount(rows: seq<Row>, grouper: string, g: string, w: nat, t: int)
    ensures |Filter(FillGroup(rows, grouper, g, w), (r: Row) => r.timestamp == t)|
         == |AtSecond(GroupGrid(rows, grouper, g), t)|
  {
    var out := FillGroup(rows, grouper, g, w);
    var grid := GroupGrid(rows, grouper, g);
    var filled := Carry(grid, w);
    assert |out| == |grid|;
    forall i | 0 <= i < |out|
      ensures out[i].timestamp == grid[i].ts
    {
      assert out[i].timestamp == filled[i].ts;
    }
    FilterLengthIndexwise(out, grid, (r: Row) => r.timestamp == t, (s: Slot) => s.ts == t);
  }

  lemma SampleOrigin(rows: seq<Row>, grouper: string, g: string, s: Slot)
    requires s in Samples(rows, grouper, g)
    ensures exists r <- rows :: InGroup(grouper, g, r) && ToSlot(r) == s
  {
    var mine := Filter(rows, r => InGroup(grouper, g, r));
    var i :| 0 <= i < |mine| && ToSlot(mine[i]) == s;
    FilterMember(rows, r => InGroup(grouper, g, r), mine[i]);
  }

  /** The value carried into row `i`: the last non-null value of its frame, NULL when there is none. */
  lemma CarryValueAt(grid: seq<Slot>, w: nat, i: nat)
    requires i < |grid|
    ensures var v, lo := FrameValue(grid, w, i), FrameStart(i, w);
      && (grid[i].value.Some? ==> v == grid[i].value)
      && (v.None? <==> forall j | lo <= j <= i :: grid[j].value.None?)
      && (v.Some? ==> exists j | lo <= j <= i :: grid[j].value == v && forall k | j < k <= i :: grid[k].value.None?)
  {
    var vs, lo := Values(grid), FrameStart(i, w);
    LastSomeSlice(vs, lo, i + 1);
    assert vs[lo..i + 1][i - lo] == vs[i];
  }

  /** The labels carried into row `i`, chosen independently of the value. */
  lemma CarryLabelsAt(grid: seq<Slot>, w: nat, i: nat)
    requires i < |grid|
    ensures var l, lo := FrameLabels(grid, w, i), FrameStart(i, w);
      && (grid[i].labels.Some? ==> l == grid[i].labels)
      && (l.None? <==> forall j | lo <= j <= i :: grid[j].labels.None?)
      && (l.Some? ==> exists j | lo <= j <= i :: grid[j].labels == l && forall k | j < k <= i :: grid[k].labels.None?)
  {
    var ls, lo := LabelsOf(grid), FrameStart(i, w);
    LastSomeSlice(ls, lo, i + 1);
    assert ls[lo..i + 1][i - lo] == ls[i];
  }

  /** A non-null grid value or label belongs to an input row of the group. */
  lemma GroupGridOrigin(rows: seq<Row>, grouper: string, g: string, j: nat)
    requires j < |GroupGrid(rows, grouper, g)|
    ensures var s := GroupGrid(rows, grouper, g)[j];
      && (s.value.Some? ==> exists r <- rows :: InGroup(grouper, g, r) && r.value == s.value)
      && (s.labels.Some? ==> exists r <- rows :: InGroup(grouper, g, r) && r.labels == s.labels)
  {
    var ss := Samples(rows, grouper, g);
    var grid := GroupGrid(rows, grouper, g);
    assert ss != [];
    var lo, n := MinTs(ss), MaxTs(ss) - MinTs(ss) + 1;
    assert grid == Grid(ss, lo, n);
    var s := grid[j];
    GridFromSamples(ss, lo, n);
    assert s in Grid(ss, lo, n);
    if s.value.Some? || s.labels.Some? {
      SampleOrigin(rows, grouper, g, s);
    }
  }

  /**
   * The window: row `i` of a group's fill keeps its own observed value; otherwise it takes the last
   * non-null value among the `w` preceding rows of the same group, which is the value of an input row
   * of that group; it is NULL exactly when the whole frame is NULL. Labels are carried the same way.
   */
  lemma FillGroupCarry(rows: seq<Row>, grouper: string, g: string, w: nat, i: nat)
    requires i < |FillGroup(rows, grouper, g, w)|
    ensures var grid, out := GroupGrid(rows, grouper, g), FillGroup(rows, grouper, g, w);
      var lo := FrameStart(i, w);
      && |grid| == |out|
      && out[i].timestamp == grid[i].ts
      && (grid[i].value.Some? ==> out[i].value == grid[i].value)
      && (grid[i].labels.Some? ==> out[i].labels == grid[i].labels)
      && (out[i].value.None? <==> forall j | lo <= j <= i :: grid[j].value.None?)
      && (out[i].labels.None? <==> forall j | lo <= j <= i :: grid[j].labels.None?)
      && (out[i].value.Some? ==>
            && (exists j | lo <= j <= i :: grid[j].value == out[i].value && forall k | j < k <= i :: grid[k].value.None?)
            && exists r <- rows :: InGroup(grouper, g, r) && r.value == out[i].value)
      && (out[i].labels.Some? ==>
            && (exists j | lo <= j <= i :: grid[j].labels == out[i].labels && forall k | j < k <= i :: grid[k].labels.None?)
            && exists r <- rows :: InGroup(grouper, g, r) && r.labels == out[i].labels)
  {
    var grid, out := GroupGrid(rows, grouper, g), FillGroup(rows, grouper, g, w);
    var c := Carry(grid, w);
    var lo := FrameStart(i, w);
    assert out[i].value == c[i].value && out[i].labels == c[i].labels;
    CarryValueAt(grid, w, i);
    CarryLabelsAt(grid, w, i);
    if out[i].value.Some? {
      var j :| lo <= j <= i && grid[j].value == c[i].value && forall k | j < k <= i :: grid[k].value.None?;
      GroupGridOrigin(rows, grouper, g, j);
    }
    if out[i].labels.Some? {
      var j :| lo <= j <= i && grid[j].labels == c[i].labels && forall k | j < k <= i :: grid[k].labels.None?;
      GroupGridOrigin(rows, grouper, g, j);
    }
  }
}
