/**
 * Rows of a `DataKubeRelation` and the three row filters (`with_label`, `with_namespace`,
 * `with_value`) of datakube/data_utils.py, with SQL `LIKE` pattern matching written out.
 */
module Rows {
  import opened Wrappers
  import opened Text

  /** The two columns `partition_and_normalize` adds: the partition label and NORM_TS_KEY. */
  datatype Norm = Norm(part: Option<string>, offset: int)

  /**
   * One row: the timestamp (epoch ms before `fill_missing_data`, whole seconds after), the string
   * key columns (pod, namespace, ...), the nullable value and labels, and, once normalized, `norm`.
   */
  datatype Row = Row(
    timestamp: int,
    attrs: map<string, string>,
    value: Option<int>,
    labels: Option<string>,
    norm: Option<Norm>)

  /** The `Comparison` enum: the SQL operator `with_value` places between `value` and its operand. */
  datatype Comparison = LT | LE | EQ | NE | GE | GT

  predicate Compare(cmp: Comparison, x: int, y: int)
  {
    match cmp
    case LT => x < y
    case LE => x <= y
    case EQ => x == y
    case NE => x != y
    case GE => x >= y
    case GT => x > y
  }

  /** SQL `s LIKE p` without an escape character: `%` matches any run, `_` any one character. */
  predicate Like(s: string, p: string)
    decreases |p|
  {
    if p == [] then s == []
    else if p[0] == '%' then exists k: nat | k <= |s| :: Like(s[k..], p[1..])
    else if p[0] == '_' then |s| > 0 && Like(s[1..], p[1..])
    else |s| > 0 && s[0] == p[0] && Like(s[1..], p[1..])
  }

  predicate NoWildcards(t: string)
  {
    forall i | 0 <= i < |t| :: t[i] != '%' && t[i] != '_'
  }

  lemma {:induction false} LikeLiteralThenAny(u: string, t: string)
    requires NoWildcards(t)
    ensures Like(u, t + "%") <==> IsPrefix(t, u)
  {
    if t == [] {
      assert t + "%" == "%";
      assert Like(u[|u|..], "");
    } else {
      assert (t + "%")[1..] == t[1..] + "%";
      if |u| > 0 {
        LikeLiteralThenAny(u[1..], t[1..]);
        assert IsPrefix(t, u) <==> u[0] == t[0] && IsPrefix(t[1..], u[1..]) by {
          if IsPrefix(t, u) {
            assert u[1..][..|t| - 1] == u[..|t|][1..];
          }
          if u[0] == t[0] && IsPrefix(t[1..], u[1..]) {
            assert u[..|t|] == [u[0]] + u[1..][..|t| - 1];
          }
        }
      }
    }
  }

  /** With no wildcard in `t`, `s LIKE '%t%'` is substring containment. */
  lemma LikeContains(s: string, t: string)
    requires NoWildcards(t)
    ensures Like(s, "%" + t + "%") <==> Contains(s, t)
  {
    var p := "%" + t + "%";
    assert p[0] == '%' && p[1..] == t + "%";
    forall k: nat | k <= |s|
      ensures Like(s[k..], t + "%") <==> OccursAt(s, t, k)
    {
      LikeLiteralThenAny(s[k..], t);
      if IsPrefix(t, s[k..]) {
        assert s[k..][..|t|] == s[k..k + |t|];
      }
      if OccursAt(s, t, k) {
        assert s[k..][..|t|] == s[k..k + |t|];
      }
    }
  }

  /** `with_label(key, value)`: `labels LIKE '%key=value%'` (a NULL `labels` never matches). */
  predicate HasLabel(key: string, value: string, r: Row)
  {
    r.labels.Some? && Like(r.labels.value, "%" + key + "=" + value + "%")
  }

  /** `with_namespace(ns)`: `namespace = 'ns'`. */
  predicate InNamespace(ns: string, r: Row)
  {
    "namespace" in r.attrs && r.attrs["namespace"] == ns
  }

  /** `with_value(val, cmp)`: `value <cmp> val` (a NULL `value` never matches). */
  predicate HasValue(val: int, cmp: Comparison, r: Row)
  {
    r.value.Some? && Compare(cmp, r.value.value, val)
  }

  /** Without wildcards in key and value, `with_label` keeps exactly the rows whose labels contain `key=value`. */
  lemma HasLabelIsSubstring(key: string, value: string, r: Row)
    requires NoWildcards(key) && NoWildcards(value) && r.labels.Some?
    ensures HasLabel(key, value, r) <==> Contains(r.labels.value, key + "=" + value)
  {
    assert "%" + key + "=" + value + "%" == "%" + (key + "=" + value) + "%";
    assert NoWildcards(key + "=" + value) by {
      var t := key + "=" + value;
      forall i | 0 <= i < |t| ensures t[i] != '%' && t[i] != '_' {
        if i < |key| { assert t[i] == key[i]; }
        else if i > |key| { assert t[i] == value[i - |key| - 1]; }
      }
    }
    LikeContains(r.labels.value, key + "=" + value);
  }

  /** The match is not anchored at a label boundary: `app=foo` also matches inside `xapp=foobar`. */
  lemma HasLabelUnanchored(r: Row)
    requires r.labels == Some("xapp=foobar")
    ensures HasLabel("app", "foo", r)
  {
    var s := "xapp=foobar";
    assert s[1..8] == "app=foo";
    assert OccursAt(s, "app" + "=" + "foo", 1);
    HasLabelIsSubstring("app", "foo", r);
  }
}
