/** String helpers: decimal rendering of indices, substring search. */
module Text {
  import opened Wrappers

  function Digit(d: nat): char
    requires d < 10
  {
    "0123456789"[d]
  }

  /** Python's `str(n)` for a non-negative integer. */
  function NatToString(n: nat): (s: string)
    ensures |s| >= 1
    ensures n < 10 <==> |s| == 1
  {
    if n < 10 then [Digit(n)] else NatToString(n / 10) + [Digit(n % 10)]
  }

  /** Distinct numbers render to distinct strings. */
  lemma {:induction false} NatToStringInjective(m: nat, n: nat)
    requires NatToString(m) == NatToString(n)
    ensures m == n
  {
    if m >= 10 && n >= 10 {
      var sm, sn := NatToString(m), NatToString(n);
      assert sm[|sm| - 1] == Digit(m % 10) && sn[|sn| - 1] == Digit(n % 10);
      assert m % 10 == n % 10;
      assert sm[..|sm| - 1] == NatToString(m / 10);
      assert sn[..|sn| - 1] == NatToString(n / 10);
      NatToStringInjective(m / 10, n / 10);
    }
  }

  /** The `prefix.i` names given to partitions and aggregated series. */
  function Dotted(prefix: string, i: nat): string
  {
    prefix + "." + NatToString(i)
  }

  lemma DottedInjective(prefix: string, i: nat, j: nat)
    requires Dotted(prefix, i) == Dotted(prefix, j)
    ensures i == j
  {
    var a, b := Dotted(prefix, i), Dotted(prefix, j);
    assert a[|prefix| + 1..] == NatToString(i);
    assert b[|prefix| + 1..] == NatToString(j);
    NatToStringInjective(i, j);
  }

  predicate IsPrefix(p: string, s: string)
  {
    |p| <= |s| && s[..|p|] == p
  }

  predicate OccursAt(s: string, t: string, k: nat)
  {
    k + |t| <= |s| && s[k..k + |t|] == t
  }

  /** `t` is a substring of `s`. */
  predicate Contains(s: string, t: string)
  {
    exists k: nat | k <= |s| :: OccursAt(s, t, k)
  }

  /** The leftmost position at which `t` occurs in `s`, searching from `from`. */
  function FindFrom(s: string, t: string, from: nat): (r: Option<nat>)
    requires from <= |s|
    ensures r.Some? ==> from <= r.value && OccursAt(s, t, r.value)
    ensures r.Some? ==> forall k: nat | from <= k < r.value :: !OccursAt(s, t, k)
    ensures r.None? ==> forall k: nat | from <= k <= |s| :: !OccursAt(s, t, k)
    decreases |s| - from
  {
    if OccursAt(s, t, from) then Some(from)
    else if from == |s| then None
    else FindFrom(s, t, from + 1)
  }

  /** The leftmost occurrence of `t` in `s`, if any. */
  function Find(s: string, t: string): (r: Option<nat>)
    ensures r.Some? ==> OccursAt(s, t, r.value) && forall k: nat | k < r.value :: !OccursAt(s, t, k)
    ensures r.None? <==> !Contains(s, t)
  {
    FindFrom(s, t, 0)
  }
}
