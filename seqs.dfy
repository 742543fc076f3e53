/** Generic sequence helpers shared by the relation, data-frame and owner-resolution models. */
module Seqs {
  import opened Wrappers

  /** Keeps, in order, the elements satisfying `p` (a row filter). */
  function Filter<T>(s: seq<T>, p: T -> bool): (r: seq<T>)
    ensures |r| <= |s|
  {
    if s == [] then []
    else if p(s[|s| - 1]) then Filter(s[..|s| - 1], p) + [s[|s| - 1]]
    else Filter(s[..|s| - 1], p)
  }

  /** An element is kept exactly when it is in the input and satisfies the predicate. */
  lemma {:induction false} FilterMember<T>(s: seq<T>, p: T -> bool, x: T)
    ensures x in Filter(s, p) <==> x in s && p(x)
  {
    if s != [] {
      var init := s[..|s| - 1];
      FilterMember(init, p, x);
      assert s == init + [s[|s| - 1]];
    }
  }

  lemma FilterAppend<T>(a: seq<T>, b: seq<T>, p: T -> bool)
    ensures Filter(a + b, p) == Filter(a, p) + Filter(b, p)
    decreases |b|
  {
    if b == [] {
      assert a + b == a;
    } else {
      assert (a + b)[..|a + b| - 1] == a + b[..|b| - 1];
      FilterAppend(a, b[..|b| - 1], p);
    }
  }

  /** Filtering twice is filtering once by the conjunction. */
  lemma {:induction false} FilterFilter<T>(s: seq<T>, p: T -> bool, q: T -> bool)
    ensures Filter(Filter(s, p), q) == Filter(s, x => p(x) && q(x))
  {
    if s != [] {
      var init := s[..|s| - 1];
      FilterFilter(init, p, q);
      if p(s[|s| - 1]) {
        FilterAppend(Filter(init, p), [s[|s| - 1]], q);
      }
    }
  }

  /** Three filters in a row keep what their conjunction `c` keeps, in any order, and only remove. */
  lemma FilterChain<T>(s: seq<T>, p: T -> bool, q: T -> bool, w: T -> bool, c: T -> bool)
    requires forall x :: c(x) == (p(x) && q(x) && w(x))
    ensures Filter(Filter(Filter(s, p), q), w) == Filter(s, c)
    ensures multiset(Filter(Filter(Filter(s, p), q), w)) <= multiset(s)
  {
    var pq := x => p(x) && q(x);
    FilterFilter(s, p, q);
    FilterFilter(s, pq, w);
    FilterCongruent(s, x => pq(x) && w(x), c);
    FilterSubMultiset(s, c);
  }

  /** A predicate that holds exactly on the positions `lo .. hi - 1` keeps that slice. */
  lemma {:induction false} FilterSlice<T>(s: seq<T>, p: T -> bool, lo: nat, hi: nat)
    requires lo <= hi <= |s|
    requires forall i | 0 <= i < |s| :: p(s[i]) <==> lo <= i < hi
    ensures Filter(s, p) == s[lo..hi]
  {
    if s != [] {
      var n := |s| - 1;
      var init := s[..n];
      assert forall i | 0 <= i < n :: init[i] == s[i];
      if n >= hi {
        FilterSlice(init, p, lo, hi);
      } else if lo <= n {
        FilterSlice(init, p, lo, n);
        assert s[lo..hi] == init[lo..n] + [s[n]];
      } else {
        FilterNone(s, p);
      }
    }
  }

  /** The kept elements form a sub-multiset of the input: a filter only removes. */
  lemma {:induction false} FilterSubMultiset<T>(s: seq<T>, p: T -> bool)
    ensures multiset(Filter(s, p)) <= multiset(s)
  {
    if s != [] {
      var init := s[..|s| - 1];
      FilterSubMultiset(init, p);
      assert s == init + [s[|s| - 1]];
    }
  }

  /** Filters whose predicates agree pointwise keep the same elements. */
  lemma {:induction false} FilterCongruent<T>(s: seq<T>, p: T -> bool, q: T -> bool)
    requires forall x <- s :: p(x) == q(x)
    ensures Filter(s, p) == Filter(s, q)
  {
    if s != [] {
      FilterCongruent(s[..|s| - 1], p, q);
    }
  }

  /** Filters that agree position by position on two equally long sequences keep equally many elements. */
  lemma {:induction false} FilterLengthIndexwise<A, B>(a: seq<A>, b: seq<B>, p: A -> bool, q: B -> bool)
    requires |a| == |b|
    requires forall i | 0 <= i < |a| :: p(a[i]) == q(b[i])
    ensures |Filter(a, p)| == |Filter(b, q)|
  {
    if a != [] {
      FilterLengthIndexwise(a[..|a| - 1], b[..|b| - 1], p, q);
    }
  }

  lemma {:induction false} FilterAll<T>(s: seq<T>, p: T -> bool)
    requires forall x <- s :: p(x)
    ensures Filter(s, p) == s
  {
    if s != [] {
      FilterAll(s[..|s| - 1], p);
    }
  }

  lemma FilterNone<T>(s: seq<T>, p: T -> bool)
    requires forall x <- s :: !p(x)
    ensures Filter(s, p) == []
  {
    if s != [] {
      FilterNone(s[..|s| - 1], p);
    }
  }

  /** The last present value of a sequence of nullable values (SQL `last_value(... IGNORE NULLS)`). */
  function LastSome<T>(xs: seq<Option<T>>): (r: Option<T>)
    ensures r.None? <==> forall k | 0 <= k < |xs| :: xs[k].None?
    ensures r.Some? ==> exists j | 0 <= j < |xs| :: xs[j] == r && forall k | j < k < |xs| :: xs[k].None?
  {
    if xs == [] then None
    else if xs[|xs| - 1].Some? then xs[|xs| - 1]
    else
      var init := xs[..|xs| - 1];
      var r := LastSome(init);
      assert r.Some? ==> exists j | 0 <= j < |xs| :: xs[j] == r && forall k | j < k < |xs| :: xs[k].None? by {
        if r.Some? {
          var j :| 0 <= j < |init| && init[j] == r && forall k | j < k < |init| :: init[k].None?;
          assert xs[j] == r;
          assert forall k | j < k < |xs| :: xs[k].None? by {
            assert forall k | j < k < |init| :: init[k] == xs[k];
          }
        }
      }
      assert r.None? <==> forall k | 0 <= k < |xs| :: xs[k].None? by {
        assert forall k | 0 <= k < |init| :: init[k] == xs[k];
      }
      r
  }

  /** `LastSome` over the slice `xs[lo..hi]`, stated on the indices of `xs`. */
  lemma LastSomeSlice<T>(xs: seq<Option<T>>, lo: nat, hi: nat)
    requires lo <= hi <= |xs|
    ensures var r := LastSome(xs[lo..hi]);
      && (r.None? <==> forall j | lo <= j < hi :: xs[j].None?)
      && (r.Some? ==> exists j | lo <= j < hi :: xs[j] == r && forall k | j < k < hi :: xs[k].None?)
  {
    var ys := xs[lo..hi];
    var r := LastSome(ys);
    if r.Some? {
      var j :| 0 <= j < |ys| && ys[j] == r && forall k | j < k < |ys| :: ys[k].None?;
      assert xs[lo + j] == r;
      forall k | lo + j < k < hi ensures xs[k].None? {
        assert ys[k - lo] == xs[k];
      }
    } else {
      forall k | lo <= k < hi ensures xs[k].None? {
        assert ys[k - lo] == xs[k];
      }
    }
  }

  /** `True` when some element has key `k`. */
  predicate HasKey<T, K(==)>(s: seq<T>, key: T -> K, k: K)
  {
    exists i | 0 <= i < |s| :: key(s[i]) == k
  }

  /** Keeps the first element of every key, in order (pandas `drop_duplicates(keep="first")`). */
  function DedupBy<T, K(==)>(s: seq<T>, key: T -> K): (r: seq<T>)
    ensures |r| <= |s|
    ensures forall i, j | 0 <= i < j < |r| :: key(r[i]) != key(r[j])
    ensures forall i | 0 <= i < |s| :: HasKey(r, key, key(s[i]))
    ensures forall y <- r :: exists i | 0 <= i < |s| :: s[i] == y && !HasKey(s[..i], key, key(y))
  {
    if s == [] then []
    else
      var init := s[..|s| - 1];
      var last := s[|s| - 1];
      var prev := DedupBy(init, key);
      if HasKey(init, key, key(last)) then
        assert forall i | 0 <= i < |init| :: s[..i] == init[..i];
        prev
      else
        assert forall i | 0 <= i < |init| :: s[..i] == init[..i];
        assert s[..|s| - 1] == init;
        assert !HasKey(prev, key, key(last));
        var r := prev + [last];
        assert forall i | 0 <= i < |init| :: HasKey(r, key, key(s[i])) by {
          forall i | 0 <= i < |init| ensures HasKey(r, key, key(s[i])) {
            var j :| 0 <= j < |prev| && key(prev[j]) == key(init[i]);
            assert key(r[j]) == key(s[i]);
          }
        }
        assert key(r[|r| - 1]) == key(s[|s| - 1]);
        r
  }

  /** `le` is a total preorder: what `sorted` needs of its comparison. */
  ghost predicate TotalPreorder<T(!new)>(le: (T, T) -> bool)
  {
    && (forall x, y :: le(x, y) || le(y, x))
    && (forall x, y, z :: le(x, y) && le(y, z) ==> le(x, z))
  }

  predicate SortedBy<T>(s: seq<T>, le: (T, T) -> bool)
  {
    forall i, j | 0 <= i < j < |s| :: le(s[i], s[j])
  }

  function Insert<T(!new)>(x: T, s: seq<T>, le: (T, T) -> bool): (r: seq<T>)
    requires TotalPreorder(le) && SortedBy(s, le)
    ensures multiset(r) == multiset(s) + multiset{x}
    ensures SortedBy(r, le)
  {
    if s == [] then [x]
    else if le(x, s[0]) then
      [x] + s
    else
      var rest := Insert(x, s[1..], le);
      assert s == [s[0]] + s[1..];
      assert forall y <- multiset(rest) :: le(s[0], y);
      [s[0]] + rest
  }

  /** An insertion sort: the result is sorted and a permutation of the input. */
  function SortBy<T(!new)>(s: seq<T>, le: (T, T) -> bool): (r: seq<T>)
    requires TotalPreorder(le)
    ensures multiset(r) == multiset(s)
    ensures SortedBy(r, le)
  {
    if s == [] then []
    else
      assert s == s[..|s| - 1] + [s[|s| - 1]];
      Insert(s[|s| - 1], SortBy(s[..|s| - 1], le), le)
  }

  function IntLe(x: int, y: int): bool { x <= y }

  lemma IntLeTotal()
    ensures TotalPreorder(IntLe)
  {
  }
}
