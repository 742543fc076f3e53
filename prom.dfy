/**
 * `PromReader` (datakube/prom_utils.py): where `metric_to_df` reads a metric from (an `s3://`
 * data path is split into bucket and prefix and read through the local cache), and
 * `compute_pod_owners_map`, which resolves every pod to its root owner from the
 * `kube_pod_owner`, `kube_replicaset_owner` and `kube_job_owner` metrics.
 */
module Prom {
  import opened Wrappers
  import opened Seqs
  import opened Text
  import DfUtils

  // ---------------------------------------------------------------- the s3:// split

  /** The characters of `[a-zA-Z_-]`. */
  predicate BucketChar(c: char)
  {
    ('a' <= c <= 'z') || ('A' <= c <= 'Z') || c == '_' || c == '-'
  }

  /** The length of the longest run of bucket characters at the start of `s`. */
  function BucketRun(s: string): (n: nat)
    ensures n <= |s|
    ensures forall i | 0 <= i < n :: BucketChar(s[i])
    ensures n < |s| ==> !BucketChar(s[n])
  {
    if s == [] || !BucketChar(s[0]) then 0 else 1 + BucketRun(s[1..])
  }

  /** What `.*` matches: everything up to the first line break. */
  function UpToNewline(s: string): (v: string)
    ensures '\n' !in v
    ensures IsPrefix(v, s)
    ensures |v| == |s| || s[|v|] == '\n'
  {
    if s == [] || s[0] == '\n' then [] else [s[0]] + UpToNewline(s[1..])
  }

  datatype S3Path = S3Path(bucket: string, prefix: string)

  /**
   * `re.match(r"s3://([a-zA-Z_-]+)/(.*)", path)`: the bucket is the whole run of bucket characters
   * after `s3://` and must be followed by `/`; the prefix is the rest of the line.
   */
  function ParseS3(path: string): (r: Option<S3Path>)
    ensures r.Some? ==> r.value.bucket != [] && (forall c <- r.value.bucket :: BucketChar(c)) && '\n' !in r.value.prefix
    ensures r.Some? ==> IsPrefix("s3://" + r.value.bucket + "/" + r.value.prefix, path)
    ensures r.Some? ==> var m := |r.value.bucket| + |r.value.prefix| + 6; m == |path| || path[m] == '\n'
  {
    if !IsPrefix("s3://", path) then None
    else
      var rest := path[5..];
      var n := BucketRun(rest);
      if n == 0 || n == |rest| || rest[n] != '/' then None
      else
        var p := UpToNewline(rest[n + 1..]);
        assert path == "s3://" + rest;
        assert rest[..n + 1 + |p|] == rest[..n] + "/" + p;
        Some(S3Path(rest[..n], p))
  }

  lemma BucketRunAll(b: string, tail: string)
    requires forall c <- b :: BucketChar(c)
    requires tail == [] || !BucketChar(tail[0])
    ensures BucketRun(b + tail) == |b|
    decreases |b|
  {
    if b != [] {
      assert (b + tail)[1..] == b[1..] + tail;
      BucketRunAll(b[1..], tail);
    }
  }

  lemma UpToNewlineAll(p: string)
    requires '\n' !in p
    ensures UpToNewline(p) == p
  {
    if p != [] {
      assert p[0] in p;
      UpToNewlineAll(p[1..]);
    }
  }

  /** A well-formed bucket and a one-line prefix come back out of the split unchanged. */
  lemma ParseS3RoundTrip(bucket: string, prefix: string)
    requires bucket != [] && (forall c <- bucket :: BucketChar(c)) && '\n' !in prefix
    ensures ParseS3("s3://" + bucket + "/" + prefix) == Some(S3Path(bucket, prefix))
  {
    var path := "s3://" + bucket + "/" + prefix;
    var rest := path[5..];
    assert rest == bucket + ("/" + prefix);
    BucketRunAll(bucket, "/" + prefix);
    assert rest[..|bucket|] == bucket;
    assert rest[|bucket| + 1..] == prefix;
    UpToNewlineAll(prefix);
  }

  /** The first position of `b` holding a character outside `[a-zA-Z_-]`. */
  lemma {:induction false} BucketRunStops(b: string, tail: string, k: nat)
    requires k < |b| && !BucketChar(b[k]) && forall i | 0 <= i < k :: BucketChar(b[i])
    ensures BucketRun(b + tail) == k
  {
    if k > 0 {
      assert (b + tail)[1..] == b[1..] + tail;
      BucketRunStops(b[1..], tail, k - 1);
    }
  }

  /**
   * A bucket name holding any character outside `[a-zA-Z_-]` (a digit or a `.`, say) other than
   * `/` does not match, so the data path is read as it is.
   */
  lemma ParseS3RejectsBucket(bucket: string, prefix: string, k: nat)
    requires k < |bucket| && !BucketChar(bucket[k]) && '/' !in bucket
    ensures ParseS3("s3://" + bucket + "/" + prefix).None?
  {
    var path := "s3://" + bucket + "/" + prefix;
    var rest := path[5..];
    assert rest == bucket + ("/" + prefix);
    FirstNonBucket(bucket, k);
    var first: nat :| first <= k && !BucketChar(bucket[first]) && forall i | 0 <= i < first :: BucketChar(bucket[i]);
    BucketRunStops(bucket, "/" + prefix, first);
    assert rest[first] == bucket[first];
    assert bucket[first] in bucket;
  }

  lemma {:induction false} FirstNonBucket(b: string, k: nat)
    requires k < |b| && !BucketChar(b[k])
    ensures exists f: nat :: f <= k && !BucketChar(b[f]) && forall i | 0 <= i < f :: BucketChar(b[i])
  {
    if forall i | 0 <= i < k :: BucketChar(b[i]) {
      assert !BucketChar(b[k]) && forall i | 0 <= i < k :: BucketChar(b[i]);
    } else {
      var i :| 0 <= i < k && !BucketChar(b[i]);
      FirstNonBucket(b, i);
    }
  }

  // ---------------------------------------------------------------- where metric_to_df reads

  /** The local copy of object `key` of `bucket`: `cache_root/bucket/key`. */
  function CachePath(cacheRoot: string, bucket: string, key: string): string
  {
    cacheRoot + "/" + bucket + "/" + key
  }

  /**
   * What `metric_to_df(metric)` hands to `read_parquet`: the cached copy of the prefix when the
   * data path is on S3 and the cache is on, the path `data_path/metric` itself otherwise.
   */
  function ReadLocation(dataPath: string, metric: string, cacheRoot: string, cacheEnabled: bool): (loc: string)
  {
    var path := dataPath + "/" + metric;
    var parts := ParseS3(path);
    if parts.Some? && cacheEnabled then CachePath(cacheRoot, parts.value.bucket, parts.value.prefix) else path
  }

  /**
   * The read goes through the cache exactly when the path splits and the cache is on; then every
   * object listed under the prefix has its local copy under the location read, and distinct
   * objects have distinct copies.
   */
  lemma ReadLocationSpec(dataPath: string, metric: string, cacheRoot: string, cacheEnabled: bool)
    ensures var path := dataPath + "/" + metric;
      var parts := ParseS3(path);
      var loc := ReadLocation(dataPath, metric, cacheRoot, cacheEnabled);
      && (parts.None? || !cacheEnabled ==> loc == path)
      && (parts.Some? && cacheEnabled ==>
            && loc == CachePath(cacheRoot, parts.value.bucket, parts.value.prefix)
            && (forall key | IsPrefix(parts.value.prefix, key) :: IsPrefix(loc, CachePath(cacheRoot, parts.value.bucket, key)))
            && (forall k1, k2 | CachePath(cacheRoot, parts.value.bucket, k1) == CachePath(cacheRoot, parts.value.bucket, k2) :: k1 == k2))
  {
    var parts := ParseS3(dataPath + "/" + metric);
    if parts.Some? && cacheEnabled {
      var b := parts.value.bucket;
      forall key | IsPrefix(parts.value.prefix, key)
        ensures IsPrefix(CachePath(cacheRoot, b, parts.value.prefix), CachePath(cacheRoot, b, key))
      {
        var head := cacheRoot + "/" + b + "/";
        assert CachePath(cacheRoot, b, key) == head + key;
        assert key == parts.value.prefix + key[|parts.value.prefix|..];
      }
      forall k1, k2 | CachePath(cacheRoot, b, k1) == CachePath(cacheRoot, b, k2) ensures k1 == k2 {
        var head := cacheRoot + "/" + b + "/";
        assert CachePath(cacheRoot, b, k1)[|head|..] == k1;
        assert CachePath(cacheRoot, b, k2)[|head|..] == k2;
      }
    }
  }

  /**
   * A data path `s3://bucket/dir` is read, with the cache on, from `cache_root/bucket/dir/metric`;
   * with a digit or a `.` in the bucket name it is read from `s3://bucket/dir/metric` directly.
   */
  lemma ReadLocationS3(bucket: string, dir: string, metric: string, cacheRoot: string)
    requires '\n' !in dir && '\n' !in metric && '/' !in bucket
    ensures (bucket != [] && forall c <- bucket :: BucketChar(c)) ==>
      ReadLocation("s3://" + bucket + "/" + dir, metric, cacheRoot, true) == cacheRoot + "/" + bucket + "/" + dir + "/" + metric
    ensures (exists k | 0 <= k < |bucket| :: !BucketChar(bucket[k])) ==>
      ReadLocation("s3://" + bucket + "/" + dir, metric, cacheRoot, true) == "s3://" + bucket + "/" + dir + "/" + metric
  {
    if bucket != [] && forall c <- bucket :: BucketChar(c) {
      ReadLocationCached(bucket, dir, metric, cacheRoot);
    }
    if exists k | 0 <= k < |bucket| :: !BucketChar(bucket[k]) {
      var k :| 0 <= k < |bucket| && !BucketChar(bucket[k]);
      ReadLocationDirect(bucket, dir, metric, cacheRoot, k);
    }
  }

  lemma ReadLocationCached(bucket: string, dir: string, metric: string, cacheRoot: string)
    requires '\n' !in dir && '\n' !in metric && '/' !in bucket
    requires bucket != [] && forall c <- bucket :: BucketChar(c)
    ensures ReadLocation("s3://" + bucket + "/" + dir, metric, cacheRoot, true) == cacheRoot + "/" + bucket + "/" + dir + "/" + metric
  {
    var prefix := dir + "/" + metric;
    assert "s3://" + bucket + "/" + dir + "/" + metric == "s3://" + bucket + "/" + prefix;
    ParseS3RoundTrip(bucket, prefix);
  }

  lemma ReadLocationDirect(bucket: string, dir: string, metric: string, cacheRoot: string, k: nat)
    requires '\n' !in dir && '\n' !in metric && '/' !in bucket
    requires k < |bucket| && !BucketChar(bucket[k])
    ensures ReadLocation("s3://" + bucket + "/" + dir, metric, cacheRoot, true) == "s3://" + bucket + "/" + dir + "/" + metric
  {
    var prefix := dir + "/" + metric;
    assert "s3://" + bucket + "/" + dir + "/" + metric == "s3://" + bucket + "/" + prefix;
    ParseS3RejectsBucket(bucket, prefix, k);
  }

  // ---------------------------------------------------------------- owner resolution

  /** A `kube_pod_owner` sample: the pod, its namespace and its label string. */
  datatype PodSample = PodSample(pod: string, namespace: string, labels: Option<string>)

  /** A `kube_replicaset_owner` or `kube_job_owner` sample: its namespace and its label string. */
  datatype OwnerSample = OwnerSample(namespace: string, labels: Option<string>)

  /** A pod with the labels `owner_name` and `owner_kind` extracted. */
  datatype PodRow = PodRow(pod: string, namespace: string, ownerName: Option<string>, ownerKind: Option<string>)

  /** A replicaset or job (its name extracted from `replicaset` or `job_name`) with its `owner_name`. */
  datatype OwnerRow = OwnerRow(name: Option<string>, namespace: string, ownerName: Option<string>)

  /** A row of the result: exactly the columns `pod`, `namespace` and `root_owner`. */
  datatype OwnerMapRow = OwnerMapRow(pod: string, namespace: string, rootOwner: Option<string>)

  function PodRows(samples: seq<PodSample>): (rows: seq<PodRow>)
    ensures |rows| == |samples|
    ensures forall i | 0 <= i < |samples| :: rows[i].pod == samples[i].pod && rows[i].namespace == samples[i].namespace
  {
    seq(|samples|, i requires 0 <= i < |samples| =>
      var s := samples[i];
      PodRow(s.pod, s.namespace, DfUtils.ExtractLabel(s.labels, "owner_name"), DfUtils.ExtractLabel(s.labels, "owner_kind")))
  }

  function OwnerRows(samples: seq<OwnerSample>, nameLabel: string): (rows: seq<OwnerRow>)
    ensures |rows| == |samples|
  {
    seq(|samples|, i requires 0 <= i < |samples| =>
      var s := samples[i];
      OwnerRow(DfUtils.ExtractLabel(s.labels, nameLabel), s.namespace, DfUtils.ExtractLabel(s.labels, "owner_name")))
  }

  /** The rows of `rs` whose key is `k`, in order (NaN keys equal each other, as in a pandas merge). */
  function MatchesOf<R, K(==)>(rs: seq<R>, rkey: R -> K, k: K): (ms: seq<R>)
    ensures |ms| <= |rs|
  {
    if rs == [] then []
    else (if rkey(rs[0]) == k then [rs[0]] else []) + MatchesOf(rs[1..], rkey, k)
  }

  /**
   * `merge(how="left")`: every left row, in order, paired with each right row of the same key in
   * turn, or with nothing when there is none.
   */
  function LeftJoin<L, R, K(==)>(ls: seq<L>, lkey: L -> K, rs: seq<R>, rkey: R -> K): seq<(L, Option<R>)>
  {
    if ls == [] then []
    else
      var ms := MatchesOf(rs, rkey, lkey(ls[0]));
      (if ms == [] then [(ls[0], None)] else seq(|ms|, i requires 0 <= i < |ms| => (ls[0], Some(ms[i]))))
        + LeftJoin(ls[1..], lkey, rs, rkey)
  }

  predicate UniqueKeys<R, K(==)>(rs: seq<R>, rkey: R -> K)
  {
    forall i, j | 0 <= i < j < |rs| :: rkey(rs[i]) != rkey(rs[j])
  }

  /** On a right table with unique keys there is at most one match, and it is the row with that key. */
  lemma {:induction false} MatchesUnique<R, K>(rs: seq<R>, rkey: R -> K, k: K)
    requires UniqueKeys(rs, rkey)
    ensures var ms := MatchesOf(rs, rkey, k);
      && (ms == [] <==> forall r <- rs :: rkey(r) != k)
      && (ms != [] ==> |ms| == 1 && ms[0] in rs && rkey(ms[0]) == k)
  {
    if rs != [] {
      var tail := rs[1..];
      assert UniqueKeys(tail, rkey) by {
        forall i, j | 0 <= i < j < |tail| ensures rkey(tail[i]) != rkey(tail[j]) {
          assert tail[i] == rs[i + 1] && tail[j] == rs[j + 1];
        }
      }
      MatchesUnique(tail, rkey, k);
      assert rs == [rs[0]] + tail;
      if rkey(rs[0]) == k {
        forall r <- tail ensures rkey(r) != k {
          var j :| 0 <= j < |tail| && tail[j] == r;
          assert rs[j + 1] == r;
        }
      }
    }
  }

  /** The match of a left row, when the right table has at most one. */
  function FirstOf<R>(ms: seq<R>): (r: Option<R>)
    ensures r.None? <==> ms == []
    ensures r.Some? ==> r.value == ms[0]
  {
    if ms == [] then None else Some(ms[0])
  }

  /**
   * A left join on a right table with unique keys keeps the left table's rows one for one: row `i`
   * of the result is left row `i` with the right row of its key, if there is one.
   */
  lemma {:induction false} LeftJoinUnique<L, R, K>(ls: seq<L>, lkey: L -> K, rs: seq<R>, rkey: R -> K)
    requires UniqueKeys(rs, rkey)
    ensures var j := LeftJoin(ls, lkey, rs, rkey);
      && |j| == |ls|
      && forall i | 0 <= i < |ls| :: j[i] == (ls[i], FirstOf(MatchesOf(rs, rkey, lkey(ls[i]))))
  {
    if ls != [] {
      LeftJoinUnique(ls[1..], lkey, rs, rkey);
      MatchesUnique(rs, rkey, lkey(ls[0]));
    }
  }

  function PodName(p: PodRow): string
  {
    p.pod
  }

  function OwnerName(o: OwnerRow): Option<string>
  {
    o.name
  }

  function PodKey(p: PodRow): (Option<string>, string)
  {
    (p.ownerName, p.namespace)
  }

  function OwnerKey(o: OwnerRow): (Option<string>, string)
  {
    (o.name, o.namespace)
  }

  function JoinedKey(x: (PodRow, Option<OwnerRow>)): (Option<string>, string)
  {
    PodKey(x.0)
  }

  /** `fillna` twice: the replicaset's owner, else the job's owner, else the pod's own `owner_name`. */
  function RootOwner(rs: Option<OwnerRow>, job: Option<OwnerRow>, pod: PodRow): (r: Option<string>)
  {
    if rs.Some? && rs.value.ownerName.Some? then rs.value.ownerName
    else if job.Some? && job.value.ownerName.Some? then job.value.ownerName
    else pod.ownerName
  }

  /** The three tables after `drop_duplicates` on `pod`, `replicaset` and `job_name`, keeping the first. */
  function DedupPods(pods: seq<PodSample>): seq<PodRow>
  {
    DedupBy(PodRows(pods), PodName)
  }

  function DedupOwners(samples: seq<OwnerSample>, nameLabel: string): seq<OwnerRow>
  {
    DedupBy(OwnerRows(samples, nameLabel), OwnerName)
  }

  /** Unique names make unique (name, namespace) join keys. */
  lemma DedupOwnersUnique(samples: seq<OwnerSample>, nameLabel: string)
    ensures UniqueKeys(DedupOwners(samples, nameLabel), OwnerKey)
  {
    var os := DedupOwners(samples, nameLabel);
    forall i, j | 0 <= i < j < |os| ensures OwnerKey(os[i]) != OwnerKey(os[j]) {
      assert os[i].name != os[j].name;
    }
  }

  /** The joins and the coalesce on the deduplicated tables. */
  function OwnersOfRows(podRows: seq<PodRow>, rsT: seq<OwnerRow>, jobT: seq<OwnerRow>): seq<OwnerMapRow>
  {
    var withRs := LeftJoin(podRows, PodKey, rsT, OwnerKey);
    var withJob := LeftJoin(withRs, JoinedKey, jobT, OwnerKey);
    seq(|withJob|, i requires 0 <= i < |withJob| =>
      var p := withJob[i].0.0;
      OwnerMapRow(p.pod, p.namespace, RootOwner(withJob[i].0.1, withJob[i].1, p)))
  }

  /** The meaning of `compute_pod_owners_map` on the three metrics. */
  function PodOwnersMapOf(pods: seq<PodSample>, replicasets: seq<OwnerSample>, jobs: seq<OwnerSample>): seq<OwnerMapRow>
  {
    OwnersOfRows(DedupPods(pods), DedupOwners(replicasets, "replicaset"), DedupOwners(jobs, "job_name"))
  }

  /** `compute_pod_owners_map`, step by step on the three tables it reads. */
  method ComputePodOwnersMap(pods: seq<PodSample>, replicasets: seq<OwnerSample>, jobs: seq<OwnerSample>)
    returns (m: seq<OwnerMapRow>)
    ensures m == PodOwnersMapOf(pods, replicasets, jobs)
  {
    var podOwners := PodRows(pods);
    podOwners := DedupBy(podOwners, PodName);
    var rsOwners := OwnerRows(replicasets, "replicaset");
    rsOwners := DedupBy(rsOwners, OwnerName);
    var jobOwners := OwnerRows(jobs, "job_name");
    jobOwners := DedupBy(jobOwners, OwnerName);
    var withRs := LeftJoin(podOwners, PodKey, rsOwners, OwnerKey);
    var withJob := LeftJoin(withRs, JoinedKey, jobOwners, OwnerKey);
    m := seq(|withJob|, i requires 0 <= i < |withJob| =>
      var p := withJob[i].0.0;
      OwnerMapRow(p.pod, p.namespace, RootOwner(withJob[i].0.1, withJob[i].1, p)));
  }

  lemma UniqueKeySame<R, K>(rs: seq<R>, rkey: R -> K, a: R, b: R)
    requires UniqueKeys(rs, rkey) && a in rs && b in rs && rkey(a) == rkey(b)
    ensures a == b
  {
    var i :| 0 <= i < |rs| && rs[i] == a;
    var j :| 0 <= j < |rs| && rs[j] == b;
    assert !(i < j) && !(j < i);
  }

  /** With unique right keys both joins keep the pods one for one, each with its two matches. */
  lemma OwnersOfRowsAt(podRows: seq<PodRow>, rsT: seq<OwnerRow>, jobT: seq<OwnerRow>)
    requires UniqueKeys(rsT, OwnerKey) && UniqueKeys(jobT, OwnerKey)
    ensures var m := OwnersOfRows(podRows, rsT, jobT);
      && |m| == |podRows|
      && forall i | 0 <= i < |m| :: m[i] == OwnerMapRow(podRows[i].pod, podRows[i].namespace,
           RootOwner(FirstOf(MatchesOf(rsT, OwnerKey, PodKey(podRows[i]))), FirstOf(MatchesOf(jobT, OwnerKey, PodKey(podRows[i]))), podRows[i]))
  {
    var withRs := LeftJoin(podRows, PodKey, rsT, OwnerKey);
    LeftJoinUnique(podRows, PodKey, rsT, OwnerKey);
    LeftJoinUnique(withRs, JoinedKey, jobT, OwnerKey);
  }

  /**
   * The root owner of a pod: the owner of the replicaset whose name is the pod's `owner_name` in
   * the pod's namespace, when there is one and it has an owner; failing that, the owner of the
   * job matched the same way; failing that, the pod's own `owner_name`, which may be missing.
   */
  lemma RootOwnerSpec(p: PodRow, rsT: seq<OwnerRow>, jobT: seq<OwnerRow>)
    requires UniqueKeys(rsT, OwnerKey) && UniqueKeys(jobT, OwnerKey)
    ensures var root := RootOwner(FirstOf(MatchesOf(rsT, OwnerKey, PodKey(p))), FirstOf(MatchesOf(jobT, OwnerKey, PodKey(p))), p);
      && (forall r <- rsT | OwnerKey(r) == PodKey(p) && r.ownerName.Some? :: root == r.ownerName)
      && ((forall r <- rsT | OwnerKey(r) == PodKey(p) :: r.ownerName.None?) ==>
            forall r <- jobT | OwnerKey(r) == PodKey(p) && r.ownerName.Some? :: root == r.ownerName)
      && (((forall r <- rsT | OwnerKey(r) == PodKey(p) :: r.ownerName.None?) &&
           (forall r <- jobT | OwnerKey(r) == PodKey(p) :: r.ownerName.None?)) ==> root == p.ownerName)
  {
    var rsM, jobM := MatchesOf(rsT, OwnerKey, PodKey(p)), MatchesOf(jobT, OwnerKey, PodKey(p));
    MatchesUnique(rsT, OwnerKey, PodKey(p));
    MatchesUnique(jobT, OwnerKey, PodKey(p));
    forall r <- rsT | OwnerKey(r) == PodKey(p) ensures r == rsM[0] {
      UniqueKeySame(rsT, OwnerKey, r, rsM[0]);
    }
    forall r <- jobT | OwnerKey(r) == PodKey(p) ensures r == jobM[0] {
      UniqueKeySame(jobT, OwnerKey, r, jobM[0]);
    }
  }

  /** Every pod name survives the deduplication. */
  lemma DedupPodsCover(pods: seq<PodSample>, rows: seq<PodRow>)
    requires |rows| == |pods|
    requires forall k | 0 <= k < |pods| :: rows[k].pod == pods[k].pod
    ensures forall k | 0 <= k < |pods| :: HasKey(DedupBy(rows, PodName), PodName, pods[k].pod)
  {
    var d := DedupBy(rows, PodName);
    assert forall k | 0 <= k < |rows| :: HasKey(d, PodName, PodName(rows[k]));
  }

  /** Each kept row is the first row of its pod name. */
  lemma DedupRowsFirst(pods: seq<PodSample>, rows: seq<PodRow>)
    requires |rows| == |pods|
    requires forall k | 0 <= k < |pods| :: rows[k].pod == pods[k].pod && rows[k].namespace == pods[k].namespace
    ensures var d := DedupBy(rows, PodName);
      forall i | 0 <= i < |d| :: exists k | 0 <= k < |pods| ::
        && pods[k].pod == d[i].pod && pods[k].namespace == d[i].namespace
        && forall k' | 0 <= k' < k :: pods[k'].pod != d[i].pod
  {
    var d := DedupBy(rows, PodName);
    forall i | 0 <= i < |d| ensures exists k | 0 <= k < |pods| ::
        && pods[k].pod == d[i].pod && pods[k].namespace == d[i].namespace
        && forall k' | 0 <= k' < k :: pods[k'].pod != d[i].pod
    {
      assert d[i] in d;
      var k :| 0 <= k < |rows| && rows[k] == d[i] && !HasKey(rows[..k], PodName, d[i].pod);
      forall k' | 0 <= k' < k ensures pods[k'].pod != d[i].pod {
        assert rows[..k][k'] == rows[k'];
      }
    }
  }

  /**
   * `drop_duplicates(subset="pod", keep="first")` on the pod owners: each pod name once, with
   * the namespace of its first sample, whatever the namespaces of the later ones.
   */
  lemma DedupPodsFirst(pods: seq<PodSample>)
    ensures var d := DedupPods(pods);
      forall i | 0 <= i < |d| :: exists k | 0 <= k < |pods| ::
        && pods[k].pod == d[i].pod && pods[k].namespace == d[i].namespace
        && forall k' | 0 <= k' < k :: pods[k'].pod != d[i].pod
  {
    DedupRowsFirst(pods, PodRows(pods));
  }

  /** The result keeps the deduplicated pod owners one for one, in their order. */
  lemma PodOwnersMapAligned(pods: seq<PodSample>, replicasets: seq<OwnerSample>, jobs: seq<OwnerSample>)
    ensures var m := PodOwnersMapOf(pods, replicasets, jobs);
      var d := DedupPods(pods);
      && |m| == |d|
      && forall i | 0 <= i < |m| :: m[i].pod == d[i].pod && m[i].namespace == d[i].namespace
  {
    DedupOwnersUnique(replicasets, "replicaset");
    DedupOwnersUnique(jobs, "job_name");
    OwnersOfRowsAt(DedupPods(pods), DedupOwners(replicasets, "replicaset"), DedupOwners(jobs, "job_name"));
  }

  /**
   * The result holds exactly one row per distinct pod name: row `i` carries the pod and
   * namespace of the `i`-th row of the deduplicated pod owners, and every sampled pod has a row.
   */
  lemma PodOwnersMapRows(pods: seq<PodSample>, replicasets: seq<OwnerSample>, jobs: seq<OwnerSample>)
    ensures var m := PodOwnersMapOf(pods, replicasets, jobs);
      var d := DedupPods(pods);
      && |m| == |d| <= |pods|
      && (forall i | 0 <= i < |m| :: m[i].pod == d[i].pod && m[i].namespace == d[i].namespace)
      && (forall i, j | 0 <= i < j < |m| :: m[i].pod != m[j].pod)
      && (forall s <- pods :: exists i | 0 <= i < |m| :: m[i].pod == s.pod)
  {
    var d := DedupPods(pods);
    var m := PodOwnersMapOf(pods, replicasets, jobs);
    PodOwnersMapAligned(pods, replicasets, jobs);
    DedupPodsShape(pods);
    forall s <- pods ensures exists i | 0 <= i < |m| :: m[i].pod == s.pod {
      var i :| 0 <= i < |d| && d[i].pod == s.pod;
      assert m[i].pod == s.pod;
    }
  }

  /** The deduplicated pod owners hold each sampled pod name exactly once. */
  lemma DedupPodsShape(pods: seq<PodSample>)
    ensures var d := DedupPods(pods);
      && |d| <= |pods|
      && (forall i, j | 0 <= i < j < |d| :: d[i].pod != d[j].pod)
      && (forall s <- pods :: exists i | 0 <= i < |d| :: d[i].pod == s.pod)
  {
    var d := DedupPods(pods);
    var rows := PodRows(pods);
    assert |d| <= |pods| && forall i, j | 0 <= i < j < |d| :: PodName(d[i]) != PodName(d[j]);
    forall s <- pods ensures exists i | 0 <= i < |d| :: d[i].pod == s.pod {
      var k :| 0 <= k < |pods| && pods[k] == s;
      assert HasKey(d, PodName, pods[k].pod) by {
        DedupPodsCover(pods, rows);
      }
      var i :| 0 <= i < |d| && PodName(d[i]) == pods[k].pod;
    }
  }


  /** Row `i` of the result resolves the `i`-th distinct pod by the rule of `RootOwnerSpec`. */
  lemma PodOwnersMapRoot(pods: seq<PodSample>, replicasets: seq<OwnerSample>, jobs: seq<OwnerSample>, i: nat)
    requires i < |PodOwnersMapOf(pods, replicasets, jobs)|
    ensures var d := DedupPods(pods);
      var rsT, jobT := DedupOwners(replicasets, "replicaset"), DedupOwners(jobs, "job_name");
      && i < |d|
      && PodOwnersMapOf(pods, replicasets, jobs)[i] == OwnerMapRow(d[i].pod, d[i].namespace,
           RootOwner(FirstOf(MatchesOf(rsT, OwnerKey, PodKey(d[i]))), FirstOf(MatchesOf(jobT, OwnerKey, PodKey(d[i]))), d[i]))
      && UniqueKeys(rsT, OwnerKey) && UniqueKeys(jobT, OwnerKey)
  {
    DedupOwnersUnique(replicasets, "replicaset");
    DedupOwnersUnique(jobs, "job_name");
    OwnersOfRowsAt(DedupPods(pods), DedupOwners(replicasets, "replicaset"), DedupOwners(jobs, "job_name"));
  }

  /** `owner_kind` is extracted but never consulted: pods differing only in it resolve alike. */
  lemma OwnerKindIgnored(podRows: seq<PodRow>, other: seq<PodRow>, rsT: seq<OwnerRow>, jobT: seq<OwnerRow>)
    requires UniqueKeys(rsT, OwnerKey) && UniqueKeys(jobT, OwnerKey)
    requires |other| == |podRows| && forall i | 0 <= i < |podRows| :: other[i] == podRows[i].(ownerKind := other[i].ownerKind)
    ensures OwnersOfRows(other, rsT, jobT) == OwnersOfRows(podRows, rsT, jobT)
  {
    OwnersOfRowsAt(podRows, rsT, jobT);
    OwnersOfRowsAt(other, rsT, jobT);
    assert forall i | 0 <= i < |podRows| :: PodKey(other[i]) == PodKey(podRows[i]);
  }
}
