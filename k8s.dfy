/**
 * `fetch_pod_intervals` (datakube/k8s_utils.py): the lifetime of every pod of a Kubernetes pod
 * list, from the earliest start to the latest finish of its terminated containers, sorted.
 * Timestamps are integers; the `assert`s and the exceptions the source can raise on the way are
 * the `IntervalError`s of the result.
 */
module K8s {
  import opened Wrappers
  import opened Seqs

  datatype Terminated = Terminated(startedAt: Option<int>, finishedAt: Option<int>)
  datatype ContainerState = ContainerState(terminated: Option<Terminated>)
  datatype ContainerStatus = ContainerStatus(state: Option<ContainerState>)
  datatype PodStatus = PodStatus(containerStatuses: Option<seq<ContainerStatus>>)
  datatype Pod = Pod(status: Option<PodStatus>)

  /**
   * A failed `assert`, an ordering comparison against `None`, and a read of an attribute the
   * object does not have.
   */
  datatype IntervalError = AssertionFailed | TypeError | AttributeMissing

  datatype Interval = Interval(start: int, end: int)

  /** The running `start` and `end` of a pod while its containers are visited. */
  datatype Bounds = Bounds(start: Option<int>, end: Option<int>)

  /**
   * How the running `end` is compared: `AsWritten` reads `finished_at` from the container state,
   * which has no such attribute; `Intended` reads it from the terminated state, like `started_at`.
   */
  datatype EndRule = AsWritten | Intended

  /** A container that terminated with both of its timestamps. */
  predicate Complete(c: ContainerStatus)
  {
    c.state.Some? && c.state.value.terminated.Some?
    && c.state.value.terminated.value.startedAt.Some? && c.state.value.terminated.value.finishedAt.Some?
  }

  function StartOf(c: ContainerStatus): int
    requires Complete(c)
  {
    c.state.value.terminated.value.startedAt.value
  }

  function FinishOf(c: ContainerStatus): int
    requires Complete(c)
  {
    c.state.value.terminated.value.finishedAt.value
  }

  /**
   * One container of the inner loop: both asserts, then the `start` update (an earlier start
   * replaces it; a missing start is taken while `start` is unset and cannot be compared
   * afterwards), then the `end` update by `rule`.
   */
  function ContainerStep(c: ContainerStatus, b: Bounds, rule: EndRule): (r: Result<Bounds, IntervalError>)
    ensures c.state.None? || c.state.value.terminated.None? ==> r == Err(AssertionFailed)
    ensures Complete(c) && b.start.Some? && b.end.Some? ==>
      r == if rule == AsWritten then Err(AttributeMissing)
           else Ok(Bounds(Some(Min(b.start.value, StartOf(c))), Some(Max(b.end.value, FinishOf(c)))))
  {
    if c.state.None? || c.state.value.terminated.None? then Err(AssertionFailed)
    else
      var t := c.state.value.terminated.value;
      var start :=
        if b.start.None? then Ok(t.startedAt)
        else if t.startedAt.None? then Err(TypeError)
        else if t.startedAt.value < b.start.value then Ok(t.startedAt)
        else Ok(b.start);
      var end :=
        if b.end.None? then Ok(t.finishedAt)
        else if rule == AsWritten then Err(AttributeMissing)
        else if t.finishedAt.None? then Err(TypeError)
        else if t.finishedAt.value > b.end.value then Ok(t.finishedAt)
        else Ok(b.end);
      if start.Err? then Err(start.error)
      else if end.Err? then Err(end.error)
      else Ok(Bounds(start.value, end.value))
  }

  function Min(x: int, y: int): int { if y < x then y else x }

  function Max(x: int, y: int): int { if y > x then y else x }

  /** The inner loop over `container_statuses`, from unset bounds, stopping at the first error. */
  function ScanContainers(cs: seq<ContainerStatus>, rule: EndRule): Result<Bounds, IntervalError>
  {
    if cs == [] then Ok(Bounds(None, None))
    else
      var prior := ScanContainers(cs[..|cs| - 1], rule);
      if prior.Err? then prior else ContainerStep(cs[|cs| - 1], prior.value, rule)
  }

  /**
   * The interval of one pod: it must have a status and a non-empty list of container statuses,
   * and both bounds must be set once its containers have been visited.
   */
  function PodIntervalOf(p: Pod, rule: EndRule): (r: Result<Interval, IntervalError>)
    ensures p.status.None? ==> r == Err(AssertionFailed)
    ensures p.status.Some? && (p.status.value.containerStatuses.None? || p.status.value.containerStatuses.value == []) ==>
      r == Err(AssertionFailed)
  {
    if p.status.None? then Err(AssertionFailed)
    else if p.status.value.containerStatuses.None? || p.status.value.containerStatuses.value == [] then Err(AssertionFailed)
    else
      var b := ScanContainers(p.status.value.containerStatuses.value, rule);
      if b.Err? then Err(b.error)
      else if b.value.start.None? || b.value.end.None? then Err(AssertionFailed)
      else Ok(Interval(b.value.start.value, b.value.end.value))
  }

  /** The outer loop: the intervals of the pods in order, or the error of the first pod that fails. */
  function IntervalsOf(pods: seq<Pod>, rule: EndRule): Result<seq<Interval>, IntervalError>
  {
    if pods == [] then Ok([])
    else
      var prior := IntervalsOf(pods[..|pods| - 1], rule);
      if prior.Err? then prior
      else
        var last := PodIntervalOf(pods[|pods| - 1], rule);
        if last.Err? then Err(last.error) else Ok(prior.value + [last.value])
  }

  /** Python's tuple order on `(start, end)`. */
  function IntervalLe(a: Interval, b: Interval): bool
  {
    a.start < b.start || (a.start == b.start && a.end <= b.end)
  }

  lemma IntervalLeTotal()
    ensures TotalPreorder(IntervalLe)
  {
  }

  /** The meaning of `fetch_pod_intervals` under `rule`. */
  function FetchPodIntervalsOf(pods: seq<Pod>, rule: EndRule): Result<seq<Interval>, IntervalError>
  {
    var r := IntervalsOf(pods, rule);
    if r.Err? then Err(r.error)
    else
      IntervalLeTotal();
      Ok(SortBy(r.value, IntervalLe))
  }

  /** `fetch_pod_intervals` with the end of each pod read from its terminated containers. */
  method FetchPodIntervals(pods: seq<Pod>) returns (r: Result<seq<Interval>, IntervalError>)
    ensures r == FetchPodIntervalsOf(pods, Intended)
  {
    var intervals: seq<Interval> := [];
    for i := 0 to |pods|
      invariant IntervalsOf(pods[..i], Intended) == Ok(intervals)
    {
      assert pods[..i + 1][..i] == pods[..i];
      var pod := pods[i];
      if pod.status.None? || pod.status.value.containerStatuses.None? || pod.status.value.containerStatuses.value == [] {
        IntervalsErrStays(pods, i + 1, Intended);
        return Err(AssertionFailed);
      }
      var cs := pod.status.value.containerStatuses.value;
      var start: Option<int> := None;
      var end: Option<int> := None;
      for j := 0 to |cs|
        invariant ScanContainers(cs[..j], Intended) == Ok(Bounds(start, end))
      {
        assert cs[..j + 1][..j] == cs[..j];
        var cstat := cs[j];
        if cstat.state.None? || cstat.state.value.terminated.None? {
          PodFails(pods, i, j + 1);
          return Err(AssertionFailed);
        }
        var t := cstat.state.value.terminated.value;
        if start.None? {
          start := t.startedAt;
        } else if t.startedAt.None? {
          PodFails(pods, i, j + 1);
          return Err(TypeError);
        } else if t.startedAt.value < start.value {
          start := t.startedAt;
        }
        if end.None? {
          end := t.finishedAt;
        } else if t.finishedAt.None? {
          PodFails(pods, i, j + 1);
          return Err(TypeError);
        } else if t.finishedAt.value > end.value {
          end := t.finishedAt;
        }
      }
      assert cs[..|cs|] == cs;
      if start.None? || end.None? {
        IntervalsErrStays(pods, i + 1, Intended);
        return Err(AssertionFailed);
      }
      intervals := intervals + [Interval(start.value, end.value)];
    }
    assert pods[..|pods|] == pods;
    IntervalLeTotal();
    r := Ok(SortBy(intervals, IntervalLe));
  }

  /** Once a prefix of the pods fails, the whole list fails with the same error. */
  lemma {:induction false} IntervalsErrStays(pods: seq<Pod>, i: nat, rule: EndRule)
    requires i <= |pods| && IntervalsOf(pods[..i], rule).Err?
    ensures IntervalsOf(pods, rule) == IntervalsOf(pods[..i], rule)
  {
    if i < |pods| {
      var init := pods[..|pods| - 1];
      assert init[..i] == pods[..i];
      IntervalsErrStays(init, i, rule);
    } else {
      assert pods[..i] == pods;
    }
  }

  /** Once a prefix of the containers fails, the whole inner loop fails with the same error. */
  lemma {:induction false} ScanErrStays(cs: seq<ContainerStatus>, j: nat, rule: EndRule)
    requires j <= |cs| && ScanContainers(cs[..j], rule).Err?
    ensures ScanContainers(cs, rule) == ScanContainers(cs[..j], rule)
  {
    if j < |cs| {
      var init := cs[..|cs| - 1];
      assert init[..j] == cs[..j];
      ScanErrStays(init, j, rule);
    } else {
      assert cs[..j] == cs;
    }
  }

  /** A failing container of pod `i`, after pods that all succeeded, is the error of the whole list. */
  lemma PodFails(pods: seq<Pod>, i: nat, j: nat)
    requires i < |pods| && IntervalsOf(pods[..i], Intended).Ok?
    requires pods[i].status.Some? && pods[i].status.value.containerStatuses.Some?
    requires var cs := pods[i].status.value.containerStatuses.value;
      0 < j <= |cs| && ScanContainers(cs[..j], Intended).Err?
    ensures var cs := pods[i].status.value.containerStatuses.value;
      IntervalsOf(pods, Intended) == Err(ScanContainers(cs[..j], Intended).error)
  {
    var cs := pods[i].status.value.containerStatuses.value;
    ScanErrStays(cs, j, Intended);
    assert pods[..i + 1][..i] == pods[..i];
    IntervalsErrStays(pods, i + 1, Intended);
  }

  /**
   * The outer loop fails exactly when some pod fails, with the error of the first such pod;
   * otherwise it yields one interval per pod, in the order of the pods.
   */
  lemma {:induction false} IntervalsOfSpec(pods: seq<Pod>, rule: EndRule)
    ensures var r := IntervalsOf(pods, rule);
      && (r.Ok? <==> forall k | 0 <= k < |pods| :: PodIntervalOf(pods[k], rule).Ok?)
      && (r.Ok? ==> |r.value| == |pods| && forall k | 0 <= k < |pods| :: r.value[k] == PodIntervalOf(pods[k], rule).value)
      && (r.Err? ==> exists k | 0 <= k < |pods| ::
            && PodIntervalOf(pods[k], rule) == Err(r.error)
            && forall k' | 0 <= k' < k :: PodIntervalOf(pods[k'], rule).Ok?)
  {
    if pods != [] {
      var init := pods[..|pods| - 1];
      IntervalsOfSpec(init, rule);
      assert forall k | 0 <= k < |init| :: init[k] == pods[k];
    }
  }

  /**
   * `fetch_pod_intervals` succeeds exactly when every pod yields an interval; the result is then
   * those intervals, one per pod, sorted by `(start, end)`.
   */
  lemma FetchPodIntervalsSpec(pods: seq<Pod>, rule: EndRule)
    ensures var r := FetchPodIntervalsOf(pods, rule);
      && (r.Ok? <==> forall k | 0 <= k < |pods| :: PodIntervalOf(pods[k], rule).Ok?)
      && (r.Ok? ==>
            && SortedBy(r.value, IntervalLe)
            && multiset(r.value) == multiset(seq(|pods|, k requires 0 <= k < |pods| => PodIntervalOf(pods[k], rule).value)))
      && (r.Err? ==> exists k | 0 <= k < |pods| ::
            && PodIntervalOf(pods[k], rule) == Err(r.error)
            && forall k' | 0 <= k' < k :: PodIntervalOf(pods[k'], rule).Ok?)
  {
    IntervalsOfSpec(pods, rule);
    var r := IntervalsOf(pods, rule);
    if r.Ok? {
      assert r.value == seq(|pods|, k requires 0 <= k < |pods| => PodIntervalOf(pods[k], rule).value);
    }
  }

  /**
   * Over terminated containers that all carry both timestamps, the intended inner loop yields the
   * earliest start and the latest finish among them.
   */
  lemma {:induction false} CompleteBounds(cs: seq<ContainerStatus>)
    requires |cs| > 0 && forall c <- cs :: Complete(c)
    ensures var r := ScanContainers(cs, Intended);
      && r.Ok? && r.value.start.Some? && r.value.end.Some?
      && (forall c <- cs :: r.value.start.value <= StartOf(c) && FinishOf(c) <= r.value.end.value)
      && (exists c <- cs :: StartOf(c) == r.value.start.value)
      && (exists c <- cs :: FinishOf(c) == r.value.end.value)
  {
    var init, last := cs[..|cs| - 1], cs[|cs| - 1];
    assert cs == init + [last];
    assert last in cs;
    var r := ScanContainers(cs, Intended);
    if init == [] {
      assert ScanContainers(init, Intended) == Ok(Bounds(None, None));
      assert r == Ok(Bounds(Some(StartOf(last)), Some(FinishOf(last))));
      assert forall c <- cs :: c == last;
    } else {
      assert forall c <- init :: c in cs;
      CompleteBounds(init);
      var b := ScanContainers(init, Intended).value;
      assert r == Ok(Bounds(Some(Min(b.start.value, StartOf(last))), Some(Max(b.end.value, FinishOf(last)))));
      assert forall c <- cs :: c in init || c == last;
    }
  }

  /**
   * The interval of a pod whose containers all terminated with both timestamps spans them all:
   * it starts at the earliest start and ends at the latest finish, and it is well ordered when
   * each container finished no earlier than it started.
   */
  lemma PodIntervalSpans(p: Pod)
    requires p.status.Some? && p.status.value.containerStatuses.Some?
    requires var cs := p.status.value.containerStatuses.value; |cs| > 0 && forall c <- cs :: Complete(c)
    ensures var cs := p.status.value.containerStatuses.value;
      var r := PodIntervalOf(p, Intended);
      && r.Ok?
      && (forall c <- cs :: r.value.start <= StartOf(c) && FinishOf(c) <= r.value.end)
      && (exists c <- cs :: StartOf(c) == r.value.start)
      && (exists c <- cs :: FinishOf(c) == r.value.end)
      && ((forall c <- cs :: StartOf(c) <= FinishOf(c)) ==> r.value.start <= r.value.end)
  {
    CompleteBounds(p.status.value.containerStatuses.value);
  }

  /** A container without a state or without a terminated state makes its pod fail, whatever the rule. */
  lemma {:induction false} UnterminatedFails(cs: seq<ContainerStatus>, k: nat, rule: EndRule)
    requires k < |cs| && (cs[k].state.None? || cs[k].state.value.terminated.None?)
    ensures ScanContainers(cs, rule).Err?
  {
    var init := cs[..|cs| - 1];
    if k < |cs| - 1 {
      assert init[k] == cs[k];
      UnterminatedFails(init, k, rule);
    }
  }

  /** As written, the second of two complete containers always fails on the missing attribute. */
  lemma {:induction false} AsWrittenSecondFinishedFails(cs: seq<ContainerStatus>)
    requires |cs| >= 2 && forall c <- cs :: Complete(c)
    ensures ScanContainers(cs, AsWritten) == Err(AttributeMissing)
  {
    var init, last := cs[..|cs| - 1], cs[|cs| - 1];
    assert cs == init + [last];
    assert forall c <- init :: c in cs;
    if |init| == 1 {
      var c0 := init[0];
      assert c0 in init && Complete(c0);
      assert init[..0] == [];
      assert ScanContainers(init, AsWritten) == Ok(Bounds(Some(StartOf(c0)), Some(FinishOf(c0))));
    } else {
      AsWrittenSecondFinishedFails(init);
    }
  }

  /** With a single container per pod both rules agree: the flaw needs a second container. */
  lemma SingleContainerAgrees(p: Pod)
    requires p.status.Some? && p.status.value.containerStatuses.Some? && |p.status.value.containerStatuses.value| == 1
    ensures PodIntervalOf(p, AsWritten) == PodIntervalOf(p, Intended)
  {
    var cs := p.status.value.containerStatuses.value;
    assert cs[..0] == [];
    assert ScanContainers(cs, AsWritten) == ContainerStep(cs[0], Bounds(None, None), AsWritten);
    assert ScanContainers(cs, Intended) == ContainerStep(cs[0], Bounds(None, None), Intended);
  }

  /** A pod with containers that ran over 0–5 and 1–7. */
  function TwoContainerPod(): Pod
  {
    Pod(Some(PodStatus(Some([
      ContainerStatus(Some(ContainerState(Some(Terminated(Some(0), Some(5)))))),
      ContainerStatus(Some(ContainerState(Some(Terminated(Some(1), Some(7))))))]))))
  }

  /** As written, the pod above fails on its second container. */
  lemma TwoContainerPodAsWritten(p: Pod)
    requires p == TwoContainerPod()
    ensures PodIntervalOf(p, AsWritten) == Err(AttributeMissing)
  {
    var cs := p.status.value.containerStatuses.value;
    assert forall c <- cs :: Complete(c);
    AsWrittenSecondFinishedFails(cs);
  }

  /** As intended, the pod above spans 0–7. */
  lemma TwoContainerPodIntended(p: Pod)
    requires p == TwoContainerPod()
    ensures PodIntervalOf(p, Intended) == Ok(Interval(0, 7))
  {
    var cs := p.status.value.containerStatuses.value;
    assert cs[..1][..0] == [];
    assert ScanContainers(cs[..1], Intended) == Ok(Bounds(Some(0), Some(5)));
    assert cs[..|cs| - 1] == cs[..1];
  }

  /** A list of one pod yields that pod's interval or error. */
  lemma OnePod(p: Pod, rule: EndRule)
    ensures var r := PodIntervalOf(p, rule);
      IntervalsOf([p], rule) == if r.Err? then Err(r.error) else Ok([r.value])
  {
    var ps := [p];
    assert ps[..|ps| - 1] == [] && ps[|ps| - 1] == p;
    var r := PodIntervalOf(p, rule);
    if r.Ok? {
      assert [] + [r.value] == [r.value];
    }
  }

  /** The list holding only that pod: the source fails where it was meant to yield the interval 0–7. */
  lemma TwoContainerPodExample(pods: seq<Pod>)
    requires pods == [TwoContainerPod()]
    ensures FetchPodIntervalsOf(pods, AsWritten) == Err(AttributeMissing)
    ensures FetchPodIntervalsOf(pods, Intended) == Ok([Interval(0, 7)])
  {
    TwoContainerPodAsWritten(pods[0]);
    TwoContainerPodIntended(pods[0]);
    OnePod(pods[0], AsWritten);
    OnePod(pods[0], Intended);
    IntervalLeTotal();
    var sorted := SortBy([Interval(0, 7)], IntervalLe);
    assert multiset(sorted) == multiset{Interval(0, 7)};
    assert |sorted| == 1 && sorted[0] in multiset(sorted);
  }
}
