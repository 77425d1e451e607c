/** The policy scheduler: one execution cycle of PoliciesExecutor, which
    sizes a single wake-up to the nearest policy deadline and then runs the
    sense → detect → diagnose → resolve pipeline of every policy that is due. */
module Policy {
  import opened Durations

  datatype Option<T> = None | Some(value: T)

  /** Pipeline payloads; the scheduler passes them on without looking inside. */
  type Measurement(==)
  type Symptom(==)
  type Diagnosis(==)
  type Action(==)

  /** An opaque handle on one health policy. */
  type HealthPolicy

  /** Wake delay used when there are no policies: ten seconds. */
  const FallbackDelay: Duration := OfSeconds(10)

  /** How one policy answers the scheduler's calls during one cycle. A policy
      recomputes its delay against the wall clock each time it is asked, so
      the two getDelay() reads of a cycle may differ. */
  datatype PolicyView = PolicyView(
    scheduledDelay: Duration,                     // getDelay() while the wake delay is computed
    recheckedDelay: Duration,                     // getDelay() when the loop reaches the policy
    sensors: seq<Measurement>,                    // what executeSensors() returns
    detectors: seq<Measurement> -> seq<Symptom>,  // executeDetectors
    diagnosers: seq<Symptom> -> seq<Diagnosis>,   // executeDiagnosers
    resolvers: seq<Diagnosis> -> seq<Action>)     // executeResolvers

  /** One stage invocation, with the collection it was given and the one it returned. */
  datatype Call =
    | ExecuteSensors(measurements: seq<Measurement>)
    | ExecuteDetectors(measurements: seq<Measurement>, symptoms: seq<Symptom>)
    | ExecuteDiagnosers(symptoms: seq<Symptom>, diagnoses: seq<Diagnosis>)
    | ExecuteResolvers(diagnoses: seq<Diagnosis>, actions: seq<Action>)

  /** A stage invocation on the policy at position `policy` of the list. */
  datatype Invocation = Invocation(policy: nat, call: Call)

  /** How the sleep of a cycle ended, when the cycle sleeps at all. */
  datatype SleepOutcome = Completed | Interrupted

  /** What one cycle did: the wake delay it computed, how many milliseconds
      it chose to sleep (None: no sleep), whether that sleep was cut short,
      and the stage invocations it made, in order. */
  datatype CycleRecord = CycleRecord(
    wakeDelay: Duration,
    sleep: Option<nat>,
    interrupted: bool,
    trace: seq<Invocation>)

  // ---------------------------------------------------------------------
  // Wake delay and sleep decision

  /** Stream.min with the natural order: a left fold keeping the running
      minimum unless the next element compares strictly smaller. */
  function MinDelay(ds: seq<Duration>): (m: Duration)
    requires |ds| > 0
    ensures m in ds
    ensures forall k :: 0 <= k < |ds| ==> m.nanos <= ds[k].nanos
    decreases |ds|
  {
    if |ds| == 1 then ds[0]
    else
      var soFar := MinDelay(ds[..|ds| - 1]);
      var next := ds[|ds| - 1];
      if Compare(soFar, next) <= 0 then soFar else next
  }

  /** The delays the policies report when the cycle starts, in list order. */
  function ScheduledDelays(views: seq<PolicyView>): (ds: seq<Duration>)
    ensures |ds| == |views|
    ensures forall k :: 0 <= k < |views| ==> ds[k] == views[k].scheduledDelay
  {
    seq(|views|, k requires 0 <= k < |views| => views[k].scheduledDelay)
  }

  /** The time until the earliest policy wants to run, or the fallback when
      there is no policy. */
  function WakeDelay(ds: seq<Duration>): (r: Duration)
    ensures |ds| == 0 ==> r == FallbackDelay
    ensures |ds| > 0 ==> r in ds
    ensures forall k :: 0 <= k < |ds| ==> r.nanos <= ds[k].nanos
  {
    if |ds| == 0 then FallbackDelay else MinDelay(ds)
  }

  /** The sleep decision: sleep for the wake delay's whole milliseconds, and
      only when there is at least one. */
  function SleepMillis(wake: Duration): Option<nat> {
    var ms := ToMillis(wake);
    if ms > 0 then Some(ms) else None
  }

  /** A policy is due when its delay, in whole milliseconds, is not positive. */
  predicate IsDue(d: Duration) {
    ToMillis(d) <= 0
  }

  /** A delay under one millisecond, including every negative one, is due. */
  lemma IsDueIff(d: Duration)
    ensures IsDue(d) <==> d.nanos < NanosPerMilli
  {
    ToMillisPositiveIff(d);
  }

  /** Without policies the cycle sleeps exactly ten seconds. */
  lemma SleepWithoutPolicies()
    ensures SleepMillis(WakeDelay([])) == Some(10_000)
  {
  }

  /** In whole milliseconds, the wake delay is the smallest of the policies'
      delays: no policy reports fewer, and some policy reports exactly that. */
  lemma {:induction false} WakeDelayMillis(ds: seq<Duration>)
    requires |ds| > 0
    ensures forall k :: 0 <= k < |ds| ==> ToMillis(WakeDelay(ds)) <= ToMillis(ds[k])
    ensures exists k :: 0 <= k < |ds| && ToMillis(WakeDelay(ds)) == ToMillis(ds[k])
  {
    var w := WakeDelay(ds);
    forall k | 0 <= k < |ds|
      ensures ToMillis(w) <= ToMillis(ds[k])
    {
      ToMillisMonotone(w, ds[k]);
    }
    var j :| 0 <= j < |ds| && ds[j] == w;
    assert ToMillis(w) == ToMillis(ds[j]);
  }

  /** The cycle sleeps exactly when there is no policy, or no policy is due
      at the first read. */
  lemma SleepsIffNonePending(ds: seq<Duration>)
    ensures SleepMillis(WakeDelay(ds)).Some? <==> (forall k :: 0 <= k < |ds| ==> !IsDue(ds[k]))
  {
    if |ds| > 0 {
      WakeDelayMillis(ds);
    }
  }

  /** A sleep never runs past any policy's deadline: the cycle wakes no later
      than the moment the earliest policy becomes due, and a sleep is as long
      as the delay of one of the policies. */
  lemma SleepEndsByEveryDeadline(ds: seq<Duration>, ms: nat)
    requires SleepMillis(WakeDelay(ds)) == Some(ms)
    ensures forall k :: 0 <= k < |ds| ==> ms * NanosPerMilli <= ds[k].nanos
    ensures |ds| > 0 ==> exists k :: 0 <= k < |ds| && ms == ToMillis(ds[k])
    ensures |ds| == 0 ==> ms == 10_000
  {
    var w := WakeDelay(ds);
    ToMillisOfNonNegative(w);
    if |ds| > 0 {
      WakeDelayMillis(ds);
    }
  }

  // ---------------------------------------------------------------------
  // Due policies and their pipelines

  /** The four stage invocations of a due policy: each stage is handed
      exactly what the previous stage returned. */
  function PipelineCalls(i: nat, v: PolicyView): seq<Invocation> {
    var metrics := v.sensors;
    var symptoms := v.detectors(metrics);
    var diagnosis := v.diagnosers(symptoms);
    var actions := v.resolvers(diagnosis);
    [ Invocation(i, ExecuteSensors(metrics)),
      Invocation(i, ExecuteDetectors(metrics, symptoms)),
      Invocation(i, ExecuteDiagnosers(symptoms, diagnosis)),
      Invocation(i, ExecuteResolvers(diagnosis, actions)) ]
  }

  /** What the loop does for the policy at position i: nothing when its
      re-read delay is still positive, else its whole pipeline. */
  function PolicyCalls(i: nat, v: PolicyView): seq<Invocation> {
    if IsDue(v.recheckedDelay) then PipelineCalls(i, v) else []
  }

  /** The stage invocations of one cycle's loop over the policy list. */
  function CycleTrace(views: seq<PolicyView>): seq<Invocation>
    decreases |views|
  {
    if |views| == 0 then []
    else
      var n := |views| - 1;
      CycleTrace(views[..n]) + PolicyCalls(n, views[n])
  }

  /** Every invocation of a cycle names a policy of the list, and policies
      follow one another in list order: no stage of a later policy comes
      before a stage of an earlier one. */
  lemma {:induction false} CycleTraceInOrder(views: seq<PolicyView>)
    ensures forall k :: 0 <= k < |CycleTrace(views)| ==> CycleTrace(views)[k].policy < |views|
    ensures forall k1, k2 :: 0 <= k1 < k2 < |CycleTrace(views)| ==> CycleTrace(views)[k1].policy <= CycleTrace(views)[k2].policy
    decreases |views|
  {
    if |views| > 0 {
      var n := |views| - 1;
      CycleTraceInOrder(views[..n]);
    }
  }

  /** Extending the loop by one position appends that policy's calls. */
  lemma CycleTraceStep(views: seq<PolicyView>, i: nat)
    requires i < |views|
    ensures CycleTrace(views[..i + 1]) == CycleTrace(views[..i]) + PolicyCalls(i, views[i])
  {
    assert views[..i + 1][..i] == views[..i];
  }

  /** The calls made on the policy at position i, in order. */
  function CallsOf(t: seq<Invocation>, i: nat): seq<Call>
    decreases |t|
  {
    if |t| == 0 then []
    else (if t[0].policy == i then [t[0].call] else []) + CallsOf(t[1..], i)
  }

  /** A complete pipeline run for a policy: sensors, detectors, diagnosers
      and resolvers, once each and in that order, each stage given verbatim
      what the one before returned, and each answering as the policy does. */
  predicate IsPipelineRun(calls: seq<Call>, v: PolicyView) {
    && |calls| == 4
    && calls[0].ExecuteSensors?
    && calls[1].ExecuteDetectors?
    && calls[2].ExecuteDiagnosers?
    && calls[3].ExecuteResolvers?
    && calls[0].measurements == v.sensors
    && calls[1].measurements == calls[0].measurements
    && calls[1].symptoms == v.detectors(calls[1].measurements)
    && calls[2].symptoms == calls[1].symptoms
    && calls[2].diagnoses == v.diagnosers(calls[2].symptoms)
    && calls[3].diagnoses == calls[2].diagnoses
    && calls[3].actions == v.resolvers(calls[3].diagnoses)
  }

  lemma {:induction false} CallsOfAppend(a: seq<Invocation>, b: seq<Invocation>, i: nat)
    ensures CallsOf(a + b, i) == CallsOf(a, i) + CallsOf(b, i)
    decreases |a|
  {
    if |a| == 0 {
      assert a + b == b;
    } else {
      assert (a + b)[1..] == a[1..] + b;
      CallsOfAppend(a[1..], b, i);
    }
  }

  lemma {:induction false} CallsOfAbsent(t: seq<Invocation>, i: nat)
    requires forall k :: 0 <= k < |t| ==> t[k].policy != i
    ensures CallsOf(t, i) == []
    decreases |t|
  {
    if |t| > 0 {
      CallsOfAbsent(t[1..], i);
    }
  }

  /** The calls one loop iteration makes, seen from each policy. */
  lemma CallsOfPolicyCalls(n: nat, v: PolicyView, i: nat)
    ensures i != n ==> CallsOf(PolicyCalls(n, v), i) == []
    ensures i == n && IsDue(v.recheckedDelay) ==> IsPipelineRun(CallsOf(PolicyCalls(n, v), i), v)
    ensures i == n && !IsDue(v.recheckedDelay) ==> CallsOf(PolicyCalls(n, v), i) == []
  {
    var calls := PolicyCalls(n, v);
    if i != n {
      CallsOfAbsent(calls, i);
    } else if IsDue(v.recheckedDelay) {
      assert CallsOf(calls[3..], i) == [calls[3].call];
      assert CallsOf(calls[2..], i) == [calls[2].call] + CallsOf(calls[3..], i);
      assert CallsOf(calls[1..], i) == [calls[1].call] + CallsOf(calls[2..], i);
      assert CallsOf(calls, i) == [calls[0].call] + CallsOf(calls[1..], i);
    }
  }

  /** What a cycle does to the policy at position i: a policy whose re-read
      delay is still positive gets no stage call at all; a due policy gets
      exactly one complete pipeline run; a position past the end of the list
      gets nothing. */
  lemma {:induction false} CallsOfPolicyInCycle(views: seq<PolicyView>, i: nat)
    ensures i < |views| && IsDue(views[i].recheckedDelay) ==> IsPipelineRun(CallsOf(CycleTrace(views), i), views[i])
    ensures i < |views| && !IsDue(views[i].recheckedDelay) ==> CallsOf(CycleTrace(views), i) == []
    ensures i >= |views| ==> CallsOf(CycleTrace(views), i) == []
    decreases |views|
  {
    if i >= |views| {
      CycleTraceInOrder(views);
      CallsOfAbsent(CycleTrace(views), i);
    } else {
      var n := |views| - 1;
      var prefix := CycleTrace(views[..n]);
      CallsOfAppend(prefix, PolicyCalls(n, views[n]), i);
      CallsOfPolicyCalls(n, views[n], i);
      if i == n {
        CycleTraceInOrder(views[..n]);
        CallsOfAbsent(prefix, i);
      } else {
        CallsOfPolicyInCycle(views[..n], i);
        assert views[..n][i] == views[i];
      }
    }
  }

  /** The scenario of a policy due now next to one due in five seconds: the
      cycle does not sleep, runs the first policy's pipeline and skips the other. */
  lemma DueNextToPending(a: PolicyView, b: PolicyView)
    requires a.scheduledDelay == a.recheckedDelay == Duration(0)
    requires b.scheduledDelay == b.recheckedDelay == Duration(5_000 * NanosPerMilli)
    ensures WakeDelay(ScheduledDelays([a, b])) == Duration(0)
    ensures SleepMillis(WakeDelay(ScheduledDelays([a, b]))) == None
    ensures CycleTrace([a, b]) == PipelineCalls(0, a)
  {
    assert [a, b][..1] == [a];
    assert [a][..0] == [];
    assert !IsDue(b.recheckedDelay);
    assert CycleTrace([a]) == PipelineCalls(0, a);
  }

  // ---------------------------------------------------------------------
  // The executor

  /** The specification of one cycle. */
  function CycleSpec(views: seq<PolicyView>, outcome: SleepOutcome): CycleRecord {
    var wake := WakeDelay(ScheduledDelays(views));
    var sleep := SleepMillis(wake);
    CycleRecord(wake, sleep, sleep.Some? && outcome == Interrupted, CycleTrace(views))
  }

  /** One cycle's input: how each policy answers, and how the sleep ends. */
  datatype Round = Round(views: seq<PolicyView>, outcome: SleepOutcome)

  class PoliciesExecutor {
    /** The policies, fixed at construction; no cycle changes them. */
    const policies: seq<HealthPolicy>

    constructor (policies: seq<HealthPolicy>)
      ensures this.policies == policies
    {
      this.policies := policies;
    }

    /** One scheduling cycle. views[i] is how policies[i] answers during the
        cycle; `outcome` is how the sleep ends if the cycle sleeps. Whatever
        the outcome, the loop over the policies runs in full. */
    method Cycle(views: seq<PolicyView>, outcome: SleepOutcome) returns (r: CycleRecord)
      requires |views| == |policies|
      ensures r == CycleSpec(views, outcome)
    {
      var nextScheduleDelay := WakeDelay(ScheduledDelays(views));

      var sleep: Option<nat> := None;
      var interrupted := false;
      if ToMillis(nextScheduleDelay) > 0 {
        sleep := Some(ToMillis(nextScheduleDelay));
        interrupted := outcome == Interrupted;
      }

      var trace: seq<Invocation> := [];
      for i := 0 to |policies|
        invariant trace == CycleTrace(views[..i])
      {
        CycleTraceStep(views, i);
        var policy := views[i];
        if ToMillis(policy.recheckedDelay) > 0 {
          continue;
        }
        ghost var before := trace;
        var metrics := policy.sensors;
        trace := trace + [Invocation(i, ExecuteSensors(metrics))];
        var symptoms := policy.detectors(metrics);
        trace := trace + [Invocation(i, ExecuteDetectors(metrics, symptoms))];
        var diagnosis := policy.diagnosers(symptoms);
        trace := trace + [Invocation(i, ExecuteDiagnosers(symptoms, diagnosis))];
        var actions := policy.resolvers(diagnosis);
        trace := trace + [Invocation(i, ExecuteResolvers(diagnosis, actions))];
        assert trace == before + PipelineCalls(i, policy);
      }
      assert views[..|views|] == views;

      r := CycleRecord(nextScheduleDelay, sleep, interrupted, trace);
    }

    /** Cycles run one after another, each to completion before the next. */
    method Run(rounds: seq<Round>) returns (records: seq<CycleRecord>)
      requires forall k :: 0 <= k < |rounds| ==> |rounds[k].views| == |policies|
      ensures |records| == |rounds|
      ensures forall k :: 0 <= k < |rounds| ==> records[k] == CycleSpec(rounds[k].views, rounds[k].outcome)
    {
      ghost var specs := seq(|rounds|, k requires 0 <= k < |rounds| => CycleSpec(rounds[k].views, rounds[k].outcome));
      records := [];
      for k := 0 to |rounds|
        invariant records == specs[..k]
      {
        var r := Cycle(rounds[k].views, rounds[k].outcome);
        assert specs[..k + 1] == specs[..k] + [r];
        records := records + [r];
      }
      assert specs[..|rounds|] == specs;
    }
  }
}
