# Dhalion policy scheduler, modelled in Dafny

Dhalion's `PoliciesExecutor` holds a fixed list of health policies. It runs one
background cycle over and over. Each cycle does three things:

1. It asks every policy for its delay and takes the minimum. With no policies,
   the delay is ten seconds.
2. It sleeps for that many whole milliseconds, but only when the number is
   positive. If the sleep is interrupted, the cycle carries on as if the sleep
   had finished.
3. It walks the policy list in order. A policy whose re-read delay is still
   positive in whole milliseconds is skipped. Every other policy runs its
   pipeline: sensors, then detectors, then diagnosers, then resolvers. Each
   stage gets exactly what the previous stage returned.

The model has two modules:

- `Durations` (`durations.dfy`) covers the part of `java.time.Duration` that the
  cycle uses. A duration is its total number of nanoseconds. The module gives
  the natural order and `toMillis()`, which drops the fraction toward zero.
- `Policy` (`policies_executor.dfy`) holds the cycle. It has three parts:
  - the wake-delay computation, a function over the delays the policies report;
  - the sleep decision;
  - the class `PoliciesExecutor`. Its `const` field `policies` is set by the
    constructor and never reassigned. Its method `Cycle` runs one cycle's loop and
    returns what the cycle did: the wake delay, the sleep decision, whether the
    sleep was cut short, and a trace of every stage call. Each call in the trace
    records the policy's position in the list, the input it got and the output
    it returned. `Cycle` is proved equal to the specification function
    `CycleSpec`, and the scheduling properties are lemmas about `CycleTrace` and
    `WakeDelay`.

The policies are outside code, so the model does not call them. For each cycle,
a `PolicyView` per list position says how that policy answers:

- the delay it reports when the minimum is computed;
- the delay it reports when the loop reaches it. This can differ from the first
  read, because a policy recomputes its delay from the wall clock;
- what its sensors return;
- what its detectors, diagnosers and resolvers return for a given input.

How the sleep ends (completed or interrupted) is a parameter of the cycle.

A policy is due when its delay, in whole milliseconds, is not positive. The code
compares `toMillis()` with zero, so a positive delay under one millisecond counts
as due and causes no sleep (`Policy.IsDueIff`, `Durations.ToMillisPositiveIff`).
A sleep lasts the whole milliseconds of the minimum, not the exact duration.

## Model

| member | source | states |
|---|---|---|
| `Durations.Compare` | src/main/java/com/microsoft/dhalion/policy/PoliciesExecutor.java:40 | The natural order of durations: negative, zero or positive exactly when the first is shorter, equal or longer. |
| `Durations.ToMillisPositiveIff` | src/main/java/com/microsoft/dhalion/policy/PoliciesExecutor.java:53 | `toMillis()` is positive exactly when the duration is at least one millisecond. |
| `Durations.ToMillisOfNonNegative` | src/main/java/com/microsoft/dhalion/policy/PoliciesExecutor.java:46 | For a non-negative duration, `toMillis()` is the number of whole milliseconds that fit in it. |
| `Durations.ToMillisMonotone` | src/main/java/com/microsoft/dhalion/policy/PoliciesExecutor.java:38-43 | `toMillis()` keeps the order of durations: a shorter or equal duration never has more milliseconds. |
| `Policy.MinDelay` | src/main/java/com/microsoft/dhalion/policy/PoliciesExecutor.java:38-40 | The minimum of a non-empty stream of delays is one of the delays and is no longer than any of them. |
| `Policy.ScheduledDelays` | src/main/java/com/microsoft/dhalion/policy/PoliciesExecutor.java:38-39 | The delays fed to the minimum are each policy's first `getDelay()`, one per policy, in list order. |
| `Policy.WakeDelay` | src/main/java/com/microsoft/dhalion/policy/PoliciesExecutor.java:38-41 | The wake delay is ten seconds when there are no policies. Otherwise it is one of the policies' delays, and it is no longer than any of them. |
| `Policy.IsDueIff` | src/main/java/com/microsoft/dhalion/policy/PoliciesExecutor.java:53-55 | A policy is due exactly when its delay is under one millisecond, including every negative delay. |
| `Policy.SleepWithoutPolicies` | src/main/java/com/microsoft/dhalion/policy/PoliciesExecutor.java:41-46 | With no policies the cycle sleeps exactly 10000 ms. |
| `Policy.WakeDelayMillis` | src/main/java/com/microsoft/dhalion/policy/PoliciesExecutor.java:38-43 | In whole milliseconds, the wake delay is at most every policy's delay and equals the delay of at least one policy. |
| `Policy.SleepsIffNonePending` | src/main/java/com/microsoft/dhalion/policy/PoliciesExecutor.java:38-50 | The cycle sleeps exactly when no policy is due at the first read. This includes the case of no policies at all. |
| `Policy.SleepEndsByEveryDeadline` | src/main/java/com/microsoft/dhalion/policy/PoliciesExecutor.java:38-50 | A sleep never outlasts any policy's first-read delay. It lasts exactly the milliseconds of some policy's delay, or 10000 ms when there are no policies. |
| `Policy.CycleTraceInOrder` | src/main/java/com/microsoft/dhalion/policy/PoliciesExecutor.java:52-65 | Every stage call of a cycle is on a policy of the list. Policies are served in list order: no call on a later policy comes before a call on an earlier one. |
| `Policy.CallsOfPolicyInCycle` | src/main/java/com/microsoft/dhalion/policy/PoliciesExecutor.java:52-65 | A policy whose re-read delay is positive gets no stage call. A due policy gets exactly one pipeline run: four calls (sensors, detectors, diagnosers, resolvers), each given verbatim the previous stage's output. |
| `Policy.DueNextToPending` | src/main/java/com/microsoft/dhalion/policy/PoliciesExecutor.java:38-65 | Policy A has delay 0 and policy B has delay 5000 ms. The cycle does not sleep, runs A's pipeline and skips B. |
| `Policy.PoliciesExecutor.constructor` | src/main/java/com/microsoft/dhalion/policy/PoliciesExecutor.java:28-33 | The executor keeps exactly the policy list it is given. The list is a `const` field, so no cycle can change it. The Java list object is shared with the caller; "## Left out" says what that leaves out. |
| `Policy.PoliciesExecutor.Cycle` | src/main/java/com/microsoft/dhalion/policy/PoliciesExecutor.java:36-65 | One cycle computes the wake delay, the sleep decision and the trace that `CycleSpec` and `CycleTrace` give. The trace does not depend on whether the sleep was interrupted. |
| `Policy.PoliciesExecutor.Run` | src/main/java/com/microsoft/dhalion/policy/PoliciesExecutor.java:36-67 | Repeated cycles each run to completion, one after another. Each behaves as `CycleSpec` says, whatever happened to the sleeps of earlier cycles. |

## Left out

- Thread-pool plumbing is not modelled: the single-thread scheduled executor, `scheduleWithFixedDelay` with its 1 ms initial delay and 1 ms gap, the returned `ScheduledFuture`, and `destroy()` with its `shutdownNow()`. These exist for concurrency and cancellation. `Run` keeps only the fact that cycles follow one another.
- Real sleeping and interrupt delivery are not modelled. The model keeps the decision to sleep, its length in milliseconds, and how the sleep ended.
- Logging is left out: the sleep and interrupt messages, the "Executing Policy" line and the printing of actions.
- The behaviour of policies is an input. What `getDelay()` and the four stages return comes from a `PolicyView` for each cycle. Their internals are not part of this model.
- An exception thrown by a stage, by `getDelay()` or by `toMillis()` is not modelled. The source does not catch it. It ends the cycle, and because the task runs under `scheduleWithFixedDelay`, no later cycle runs either: the scheduler stops for good. `Run`'s cycles following one another holds only while no such exception occurs.
- The policy list is shared with the caller in Java. The constructor stores the caller's `List` by reference, so code that still holds it can add or remove policies between cycles; the next cycle's stream and loop then see the change, and a change during the loop may throw `ConcurrentModificationException`. The model treats the list as an immutable value of fixed length for the executor's lifetime, so it does not capture this aliasing.
- A null policy list, a null policy and a null duration are not modelled.
- `Durations.ToMillis` does not model the `ArithmeticException` that `toMillis()` throws for durations too large for a 64-bit count of milliseconds (about 292 million years).
- `Durations.ToMillis` truncates toward zero, as `toMillis()` does from Java 9 on. Java 8 rounds negative durations down instead. Both give the same due and sleep decisions, because those decisions only look at whether the value is positive, and positive values agree.
- `IResolver` (src/main/java/com/microsoft/dhalion/api/IResolver.java) is left out. It only has default stubs: two throw `UnsupportedOperationException` and two do nothing. The model treats the resolve stage as an input function.
