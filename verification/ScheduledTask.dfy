/** Scheduled rules that several nodes must not execute at once: the guard kept in the shared tasks table. */
module ScheduledTask {
  import opened Options

  const MILLISECOND := 1_000_000

  /** Ten minutes: two update intervals. Times are in nanoseconds. */
  const TWO_INTERVALS := 600_000_000_000

  /** What is lost at most when a time is stored in milliseconds. */
  const TRUNCATION := MILLISECOND - 1

  function Milliseconds(t: nat): nat
  {
    t / MILLISECOND
  }

  /** The row of the rule in the tasks table; the time is stored in milliseconds. */
  datatype Row = Row(updatedAt: nat, version: nat)

  /** Where one execution of the scheduled job is. */
  datatype Phase =
    | Idle
    | Missing
    | Got(version: nat, updatedAt: nat, gotAt: nat)
    | Passed(version: nat)
    | Running(stampedAt: nat)

  datatype State = State(clock: nat, row: Option<Row>, jobs: map<int, Phase>)
  {
    function At(j: int): Phase
    {
      if j in jobs then jobs[j] else Idle
    }

    function With(j: int, p: Phase): State
    {
      this.(jobs := jobs[j := p])
    }
  }

  datatype Step = Tick(d: nat) | GetTask(j: int) | AddTask(j: int) | Check(j: int) | UpdateTask(j: int)
                | UpdateTaskTimestamp(j: int) | Finish(j: int)

  /** The longest time from reading the task to checking its age, and between two refreshes of a running job. */
  datatype Timing = Timing(checkDelay: nat, refreshInterval: nat)

  /** Time passes only as far as the checks and the refreshes that are due allow. */
  predicate IsTimely(t: Timing, s: State, j: int, clock: nat)
  {
    match s.At(j)
    case Got(_, _, gotAt) => clock <= gotAt + t.checkDelay
    case Running(stampedAt) => clock <= stampedAt + t.refreshInterval
    case _ => true
  }

  ghost predicate CanWait(t: Timing, s: State, clock: nat)
  {
    forall j :: IsTimely(t, s, j, clock)
  }

  ghost predicate IsEnabled(t: Timing, s: State, step: Step)
  {
    match step
    case Tick(d) => CanWait(t, s, s.clock + d)
    case GetTask(j) => s.At(j).Idle?
    case AddTask(j) => s.At(j).Missing?
    case Check(j) => s.At(j).Got?
    case UpdateTask(j) => s.At(j).Passed?
    case UpdateTaskTimestamp(j) => s.At(j).Running? && s.row.Some?
    case Finish(j) => s.At(j).Running?
  }

  /** The task is too recent to be executed. */
  predicate IsTooRecent(updatedAt: nat, clock: nat)
  {
    updatedAt * MILLISECOND + TWO_INTERVALS + 1 > clock
  }

  function Next(s: State, step: Step): State
  {
    match step
    case Tick(d) => s.(clock := s.clock + d)
    case GetTask(j) =>
      if s.row.None? then s.With(j, Missing)
      else s.With(j, Got(s.row.value.version, s.row.value.updatedAt, s.clock))
    case AddTask(j) =>
      if s.row.Some? then s.With(j, Idle)
      else s.(row := Some(Row(Milliseconds(s.clock), 0))).With(j, Got(0, 0, s.clock))
    case Check(j) =>
      if s.At(j).Got? && !IsTooRecent(s.At(j).updatedAt, s.clock) then s.With(j, Passed(s.At(j).version))
      else s.With(j, Idle)
    case UpdateTask(j) =>
      if IsUpdate(s, j)
      then s.(row := Some(Row(Milliseconds(s.clock), s.row.value.version + 1))).With(j, Running(s.clock))
      else s.With(j, Idle)
    case UpdateTaskTimestamp(j) =>
      if s.row.Some? then s.(row := Some(s.row.value.(updatedAt := Milliseconds(s.clock)))).With(j, Running(s.clock))
          else s
    case Finish(j) => s.With(j, Idle)
  }

  /** The version the job read is still the current one. */
  predicate IsUpdate(s: State, j: int)
  {
    s.At(j).Passed? && s.row.Some? && s.row.value.version == s.At(j).version
  }

  ghost predicate IsRun(t: Timing, s: State, steps: seq<Step>)
    decreases |steps|
  {
    steps == [] || (IsEnabled(t, s, steps[0]) && IsRun(t, Next(s, steps[0]), steps[1..]))
  }

  function After(s: State, steps: seq<Step>): State
    decreases |steps|
  {
    if steps == [] then s else After(Next(s, steps[0]), steps[1..])
  }

  predicate IsInitial(s: State)
  {
    s.row.None? && s.jobs == map[]
  }

  // ---------------------------------------------------------------- one success for each version

  /** The versions from which an update succeeds, in order. */
  function Successes(s: State, steps: seq<Step>): seq<nat>
    decreases |steps|
  {
    if steps == [] then []
    else if steps[0].UpdateTask? && IsUpdate(s, steps[0].j)
    then [s.row.value.version] + Successes(Next(s, steps[0]), steps[1..])
    else Successes(Next(s, steps[0]), steps[1..])
  }

  function Version(s: State): nat
  {
    if s.row.Some? then s.row.value.version else 0
  }

  /** Whatever the interleaving and the delays, from each version at most one node succeeds. */
  lemma {:induction false} OneSuccessForEachVersion(s: State, steps: seq<Step>)
    ensures forall i :: 0 <= i < |Successes(s, steps)| ==> Successes(s, steps)[i] >= Version(s)
    ensures forall i, j :: 0 <= i < j < |Successes(s, steps)| ==> Successes(s, steps)[i] < Successes(s, steps)[j]
    decreases |steps|
  {
    if steps != [] {
      OneSuccessForEachVersion(Next(s, steps[0]), steps[1..]);
    }
  }

  // ---------------------------------------------------------------- mutual exclusion

  ghost predicate IsExclusive(s: State)
  {
    forall i, j :: s.At(i).Running? && s.At(j).Running? ==> i == j
  }

  /** The guard protects if and only if what the delays and the truncation add up to is within two intervals. */
  predicate IsSafe(t: Timing)
  {
    t.checkDelay + t.refreshInterval + TRUNCATION <= TWO_INTERVALS
  }

  ghost predicate SomeRuns(s: State)
  {
    exists j :: s.At(j).Running?
  }

  ghost predicate IsGuarded(t: Timing, s: State, j: int)
  {
    match s.At(j)
    case Idle => true
    case Missing => true
    case Got(version, updatedAt, gotAt) =>
      && s.row.Some? && version <= s.row.value.version
      && gotAt <= s.clock <= gotAt + t.checkDelay
      && (version == s.row.value.version && SomeRuns(s) ==>
            updatedAt * MILLISECOND + t.refreshInterval + TRUNCATION >= gotAt)
    case Passed(version) =>
      && s.row.Some? && version <= s.row.value.version
      && (version == s.row.value.version ==> !SomeRuns(s))
    case Running(stampedAt) =>
      && s.row.Some? && s.row.value.version >= 1
      && s.row.value.updatedAt * MILLISECOND + TRUNCATION >= stampedAt
      && stampedAt <= s.clock <= stampedAt + t.refreshInterval
  }

  ghost predicate Invariant(t: Timing, s: State)
  {
    IsExclusive(s) && forall j :: IsGuarded(t, s, j)
  }

  lemma MillisecondsLoss(t: nat)
    ensures Milliseconds(t) * MILLISECOND <= t <= Milliseconds(t) * MILLISECOND + TRUNCATION
  {
  }

  lemma StepKeepsInvariant(t: Timing, s: State, step: Step)
    requires IsSafe(t) && Invariant(t, s) && IsEnabled(t, s, step)
    ensures Invariant(t, Next(s, step))
  {
    match step
    case Tick(d) => WaitingKeepsInvariant(t, s, d);
    case UpdateTask(j) =>
      if IsUpdate(s, j) {
        UpdateKeepsInvariant(t, s, j);
      } else {
        QuietStepKeepsInvariant(t, s, step, j);
      }
    case UpdateTaskTimestamp(j) => RefreshKeepsInvariant(t, s, j);
    case GetTask(j) => QuietStepKeepsInvariant(t, s, step, j);
    case AddTask(j) => QuietStepKeepsInvariant(t, s, step, j);
    case Check(j) => QuietStepKeepsInvariant(t, s, step, j);
    case Finish(j) => QuietStepKeepsInvariant(t, s, step, j);
  }

  lemma WaitingKeepsInvariant(t: Timing, s: State, d: nat)
    requires Invariant(t, s) && IsEnabled(t, s, Tick(d))
    ensures Invariant(t, Next(s, Tick(d)))
  {
    var s' := Next(s, Tick(d));
    assert forall j :: s'.At(j) == s.At(j);
    assert SomeRuns(s') ==> SomeRuns(s) by {
      if j :| s'.At(j).Running? {
        assert s.At(j).Running?;
      }
    }
    forall j
      ensures IsGuarded(t, s', j)
    {
      assert IsGuarded(t, s, j) && IsTimely(t, s, j, s'.clock);
    }
  }

  /** Any step after which no more jobs run than before. */
  lemma QuietStepKeepsInvariant(t: Timing, s: State, step: Step, j: int)
    requires IsSafe(t) && Invariant(t, s) && IsEnabled(t, s, step)
    requires step in {GetTask(j), AddTask(j), Check(j), Finish(j)} || (step == UpdateTask(j) && !IsUpdate(s, j))
    ensures Invariant(t, Next(s, step))
  {
    var s' := Next(s, step);
    MillisecondsLoss(s.clock);
    hide Milliseconds;
    assert forall i :: s'.At(i).Running? ==> s.At(i).Running?;
    assert SomeRuns(s') ==> SomeRuns(s) by {
      if i :| s'.At(i).Running? {
        assert s.At(i).Running?;
      }
    }
    forall i
      ensures IsGuarded(t, s', i)
    {
      assert IsGuarded(t, s, i) && IsGuarded(t, s, j);
      if k :| s.At(k).Running? {
        assert IsGuarded(t, s, k);
      }
    }
  }

  lemma UpdateKeepsInvariant(t: Timing, s: State, j: int)
    requires Invariant(t, s) && IsUpdate(s, j)
    ensures Invariant(t, Next(s, UpdateTask(j)))
  {
    var s' := Next(s, UpdateTask(j));
    MillisecondsLoss(s.clock);
    hide Milliseconds;
    assert IsGuarded(t, s, j);
    forall i
      ensures IsGuarded(t, s', i) && (s'.At(i).Running? ==> i == j)
    {
      assert IsGuarded(t, s, i);
      assert s.At(i).Running? ==> SomeRuns(s);
    }
  }

  lemma RefreshKeepsInvariant(t: Timing, s: State, j: int)
    requires Invariant(t, s) && IsEnabled(t, s, UpdateTaskTimestamp(j))
    ensures Invariant(t, Next(s, UpdateTaskTimestamp(j)))
  {
    var s' := Next(s, UpdateTaskTimestamp(j));
    MillisecondsLoss(s.clock);
    hide Milliseconds;
    assert SomeRuns(s);
    forall i
      ensures IsGuarded(t, s', i) && (s'.At(i).Running? ==> i == j)
    {
      assert IsGuarded(t, s, i) && IsGuarded(t, s, j);
    }
  }

  /** With safe timing no two jobs execute the rule at once, in any interleaving. */
  lemma {:induction false} MutualExclusion(t: Timing, s: State, steps: seq<Step>)
    requires IsSafe(t) && Invariant(t, s) && IsRun(t, s, steps)
    ensures IsExclusive(After(s, steps))
    decreases |steps|
  {
    if steps != [] {
      StepKeepsInvariant(t, s, steps[0]);
      MutualExclusion(t, Next(s, steps[0]), steps[1..]);
    }
  }

  // ---------------------------------------------------------------- without safe timing the guard fails

  /** A run that ends with two jobs running. */
  ghost predicate Fails(t: Timing, s: State, steps: seq<Step>)
  {
    IsRun(t, s, steps) && !IsExclusive(After(s, steps))
  }

  lemma {:induction false} RunThenRun(t: Timing, s: State, first: seq<Step>, second: seq<Step>)
    requires IsRun(t, s, first) && IsRun(t, After(s, first), second)
    ensures IsRun(t, s, first + second) && After(s, first + second) == After(After(s, first), second)
    decreases |first|
  {
    if first == [] {
      assert first + second == second;
    } else {
      RunThenRun(t, Next(s, first[0]), first[1..], second);
      assert (first + second)[1..] == first[1..] + second;
    }
  }

  /** A time at which storing milliseconds loses the most, late enough for a task that was just added. */
  const START := TWO_INTERVALS + TRUNCATION

  /** Job 0 runs and refreshes in time; job 1 has read the version it runs under. */
  function Overlapping(clock: nat, updatedAt: nat, read: nat, gotAt: nat): State
  {
    State(clock, Some(Row(updatedAt, 1)), map[0 := Running(clock), 1 := Got(1, read, gotAt)])
  }

  /** The second job can take as long as it may while the first one keeps refreshing: the refreshes do not change
      the version. */
  lemma {:induction false} KeepRefreshing(t: Timing, clock: nat, read: nat, gotAt: nat, end: nat)
    returns (steps: seq<Step>, updatedAt: nat)
    requires t.refreshInterval > 0 && gotAt <= clock <= end <= gotAt + t.checkDelay
    ensures var s := Overlapping(clock, Milliseconds(clock), read, gotAt);
            IsRun(t, s, steps) && After(s, steps) == Overlapping(end, updatedAt, read, gotAt)
    decreases end - clock
  {
    var s := Overlapping(clock, Milliseconds(clock), read, gotAt);
    if clock == end {
      steps, updatedAt := [], Milliseconds(clock);
    } else {
      var d := if end - clock < t.refreshInterval then end - clock else t.refreshInterval;
      var waited := Next(s, Tick(d));
      var refreshed := Next(waited, UpdateTaskTimestamp(0));
      assert CanWait(t, s, s.clock + d);
      assert refreshed == Overlapping(clock + d, Milliseconds(clock + d), read, gotAt);
      var rest;
      rest, updatedAt := KeepRefreshing(t, clock + d, read, gotAt, end);
      steps := [Tick(d), UpdateTaskTimestamp(0)] + rest;
      assert steps[1..] == [UpdateTaskTimestamp(0)] + rest && steps[1..][1..] == rest;
    }
  }

  /** Job 0 adds the task and runs; just before its refresh is due job 1 reads the task. */
  lemma FirstJobRuns(t: Timing) returns (steps: seq<Step>)
    ensures var s := State(START, None, map[]); var later := START + t.refreshInterval;
            && IsRun(t, s, steps)
            && After(s, steps) == Overlapping(later, Milliseconds(later), Milliseconds(START), later)
  {
    var s0 := State(START, None, map[]);
    var s1 := Next(s0, GetTask(0));
    var s2 := Next(s1, AddTask(0));
    var s3 := Next(s2, Check(0));
    var s4 := Next(s3, UpdateTask(0));
    assert s4 == State(START, Some(Row(Milliseconds(START), 1)), map[0 := Running(START)]);
    var first := [GetTask(0), AddTask(0), Check(0), UpdateTask(0)];
    FourSteps(t, s0, GetTask(0), AddTask(0), Check(0), UpdateTask(0));
    var d := t.refreshInterval;
    assert CanWait(t, s4, s4.clock + d);
    var s5 := Next(s4, Tick(d));
    var s6 := Next(s5, GetTask(1));
    var s7 := Next(s6, UpdateTaskTimestamp(0));
    var second := [Tick(d), GetTask(1), UpdateTaskTimestamp(0)];
    ThreeSteps(t, s4, Tick(d), GetTask(1), UpdateTaskTimestamp(0));
    RunThenRun(t, s0, first, second);
    assert s7 == Overlapping(START + d, Milliseconds(START + d), Milliseconds(START), START + d);
    steps := first + second;
  }

  lemma ThreeSteps(t: Timing, s: State, a: Step, b: Step, c: Step)
    requires IsEnabled(t, s, a) && IsEnabled(t, Next(s, a), b) && IsEnabled(t, Next(Next(s, a), b), c)
    ensures IsRun(t, s, [a, b, c]) && After(s, [a, b, c]) == Next(Next(Next(s, a), b), c)
  {
    hide IsEnabled, Next;
    var s1 := Next(s, a);
    var s2 := Next(s1, b);
    assert [c][1..] == [];
    assert IsRun(t, s2, [c]) && After(s2, [c]) == Next(s2, c);
    assert [b, c][1..] == [c];
    assert IsRun(t, s1, [b, c]) && After(s1, [b, c]) == After(s2, [c]);
    assert [a, b, c][1..] == [b, c];
  }

  lemma FourSteps(t: Timing, s: State, a: Step, b: Step, c: Step, d: Step)
    requires IsEnabled(t, s, a) && IsEnabled(t, Next(s, a), b) && IsEnabled(t, Next(Next(s, a), b), c)
    requires IsEnabled(t, Next(Next(Next(s, a), b), c), d)
    ensures IsRun(t, s, [a, b, c, d]) && After(s, [a, b, c, d]) == Next(Next(Next(Next(s, a), b), c), d)
  {
    hide IsEnabled, Next;
    ThreeSteps(t, Next(s, a), b, c, d);
    assert [a, b, c, d][1..] == [b, c, d];
  }

  /** The second job passes the age check and the update, for the version did not change. */
  lemma SecondJobRuns(t: Timing, updatedAt: nat)
    requires !IsSafe(t)
    ensures var gotAt := START + t.refreshInterval;
            var s := Overlapping(gotAt + t.checkDelay, updatedAt, Milliseconds(START), gotAt);
            Fails(t, s, [Check(1), UpdateTask(1)])
  {
    var gotAt := START + t.refreshInterval;
    var s := Overlapping(gotAt + t.checkDelay, updatedAt, Milliseconds(START), gotAt);
    assert Milliseconds(START) * MILLISECOND == TWO_INTERVALS;
    var checked := Next(s, Check(1));
    var updated := Next(checked, UpdateTask(1));
    var steps := [Check(1), UpdateTask(1)];
    assert steps[1..] == [UpdateTask(1)] && steps[1..][1..] == [];
    assert !IsTooRecent(Milliseconds(START), s.clock);
    assert checked.At(1) == Passed(1) && IsUpdate(checked, 1);
    assert updated.At(0).Running? && updated.At(1).Running?;
    assert IsRun(t, checked, steps[1..]) && After(checked, steps[1..]) == updated;
    assert After(s, steps) == updated;
  }

  lemma UnsafeTimingFails(t: Timing) returns (steps: seq<Step>)
    requires t.refreshInterval > 0 && !IsSafe(t)
    ensures Fails(t, State(START, None, map[]), steps)
  {
    var s := State(START, None, map[]);
    var later := START + t.refreshInterval;
    var first := FirstJobRuns(t);
    var second, updatedAt := KeepRefreshing(t, later, Milliseconds(START), later, later + t.checkDelay);
    RunThenRun(t, s, first, second);
    SecondJobRuns(t, updatedAt);
    RunThenRun(t, s, first + second, [Check(1), UpdateTask(1)]);
    steps := first + second + [Check(1), UpdateTask(1)];
  }

  lemma InitialInvariant(t: Timing, s: State)
    requires IsInitial(s)
    ensures Invariant(t, s)
  {
  }

  /**
   * No two jobs ever execute the rule at once if and only if the delay before the age check, the refresh interval
   * and the truncation to milliseconds add up to at most two update intervals, which is ten minutes.
   */
  lemma ExclusiveIffSafe(t: Timing)
    requires t.refreshInterval > 0
    ensures t.checkDelay + t.refreshInterval + 999_999 <= 600_000_000_000 <==>
            forall s, steps :: IsInitial(s) ==> !Fails(t, s, steps)
  {
    if IsSafe(t) {
      forall s, steps | IsInitial(s) && IsRun(t, s, steps)
        ensures !Fails(t, s, steps)
      {
        InitialInvariant(t, s);
        MutualExclusion(t, s, steps);
      }
    } else {
      var steps := UnsafeTimingFails(t);
      assert IsInitial(State(START, None, map[]));
    }
  }
}
