/** Events of many sources that reserve from their buckets at the same time: what each of the two locked steps does. */
module ReservationRuns {
  import opened Maps
  import opened RateLimiter

  /**
   * The buckets, and the events that found none and have not added one yet. For each bucket the history has the number
   * of events since the source had none, and the sources whose bucket replaced another one since then.
   */
  datatype State = State(buckets: map<string, Bucket>, adding: multiset<string>, events: map<string, nat>,
                         replaced: set<string>)

  /** An event finds its bucket, or finds none; then it adds one, after a cleanup that keeps some buckets. */
  datatype Step = Reserve(source: string, now: int) | Miss(source: string)
                | Add(source: string, now: int, kept: map<string, Bucket>)

  const INITIAL := State(map[], multiset{}, map[], {})

  ghost predicate IsEnabled(s: State, step: Step, softLimit: int, hardLimit: int)
  {
    match step
    case Reserve(source, _) => source in s.buckets
    case Miss(source) => source !in s.buckets
    case Add(source, _, kept) => source in s.adding && IsCleaned(s.buckets, kept, softLimit, hardLimit)
  }

  function Next(s: State, step: Step): State
  {
    match step
    case Reserve(source, now) =>
      if source !in s.buckets || source !in s.events then s else
      s.(buckets := s.buckets[source := Bucket(now, s.buckets[source].reservations + 1)],
         events := s.events[source := s.events[source] + 1])
    case Miss(source) => s.(adding := s.adding + multiset{source})
    case Add(source, now, kept) => Added(s, source, now, kept)
  }

  function Added(s: State, source: string, now: int, kept: map<string, Bucket>): State
  {
    var events := map x | x in s.events && x in kept :: s.events[x];
    var replaced := set x | x in s.replaced && x in kept;
    State(kept[source := Bucket(now, 1)], s.adding - multiset{source},
          events[source := (if source in events then events[source] else 0) + 1],
          if source in kept then replaced + {source} else replaced)
  }

  ghost predicate IsRun(steps: seq<Step>, softLimit: int, hardLimit: int)
  {
    steps == [] || (IsRun(steps[..|steps| - 1], softLimit, hardLimit) &&
                    IsEnabled(After(steps[..|steps| - 1]), steps[|steps| - 1], softLimit, hardLimit))
  }

  function After(steps: seq<Step>): State
  {
    if steps == [] then INITIAL else Next(After(steps[..|steps| - 1]), steps[|steps| - 1])
  }

  /** A bucket has counted all the events of its source, if and only if it did not replace another one. */
  ghost predicate IsCounted(s: State, source: string)
    requires source in s.buckets && source in s.events
  {
    && 1 <= s.buckets[source].reservations <= s.events[source]
    && (s.buckets[source].reservations == s.events[source] <==> source !in s.replaced)
  }

  ghost predicate Invariant(s: State, hardLimit: int)
  {
    && |s.buckets| <= hardLimit
    && s.events.Keys == s.buckets.Keys
    && forall x :: x in s.buckets ==> IsCounted(s, x)
  }

  lemma KeptAsBefore(before: map<string, Bucket>, kept: map<string, Bucket>, softLimit: int, hardLimit: int)
    requires IsCleaned(before, kept, softLimit, hardLimit)
    ensures forall x :: x in kept ==> x in before && kept[x] == before[x]
  {
  }

  lemma StepKeepsInvariant(s: State, step: Step, softLimit: int, hardLimit: int)
    requires Invariant(s, hardLimit) && IsEnabled(s, step, softLimit, hardLimit) && 0 < softLimit < hardLimit
    ensures Invariant(Next(s, step), hardLimit)
  {
    hide Added, IsCleaned, IsCounted;
    match step {
      case Reserve(source, now) => ReserveKeepsInvariant(s, source, now, hardLimit);
      case Miss(_) => assert forall x :: x in s.buckets ==> IsCounted(s, x) == IsCounted(Next(s, step), x) by {
        SameCounts(s, Next(s, step));
      }
      case Add(source, now, kept) =>
        KeptAsBefore(s.buckets, kept, softLimit, hardLimit);
        CleanedBound(s.buckets, kept, softLimit, hardLimit, source, Bucket(now, 1));
        AddKeepsInvariant(s, source, now, kept, hardLimit);
    }
  }

  lemma SameCounts(s: State, t: State)
    requires s.buckets == t.buckets && s.events == t.events && s.replaced == t.replaced
    requires s.events.Keys == s.buckets.Keys
    ensures forall x :: x in s.buckets ==> IsCounted(s, x) == IsCounted(t, x)
  {
  }

  lemma ReserveKeepsInvariant(s: State, source: string, now: int, hardLimit: int)
    requires Invariant(s, hardLimit) && source in s.buckets
    ensures Invariant(Next(s, Reserve(source, now)), hardLimit)
  {
    var s' := Next(s, Reserve(source, now));
    SizeWith(s.buckets, source, Bucket(now, s.buckets[source].reservations + 1));
    assert IsCounted(s, source);
    forall x | x in s'.buckets
      ensures IsCounted(s', x)
    {
      assert x in s.buckets && IsCounted(s, x);
    }
  }

  lemma AddKeepsInvariant(s: State, source: string, now: int, kept: map<string, Bucket>, hardLimit: int)
    requires Invariant(s, hardLimit) && |kept[source := Bucket(now, 1)]| <= hardLimit
    requires forall x :: x in kept ==> x in s.buckets && kept[x] == s.buckets[x]
    ensures Invariant(Added(s, source, now, kept), hardLimit)
  {
    var s' := Added(s, source, now, kept);
    assert s'.events.Keys == s'.buckets.Keys;
    forall x | x in s'.buckets
      ensures IsCounted(s', x)
    {
      if x in kept {
        assert IsCounted(s, x);
      }
    }
  }

  /**
   * In every interleaving the hard limit holds, and a bucket counts fewer events than its source had if and only if
   * it replaced the bucket of another event that found none at the same time.
   */
  lemma {:induction false} ReservationsAreCountedIff(steps: seq<Step>, softLimit: int, hardLimit: int)
    requires IsRun(steps, softLimit, hardLimit) && 0 < softLimit < hardLimit
    ensures Invariant(After(steps), hardLimit)
  {
    if steps != [] {
      ReservationsAreCountedIff(steps[..|steps| - 1], softLimit, hardLimit);
      StepKeepsInvariant(After(steps[..|steps| - 1]), steps[|steps| - 1], softLimit, hardLimit);
    }
  }

  /** No bucket is ever replaced if no two events of one source are between their two steps. */
  predicate IsAlone(s: State)
  {
    forall x :: x in s.adding ==> s.adding[x] == 1 && x !in s.buckets
  }

  ghost predicate AllAlone(steps: seq<Step>)
  {
    forall i | 0 <= i <= |steps| :: IsAlone(After(steps[..i]))
  }

  lemma {:induction false} AloneIsCounted(steps: seq<Step>, softLimit: int, hardLimit: int)
    requires IsRun(steps, softLimit, hardLimit) && 0 < softLimit < hardLimit && AllAlone(steps)
    ensures After(steps).replaced == {}
    ensures forall x :: x in After(steps).buckets ==>
              x in After(steps).events && After(steps).buckets[x].reservations == After(steps).events[x]
  {
    ReservationsAreCountedIff(steps, softLimit, hardLimit);
    if steps != [] {
      var init, last := steps[..|steps| - 1], steps[|steps| - 1];
      forall i | 0 <= i <= |init|
        ensures IsAlone(After(init[..i]))
      {
        assert steps[..i] == init[..i];
      }
      AloneIsCounted(init, softLimit, hardLimit);
      assert steps[..|init|] == init && IsAlone(After(init));
      if last.Add? {
        KeptAsBefore(After(init).buckets, last.kept, softLimit, hardLimit);
      }
    }
    hide IsRun, AllAlone;
    forall x | x in After(steps).buckets
      ensures x in After(steps).events && After(steps).buckets[x].reservations == After(steps).events[x]
    {
      assert IsCounted(After(steps), x);
    }
  }

  /** Two events of a new source find no bucket; both add one, and only one reservation is left. */
  lemma FirstEventsLoseOne() returns (steps: seq<Step>)
    ensures IsRun(steps, 1, 3)
    ensures "a" in After(steps).buckets && "a" in After(steps).events
    ensures After(steps).buckets["a"].reservations == 1 && After(steps).events["a"] == 2
  {
    var one: map<string, Bucket> := map["a" := Bucket(0, 1)];
    assert one.Keys == {"a"} && |one| == |one.Keys|;
    var again: map<string, Bucket> := map["a" := Bucket(1, 1)];
    assert again == one["a" := Bucket(1, 1)];
    FirstAdded(one);
    SecondAdded(one, again);
    hide After, IsRun, Added;
    steps := Then([], Miss("a"), 1, 3);
    steps := Then(steps, Miss("a"), 1, 3);
    steps := Then(steps, Add("a", 0, map[]), 1, 3);
    steps := Then(steps, Add("a", 1, one), 1, 3);
  }

  lemma FirstAdded(one: map<string, Bucket>)
    requires one == map["a" := Bucket(0, 1)]
    ensures IsRun([], 1, 3) && After([]) == INITIAL
    ensures INITIAL.adding + multiset{"a"} + multiset{"a"} == multiset{"a", "a"}
    ensures Added(State(map[], multiset{"a", "a"}, map[], {}), "a", 0, map[]) ==
            State(one, multiset{"a"}, map["a" := 1], {})
  {
  }

  lemma SecondAdded(one: map<string, Bucket>, again: map<string, Bucket>)
    requires one == map["a" := Bucket(0, 1)] && again == one["a" := Bucket(1, 1)]
    ensures Added(State(one, multiset{"a"}, map["a" := 1], {}), "a", 1, one) ==
            State(again, multiset{}, map["a" := 2], {"a"})
  {
  }

  /** A run followed by one more step. */
  lemma Then(run: seq<Step>, step: Step, softLimit: int, hardLimit: int) returns (steps: seq<Step>)
    requires IsRun(run, softLimit, hardLimit) && IsEnabled(After(run), step, softLimit, hardLimit)
    ensures IsRun(steps, softLimit, hardLimit) && After(steps) == Next(After(run), step)
  {
    hide IsEnabled, Next;
    steps := run + [step];
    assert steps[..|steps| - 1] == run;
  }
}
