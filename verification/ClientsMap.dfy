/** The number of clients: a total kept with atomic operations and a count for each source kept under a lock. */
module ClientsMap {
  import opened Maps
  import opened Options
  import opened Totals

  /**
   * The state seen by the threads. An adder first counts in the total, without the lock, and then for its source,
   * with the lock. A remover that finds its source does the opposite: it takes the lock, discounts from the total
   * and then from the source, and releases the lock.
   */
  datatype State = State(total: int, clients: map<string, int>, adding: multiset<string>, removing: Option<string>)

  datatype Step = AddTotal(source: string) | AddSource(source: string)
                | RemoveTotal(source: string) | RemoveSource | RemoveUnmapped(source: string)

  const INITIAL := State(0, map[], multiset{}, None)

  predicate IsEnabled(s: State, step: Step)
  {
    match step
    case AddTotal(_) => true
    case AddSource(source) => s.removing.None? && source in s.adding
    case RemoveTotal(source) => s.removing.None? && source in s.clients
    case RemoveSource => s.removing.Some? && s.removing.value in s.clients
    case RemoveUnmapped(source) => s.removing.None? && source !in s.clients
  }

  function Counted(clients: map<string, int>, source: string): map<string, int>
  {
    clients[source := (if source in clients then clients[source] else 0) + 1]
  }

  function Discounted(clients: map<string, int>, source: string): map<string, int>
    requires source in clients
  {
    if clients[source] > 1 then clients[source := clients[source] - 1] else Without(clients, {source})
  }

  function Next(s: State, step: Step): State
    requires IsEnabled(s, step)
  {
    match step
    case AddTotal(source) => s.(total := s.total + 1, adding := s.adding + multiset{source})
    case AddSource(source) => s.(clients := Counted(s.clients, source), adding := s.adding - multiset{source})
    case RemoveTotal(source) => s.(total := s.total - 1, removing := Some(source))
    case RemoveSource => s.(clients := Discounted(s.clients, s.removing.value), removing := None)
    case RemoveUnmapped(_) => s
  }

  /** An interleaving of the steps of any number of threads. */
  predicate IsRun(steps: seq<Step>)
    decreases |steps|, 1
  {
    steps == [] || (IsRun(steps[..|steps| - 1]) && IsEnabled(After(steps[..|steps| - 1]), steps[|steps| - 1]))
  }

  function After(steps: seq<Step>): State
    requires IsRun(steps)
    decreases |steps|, 2
  {
    if steps == [] then INITIAL else Next(After(steps[..|steps| - 1]), steps[|steps| - 1])
  }

  function Removing(s: State): int
  {
    if s.removing.Some? then 1 else 0
  }

  /** How the total and the counts are related between any two steps. */
  ghost predicate IsBalanced(s: State)
  {
    && s.total == Total(s.clients) + |s.adding| - Removing(s)
    && (forall source :: source in s.clients ==> s.clients[source] > 0)
    && (s.removing.Some? ==> s.removing.value in s.clients)
  }

  lemma TotalCounted(clients: map<string, int>, source: string)
    ensures Total(Counted(clients, source)) == Total(clients) + 1
  {
    hide Total;
    TotalWithout(Counted(clients, source), source);
    assert Without(Counted(clients, source), {source}) == Without(clients, {source});
    if source in clients {
      TotalWithout(clients, source);
    } else {
      WithoutNone(clients, {source});
    }
  }

  lemma TotalDiscounted(clients: map<string, int>, source: string)
    requires source in clients && clients[source] > 0
    ensures Total(Discounted(clients, source)) == Total(clients) - 1
  {
    hide Total;
    TotalWithout(clients, source);
    if clients[source] > 1 {
      TotalWithout(Discounted(clients, source), source);
      assert Without(Discounted(clients, source), {source}) == Without(clients, {source});
    }
  }

  lemma TotalWithout(clients: map<string, int>, source: string)
    requires source in clients
    ensures Total(clients) == clients[source] + Total(Without(clients, {source}))
  {
    TotalRemove(clients, source);
    assert Without(clients, {source}) == clients - {source};
  }

  lemma StepKeepsBalance(s: State, step: Step)
    requires IsBalanced(s) && IsEnabled(s, step)
    ensures IsBalanced(Next(s, step))
  {
    match step
    case AddSource(source) => TotalCounted(s.clients, source);
    case RemoveSource => TotalDiscounted(s.clients, s.removing.value);
    case _ =>
  }

  /** Whatever the interleaving, the total is the sum of the counts plus the adders between their two steps minus the
      remover between its two updates, and every count is positive. */
  lemma {:induction false} RunIsBalanced(steps: seq<Step>)
    requires IsRun(steps)
    ensures IsBalanced(After(steps))
  {
    if steps == [] {
      assert Total<string>(map[]) == 0;
    } else {
      RunIsBalanced(steps[..|steps| - 1]);
      StepKeepsBalance(After(steps[..|steps| - 1]), steps[|steps| - 1]);
    }
  }

  /** When no operation is half done the total is exactly the sum of the counts. */
  lemma QuiescentTotal(steps: seq<Step>)
    requires IsRun(steps) && After(steps).adding == multiset{} && After(steps).removing.None?
    ensures After(steps).total == Total(After(steps).clients)
    ensures After(steps).total >= 0
  {
    RunIsBalanced(steps);
    TotalNonNegative(After(steps).clients);
  }

  /** How many times a source was counted, and discounted, by the finished operations. */
  function Adds(steps: seq<Step>, source: string): int
  {
    if steps == [] then 0
    else Adds(steps[..|steps| - 1], source) + (if steps[|steps| - 1] == AddSource(source) then 1 else 0)
  }

  function Removals(steps: seq<Step>, source: string): int
  {
    if steps == [] then 0
    else Removals(steps[..|steps| - 1], source) + (if steps[|steps| - 1] == RemoveTotal(source) then 1 else 0)
  }

  function CountOf(s: State, source: string): int
  {
    (if source in s.clients then s.clients[source] else 0) - (if s.removing == Some(source) then 1 else 0)
  }

  /** The count of a source is exactly its additions less its removals: removals that found nothing do not count. */
  lemma {:induction false} CountIsAddsLessRemovals(steps: seq<Step>, source: string)
    requires IsRun(steps)
    ensures CountOf(After(steps), source) == Adds(steps, source) - Removals(steps, source)
  {
    if steps != [] {
      var init := steps[..|steps| - 1];
      CountIsAddsLessRemovals(init, source);
      RunIsBalanced(init);
    }
  }

  /** The object itself, when its operations are not interleaved. */
  class ClientsMap {
    var totalConnections: int
    var clients: map<string, int>

    constructor ()
      ensures Abstract() == INITIAL
    {
      totalConnections, clients := 0, map[];
    }

    /** The state when no operation is half done. */
    ghost function Abstract(): State
      reads this
    {
      State(totalConnections, clients, multiset{}, None)
    }

    method Add(source: string)
      requires IsBalanced(Abstract())
      modifies this
      ensures Abstract() == Next(Next(old(Abstract()), AddTotal(source)), AddSource(source))
      ensures IsBalanced(Abstract())
    {
      StepKeepsBalance(Abstract(), AddTotal(source));
      StepKeepsBalance(Next(Abstract(), AddTotal(source)), AddSource(source));
      totalConnections := totalConnections + 1;
      clients := clients[source := (if source in clients then clients[source] else 0) + 1];
    }

    method Remove(source: string)
      requires IsBalanced(Abstract())
      modifies this
      ensures Abstract() == if source in old(clients)
                            then Next(Next(old(Abstract()), RemoveTotal(source)), RemoveSource)
                            else old(Abstract())
      ensures IsBalanced(Abstract())
    {
      ghost var before := Abstract();
      if source in clients {
        StepKeepsBalance(before, RemoveTotal(source));
        StepKeepsBalance(Next(before, RemoveTotal(source)), RemoveSource);
        var val := clients[source];
        totalConnections := totalConnections - 1;
        clients := clients[source := val - 1];
        if val > 1 {
          return;
        }
        clients := Without(clients, {source});
        assert clients == Without(before.clients, {source});
      }
    }

    method GetTotal() returns (n: int)
      requires IsBalanced(Abstract())
      ensures n == Total(clients)
    {
      return totalConnections;
    }

    method GetTotalFrom(source: string) returns (n: int)
      requires IsBalanced(Abstract())
      ensures n == CountOf(Abstract(), source) && n >= 0 && (n > 0 <==> source in clients)
    {
      return if source in clients then clients[source] else 0;
    }
  }
}
