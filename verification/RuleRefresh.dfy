/** The refresh of the event rules step by step: writes, deletions and loads that overlap, and what goes wrong then. */
module RuleRefresh {
  import opened Options

  /** A version of a rule: when it was stamped, and the number of commits before its own. */
  datatype Row = Row(updatedAt: int, version: nat)

  type Table = map<string, Row>

  /** The open write transaction: the rule is stamped, then the time of the last update is set, then it commits. */
  datatype Write = Write(name: string, updatedAt: int, isSet: bool)

  /** Where a load is, after reading its time. What it found is as of a number of commits. */
  datatype Load =
    | Timed(modTime: int)
    | Started(modTime: int, after: int)
    | Checked(modTime: int, after: int)
    | Queried(modTime: int, found: Table, at: nat)
    | Applied(modTime: int)

  datatype State = State(clock: int, commits: nat, db: Table, writer: Option<Write>, lastRuleUpdate: int,
                         loads: map<int, Load>, lockedBy: Option<int>, inUse: Table, lastLoad: int,
                         removing: multiset<string>, history: History)

  /**
   * What the proofs remember of a run: the commits at the start; for each rule in use the commits when the load that
   * put it in use last had queried; the rules whose last write was overtaken by a load, or whose use was ended by the
   * removal of an earlier rule of the same name; and the rules a load put in use after they had been removed.
   */
  datatype History = History(startedAt: nat, usedFrom: map<string, nat>, overtaken: set<string>, revived: set<string>)

  datatype Step = Tick(d: nat) | Stamp(name: string) | SetLastUpdate | Commit | Abort
                | ReadTime(l: int) | ReadLastLoad(l: int) | CheckLastUpdate(l: int) | Query(l: int) | Apply(l: int)
                | SetLastLoad(l: int) | Fail(l: int) | Delete(name: string) | Remove(name: string)

  predicate IsEnabled(s: State, step: Step)
  {
    match step
    case Tick(_) => true
    case Stamp(_) => s.writer.None?
    case SetLastUpdate => s.writer.Some? && !s.writer.value.isSet
    case Commit => s.writer.Some? && s.writer.value.isSet
    case Abort => s.writer.Some?
    case ReadTime(l) => l !in s.loads
    case ReadLastLoad(l) => l in s.loads && s.loads[l].Timed?
    case CheckLastUpdate(l) => l in s.loads && s.loads[l].Started?
    case Query(l) => l in s.loads && s.loads[l].Checked?
    case Apply(l) => l in s.loads && s.loads[l].Queried? && (s.loads[l].found == map[] || s.lockedBy.None?)
    case SetLastLoad(l) => l in s.loads && s.loads[l].Applied?
    case Fail(l) => l in s.loads && (s.loads[l].Started? || s.loads[l].Checked?)
    case Delete(name) => s.writer.None? && name in s.db
    case Remove(name) => name in s.removing && s.lockedBy.None?
  }

  /** The rules updated at a given time or later. */
  function Recent(db: Table, after: int): Table
  {
    map n | n in db && db[n].updatedAt >= after :: db[n]
  }

  /** A load that read a later time than the stamp has already queried, or even finished. */
  predicate IsOvertaken(s: State, updatedAt: int)
  {
    s.lastLoad > updatedAt ||
    exists l <- s.loads :: (s.loads[l].Queried? || s.loads[l].Applied?) && s.loads[l].modTime > updatedAt
  }

  function Committed(s: State): State
    requires IsEnabled(s, Commit)
  {
    var w := s.writer.value;
    var overtaken := if IsOvertaken(s, w.updatedAt) then s.history.overtaken + {w.name}
        else s.history.overtaken - {w.name};
    s.(db := s.db[w.name := Row(w.updatedAt, s.commits)], commits := s.commits + 1, writer := None,
       history := s.history.(overtaken := overtaken, revived := s.history.revived - {w.name}))
  }

  /** The rule was deleted and created again, a later load than the new one needs has queried, and none brings it. */
  predicate IsDropped(s: State, name: string)
  {
    name in s.db && IsOvertaken(s, s.db[name].updatedAt) && forall l <- s.loads :: !Brings(s, s.loads[l], name)
  }

  function Removed(s: State, name: string): State
  {
    var overtaken := if IsDropped(s, name) then s.history.overtaken + {name} else s.history.overtaken - {name};
    s.(inUse := s.inUse - {name}, removing := s.removing - multiset{name},
       history := s.history.(usedFrom := s.history.usedFrom - {name}, overtaken := overtaken,
                             revived := s.history.revived - {name}))
  }

  /** The rules a load found that are deleted and removed by now. */
  function Returning(s: State, found: Table): set<string>
  {
    set n | n in found && n !in s.db && n !in s.removing
  }

  function WithLoad(s: State, l: int, load: Load): State
  {
    s.(loads := s.loads[l := load])
  }

  function Next(s: State, step: Step): State
    requires IsEnabled(s, step)
  {
    match step
    case Tick(d) => s.(clock := s.clock + d)
    case Stamp(name) => s.(writer := Some(Write(name, s.clock, false)))
    case SetLastUpdate => s.(lastRuleUpdate := s.clock, writer := Some(s.writer.value.(isSet := true)))
    case Commit => Committed(s)
    case Abort => s.(writer := None)
    case ReadTime(l) => WithLoad(s, l, Timed(s.clock))
    case ReadLastLoad(l) => WithLoad(s, l, Started(s.loads[l].modTime, s.lastLoad))
    case CheckLastUpdate(l) =>
      var load := s.loads[l];
      WithLoad(s, l, if s.lastRuleUpdate < load.after then Queried(load.modTime, map[], s.commits)
                     else Checked(load.modTime, load.after))
    case Query(l) =>
      WithLoad(s, l, Queried(s.loads[l].modTime, Recent(s.db, s.loads[l].after), s.commits))
    case Apply(l) =>
      var load := s.loads[l];
      WithLoad(s, l, Applied(load.modTime)).(
        inUse := s.inUse + load.found, lockedBy := if load.found == map[] then s.lockedBy else Some(l),
        history := s.history.(usedFrom := s.history.usedFrom + map n | n in load.found :: load.at,
                              revived := s.history.revived + Returning(s, load.found)))
    case SetLastLoad(l) =>
      s.(lastLoad := s.loads[l].modTime, loads := s.loads - {l},
         lockedBy := if s.lockedBy == Some(l) then None else s.lockedBy)
    case Fail(l) => s.(loads := s.loads - {l})
    case Delete(name) =>
      s.(db := s.db - {name}, commits := s.commits + 1, removing := s.removing + multiset{name})
    case Remove(name) => Removed(s, name)
  }

  predicate IsRun(s: State, steps: seq<Step>)
    decreases |steps|
  {
    steps == [] || (IsEnabled(s, steps[0]) && IsRun(Next(s, steps[0]), steps[1..]))
  }

  function After(s: State, steps: seq<Step>): State
    requires IsRun(s, steps)
    decreases |steps|
  {
    if steps == [] then s else After(Next(s, steps[0]), steps[1..])
  }

  /** After the load at startup: every rule is in use, and nothing is being written or loaded. */
  predicate IsInitial(s: State)
  {
    && s.writer.None? && s.loads == map[] && s.lockedBy.None? && s.removing == multiset{}
    && s.inUse == s.db && (forall n <- s.db :: s.db[n].version < s.commits)
    && s.lastLoad <= s.clock && s.lastRuleUpdate <= s.clock
    && s.history == History(s.commits, map n | n in s.db :: s.commits, {}, {})
  }

  // ---------------------------------------------------------------- when an update is missed

  predicate IsQuiescent(s: State)
  {
    s.writer.None? && s.loads == map[] && s.removing == multiset{}
  }

  /** The rules in use after one more load that runs alone. */
  function Reloaded(s: State): Table
  {
    if s.lastRuleUpdate < s.lastLoad then s.inUse else s.inUse + Recent(s.db, s.lastLoad)
  }

  /** Even one more load does not put the latest version of the rule in use. */
  predicate IsMissed(s: State, n: string)
  {
    n in s.db && (n !in Reloaded(s) || Reloaded(s)[n] != s.db[n])
  }

  /** The load that put the rule in use last had queried after the last write of the rule committed. */
  predicate IsCurrent(s: State, n: string)
  {
    n in s.db && n in s.history.usedFrom && s.db[n].version < s.history.usedFrom[n]
  }

  ghost predicate IsSnapshot(db: Table, found: Table, n: string, at: nat)
    requires n in found
  {
    && found[n].version < at
    && (n in db ==> (found[n] == db[n] <==> db[n].version < at))
  }

  ghost predicate IsTracked(s: State, n: string)
    requires n in s.inUse && n in s.history.usedFrom
  {
    && s.history.startedAt <= s.history.usedFrom[n] <= s.commits
    && IsSnapshot(s.db, s.inUse, n, s.history.usedFrom[n])
  }

  ghost predicate IsSoundRow(s: State, n: string)
    requires n in s.db
  {
    && s.db[n].version < s.commits
    && (if s.db[n].version < s.history.startedAt then n in s.inUse else s.db[n].updatedAt <= s.lastRuleUpdate)
  }

  ghost predicate IsSoundLoad(s: State, load: Load)
  {
    && load.modTime <= s.clock
    && (load.Queried? ==>
          && s.history.startedAt <= load.at <= s.commits
          && forall n :: n in load.found ==> IsSnapshot(s.db, load.found, n, load.at))
  }

  ghost predicate Invariant(s: State)
  {
    && s.lastLoad <= s.clock && s.lastRuleUpdate <= s.clock && s.history.startedAt <= s.commits
    && (s.writer.Some? ==>
          s.writer.value.updatedAt <= s.clock
              && (s.writer.value.isSet ==> s.writer.value.updatedAt <= s.lastRuleUpdate))
    && (forall n :: n in s.db ==> IsSoundRow(s, n))
    && s.history.usedFrom.Keys == s.inUse.Keys
    && (forall n :: n in s.inUse ==> IsTracked(s, n))
    && (forall l :: l in s.loads ==> IsSoundLoad(s, s.loads[l]))
    && (forall n :: n in s.removing && n in s.db ==> s.db[n].version >= s.history.startedAt)
    && (forall n :: n in s.history.revived <==> IsLeftInUse(s, n))
  }

  /** The rule is in use although it is deleted and its removal is done. */
  predicate IsLeftInUse(s: State, n: string)
  {
    n in s.inUse && n !in s.db && n !in s.removing
  }

  lemma InitialInvariant(s: State)
    requires IsInitial(s)
    ensures Invariant(s)
  {
  }

  lemma CommitKeepsInvariant(s: State)
    requires Invariant(s) && IsEnabled(s, Commit)
    ensures Invariant(Next(s, Commit))
  {
    var s' := Next(s, Commit);
    forall n | n in s'.inUse
      ensures IsTracked(s', n)
    {
      assert IsTracked(s, n);
    }
    forall l | l in s'.loads
      ensures IsSoundLoad(s', s'.loads[l])
    {
      assert IsSoundLoad(s, s.loads[l]);
      if s.loads[l].Queried? {
        forall n | n in s.loads[l].found
          ensures IsSnapshot(s'.db, s.loads[l].found, n, s.loads[l].at)
        {
          assert IsSnapshot(s.db, s.loads[l].found, n, s.loads[l].at);
        }
      }
    }
    forall n | n in s'.db
      ensures IsSoundRow(s', n)
    {
      if n != s.writer.value.name {
        assert IsSoundRow(s, n);
      }
    }
  }

  lemma ApplyKeepsTrack(s: State, l: int, n: string)
    requires Invariant(s) && IsEnabled(s, Apply(l)) && n in Next(s, Apply(l)).inUse
    ensures n in Next(s, Apply(l)).history.usedFrom && IsTracked(Next(s, Apply(l)), n)
  {
    var load := s.loads[l];
    assert IsSoundLoad(s, load);
    if n in load.found {
      assert IsSnapshot(s.db, load.found, n, load.at);
    } else {
      assert IsTracked(s, n);
    }
  }

  lemma ApplyKeepsRest(s: State, l: int)
    requires Invariant(s) && IsEnabled(s, Apply(l))
    ensures var s' := Next(s, Apply(l));
            && (forall n :: n in s.db ==> IsSoundRow(s', n))
            && (forall k :: k in s'.loads ==> IsSoundLoad(s', s'.loads[k]))
  {
    var s' := Next(s, Apply(l));
    assert forall n :: n in s.db ==> IsSoundRow(s, n);
    assert forall k :: k in s.loads ==> IsSoundLoad(s, s.loads[k]);
  }

  lemma ApplyRevives(s: State, l: int)
    requires Invariant(s) && IsEnabled(s, Apply(l))
    ensures forall n :: n in Next(s, Apply(l)).history.revived <==> IsLeftInUse(Next(s, Apply(l)), n)
  {
    var s' := Next(s, Apply(l));
    hide IsTracked, IsSoundRow, IsSoundLoad;
    forall n
      ensures n in s'.history.revived <==> IsLeftInUse(s', n)
    {
      assert n in s.history.revived <==> IsLeftInUse(s, n);
    }
  }

  lemma ApplyKeepsInvariant(s: State, l: int)
    requires Invariant(s) && IsEnabled(s, Apply(l))
    ensures Invariant(Next(s, Apply(l)))
  {
    var s' := Next(s, Apply(l));
    ApplyKeepsRest(s, l);
    ApplyRevives(s, l);
    hide IsTracked, IsSoundRow, IsSoundLoad, IsLeftInUse, Returning;
    forall n | n in s'.inUse
      ensures n in s'.history.usedFrom && IsTracked(s', n)
    {
      ApplyKeepsTrack(s, l, n);
    }
  }

  lemma QueryKeepsInvariant(s: State, l: int)
    requires Invariant(s) && IsEnabled(s, Query(l))
    ensures Invariant(Next(s, Query(l)))
  {
    var s' := Next(s, Query(l));
    forall n | n in s.db
      ensures IsSoundRow(s', n)
    {
      assert IsSoundRow(s, n);
    }
    forall k | k in s'.loads
      ensures IsSoundLoad(s', s'.loads[k])
    {
      assert IsSoundLoad(s, s.loads[k]);
    }
    forall n | n in s'.inUse
      ensures IsTracked(s', n)
    {
      assert IsTracked(s, n);
    }
  }

  lemma StepKeepsInvariant(s: State, step: Step)
    requires Invariant(s) && IsEnabled(s, step)
    ensures Invariant(Next(s, step))
  {
    match step {
      case Commit => CommitKeepsInvariant(s);
      case Apply(l) => ApplyKeepsInvariant(s, l);
      case Query(l) => QueryKeepsInvariant(s, l);
      case Delete(name) => DeleteKeepsInvariant(s, name);
      case Remove(name) => RemoveKeepsInvariant(s, name);
      case _ => SimpleStepKeepsInvariant(s, step);
    }
  }

  lemma DeleteKeepsInvariant(s: State, name: string)
    requires Invariant(s) && IsEnabled(s, Delete(name))
    ensures Invariant(Next(s, Delete(name)))
  {
    var s' := Next(s, Delete(name));
    forall n | n in s'.db
      ensures IsSoundRow(s', n)
    {
      assert IsSoundRow(s, n);
    }
    forall n | n in s.inUse
      ensures IsTracked(s', n)
    {
      assert IsTracked(s, n);
    }
    forall l | l in s'.loads
      ensures IsSoundLoad(s', s'.loads[l])
    {
      assert IsSoundLoad(s, s.loads[l]);
    }
    assert forall n :: IsLeftInUse(s, n) == IsLeftInUse(s', n);
  }

  lemma RemoveKeepsInvariant(s: State, name: string)
    requires Invariant(s) && IsEnabled(s, Remove(name))
    ensures Invariant(Next(s, Remove(name)))
  {
    hide IsDropped;
    var s' := Next(s, Remove(name));
    forall n | n in s'.db
      ensures IsSoundRow(s', n)
    {
      assert IsSoundRow(s, n);
    }
    forall n | n in s'.inUse
      ensures IsTracked(s', n)
    {
      assert IsTracked(s, n);
    }
    forall l | l in s'.loads
      ensures IsSoundLoad(s', s'.loads[l])
    {
      assert IsSoundLoad(s, s.loads[l]);
    }
    assert forall n :: n != name ==> IsLeftInUse(s, n) == IsLeftInUse(s', n);
  }

  /** The steps that change no row and no rule in use. */
  lemma SimpleStepKeepsInvariant(s: State, step: Step)
    requires Invariant(s) && IsEnabled(s, step) && !step.Commit? && !step.Apply? && !step.Query?
    requires !step.Delete? && !step.Remove?
    ensures Invariant(Next(s, step))
  {
    var s' := Next(s, step);
    forall n | n in s.db
      ensures IsSoundRow(s', n)
    {
      assert IsSoundRow(s, n);
    }
    forall n | n in s.inUse
      ensures IsTracked(s', n)
    {
      assert IsTracked(s, n);
    }
    forall l | l in s'.loads
      ensures IsSoundLoad(s', s'.loads[l])
    {
      assert l in s.loads ==> IsSoundLoad(s, s.loads[l]);
    }
  }

  lemma MissedLaw(s: State, n: string)
    requires Invariant(s) && n in s.db
    ensures IsMissed(s, n) <==> s.db[n].updatedAt < s.lastLoad && !IsCurrent(s, n)
  {
    assert IsSoundRow(s, n);
    if n in s.inUse {
      assert IsTracked(s, n);
    }
  }

  /**
   * In every run, whatever overlaps: an update is missed if and only if the load that finished last had read its
   * time after the update was stamped, and the load that put the rule in use last had queried before it committed.
   */
  lemma {:induction false} MissedIff(s: State, steps: seq<Step>, n: string)
    requires Invariant(s) && IsRun(s, steps) && n in After(s, steps).db
    ensures var end := After(s, steps);
            IsMissed(end, n) <==> end.db[n].updatedAt < end.lastLoad && !IsCurrent(end, n)
    decreases |steps|
  {
    if steps == [] {
      MissedLaw(s, n);
    } else {
      StepKeepsInvariant(s, steps[0]);
      MissedIff(Next(s, steps[0]), steps[1..], n);
    }
  }

  // ---------------------------------------------------------------- loads that do not overlap

  predicate IsAlone(s: State)
  {
    forall k, l :: k in s.loads && l in s.loads ==> k == l
  }

  /** No two loads run at the same time; writes and loads may overlap. */
  predicate IsSequential(s: State, steps: seq<Step>)
    requires IsRun(s, steps)
    decreases |steps|
  {
    IsAlone(s) && (steps == [] || IsSequential(Next(s, steps[0]), steps[1..]))
  }

  predicate HasQueried(load: Load)
  {
    load.Queried? || load.Applied?
  }

  /** A load that has queried brings the latest version of the rule. */
  predicate Brings(s: State, load: Load, n: string)
    requires n in s.db
  {
    load.Queried? && n in load.found && s.db[n].version < load.at
  }

  /** The rule is in use, or a load that is running or the next one will bring it. */
  ghost predicate IsKept(s: State, n: string)
    requires n in s.db
  {
    || (IsCurrent(s, n) && forall l :: l in s.loads && s.loads[l].Queried? && n in s.loads[l].found ==>
        Brings(s, s.loads[l], n))
    || (s.db[n].updatedAt >= s.lastLoad &&
        forall l :: l in s.loads && HasQueried(s.loads[l]) ==>
                      Brings(s, s.loads[l], n) || s.loads[l].modTime <= s.db[n].updatedAt)
  }

  /** The rule is not in use, no running load brings it, and the next one will look too late. */
  ghost predicate IsLost(s: State, n: string)
    requires n in s.db
  {
    && !IsCurrent(s, n) && IsOvertaken(s, s.db[n].updatedAt)
    && forall l :: l in s.loads ==> !Brings(s, s.loads[l], n)
  }

  ghost predicate AreOrdered(s: State)
  {
    && IsAlone(s)
    && forall l :: l in s.loads ==>
                     s.lastLoad <= s.loads[l].modTime &&
                     (s.loads[l].Started? || s.loads[l].Checked? ==> s.loads[l].after == s.lastLoad) &&
                     (s.loads[l].Queried? ==> IsRecent(s.loads[l].found, s.lastLoad))
  }

  ghost predicate IsRecent(found: Table, after: int)
  {
    forall n :: n in found ==> found[n].updatedAt >= after
  }

  ghost predicate IsSettled(s: State, n: string)
    requires n in s.db
  {
    if n in s.history.overtaken then IsLost(s, n) else IsKept(s, n)
  }

  ghost predicate SequentialInvariant(s: State)
  {
    Invariant(s) && AreOrdered(s) && forall n :: n in s.db ==> IsSettled(s, n)
  }

  lemma OrderKept(s: State, step: Step)
    requires Invariant(s) && AreOrdered(s) && IsEnabled(s, step) && IsAlone(Next(s, step))
    ensures AreOrdered(Next(s, step))
  {
  }

  lemma CommitSettles(s: State, n: string)
    requires SequentialInvariant(s) && IsEnabled(s, Commit) && n in Next(s, Commit).db
    ensures IsSettled(Next(s, Commit), n)
  {
    var s' := Next(s, Commit);
    var w := s.writer.value;
    if n == w.name {
      if n in s.inUse {
        assert IsTracked(s, n);
      }
      forall l | l in s.loads
        ensures !Brings(s', s.loads[l], n)
      {
        assert IsSoundLoad(s, s.loads[l]);
      }
      assert IsOvertaken(s', w.updatedAt) == IsOvertaken(s, w.updatedAt);
    } else {
      assert IsSettled(s, n);
      assert forall l :: l in s.loads ==> Brings(s', s.loads[l], n) == Brings(s, s.loads[l], n);
      assert IsOvertaken(s', s.db[n].updatedAt) == IsOvertaken(s, s.db[n].updatedAt);
    }
  }

  lemma ApplyKeepsLost(s: State, l: int, n: string)
    requires IsEnabled(s, Apply(l)) && n in s.db && IsLost(s, n)
    ensures IsLost(Next(s, Apply(l)), n)
  {
    var s' := Next(s, Apply(l));
    assert !Brings(s, s.loads[l], n) && !IsCurrent(s', n);
    assert forall k :: k in s.loads ==> k in s'.loads && s'.loads[k].modTime == s.loads[k].modTime;
    assert forall k :: k in s.loads && HasQueried(s.loads[k]) ==> HasQueried(s'.loads[k]);
    assert forall k :: k in s'.loads ==> !Brings(s', s'.loads[k], n) by {
      assert forall k :: k in s'.loads && k != l ==> s'.loads[k] == s.loads[k] && !Brings(s, s.loads[k], n);
    }
    if s.lastLoad <= s.db[n].updatedAt {
      var k :| k in s.loads && (s.loads[k].Queried? || s.loads[k].Applied?) && s.loads[k].modTime > s.db[n].updatedAt;
      assert HasQueried(s.loads[k]) && HasQueried(s'.loads[k]);
    }
  }

  lemma ApplyKeepsKept(s: State, l: int, n: string)
    requires IsEnabled(s, Apply(l)) && n in s.db && IsAlone(s) && IsKept(s, n)
    ensures IsKept(Next(s, Apply(l)), n)
  {
    var s' := Next(s, Apply(l));
    assert forall k :: k in s'.loads ==> k == l;
    assert s'.loads[l] == Applied(s.loads[l].modTime);
    assert Brings(s, s.loads[l], n) ==> IsCurrent(s', n);
    assert n !in s.loads[l].found ==> IsCurrent(s', n) == IsCurrent(s, n);
    assert HasQueried(s.loads[l]) && s.loads[l].Queried?;
    assert s'.db == s.db && s'.lastLoad == s.lastLoad;
    if !IsCurrent(s', n) {
      assert s.loads[l].modTime <= s.db[n].updatedAt && s.db[n].updatedAt >= s.lastLoad;
      assert forall k :: k in s'.loads ==> s'.loads[k].modTime <= s'.db[n].updatedAt;
    } else {
      assert forall k :: k in s'.loads ==> !s'.loads[k].Queried?;
    }
  }

  lemma ApplySettles(s: State, l: int, n: string)
    requires SequentialInvariant(s) && IsEnabled(s, Apply(l)) && n in s.db
    ensures IsSettled(Next(s, Apply(l)), n)
  {
    hide Invariant, IsLost, IsKept;
    assert IsSettled(s, n);
    if n in s.history.overtaken {
      ApplyKeepsLost(s, l, n);
    } else {
      ApplyKeepsKept(s, l, n);
    }
  }

  lemma QuerySettles(s: State, l: int, n: string)
    requires SequentialInvariant(s) && IsEnabled(s, Query(l)) && n in s.db
    ensures IsSettled(Next(s, Query(l)), n)
  {
    var s' := Next(s, Query(l));
    assert IsSettled(s, n) && IsSoundRow(s, n);
    assert s.loads[l].after == s.lastLoad;
  }

  lemma CheckSettles(s: State, l: int, n: string)
    requires SequentialInvariant(s) && IsEnabled(s, CheckLastUpdate(l)) && n in s.db
    ensures IsSettled(Next(s, CheckLastUpdate(l)), n)
  {
    var s' := Next(s, CheckLastUpdate(l));
    assert IsSettled(s, n) && IsSoundRow(s, n);
    if n in s.inUse {
      assert IsTracked(s, n);
    }
    assert s.loads[l].after == s.lastLoad;
  }

  lemma SetLastLoadSettles(s: State, l: int, n: string)
    requires SequentialInvariant(s) && IsEnabled(s, SetLastLoad(l)) && n in s.db
    ensures IsSettled(Next(s, SetLastLoad(l)), n)
  {
    var s' := Next(s, SetLastLoad(l));
    assert IsSettled(s, n);
  }

  /** Nothing that matters for the rule changes. */
  lemma SameSettled(s: State, s': State, n: string)
    requires n in s.db && s'.db == s.db && s'.history == s.history && s'.lastLoad == s.lastLoad && IsSettled(s, n)
    requires forall l :: l in s'.loads && HasQueried(s'.loads[l]) ==> l in s.loads && s'.loads[l] == s.loads[l]
    requires forall l :: l in s.loads && HasQueried(s.loads[l]) ==> l in s'.loads && s'.loads[l] == s.loads[l]
    ensures IsSettled(s', n)
  {
  }

  lemma OtherStepSettles(s: State, step: Step, n: string)
    requires SequentialInvariant(s) && IsEnabled(s, step) && n in s.db
    requires step.Tick? || step.Stamp? || step.SetLastUpdate? || step.Abort? || step.ReadTime? || step.ReadLastLoad?
             || step.Fail?
    ensures IsSettled(Next(s, step), n)
  {
    hide Invariant, AreOrdered, IsSettled;
    SameSettled(s, Next(s, step), n);
  }

  lemma DeleteSettles(s: State, name: string, n: string)
    requires SequentialInvariant(s) && IsEnabled(s, Delete(name)) && n in s.db && n != name
    ensures IsSettled(Next(s, Delete(name)), n)
  {
    var s' := Next(s, Delete(name));
    assert IsSettled(s, n);
    assert IsCurrent(s', n) == IsCurrent(s, n);
    assert forall l :: l in s.loads ==> Brings(s', s.loads[l], n) == Brings(s, s.loads[l], n);
    assert IsOvertaken(s', s.db[n].updatedAt) == IsOvertaken(s, s.db[n].updatedAt);
  }

  lemma RemoveSettles(s: State, name: string, n: string)
    requires SequentialInvariant(s) && IsEnabled(s, Remove(name)) && n in s.db
    ensures IsSettled(Next(s, Remove(name)), n)
  {
    var s' := Next(s, Remove(name));
    assert IsSettled(s, n);
    assert n != name ==> IsCurrent(s', n) == IsCurrent(s, n);
    assert forall l :: l in s.loads ==> Brings(s', s.loads[l], n) == Brings(s, s.loads[l], n);
    assert IsOvertaken(s', s.db[n].updatedAt) == IsOvertaken(s, s.db[n].updatedAt);
    if n == name && !IsDropped(s, n) {
      forall l | l in s.loads && HasQueried(s.loads[l])
        ensures Brings(s, s.loads[l], n) || s.loads[l].modTime <= s.db[n].updatedAt
      {
        assert IsSoundLoad(s, s.loads[l]);
      }
      if l :| l in s.loads && Brings(s, s.loads[l], n) {
        assert IsSoundLoad(s, s.loads[l]) && IsRecent(s.loads[l].found, s.lastLoad);
      }
    }
  }

  lemma SequentialStep(s: State, step: Step)
    requires SequentialInvariant(s) && IsEnabled(s, step) && IsAlone(Next(s, step))
    ensures SequentialInvariant(Next(s, step))
  {
    StepKeepsInvariant(s, step);
    OrderKept(s, step);
    hide Invariant, AreOrdered, IsSettled;
    forall n | n in Next(s, step).db
      ensures IsSettled(Next(s, step), n)
    {
      match step {
        case Commit => CommitSettles(s, n);
        case Apply(l) => ApplySettles(s, l, n);
        case Query(l) => QuerySettles(s, l, n);
        case CheckLastUpdate(l) => CheckSettles(s, l, n);
        case SetLastLoad(l) => SetLastLoadSettles(s, l, n);
        case Delete(name) => DeleteSettles(s, name, n);
        case Remove(name) => RemoveSettles(s, name, n);
        case _ => OtherStepSettles(s, step, n);
      }
    }
  }

  lemma InitialSequentialInvariant(s: State)
    requires IsInitial(s)
    ensures SequentialInvariant(s)
  {
  }

  /**
   * If loads do not overlap, then once nothing is running an update is missed if and only if its write was overtaken:
   * a load read its time after the stamp, and queried before the commit.
   */
  lemma {:induction false} MissedIffOvertaken(s: State, steps: seq<Step>, n: string)
    requires SequentialInvariant(s) && IsRun(s, steps) && IsSequential(s, steps)
    requires IsQuiescent(After(s, steps)) && n in After(s, steps).db
    ensures IsMissed(After(s, steps), n) <==> n in After(s, steps).history.overtaken
    decreases |steps|
  {
    if steps == [] {
      MissedLaw(s, n);
      assert IsSettled(s, n);
    } else {
      SequentialStep(s, steps[0]);
      MissedIffOvertaken(Next(s, steps[0]), steps[1..], n);
    }
  }

  /** With loads that do not overlap, no update is missed if and only if none of the latest writes was overtaken. */
  lemma NoneMissedIff(s: State, steps: seq<Step>)
    requires IsInitial(s) && IsRun(s, steps) && IsSequential(s, steps) && IsQuiescent(After(s, steps))
    ensures (forall n :: n in After(s, steps).db ==> !IsMissed(After(s, steps), n)) <==>
            (forall n :: n in After(s, steps).db ==> n !in After(s, steps).history.overtaken)
  {
    InitialSequentialInvariant(s);
    hide IsMissed, SequentialInvariant, IsSequential, IsRun, IsInitial;
    forall n | n in After(s, steps).db
      ensures IsMissed(After(s, steps), n) <==> n in After(s, steps).history.overtaken
    {
      MissedIffOvertaken(s, steps, n);
    }
  }

  // ---------------------------------------------------------------- deleted rules

  /** Even one more load leaves a deleted rule in use. */
  predicate IsStale(s: State, n: string)
  {
    n !in s.db && n in Reloaded(s)
  }

  /**
   * In every run, whatever overlaps: once nothing is running a deleted rule is still in use if and only if a load that
   * had found it put it in use after its removal, and it was neither removed again nor written again since.
   */
  lemma {:induction false} StaleIffRevived(s: State, steps: seq<Step>, n: string)
    requires Invariant(s) && IsRun(s, steps) && IsQuiescent(After(s, steps))
    ensures IsStale(After(s, steps), n) <==> n in After(s, steps).history.revived
    decreases |steps|
  {
    if steps == [] {
      assert n in s.history.revived <==> IsLeftInUse(s, n);
    } else {
      StepKeepsInvariant(s, steps[0]);
      StaleIffRevived(Next(s, steps[0]), steps[1..], n);
    }
  }

  /** One more load makes the rules in use exactly those of the database. */
  predicate IsRefreshed(s: State)
  {
    Reloaded(s) == s.db
  }

  /**
   * From startup, for every run whose loads do not overlap: once nothing is running, one more load gives exactly the
   * rules of the database if and only if no last write was overtaken and no deleted rule was put back.
   */
  lemma RefreshedIff(s: State, steps: seq<Step>)
    requires IsInitial(s) && IsRun(s, steps) && IsSequential(s, steps) && IsQuiescent(After(s, steps))
    ensures var end := After(s, steps);
            IsRefreshed(end) <==> (forall n :: n in end.db ==> n !in end.history.overtaken) && end.history.revived == {}
  {
    var end := After(s, steps);
    NoneMissedIff(s, steps);
    InitialInvariant(s);
    forall n
      ensures IsStale(end, n) <==> n in end.history.revived
    {
      StaleIffRevived(s, steps, n);
    }
    RefreshedByRule(end);
    hide IsMissed, IsStale, IsRefreshed, IsRun, IsSequential, IsInitial, IsQuiescent, Invariant;
  }

  lemma RefreshedByRule(s: State)
    ensures IsRefreshed(s) <==> (forall n :: n in s.db ==> !IsMissed(s, n)) && (forall n :: !IsStale(s, n))
  {
    hide Reloaded;
    if (forall n :: n in s.db ==> !IsMissed(s, n)) && (forall n :: !IsStale(s, n)) {
      assert forall n :: n in Reloaded(s) ==> n in s.db by {
        forall n | n in Reloaded(s)
          ensures n in s.db
        {
          assert !IsStale(s, n);
        }
      }
    }
  }

  // ---------------------------------------------------------------- runs that miss an update, or revive a rule

  lemma {:induction false} RunThenRun(s: State, first: seq<Step>, second: seq<Step>)
    requires IsRun(s, first) && IsRun(After(s, first), second)
    ensures IsRun(s, first + second) && After(s, first + second) == After(After(s, first), second)
    ensures IsSequential(s, first) && IsSequential(After(s, first), second) ==> IsSequential(s, first + second)
    decreases |first|
  {
    hide IsEnabled, Next, IsAlone;
    if first == [] {
      assert first + second == second;
    } else {
      RunThenRun(Next(s, first[0]), first[1..], second);
      assert (first + second)[1..] == first[1..] + second;
    }
  }

  /** A run of one step. */
  lemma OneStep(s: State, step: Step) returns (steps: seq<Step>)
    requires IsEnabled(s, step)
    ensures IsRun(s, steps) && After(s, steps) == Next(s, step)
    ensures IsAlone(s) && IsAlone(Next(s, step)) ==> IsSequential(s, steps)
  {
    hide IsEnabled, Next, IsAlone;
    steps := [step];
    assert steps[1..] == [];
  }

  /** A run followed by one more step. */
  lemma Then(s: State, run: seq<Step>, step: Step) returns (steps: seq<Step>)
    requires IsRun(s, run) && IsEnabled(After(s, run), step)
    ensures IsRun(s, steps) && After(s, steps) == Next(After(s, run), step)
    ensures IsSequential(s, run) && IsAlone(After(s, run)) && IsAlone(Next(After(s, run), step)) ==>
            IsSequential(s, steps)
  {
    hide IsEnabled, Next, IsAlone;
    var last := OneStep(After(s, run), step);
    RunThenRun(s, run, last);
    steps := run + last;
  }

  /** A load from reading its time to the query. */
  function Begun(s: State, l: int): State
  {
    WithLoad(s, l,
        Queried(s.clock, Found(s), s.commits))
  }

  lemma BeginLoad(s: State, l: int) returns (steps: seq<Step>)
    requires l !in s.loads
    ensures IsRun(s, steps) && After(s, steps) == Begun(s, l)
    ensures s.loads == map[] ==> IsSequential(s, steps)
  {
    hide After, IsRun, IsSequential, Recent;
    steps := StartLoad(s, l);
    var started := WithLoad(s, l, Started(s.clock, s.lastLoad));
    steps := Then(s, steps, CheckLastUpdate(l));
    if s.lastRuleUpdate < s.lastLoad {
      assert Next(started, CheckLastUpdate(l)).loads == Begun(s, l).loads;
    } else {
      var checked := WithLoad(s, l, Checked(s.clock, s.lastLoad));
      assert Next(started, CheckLastUpdate(l)).loads == checked.loads;
      steps := Then(s, steps, Query(l));
      assert Next(checked, Query(l)).loads == Begun(s, l).loads;
    }
  }

  lemma StartLoad(s: State, l: int) returns (steps: seq<Step>)
    requires l !in s.loads
    ensures IsRun(s, steps) && After(s, steps) == WithLoad(s, l, Started(s.clock, s.lastLoad))
    ensures s.loads == map[] ==> IsSequential(s, steps)
  {
    hide After, IsRun, IsSequential, Recent;
    steps := OneStep(s, ReadTime(l));
    steps := Then(s, steps, ReadLastLoad(l));
    assert After(s, steps).loads == WithLoad(s, l, Started(s.clock, s.lastLoad)).loads;
  }

  /** The rest of a load. */
  function Ended(s: State, l: int): State
    requires l in s.loads && s.loads[l].Queried?
  {
    var load := s.loads[l];
    s.(inUse := s.inUse + load.found, lastLoad := load.modTime, loads := s.loads - {l},
       history := s.history.(usedFrom := s.history.usedFrom + map n | n in load.found :: load.at,
                             revived := s.history.revived + Returning(s, load.found)))
  }

  lemma EndLoad(s: State, l: int) returns (steps: seq<Step>)
    requires l in s.loads && s.loads[l].Queried? && s.lockedBy.None?
    ensures IsRun(s, steps) && After(s, steps) == Ended(s, l)
    ensures IsAlone(s) ==> IsSequential(s, steps)
  {
    hide After, IsRun, IsSequential;
    steps := OneStep(s, Apply(l));
    steps := Then(s, steps, SetLastLoad(l));
    assert After(s, steps).loads == Ended(s, l).loads;
  }

  /** What a load that runs alone finds. */
  function Found(s: State): Table
  {
    if s.lastRuleUpdate < s.lastLoad then map[] else Recent(s.db, s.lastLoad)
  }

  /** The state after such a load. */
  function Loaded(s: State): State
  {
    s.(inUse := s.inUse + Found(s), lastLoad := s.clock,
       history := s.history.(usedFrom := s.history.usedFrom + map n | n in Found(s) :: s.commits,
                             revived := s.history.revived + Returning(s, Found(s))))
  }

  lemma LoadAtOnce(s: State, l: int) returns (steps: seq<Step>)
    requires l !in s.loads && s.lockedBy.None?
    ensures IsRun(s, steps) && After(s, steps) == Loaded(s)
  {
    hide After, IsRun, IsSequential, Recent, Returning;
    steps := BeginLoad(s, l);
    var begun := Begun(s, l);
    var rest := EndLoad(begun, l);
    RunThenRun(s, steps, rest);
    steps := steps + rest;
    assert Ended(begun, l).loads == s.loads;
    assert Returning(begun, Found(s)) == Returning(s, Found(s)) by {
      SameReturning(begun, s, Found(s));
    }
  }

  lemma SameReturning(s: State, t: State, found: Table)
    requires s.db == t.db && s.removing == t.removing
    ensures Returning(s, found) == Returning(t, found)
  {
  }

  /** A whole write that no load overtakes. */
  lemma WriteRule(s: State, name: string) returns (steps: seq<Step>)
    requires s.writer.None? && !IsOvertaken(s, s.clock) && name !in s.history.overtaken
    ensures IsRun(s, steps)
    ensures After(s, steps) ==
            s.(db := s.db[name := Row(s.clock, s.commits)], commits := s.commits + 1, lastRuleUpdate := s.clock,
               history := s.history.(revived := s.history.revived - {name}))
  {
    hide After, IsRun, IsSequential;
    steps := OneStep(s, Stamp(name));
    steps := Then(s, steps, SetLastUpdate);
    steps := Then(s, steps, Commit);
    assert s.history.overtaken - {name} == s.history.overtaken;
  }

  /** A rule in use in its only version. */
  const ONE_RULE := State(10, 1, map["r" := Row(0, 0)], None, 0, map[], None, map["r" := Row(0, 0)], 0,
                          multiset{}, History(1, map["r" := 1], {}, {}))

  lemma OneRuleIsInitial()
    ensures IsInitial(ONE_RULE)
  {
    assert (map n | n in ONE_RULE.db :: ONE_RULE.commits) == map["r" := 1];
  }

  /** A load reads its time after the stamp and finishes before the commit. */
  lemma OvertakenWriteIsMissed() returns (steps: seq<Step>)
    ensures IsInitial(ONE_RULE) && IsRun(ONE_RULE, steps) && IsQuiescent(After(ONE_RULE, steps))
    ensures IsSequential(ONE_RULE, steps) && IsMissed(After(ONE_RULE, steps), "r")
  {
    hide After, IsRun, IsSequential;
    OneRuleIsInitial();
    steps := OneStep(ONE_RULE, Stamp("r"));
    steps := Then(ONE_RULE, steps, SetLastUpdate);
    steps := Then(ONE_RULE, steps, Tick(1));
    var s1 := After(ONE_RULE, steps);
    assert s1 == ONE_RULE.(clock := 11, writer := Some(Write("r", 10, true)), lastRuleUpdate := 10);
    var load := BeginLoad(s1, 0);
    RunThenRun(ONE_RULE, steps, load);
    steps := steps + load;
    var s2 := Begun(s1, 0);
    assert Recent(s1.db, 0) == map["r" := Row(0, 0)];
    assert s2 == s1.(loads := map[0 := Queried(11, map["r" := Row(0, 0)], 1)]);
    load := EndLoad(s2, 0);
    RunThenRun(ONE_RULE, steps, load);
    steps := steps + load;
    var s3 := Ended(s2, 0);
    assert s3 == s1.(lastLoad := 11);
    steps := Then(ONE_RULE, steps, Commit);
    assert After(ONE_RULE, steps).db == map["r" := Row(10, 1)];
  }

  /**
   * No write is overtaken, but an old version that one load had found is put in use after a newer one, when a third
   * load has already seen that nothing changed.
   */
  lemma OverlappingLoadsMiss() returns (steps: seq<Step>)
    ensures IsInitial(ONE_RULE) && IsRun(ONE_RULE, steps) && IsQuiescent(After(ONE_RULE, steps))
    ensures After(ONE_RULE, steps).history.overtaken == {} && IsMissed(After(ONE_RULE, steps), "r")
  {
    hide After, IsRun, IsSequential;
    OneRuleIsInitial();
    var s3;
    steps, s3 := NewVersionInUse();
    steps := Then(ONE_RULE, steps, Tick(1));
    var s4 := s3.(clock := 13);
    var load := BeginLoad(s4, 2);
    RunThenRun(ONE_RULE, steps, load);
    steps := steps + load;
    var s5 := Begun(s4, 2);
    load := EndLoad(s5, 0);
    RunThenRun(ONE_RULE, steps, load);
    steps := steps + load;
    var s6 := Ended(s5, 0);
    load := EndLoad(s6, 2);
    RunThenRun(ONE_RULE, steps, load);
    steps := steps + load;
    var s7 := Ended(s6, 2);
    assert s7.loads == map[] && s7.lastLoad == 13 && s7.db == map["r" := Row(11, 1)];
    assert s7.inUse["r"] == Row(0, 0);
  }

  /** A load finds the old version; a new one is written, and another load puts it in use. */
  lemma NewVersionInUse() returns (steps: seq<Step>, end: State)
    ensures IsRun(ONE_RULE, steps) && After(ONE_RULE, steps) == end
    ensures end == State(12, 2, map["r" := Row(11, 1)], None, 11, map[0 := Queried(10, map["r" := Row(0, 0)], 1)], None,
                         map["r" := Row(11, 1)], 12, multiset{}, History(1, map["r" := 2], {}, {}))
  {
    hide After, IsRun, IsSequential;
    steps := BeginLoad(ONE_RULE, 0);
    var s1 := Begun(ONE_RULE, 0);
    assert Recent(ONE_RULE.db, 0) == map["r" := Row(0, 0)];
    assert s1 == ONE_RULE.(loads := map[0 := Queried(10, map["r" := Row(0, 0)], 1)]);
    steps := Then(ONE_RULE, steps, Tick(1));
    var s2 := s1.(clock := 11);
    var more := WriteRule(s2, "r");
    RunThenRun(ONE_RULE, steps, more);
    steps := steps + more;
    steps := Then(ONE_RULE, steps, Tick(1));
    var s3 := s2.(clock := 12, db := map["r" := Row(11, 1)], commits := 2, lastRuleUpdate := 11);
    assert After(ONE_RULE, steps) == s3;
    more := LoadAtOnce(s3, 1);
    RunThenRun(ONE_RULE, steps, more);
    steps := steps + more;
    end := Loaded(s3);
    NewVersionLoaded(s3);
  }

  lemma NewVersionLoaded(s: State)
    requires s.db == map["r" := Row(11, 1)] && s.lastRuleUpdate == 11 && s.lastLoad == 0 && s.commits == 2
    requires s.inUse == map["r" := Row(0, 0)] && s.history.usedFrom == map["r" := 1] && s.history.revived == {}
    ensures Loaded(s).inUse == map["r" := Row(11, 1)] && Loaded(s).history.usedFrom == map["r" := 2]
    ensures Loaded(s).history.revived == {}
  {
    assert Found(s) == map["r" := Row(11, 1)];
  }

  /** A load that has found the rule puts it back in use after it was deleted and removed. */
  lemma DeletedRuleReturns() returns (steps: seq<Step>)
    ensures IsInitial(ONE_RULE) && IsRun(ONE_RULE, steps) && IsQuiescent(After(ONE_RULE, steps))
    ensures IsSequential(ONE_RULE, steps) && IsStale(After(ONE_RULE, steps), "r")
  {
    hide After, IsRun, IsSequential;
    OneRuleIsInitial();
    steps := BeginLoad(ONE_RULE, 0);
    var s1 := Begun(ONE_RULE, 0);
    assert Recent(ONE_RULE.db, 0) == map["r" := Row(0, 0)];
    assert s1 == ONE_RULE.(loads := map[0 := Queried(10, map["r" := Row(0, 0)], 1)]);
    steps := Then(ONE_RULE, steps, Delete("r"));
    var s2 := s1.(db := map[], commits := 2, removing := multiset{"r"});
    assert Next(s1, Delete("r")) == s2;
    steps := Then(ONE_RULE, steps, Remove("r"));
    var s3 := Next(s2, Remove("r"));
    assert s3.inUse == map[] && s3.db == map[] && s3.removing == multiset{} && s3.loads == s1.loads;
    var load := EndLoad(s3, 0);
    RunThenRun(ONE_RULE, steps, load);
    steps := steps + load;
    assert "r" in Ended(s3, 0).inUse;
  }

  /** The rule is deleted, and created again before the old one is taken out of use. */
  const RECREATED := State(11, 3, map["r" := Row(10, 2)], None, 10, map[], None, map["r" := Row(0, 0)], 0,
                           multiset{"r"}, History(1, map["r" := 1], {}, {}))

  lemma RuleIsRecreated() returns (steps: seq<Step>)
    ensures IsInitial(ONE_RULE) && IsRun(ONE_RULE, steps) && After(ONE_RULE, steps) == RECREATED
  {
    OneRuleIsInitial();
    var s1 := ONE_RULE.(db := map[], commits := 2, removing := multiset{"r"});
    assert Next(ONE_RULE, Delete("r")) == s1 by {
      assert ONE_RULE.db - {"r"} == map[];
    }
    assert s1.history.revived - {"r"} == {};
    hide After, IsRun, IsSequential;
    steps := OneStep(ONE_RULE, Delete("r"));
    var more := WriteRule(s1, "r");
    RunThenRun(ONE_RULE, steps, more);
    steps := steps + more;
    steps := Then(ONE_RULE, steps, Tick(1));
  }

  /** A load brings the new rule, and then the removal of the old one takes it out of use. */
  lemma RecreatedRuleIsDropped() returns (steps: seq<Step>)
    ensures IsInitial(ONE_RULE) && IsRun(ONE_RULE, steps) && IsQuiescent(After(ONE_RULE, steps))
    ensures IsMissed(After(ONE_RULE, steps), "r")
  {
    hide After, IsRun, IsSequential, IsDropped, Found, IsMissed, Returning, IsInitial;
    steps := RuleIsRecreated();
    var more := LoadAtOnce(RECREATED, 0);
    RunThenRun(ONE_RULE, steps, more);
    steps := steps + more;
    steps := Then(ONE_RULE, steps, Remove("r"));
    RemovedIsMissed(Loaded(RECREATED), "r");
    assert Removed(Loaded(RECREATED), "r").removing == multiset{};
  }

  lemma RemovedIsMissed(s: State, n: string)
    requires n in s.db && s.lastRuleUpdate < s.lastLoad
    ensures IsMissed(Removed(s, n), n)
  {
    hide IsDropped;
  }
}
