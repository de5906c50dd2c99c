/** The active event rules, kept by trigger and refreshed from the provider with the recently updated ones. */
module EventRules {
  import opened Maps
  import opened SwapLists

  datatype Trigger = FsEvent | ProviderEvent | Schedule | IPBlocked | Certificate | OnDemand | IDPLogin

  /** Times are in milliseconds; a rule that is only marked as deleted has a positive deletion time. */
  datatype Rule = Rule(name: string, status: int, trigger: Trigger, schedules: seq<string>, updatedAt: int,
                       deletedAt: int, actions: seq<string>)

  /** The rules that must be active. */
  predicate IsActive(r: Rule)
  {
    r.deletedAt <= 0 && r.status == 1 && r.trigger != OnDemand
  }

  // ---------------------------------------------------------------- the lists

  datatype Lists = Lists(fsEvents: seq<Rule>, providerEvents: seq<Rule>, schedules: seq<Rule>,
                         ipBlockedEvents: seq<Rule>, certificateEvents: seq<Rule>, idpLoginEvents: seq<Rule>)
  {
    function At(t: Trigger): seq<Rule>
    {
      match t
      case FsEvent => fsEvents
      case ProviderEvent => providerEvents
      case Schedule => schedules
      case IPBlocked => ipBlockedEvents
      case Certificate => certificateEvents
      case IDPLogin => idpLoginEvents
      case OnDemand => []
    }

    function With(t: Trigger, rules: seq<Rule>): Lists
      requires t != OnDemand
    {
      match t
      case FsEvent => this.(fsEvents := rules)
      case ProviderEvent => this.(providerEvents := rules)
      case Schedule => this.(schedules := rules)
      case IPBlocked => this.(ipBlockedEvents := rules)
      case Certificate => this.(certificateEvents := rules)
      case IDPLogin => this.(idpLoginEvents := rules)
    }
  }

  /** No two rules of a list have the same name. */
  ghost predicate IsDistinct(rules: seq<Rule>)
  {
    AreDistinct(rules, NameOf)
  }

  function NameOf(r: Rule): string
  {
    r.name
  }

  /** A list holds each of the given rules with its trigger exactly once, and nothing else. */
  ghost predicate IsListOf(list: seq<Rule>, t: Trigger, rules: map<string, Rule>)
  {
    && IsDistinct(list)
    && (forall r :: r in list ==> r.trigger == t && r.name in rules && rules[r.name] == r)
    && (forall n :: n in rules && rules[n].trigger == t ==> rules[n] in list)
  }

  ghost predicate AreNamed(rules: map<string, Rule>)
  {
    forall n :: n in rules ==> rules[n].name == n
  }

  /** The lists hold exactly the given rules: each one once, in the list of its trigger, and no other name. */
  ghost predicate Holds(lists: Lists, rules: map<string, Rule>)
  {
    AreNamed(rules) && forall t :: IsListOf(lists.At(t), t, rules)
  }

  predicate HasName(rules: seq<Rule>, name: string)
  {
    exists r <- rules :: r.name == name
  }

  /** Only the rule with the given name is gone; the order may change. */
  ghost predicate IsRemoved(before: seq<Rule>, after: seq<Rule>, name: string)
  {
    && IsDistinct(after)
    && (forall r :: r in after <==> r in before && r.name != name)
  }

  /** Removes the rule with the given name, if it is there, by moving the last one in its place. */
  method RemoveFrom(rules: seq<Rule>, name: string) returns (found: bool, rest: seq<Rule>)
    requires IsDistinct(rules)
    ensures found <==> HasName(rules, name)
    ensures if found then IsRemoved(rules, rest, name) else rest == rules
  {
    rest := rules;
    for idx := 0 to |rules|
      invariant rest == rules && forall i :: 0 <= i < idx ==> rules[i].name != name
    {
      if rules[idx].name == name {
        var lastIdx := |rules| - 1;
        SwapRemoved(rules, NameOf, idx);
        rest := rest[idx := rest[lastIdx]];
        rest := rest[..lastIdx];
        return true, rest;
      }
    }
    return false, rest;
  }

  lemma HeldLists(lists: Lists, rules: map<string, Rule>)
    requires Holds(lists, rules)
    ensures IsDistinct(lists.fsEvents) && IsDistinct(lists.providerEvents) && IsDistinct(lists.schedules)
    ensures IsDistinct(lists.ipBlockedEvents) && IsDistinct(lists.certificateEvents) && IsDistinct(lists.idpLoginEvents)
  {
    hide IsDistinct;
    forall t
      ensures IsDistinct(lists.At(t))
    {
      assert IsListOf(lists.At(t), t, rules);
    }
    assert IsDistinct(lists.At(FsEvent)) && IsDistinct(lists.At(ProviderEvent)) && IsDistinct(lists.At(Schedule));
    assert IsDistinct(lists.At(IPBlocked)) && IsDistinct(lists.At(Certificate)) && IsDistinct(lists.At(IDPLogin));
  }

  lemma ListWithout(list: seq<Rule>, rest: seq<Rule>, t: Trigger, rules: map<string, Rule>, name: string)
    requires IsListOf(list, t, rules) && IsRemoved(list, rest, name) && AreNamed(rules)
    ensures IsListOf(rest, t, Without(rules, {name}))
  {
  }

  lemma OtherListWithout(list: seq<Rule>, t: Trigger, rules: map<string, Rule>, name: string)
    requires IsListOf(list, t, rules) && name in rules && rules[name].trigger != t
    ensures IsListOf(list, t, Without(rules, {name}))
  {
  }

  lemma FoundIn(list: seq<Rule>, t: Trigger, rules: map<string, Rule>, name: string)
    requires IsListOf(list, t, rules) && HasName(list, name)
    ensures name in rules && rules[name].trigger == t
  {
  }

  /** Removing a rule from the list where it is found is enough, for it is in no other list. */
  lemma RemoveKeepsHeld(lists: Lists, rules: map<string, Rule>, t: Trigger, rest: seq<Rule>, name: string)
    requires Holds(lists, rules) && HasName(lists.At(t), name) && t != OnDemand
    requires IsRemoved(lists.At(t), rest, name)
    ensures Holds(lists.With(t, rest), Without(rules, {name}))
    ensures name in rules && rules[name].trigger == t
  {
    var after := lists.With(t, rest);
    assert forall u :: after.At(u) == if u == t then rest else lists.At(u);
    hide Lists.At, Lists.With, IsListOf, HasName, IsRemoved;
    FoundIn(lists.At(t), t, rules, name);
    forall u
      ensures IsListOf(after.At(u), u, Without(rules, {name}))
    {
      if u == t {
        ListWithout(lists.At(t), rest, t, rules, name);
      } else {
        OtherListWithout(lists.At(u), u, rules, name);
      }
    }
  }

  lemma NotHeld(lists: Lists, rules: map<string, Rule>, name: string)
    requires Holds(lists, rules) && forall t :: !HasName(lists.At(t), name)
    ensures name !in rules
  {
    if name in rules {
      var t := rules[name].trigger;
      assert IsListOf(lists.At(t), t, rules);
      assert HasName(lists.At(t), name);
    }
  }

  lemma ListWith(list: seq<Rule>, t: Trigger, rules: map<string, Rule>, r: Rule)
    requires IsListOf(list, t, rules) && r.name !in rules
    ensures IsListOf(if r.trigger == t then list + [r] else list, t, rules[r.name := r])
  {
  }

  lemma AddKeepsHeld(lists: Lists, rules: map<string, Rule>, r: Rule)
    requires Holds(lists, rules) && r.name !in rules && r.trigger != OnDemand
    ensures Holds(lists.With(r.trigger, lists.At(r.trigger) + [r]), rules[r.name := r])
  {
    var longer := lists.At(r.trigger) + [r];
    var after := lists.With(r.trigger, longer);
    assert forall u :: after.At(u) == if u == r.trigger then longer else lists.At(u);
    hide Lists.At, Lists.With, IsListOf;
    forall u
      ensures IsListOf(after.At(u), u, rules[r.name := r])
    {
      ListWith(lists.At(u), u, rules, r);
    }
  }

  // ---------------------------------------------------------------- the scheduled jobs

  /** A registered job: one for each schedule of each scheduled rule. */
  datatype Job = Job(ruleName: string, cronSpec: string)

  /** The names with schedules, each with the jobs of its schedules in order, and no other job. */
  ghost predicate AreScheduled(rules: map<string, Rule>, mapping: map<string, seq<int>>, jobs: map<int, Job>,
                               nextId: int)
  {
    && (forall n :: n in mapping <==> n in rules && rules[n].trigger == Schedule && rules[n].schedules != [])
    && (forall n :: n in mapping ==> IsJobList(n, rules[n].schedules, mapping[n], jobs))
    && (forall id :: id in jobs ==> id < nextId && jobs[id].ruleName in mapping && id in mapping[jobs[id].ruleName])
  }

  ghost predicate IsJobList(name: string, schedules: seq<string>, ids: seq<int>, jobs: map<int, Job>)
  {
    && |ids| == |schedules|
    && forall i :: 0 <= i < |ids| ==> ids[i] in jobs && jobs[ids[i]] == Job(name, schedules[i])
  }

  function WithoutJobs(jobs: map<int, Job>, ids: seq<int>): map<int, Job>
  {
    map id | id in jobs && id !in ids :: jobs[id]
  }

  lemma UnscheduledRemoved(rules: map<string, Rule>, mapping: map<string, seq<int>>, jobs: map<int, Job>, nextId: int,
                           name: string)
    requires AreScheduled(rules, mapping, jobs, nextId)
    requires name !in rules || rules[name].trigger != Schedule || name !in mapping
    ensures AreScheduled(Without(rules, {name}), mapping, jobs, nextId)
  {
  }

  lemma ScheduledRemoved(rules: map<string, Rule>, mapping: map<string, seq<int>>, jobs: map<int, Job>, nextId: int,
                         name: string)
    requires AreScheduled(rules, mapping, jobs, nextId) && name in mapping
    ensures AreScheduled(Without(rules, {name}), Without(mapping, {name}), WithoutJobs(jobs, mapping[name]), nextId)
  {
    var rest := WithoutJobs(jobs, mapping[name]);
    assert IsJobList(name, rules[name].schedules, mapping[name], jobs);
    forall n | n in mapping && n != name
      ensures IsJobList(n, rules[n].schedules, mapping[n], rest)
    {
      assert IsJobList(n, rules[n].schedules, mapping[n], jobs);
    }
    forall id | id in rest
      ensures jobs[id].ruleName != name
    {
    }
  }

  lemma UnscheduledAdded(rules: map<string, Rule>, mapping: map<string, seq<int>>, jobs: map<int, Job>, nextId: int,
                         r: Rule)
    requires AreScheduled(rules, mapping, jobs, nextId) && r.name !in rules
    requires r.trigger != Schedule || r.schedules == []
    ensures AreScheduled(rules[r.name := r], mapping, jobs, nextId)
  {
  }

  /** The rule with only its first schedules. */
  function Partial(r: Rule, i: nat): Rule
    requires i <= |r.schedules|
  {
    r.(schedules := r.schedules[..i])
  }

  lemma PartialIsWhole(r: Rule)
    ensures Partial(r, |r.schedules|) == r
  {
    assert r.schedules[..|r.schedules|] == r.schedules;
  }

  lemma JobAdded(rules: map<string, Rule>, mapping: map<string, seq<int>>, jobs: map<int, Job>, nextId: int, r: Rule,
                 i: nat)
    requires r.trigger == Schedule && i < |r.schedules|
    requires AreScheduled(rules[r.name := Partial(r, i)], mapping, jobs, nextId)
    ensures var ids := (if r.name in mapping then mapping[r.name] else []) + [nextId];
            AreScheduled(rules[r.name := Partial(r, i + 1)], mapping[r.name := ids],
                         jobs[nextId := Job(r.name, r.schedules[i])], nextId + 1)
  {
    var before, after := rules[r.name := Partial(r, i)], rules[r.name := Partial(r, i + 1)];
    var ids := (if r.name in mapping then mapping[r.name] else []) + [nextId];
    var mapping', jobs' := mapping[r.name := ids], jobs[nextId := Job(r.name, r.schedules[i])];
    forall n | n in mapping'
      ensures IsJobList(n, after[n].schedules, mapping'[n], jobs')
    {
      if n in mapping {
        assert IsJobList(n, before[n].schedules, mapping[n], jobs);
      }
    }
  }

  // ---------------------------------------------------------------- the refresh

  /** The rules that must be active, by name. */
  function Active(db: map<string, Rule>): map<string, Rule>
  {
    map n | n in db && IsActive(db[n]) :: db[n]
  }

  /** The latest version of a rule is the one in use, or the rule is not in use if it must not be active. */
  ghost predicate IsReflected(db: map<string, Rule>, rules: map<string, Rule>, n: string)
  {
    n in db && (n in rules <==> IsActive(db[n])) && (n in rules ==> rules[n] == db[n])
  }

  /**
   * Between any two operations, at a given time: no name outside the database is in use, and a version that is not
   * in use yet is recent enough for the next refresh to find it.
   */
  ghost predicate IsSynced(db: map<string, Rule>, rules: map<string, Rule>, lastLoad: int, lastRuleUpdate: int,
                           clock: int)
  {
    && AreNamed(db) && rules.Keys <= db.Keys
    && 0 <= lastLoad <= clock && 0 <= lastRuleUpdate <= clock
    && (forall n :: n in db ==> db[n].updatedAt >= 0)
    && (forall n :: n in db && !IsReflected(db, rules, n) ==> IsPending(db[n], lastLoad, lastRuleUpdate))
  }

  ghost predicate IsPending(r: Rule, lastLoad: int, lastRuleUpdate: int)
  {
    r.updatedAt >= lastLoad && (lastLoad == 0 || r.updatedAt <= lastRuleUpdate)
  }

  /** The refresh reads nothing only when there is nothing to read. */
  lemma NothingMissed(db: map<string, Rule>, rules: map<string, Rule>, lastLoad: int, lastRuleUpdate: int, clock: int,
                      n: string)
    requires IsSynced(db, rules, lastLoad, lastRuleUpdate, clock) && n in db && !IsReflected(db, rules, n)
    ensures lastRuleUpdate >= lastLoad && db[n].updatedAt >= lastLoad
  {
  }

  lemma AllReflected(db: map<string, Rule>, rules: map<string, Rule>)
    requires rules.Keys <= db.Keys && forall n :: n in db ==> IsReflected(db, rules, n)
    ensures rules == Active(db)
  {
  }

  lemma LoadedIsSynced(db: map<string, Rule>, before: map<string, Rule>, rules: map<string, Rule>, lastLoad: int,
                       lastRuleUpdate: int, modTime: int)
    requires IsSynced(db, before, lastLoad, lastRuleUpdate, modTime) && rules == Active(db)
    ensures IsSynced(db, rules, modTime, lastRuleUpdate, modTime)
  {
  }

  /** A write at a given time, after which the time of the last update is set. */
  lemma WriteKeepsSynced(db: map<string, Rule>, rules: map<string, Rule>, lastLoad: int, lastRuleUpdate: int, r: Rule,
                         later: int)
    requires IsSynced(db, rules, lastLoad, lastRuleUpdate, r.updatedAt) && r.updatedAt <= later
    ensures IsSynced(db[r.name := r], rules, lastLoad, later, later)
  {
    var db' := db[r.name := r];
    forall n | n in db' && !IsReflected(db', rules, n)
      ensures IsPending(db'[n], lastLoad, later)
    {
      if n != r.name {
        assert !IsReflected(db, rules, n);
      }
    }
  }

  lemma DeleteKeepsSynced(db: map<string, Rule>, rules: map<string, Rule>, lastLoad: int, lastRuleUpdate: int,
                          clock: int, name: string)
    requires IsSynced(db, rules, lastLoad, lastRuleUpdate, clock)
    ensures IsSynced(Without(db, {name}), Without(rules, {name}), lastLoad, lastRuleUpdate, clock)
  {
    var db', rules' := Without(db, {name}), Without(rules, {name});
    forall n | n in db' && !IsReflected(db', rules', n)
      ensures IsPending(db'[n], lastLoad, lastRuleUpdate)
    {
      assert !IsReflected(db, rules, n);
    }
  }

  lemma SyncedLater(db: map<string, Rule>, rules: map<string, Rule>, lastLoad: int, lastRuleUpdate: int, clock: int,
                    later: int)
    requires IsSynced(db, rules, lastLoad, lastRuleUpdate, clock) && clock <= later
    ensures IsSynced(db, rules, lastLoad, lastRuleUpdate, later)
  {
  }

  lemma SyncedNames(db: map<string, Rule>, rules: map<string, Rule>, lastLoad: int, lastRuleUpdate: int, clock: int)
    requires IsSynced(db, rules, lastLoad, lastRuleUpdate, clock)
    ensures AreNamed(db) && rules.Keys <= db.Keys
  {
  }

  lemma Unknown(db: map<string, Rule>, rules: map<string, Rule>, lastLoad: int, lastRuleUpdate: int, clock: int,
                name: string)
    requires IsSynced(db, rules, lastLoad, lastRuleUpdate, clock)
    ensures name !in db ==> Without(db, {name}) == db && Without(rules, {name}) == rules
  {
  }

  /** Every rule that is not reflected is among the recently updated ones. */
  lemma RecentAreEnough(db: map<string, Rule>, rules: map<string, Rule>, lastLoad: int, lastRuleUpdate: int, clock: int,
                        recent: seq<Rule>)
    requires IsSynced(db, rules, lastLoad, lastRuleUpdate, clock)
    requires if lastRuleUpdate < lastLoad then recent == [] else AreRecent(db, recent, lastLoad)
    ensures forall r <- recent :: r.name in db && db[r.name] == r
    ensures forall n :: n in db && !IsReflected(db, rules, n) ==> exists j :: 0 <= j < |recent| && recent[j].name == n
  {
    forall n | n in db && !IsReflected(db, rules, n)
      ensures exists j :: 0 <= j < |recent| && recent[j].name == n
    {
      NothingMissed(db, rules, lastLoad, lastRuleUpdate, clock, n);
      var j :| 0 <= j < |recent| && recent[j] == db[n];
    }
  }

  /** What a rule read from the database does to the rules in use. */
  function Applied(rules: map<string, Rule>, r: Rule): map<string, Rule>
  {
    if IsActive(r) then Without(rules, {r.name})[r.name := r] else Without(rules, {r.name})
  }

  lemma AppliedIsReflected(db: map<string, Rule>, rules: map<string, Rule>, r: Rule)
    requires AreNamed(db) && r.name in db && db[r.name] == r && rules.Keys <= db.Keys
    ensures Applied(rules, r).Keys <= db.Keys
    ensures IsReflected(db, Applied(rules, r), r.name)
    ensures forall n :: IsReflected(db, rules, n) ==> IsReflected(db, Applied(rules, r), n)
  {
  }

  /** Exactly the rules of the database updated at the given time or later, each one once. */
  ghost predicate AreRecent(db: map<string, Rule>, found: seq<Rule>, after: int)
  {
    && (forall r <- found :: r.name in db && db[r.name] == r)
    && (forall n :: n in db && db[n].updatedAt >= after ==> db[n] in found)
  }

  lemma IsWithout(rules: map<string, Rule>, name: string)
    ensures name !in Without(rules, {name})
  {
  }

  lemma NotFound(lists: Lists, rules: map<string, Rule>, name: string)
    requires Holds(lists, rules)
    requires !HasName(lists.fsEvents, name) && !HasName(lists.providerEvents, name) && !HasName(lists.schedules, name)
    requires !HasName(lists.ipBlockedEvents, name) && !HasName(lists.certificateEvents, name)
    requires !HasName(lists.idpLoginEvents, name)
    ensures Without(rules, {name}) == rules
  {
    hide Holds;
    forall t
      ensures !HasName(lists.At(t), name)
    {
    }
    NotHeld(lists, rules, name);
  }

  /** Removing a rule that is not scheduled. */
  lemma Removed(lists: Lists, rules: map<string, Rule>, t: Trigger, rest: seq<Rule>, name: string,
                mapping: map<string, seq<int>>, jobs: map<int, Job>, nextId: int)
    requires Holds(lists, rules) && AreScheduled(rules, mapping, jobs, nextId)
    requires t != OnDemand && t != Schedule && HasName(lists.At(t), name) && IsRemoved(lists.At(t), rest, name)
    ensures Holds(lists.With(t, rest), Without(rules, {name}))
    ensures AreScheduled(Without(rules, {name}), mapping, jobs, nextId)
  {
    RemoveKeepsHeld(lists, rules, t, rest, name);
    UnscheduledRemoved(rules, mapping, jobs, nextId, name);
  }

  class Provider {
    var rules: map<string, Rule>
    var lastRuleUpdate: int

    method AddEventRule(rule: Rule, now: int, later: int) returns (ok: bool)
      modifies this
      ensures ok <==> rule.name !in old(rules)
      ensures rules == if ok then old(rules)[rule.name := rule.(updatedAt := now)] else old(rules)
      ensures lastRuleUpdate == if ok then later else old(lastRuleUpdate)
    {
      if rule.name in rules {
        return false;
      }
      rules := rules[rule.name := rule.(updatedAt := now)];
      lastRuleUpdate := later;
      return true;
    }

    method UpdateEventRule(rule: Rule, now: int, later: int) returns (ok: bool)
      modifies this
      ensures ok <==> rule.name in old(rules)
      ensures rules == if ok then old(rules)[rule.name := rule.(updatedAt := now)] else old(rules)
      ensures lastRuleUpdate == if ok then later else old(lastRuleUpdate)
    {
      if rule.name !in rules {
        return false;
      }
      rules := rules[rule.name := rule.(updatedAt := now)];
      lastRuleUpdate := later;
      return true;
    }

    method DeleteEventRule(name: string) returns (ok: bool)
      modifies this`rules
      ensures ok <==> name in old(rules)
      ensures rules == if ok then Without(old(rules), {name}) else old(rules)
    {
      if name !in rules {
        return false;
      }
      rules := Without(rules, {name});
      return true;
    }

    method GetRecentlyUpdatedRules(after: int) returns (found: seq<Rule>)
      requires AreNamed(rules)
      ensures if lastRuleUpdate < after then found == [] else AreRecent(rules, found, after)
    {
      found := [];
      if lastRuleUpdate < after {
        return;
      }
      var rest := rules.Keys;
      while rest != {}
        invariant rest <= rules.Keys
        invariant forall r <- found :: r.name in rules && rules[r.name] == r
        invariant forall n :: n in rules && n !in rest && rules[n].updatedAt >= after ==> rules[n] in found
        decreases rest
      {
        var k :| k in rest;
        rest := rest - {k};
        if rules[k].updatedAt < after {
          continue;
        }
        found := found + [rules[k]];
      }
    }
  }

  class EventRulesContainer {
    const provider: Provider
    var lastLoad: int
    var fsEvents: seq<Rule>
    var providerEvents: seq<Rule>
    var schedules: seq<Rule>
    var ipBlockedEvents: seq<Rule>
    var certificateEvents: seq<Rule>
    var idpLoginEvents: seq<Rule>
    var schedulesMapping: map<string, seq<int>>
    /** The jobs registered in the scheduler. */
    var jobs: map<int, Job>
    var nextId: int
    /** The rules in use, by name. */
    ghost var rules: map<string, Rule>

    constructor (provider: Provider)
      ensures this.provider == provider && lastLoad == 0 && rules == map[] && Valid()
    {
      this.provider, lastLoad := provider, 0;
      fsEvents, providerEvents, schedules, ipBlockedEvents, certificateEvents, idpLoginEvents := [], [], [], [], [], [];
      schedulesMapping, jobs, nextId, rules := map[], map[], 0, map[];
    }

    ghost function Current(): Lists
      reads this
    {
      Lists(fsEvents, providerEvents, schedules, ipBlockedEvents, certificateEvents, idpLoginEvents)
    }

    /** The lists and the registered jobs are those of the rules in use. */
    ghost predicate Valid()
      reads this
    {
      Holds(Current(), rules) && AreScheduled(rules, schedulesMapping, jobs, nextId)
    }

    ghost predicate IsSyncedAt(clock: int)
      reads this, provider
    {
      IsSynced(provider.rules, rules, lastLoad, provider.lastRuleUpdate, clock)
    }

    method RemoveRule(name: string)
      requires Valid()
      modifies this
      ensures Valid() && rules == Without(old(rules), {name}) && lastLoad == old(lastLoad)
    {
      RemoveRuleInternal(name);
    }

    method RemoveRuleInternal(name: string)
      requires Valid()
      modifies this
      ensures Valid() && rules == Without(old(rules), {name}) && lastLoad == old(lastLoad)
    {
      var found := RemoveFromEvents(name);
      if !found {
        RemoveFromSchedules(name);
      }
    }

    method RemoveFromEvents(name: string) returns (found: bool)
      requires Valid()
      modifies this`fsEvents, this`providerEvents, this`ipBlockedEvents, this`certificateEvents, this`idpLoginEvents,
               this`rules
      ensures Valid()
      ensures if found then rules == Without(old(rules), {name}) else IsOnlyScheduled(name) && rules == old(rules)
    {
      hide Holds, AreScheduled, IsRemoved, HasName, IsDistinct, Without;
      ghost var before := Current();
      HeldLists(before, rules);
      found, fsEvents := RemoveFrom(fsEvents, name);
      if found {
        Removed(before, rules, FsEvent, fsEvents, name, schedulesMapping, jobs, nextId);
        rules := Without(rules, {name});
        return;
      }
      found, providerEvents := RemoveFrom(providerEvents, name);
      if found {
        Removed(before, rules, ProviderEvent, providerEvents, name, schedulesMapping, jobs, nextId);
        rules := Without(rules, {name});
        return;
      }
      found, ipBlockedEvents := RemoveFrom(ipBlockedEvents, name);
      if found {
        Removed(before, rules, IPBlocked, ipBlockedEvents, name, schedulesMapping, jobs, nextId);
        rules := Without(rules, {name});
        return;
      }
      found, certificateEvents := RemoveFrom(certificateEvents, name);
      if found {
        Removed(before, rules, Certificate, certificateEvents, name, schedulesMapping, jobs, nextId);
        rules := Without(rules, {name});
        return;
      }
      found, idpLoginEvents := RemoveFrom(idpLoginEvents, name);
      if found {
        Removed(before, rules, IDPLogin, idpLoginEvents, name, schedulesMapping, jobs, nextId);
        rules := Without(rules, {name});
        return;
      }
    }

    /** No other list has the name. */
    ghost predicate IsOnlyScheduled(name: string)
      reads this
    {
      && !HasName(fsEvents, name) && !HasName(providerEvents, name) && !HasName(ipBlockedEvents, name)
      && !HasName(certificateEvents, name) && !HasName(idpLoginEvents, name)
    }

    method RemoveFromSchedules(name: string)
      requires Valid() && IsOnlyScheduled(name)
      modifies this`schedules, this`schedulesMapping, this`jobs, this`rules
      ensures Valid() && rules == Without(old(rules), {name})
    {
      hide Holds, AreScheduled, IsRemoved, HasName, IsDistinct, Without;
      ghost var before := Current();
      HeldLists(before, rules);
      var found;
      found, schedules := RemoveFrom(schedules, name);
      if found {
        RemoveKeepsHeld(before, rules, Schedule, schedules, name);
        if name in schedulesMapping {
          ScheduledRemoved(rules, schedulesMapping, jobs, nextId, name);
          RemoveJobs(schedulesMapping[name]);
          schedulesMapping := Without(schedulesMapping, {name});
        } else {
          UnscheduledRemoved(rules, schedulesMapping, jobs, nextId, name);
        }
        rules := Without(rules, {name});
      } else {
        NotFound(before, rules, name);
      }
    }

    method RemoveJobs(ids: seq<int>)
      modifies this`jobs
      ensures jobs == WithoutJobs(old(jobs), ids)
    {
      for i := 0 to |ids|
        invariant jobs == WithoutJobs(old(jobs), ids[..i])
      {
        assert ids[..i + 1] == ids[..i] + [ids[i]];
        jobs := WithoutJobs(jobs, [ids[i]]);
      }
      assert ids[..|ids|] == ids;
    }

    /** Puts the latest version of a rule in use, or takes the rule out of use if it must not be active. */
    method AddUpdateRuleInternal(rule: Rule)
      requires Valid()
      modifies this
      ensures Valid() && rules == Applied(old(rules), rule) && lastLoad == old(lastLoad)
    {
      hide Holds, AreScheduled, Without;
      RemoveRuleInternal(rule.name);
      IsWithout(old(rules), rule.name);
      if rule.deletedAt > 0 {
        return;
      }
      if rule.status != 1 || rule.trigger == OnDemand {
        return;
      }
      ghost var before := Current();
      AddKeepsHeld(before, rules, rule);
      match rule.trigger {
        case FsEvent => fsEvents := fsEvents + [rule];
        case ProviderEvent => providerEvents := providerEvents + [rule];
        case IPBlocked => ipBlockedEvents := ipBlockedEvents + [rule];
        case Certificate => certificateEvents := certificateEvents + [rule];
        case IDPLogin => idpLoginEvents := idpLoginEvents + [rule];
        case Schedule =>
          AddJobs(rule);
          schedules := schedules + [rule];
      }
      if rule.trigger != Schedule {
        UnscheduledAdded(rules, schedulesMapping, jobs, nextId, rule);
      }
      rules := rules[rule.name := rule];
    }

    /** Registers a job for each schedule of a rule that is not in use. */
    method AddJobs(rule: Rule)
      requires AreScheduled(rules, schedulesMapping, jobs, nextId) && rule.name !in rules && rule.trigger == Schedule
      modifies this`schedulesMapping, this`jobs, this`nextId
      ensures AreScheduled(rules[rule.name := rule], schedulesMapping, jobs, nextId)
    {
      UnscheduledAdded(rules, schedulesMapping, jobs, nextId, Partial(rule, 0));
      PartialIsWhole(rule);
      assert AreScheduled(rules[rule.name := Partial(rule, 0)], schedulesMapping, jobs, nextId);
      hide AreScheduled, Partial;
      for i := 0 to |rule.schedules|
        invariant AreScheduled(rules[rule.name := Partial(rule, i)], schedulesMapping, jobs, nextId)
      {
        JobAdded(rules, schedulesMapping, jobs, nextId, rule, i);
        var entryID := nextId;
        jobs, nextId := jobs[entryID := Job(rule.name, rule.schedules[i])], nextId + 1;
        var ids := if rule.name in schedulesMapping then schedulesMapping[rule.name] else [];
        schedulesMapping := schedulesMapping[rule.name := ids + [entryID]];
      }
    }

    /**
     * Refreshes the rules in use with those updated since the last refresh: afterwards the active rules of the
     * database are in use, in their latest version, and no other. A failed query changes nothing.
     */
    method LoadRules(modTime: int, fails: bool)
      requires Valid() && IsSyncedAt(modTime)
      modifies this
      ensures Valid() && IsSyncedAt(modTime)
      ensures if fails then rules == old(rules) && lastLoad == old(lastLoad)
              else rules == Active(provider.rules) && lastLoad == modTime
    {
      hide Holds, AreScheduled, IsSynced, IsReflected, Applied, Active, AreRecent;
      if fails {
        return;
      }
      SyncedNames(provider.rules, rules, lastLoad, provider.lastRuleUpdate, modTime);
      var lastLoadTime := lastLoad;
      var updated := provider.GetRecentlyUpdatedRules(lastLoadTime);
      RecentAreEnough(provider.rules, rules, lastLoad, provider.lastRuleUpdate, modTime, updated);
      for i := 0 to |updated|
        invariant Valid() && rules.Keys <= provider.rules.Keys
        invariant forall n :: IsReflected(provider.rules, old(rules), n) ==> IsReflected(provider.rules, rules, n)
        invariant forall j :: 0 <= j < i ==> IsReflected(provider.rules, rules, updated[j].name)
      {
        AppliedIsReflected(provider.rules, rules, updated[i]);
        AddUpdateRuleInternal(updated[i]);
      }
      lastLoad := modTime;
      AllReflected(provider.rules, rules);
      LoadedIsSynced(provider.rules, old(rules), rules, old(lastLoad), provider.lastRuleUpdate, modTime);
    }

    // -------------------------------------------------------------- changes to the database, each with its refresh

    method AddEventRule(rule: Rule, now: int, later: int, modTime: int) returns (ok: bool)
      requires Valid() && IsSyncedAt(now) && now <= later <= modTime
      modifies this, provider
      ensures Valid() && IsSyncedAt(modTime)
      ensures ok <==> rule.name !in old(provider.rules)
      ensures provider.rules == if ok then old(provider.rules)[rule.name := rule.(updatedAt := now)]
              else old(provider.rules)
      ensures ok ==> rules == Active(provider.rules)
    {
      hide Holds, AreScheduled, IsSynced;
      WriteKeepsSynced(provider.rules, rules, lastLoad, provider.lastRuleUpdate, rule.(updatedAt := now), later);
      SyncedLater(provider.rules, rules, lastLoad, provider.lastRuleUpdate, now, modTime);
      ok := provider.AddEventRule(rule, now, later);
      if ok {
        SyncedLater(provider.rules, rules, lastLoad, later, later, modTime);
        LoadRules(modTime, false);
      }
    }

    method UpdateEventRule(rule: Rule, now: int, later: int, modTime: int) returns (ok: bool)
      requires Valid() && IsSyncedAt(now) && now <= later <= modTime
      modifies this, provider
      ensures Valid() && IsSyncedAt(modTime)
      ensures ok <==> rule.name in old(provider.rules)
      ensures provider.rules == if ok then old(provider.rules)[rule.name := rule.(updatedAt := now)]
              else old(provider.rules)
      ensures ok ==> rules == Active(provider.rules)
    {
      hide Holds, AreScheduled, IsSynced;
      WriteKeepsSynced(provider.rules, rules, lastLoad, provider.lastRuleUpdate, rule.(updatedAt := now), later);
      SyncedLater(provider.rules, rules, lastLoad, provider.lastRuleUpdate, now, modTime);
      ok := provider.UpdateEventRule(rule, now, later);
      if ok {
        SyncedLater(provider.rules, rules, lastLoad, later, later, modTime);
        LoadRules(modTime, false);
      }
    }

    method DeleteEventRule(name: string, now: int) returns (ok: bool)
      requires Valid() && IsSyncedAt(now)
      modifies this, provider
      ensures Valid() && IsSyncedAt(now) && lastLoad == old(lastLoad)
      ensures ok <==> name in old(provider.rules)
      ensures provider.rules == Without(old(provider.rules), {name}) && rules == Without(old(rules), {name})
    {
      hide Holds, AreScheduled, IsSynced, Without;
      DeleteKeepsSynced(provider.rules, rules, lastLoad, provider.lastRuleUpdate, now, name);
      Unknown(provider.rules, rules, lastLoad, provider.lastRuleUpdate, now, name);
      ok := provider.DeleteEventRule(name);
      if ok {
        RemoveRule(name);
      }
    }
  }
}
