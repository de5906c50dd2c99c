/** The in-memory defender: scores the misbehaviour of the hosts over a sliding window and bans them. */
module Defender {
  import opened Eviction
  import opened Maps

  const MINUTE := 60_000_000_000

  /** Times are in nanoseconds. */
  datatype Event = Event(dateTime: int, score: int)

  datatype HostScore = HostScore(totalScore: int, events: seq<Event>)

  datatype HostEvent = LoginFailed | UserNotFound | NoLoginTried | LimitExceeded

  datatype Config = Config(banTime: int, banTimeIncrement: int, threshold: int, scoreInvalid: int, scoreValid: int,
                           scoreLimitExceeded: int, scoreNoAuth: int, observationTime: int,
                           entriesSoftLimit: int, entriesHardLimit: int)
  {
    predicate IsValid()
    {
      && 0 <= scoreInvalid < threshold && 0 <= scoreValid < threshold
      && 0 <= scoreLimitExceeded < threshold && 0 <= scoreNoAuth < threshold
      && banTime > 0 && banTimeIncrement > 0 && observationTime > 0
      && 0 < entriesSoftLimit < entriesHardLimit
    }

    function Score(event: HostEvent): (score: int)
      ensures IsValid() ==> 0 <= score < threshold
    {
      match event
      case LoginFailed => scoreValid
      case LimitExceeded => scoreLimitExceeded
      case UserNotFound => scoreInvalid
      case NoLoginTried => scoreNoAuth
    }
  }

  /** Negative scores are disabled; the rest of the configuration is accepted exactly if it is in range. */
  method Validate(config: Config) returns (r: Config, ok: bool)
    ensures r == config.(scoreInvalid := Positive(config.scoreInvalid), scoreValid := Positive(config.scoreValid),
                         scoreLimitExceeded := Positive(config.scoreLimitExceeded),
                         scoreNoAuth := Positive(config.scoreNoAuth))
    ensures ok <==> r.IsValid() && (0 < r.scoreInvalid || 0 < r.scoreValid || 0 < r.scoreLimitExceeded ||
                                    0 < r.scoreNoAuth)
  {
    r, ok := config, false;
    if r.scoreInvalid < 0 {
      r := r.(scoreInvalid := 0);
    }
    if r.scoreValid < 0 {
      r := r.(scoreValid := 0);
    }
    if r.scoreLimitExceeded < 0 {
      r := r.(scoreLimitExceeded := 0);
    }
    if r.scoreNoAuth < 0 {
      r := r.(scoreNoAuth := 0);
    }
    if r.scoreInvalid == 0 && r.scoreValid == 0 && r.scoreLimitExceeded == 0 && r.scoreNoAuth == 0 {
      return;
    }
    if r.scoreInvalid >= r.threshold || r.scoreValid >= r.threshold {
      return;
    }
    if r.scoreLimitExceeded >= r.threshold || r.scoreNoAuth >= r.threshold {
      return;
    }
    if r.banTime <= 0 || r.banTimeIncrement <= 0 || r.observationTime <= 0 {
      return;
    }
    if r.entriesSoftLimit <= 0 || r.entriesHardLimit <= r.entriesSoftLimit {
      return;
    }
    ok := true;
  }

  function Positive(score: int): int
  {
    if score < 0 then 0 else score
  }

  /** A failed login counts as one of a valid user, and one of an unknown user as invalid. */
  lemma EventScores(config: Config)
    ensures config.Score(LoginFailed) == config.scoreValid && config.Score(UserNotFound) == config.scoreInvalid
    ensures config.Score(NoLoginTried) == config.scoreNoAuth
    ensures config.Score(LimitExceeded) == config.scoreLimitExceeded
  {
  }

  // ---------------------------------------------------------------- the sliding window

  /** The events that still count at a given time, in order. */
  function InWindow(events: seq<Event>, window: int, now: int): seq<Event>
  {
    if events == [] then []
    else if events[|events| - 1].dateTime + window > now
    then InWindow(events[..|events| - 1], window, now) + [events[|events| - 1]]
    else InWindow(events[..|events| - 1], window, now)
  }

  function Sum(events: seq<Event>): int
  {
    if events == [] then 0 else Sum(events[..|events| - 1]) + events[|events| - 1].score
  }

  lemma SumAppend(events: seq<Event>, e: Event)
    ensures Sum(events + [e]) == Sum(events) + e.score
  {
    assert (events + [e])[..|events|] == events;
  }

  lemma WindowAppend(events: seq<Event>, e: Event, window: int, now: int)
    ensures InWindow(events + [e], window, now) ==
            (if e.dateTime + window > now then InWindow(events, window, now) + [e] else InWindow(events, window, now))
  {
    assert (events + [e])[..|events|] == events;
  }

  lemma NoEvents(window: int, now: int)
    ensures InWindow([], window, now) == [] && Sum([]) == 0
  {
  }

  /** An event counts for as many minutes as the observation time has. */
  lemma {:induction false} WindowMembers(events: seq<Event>, config: Config, now: int)
    ensures forall e :: e in InWindow(events, Window(config), now) <==>
                        e in events && now < e.dateTime + config.observationTime * 60_000_000_000
  {
    if events != [] {
      WindowMembers(events[..|events| - 1], config, now);
      assert events == events[..|events| - 1] + [events[|events| - 1]];
    }
  }

  /** Pruning early does not change what counts later. */
  lemma {:induction false} PrunedWindow(events: seq<Event>, window: int, early: int, late: int)
    requires early <= late
    ensures InWindow(InWindow(events, window, early), window, late) == InWindow(events, window, late)
  {
    if events != [] {
      var init, last := events[..|events| - 1], events[|events| - 1];
      PrunedWindow(init, window, early, late);
      if last.dateTime + window > early {
        WindowAppend(InWindow(init, window, early), last, window, late);
      }
    }
  }

  /** The stored events and the whole history count the same, now and at any later time. */
  ghost predicate Faithful(stored: seq<Event>, history: seq<Event>, window: int, clock: int)
  {
    forall t :: t >= clock ==> InWindow(stored, window, t) == InWindow(history, window, t)
  }

  // ---------------------------------------------------------------- eviction

  /** When a host is seen last. */
  function LastSeen(h: HostScore): int
  {
    if |h.events| > 0 then h.events[|h.events| - 1].dateTime else 0
  }

  function Activity(hosts: map<string, HostScore>): (values: map<string, int>)
    ensures values.Keys == hosts.Keys
  {
    map ip | ip in hosts :: LastSeen(hosts[ip])
  }

  function Expired(banned: map<string, int>, now: int): set<string>
  {
    set ip | ip in banned && banned[ip] < now
  }

  /**
   * Over the hard limit the expired bans go, and then the earliest of the others, as many as are over the soft
   * limit less the expired ones: expired entries take up places in the list of entries to remove.
   */
  ghost predicate IsBannedCleaned(before: map<string, int>, after: map<string, int>, now: int, config: Config)
  {
    var expired := Expired(before, now);
    var live := Without(before, expired);
    var excess := |live| - config.entriesSoftLimit - |expired|;
    if |before| <= config.entriesHardLimit then after == before
    else
      && after == Without(live, live.Keys - after.Keys)
      && AreOldest(live, live.Keys - after.Keys, if excess > 0 then excess else 0)
  }

  /** Over the hard limit, the hosts seen least recently go, down to the soft limit. */
  ghost predicate AreHostsCleaned(before: map<string, HostScore>, after: map<string, HostScore>, config: Config)
  {
    if |before| <= config.entriesHardLimit then after == before
    else
      && after == Without(before, before.Keys - after.Keys)
      && |after| == config.entriesSoftLimit
      && AreOldest(Activity(before), before.Keys - after.Keys, |before| - config.entriesSoftLimit)
  }

  /** The last event of one host is no later than that of the other. */
  predicate IsSeenNoLater(a: HostScore, b: HostScore)
  {
    a.events != [] && b.events != [] ==>
      a.events[|a.events| - 1].dateTime <= b.events[|b.events| - 1].dateTime
  }

  /** The cleanup evicts no host that was seen later than one that stays. */
  lemma EvictedSeenFirst(before: map<string, HostScore>, after: map<string, HostScore>, config: Config)
    requires AreHostsCleaned(before, after, config)
    ensures |after| == if |before| <= config.entriesHardLimit then |before| else config.entriesSoftLimit
    ensures forall a, b :: a in before && a !in after && b in after ==> IsSeenNoLater(before[a], after[b])
  {
  }

  /** The bans never exceed the hard limit, although they may stay above the soft one. */
  lemma BannedBound(before: map<string, int>, after: map<string, int>, now: int, config: Config)
    requires config.IsValid() && IsBannedCleaned(before, after, now, config)
    requires |before| <= config.entriesHardLimit + 1
    ensures |after| <= config.entriesHardLimit && after.Keys <= before.Keys
  {
    if |before| > config.entriesHardLimit {
      var live := Without(before, Expired(before, now));
      WithoutKeys(before, Expired(before, now));
      WithoutKeys(live, live.Keys - after.Keys);
    }
  }

  /** After more removals than there are expired entries, the rest are the earliest live ones. */
  lemma BannedPrefix(before: map<string, int>, now: int, list: seq<KV>, n: nat)
    requires IsOldestFirst(before, list) && n <= |list|
    ensures var expired := Expired(before, now); var live := Without(before, expired); var gone := KeysOf(list[..n]);
            && gone <= before.Keys
            && AreOldest(live, live.Keys * gone, if n > |expired| then n - |expired| else 0)
  {
    var expired := Expired(before, now);
    var live := Without(before, expired);
    var gone := KeysOf(list[..n]);
    PrefixIsOldest(before, list, n);
    OldestLive(before, gone, n, now);
  }

  /** The earliest entries include no live one before all the expired ones. */
  lemma OldestLive(before: map<string, int>, gone: set<string>, n: nat, now: int)
    requires AreOldest(before, gone, n)
    ensures var expired := Expired(before, now); var live := Without(before, expired);
            && gone <= before.Keys
            && AreOldest(live, live.Keys * gone, if n > |expired| then n - |expired| else 0)
  {
    var expired := Expired(before, now);
    var live := Without(before, expired);
    OldestAreKeys(before, gone, n);
    LiveOrder(before, gone, n, now);
    assert live.Keys * gone == gone - expired;
    hide AreOldest, Without, Expired;
    if gone <= expired {
      SubsetSize(gone, expired);
      assert gone - expired == {};
    } else {
      SizeOfRest(gone, expired);
    }
    OldestIn(live, live.Keys * gone);
  }

  lemma OldestIn(values: map<string, int>, evicted: set<string>)
    requires evicted <= values.Keys
    requires forall a, b :: a in evicted && b in values && b !in evicted ==> values[a] <= values[b]
    ensures AreOldest(values, evicted, |evicted|)
  {
  }

  lemma LiveOrder(before: map<string, int>, gone: set<string>, n: nat, now: int)
    requires AreOldest(before, gone, n)
    ensures var expired := Expired(before, now); var live := Without(before, expired);
            && (gone <= expired || expired <= gone)
            && forall a, b :: a in live.Keys * gone && b in live && b !in live.Keys * gone ==> live[a] <= live[b]
  {
  }

  lemma SizeOfRest(a: set<string>, b: set<string>)
    requires b <= a
    ensures |a - b| == |a| - |b|
  {
  }

  lemma NotManyBans(before: map<string, int>, now: int, config: Config)
    ensures |before| <= config.entriesHardLimit ==> IsBannedCleaned(before, before, now, config)
  {
  }

  /** Removing the expired bans is enough. */
  lemma ExpiredRemoved(before: map<string, int>, now: int, config: Config)
    requires |before| > config.entriesHardLimit
    requires |Without(before, Expired(before, now))| <= config.entriesSoftLimit
    ensures IsBannedCleaned(before, Without(before, Expired(before, now)), now, config)
  {
    var live := Without(before, Expired(before, now));
    assert live == Without(live, live.Keys - live.Keys);
  }

  /** Removing the first entries of the list, which still has the expired bans, as many as live ones are in excess. */
  lemma OldestBansRemoved(before: map<string, int>, now: int, list: seq<KV>, n: nat, config: Config)
    requires IsOldestFirst(before, list) && n <= |list| && |before| > config.entriesHardLimit && config.IsValid()
    requires var live := Without(before, Expired(before, now));
             n < |list| ==> n == |live| - config.entriesSoftLimit
    requires n <= |Without(before, Expired(before, now))| - config.entriesSoftLimit
    ensures IsBannedCleaned(before, Without(Without(before, Expired(before, now)), KeysOf(list[..n])), now, config)
  {
    var live := Without(before, Expired(before, now));
    BannedPrefix(before, now, list, n);
    Evicted(live, KeysOf(list[..n]));
    ListLength(before, list);
    WithoutKeys(before, Expired(before, now));
    hide Without, AreOldest, IsOldestFirst, KeysOf, Expired;
  }

  lemma Evicted(live: map<string, int>, gone: set<string>)
    ensures var after := Without(live, gone);
            live.Keys - after.Keys == live.Keys * gone && after == Without(live, live.Keys - after.Keys)
  {
  }

  lemma OldestAreKeys(values: map<string, int>, evicted: set<string>, n: int)
    requires AreOldest(values, evicted, n)
    ensures evicted <= values.Keys && |evicted| == n
  {
  }

  lemma SubsetSize(a: set<string>, b: set<string>)
    requires a <= b
    ensures |a| <= |b|
  {
    assert b == a + (b - a);
  }

  // ---------------------------------------------------------------- what the cleanup of the bans guarantees

  function Live(before: map<string, int>, now: int): map<string, int>
  {
    Without(before, Expired(before, now))
  }

  /** How many live bans the cleanup evicts, if it is positive. */
  function Excess(before: map<string, int>, now: int, config: Config): int
  {
    |Live(before, now)| - config.entriesSoftLimit - |Expired(before, now)|
  }

  /** Over the hard limit, the cleanup reaches the soft limit exactly when few bans are live or none has expired. */
  lemma SoftLimitIff(before: map<string, int>, after: map<string, int>, now: int, config: Config)
    requires config.IsValid() && IsBannedCleaned(before, after, now, config) && |before| > config.entriesHardLimit
    ensures |after| <= config.entriesSoftLimit <==>
            |Live(before, now)| <= config.entriesSoftLimit || Expired(before, now) == {}
  {
    var live := Live(before, now);
    WithoutKeys(live, live.Keys - after.Keys);
    assert Expired(before, now) == {} <==> |Expired(before, now)| == 0;
  }

  function Earlier(bans: map<string, int>, ip: string): set<string>
    requires ip in bans
  {
    set k | k in bans && bans[k] < bans[ip]
  }

  /** The other bans that end no later. */
  function NotLater(bans: map<string, int>, ip: string): set<string>
    requires ip in bans
  {
    set k | k in bans && k != ip && bans[k] <= bans[ip]
  }

  ghost predicate IsLive(before: map<string, int>, ip: string, now: int)
  {
    ip in before && before[ip] >= now
  }

  /** There are enough bans that end earlier to be evicted instead. */
  ghost predicate OutlivesCleanup(before: map<string, int>, ip: string, now: int, config: Config)
    requires IsLive(before, ip, now)
  {
    |before| <= config.entriesHardLimit || |Earlier(Live(before, now), ip)| >= Excess(before, now, config)
  }

  /** There are not enough bans that end as early to be evicted instead. */
  ghost predicate IsEvictedAtOnce(before: map<string, int>, ip: string, now: int, config: Config)
    requires IsLive(before, ip, now)
  {
    |before| > config.entriesHardLimit && |NotLater(Live(before, now), ip)| < Excess(before, now, config)
  }

  lemma SmallerSet(a: set<string>, b: set<string>, x: string)
    requires a <= b && x in b && x !in a
    ensures |a| < |b|
  {
    SizeOfRest(b, {x});
    SubsetSize(a, b - {x});
  }

  lemma BanOutlives(before: map<string, int>, after: map<string, int>, ip: string, now: int, config: Config)
    requires IsBannedCleaned(before, after, now, config) && IsLive(before, ip, now)
    ensures OutlivesCleanup(before, ip, now, config) ==> ip in after
    ensures IsEvictedAtOnce(before, ip, now, config) ==> ip !in after
  {
    if |before| > config.entriesHardLimit {
      var live := Live(before, now);
      var evicted := live.Keys - after.Keys;
      if ip in evicted {
        assert Earlier(live, ip) <= evicted && ip !in Earlier(live, ip);
        SmallerSet(Earlier(live, ip), evicted, ip);
      } else {
        assert evicted <= NotLater(live, ip);
        SubsetSize(evicted, NotLater(live, ip));
      }
    }
  }

  lemma {:induction false} SomeOldest(values: map<string, int>, n: nat) returns (evicted: set<string>)
    requires n <= |values|
    ensures AreOldest(values, evicted, n)
  {
    if n == 0 {
      evicted := {};
    } else {
      var fewer := SomeOldest(values, n - 1);
      SizeOfRest(values.Keys, fewer);
      var next := Least(values, values.Keys - fewer);
      evicted := fewer + {next};
    }
  }

  lemma {:induction false} Least(values: map<string, int>, keys: set<string>) returns (k: string)
    requires keys <= values.Keys && keys != {}
    ensures k in keys && forall j :: j in keys ==> values[k] <= values[j]
  {
    var some :| some in keys;
    k := some;
    var rest := keys - {some};
    assert forall j :: j in keys ==> j == some || j in rest;
    if rest != {} {
      var least := Least(values, rest);
      k := if values[least] < values[some] then least else some;
    }
  }

  /** Without enough earlier bans there is a choice of the oldest entries that includes this one. */
  lemma OldestWith(values: map<string, int>, n: nat, ip: string) returns (evicted: set<string>)
    requires n <= |values| && ip in values && |Earlier(values, ip)| < n
    ensures AreOldest(values, evicted, n) && ip in evicted
  {
    evicted := SomeOldest(values, n);
    if ip !in evicted {
      if evicted <= Earlier(values, ip) {
        SubsetSize(evicted, Earlier(values, ip));
      }
      var x :| x in evicted && x !in Earlier(values, ip);
      assert values[x] == values[ip];
      SizeOfRest(evicted, {x});
      evicted := evicted - {x} + {ip};
    }
  }

  /** The exact condition: a live ban survives the cleanup, however ties are broken, if and only if it outlives it. */
  lemma SurvivesIffOutlives(before: map<string, int>, ip: string, now: int, config: Config)
    requires config.IsValid() && IsLive(before, ip, now)
    ensures OutlivesCleanup(before, ip, now, config) <==>
            forall after :: IsBannedCleaned(before, after, now, config) ==> ip in after
  {
    if OutlivesCleanup(before, ip, now, config) {
      forall after | IsBannedCleaned(before, after, now, config)
        ensures ip in after
      {
        BanOutlives(before, after, ip, now, config);
      }
    } else {
      var live := Live(before, now);
      var evicted := OldestWith(live, Excess(before, now, config), ip);
      var after := Without(live, evicted);
      assert live.Keys - after.Keys == evicted;
      assert IsBannedCleaned(before, after, now, config) && ip !in after;
    }
  }

  const SMALL := Config(1, 100, 10, 9, 9, 9, 9, 1, 1, 2)

  /**
   * A sound state with two bans that were lengthened, and a host with one event: its next event reaches the
   * threshold, and whatever the cleanup chooses the new ban is evicted at once.
   */
  lemma FreshBanIsEvicted()
    returns (hosts: map<string, HostScore>, banned: map<string, int>, history: map<string, seq<Event>>)
    ensures IsSound(hosts, banned, history, SMALL, 0) && "c" in history
    ensures Sum(InWindow(history["c"] + [Event(0, SMALL.Score(LoginFailed))], Window(SMALL), 0)) >= SMALL.threshold
    ensures forall hosts', banned', history' ::
              IsBan(hosts, banned, history, SMALL, "c", 0, hosts', banned', history') ==> "c" !in banned'
  {
    hide InWindow, Sum, Window, AreScored, Scored, IsBannedCleaned, OutlivesCleanup, Without;
    hosts, history := map["c" := Scored([Event(0, 9)])], map["c" := [Event(0, 9)]];
    banned := map["a" := 2 * MINUTE, "b" := 2 * MINUTE];
    OneHost(Scored([Event(0, 9)]));
    OneHostIsScored();
    ThresholdIsReached();
    LastIsEvictedAtOnce(banned);
    assert 0 + SMALL.banTime * MINUTE == MINUTE;
  }

  lemma LastIsEvictedAtOnce(banned: map<string, int>)
    requires banned == map["a" := 2 * MINUTE, "b" := 2 * MINUTE]
    ensures |banned| == SMALL.entriesHardLimit
    ensures IsLive(banned["c" := MINUTE], "c", 0) && IsEvictedAtOnce(banned["c" := MINUTE], "c", 0, SMALL)
  {
    var before := banned["c" := MINUTE];
    assert banned.Keys == {"a", "b"} && |banned| == |banned.Keys|;
    assert before.Keys == {"a", "b", "c"} && |before| == |before.Keys|;
    assert Expired(before, 0) == {} && Live(before, 0) == before;
    assert NotLater(before, "c") == {};
  }

  lemma OneHostIsScored()
    ensures AreScored(map["c" := Scored([Event(0, 9)])], map["c" := [Event(0, 9)]], SMALL, 0)
  {
    var e := Event(0, 9);
    FirstEvent(LoginFailed, SMALL, 0);
    NobodyScored(SMALL);
    assert [] + [e] == [e];
    hide InWindow, Sum, Window, AreScored, Scored;
    ScoredWith(map[], map[], SMALL, 0, "c", [e]);
  }

  lemma ThresholdIsReached()
    ensures Sum(InWindow([Event(0, 9)] + [Event(0, 9)], Window(SMALL), 0)) >= SMALL.threshold
  {
    ReachedTwice(Event(0, 9), Window(SMALL));
  }

  lemma NobodyScored(config: Config)
    ensures AreScored(map[], map[], config, 0)
  {
  }

  lemma OneHost(h: HostScore)
    ensures |map["c" := h]| == 1 && map[]["c" := h] == map["c" := h]
  {
    assert map["c" := h].Keys == {"c"};
    assert |map["c" := h]| == |map["c" := h].Keys|;
  }

  lemma ReachedTwice(e: Event, window: int)
    requires window > 0
    ensures Sum(InWindow([e] + [e], window, e.dateTime)) == 2 * e.score
  {
    WindowAppend([], e, window, e.dateTime);
    WindowAppend([e], e, window, e.dateTime);
    SumAppend([], e);
    SumAppend([e], e);
    assert [] + [e] == [e];
  }

  /** One expired ban among three: the other two stay, above the soft limit. */
  lemma SoftLimitIsExceeded() returns (before: map<string, int>)
    ensures |before| == SMALL.entriesHardLimit + 1
    ensures forall after :: IsBannedCleaned(before, after, 0, SMALL) ==> |after| > SMALL.entriesSoftLimit
  {
    before := map["a" := -1, "b" := 1, "c" := 1];
    assert before.Keys == {"a", "b", "c"} && |before| == |before.Keys|;
    assert Expired(before, 0) == {"a"};
    assert Live(before, 0).Keys == {"b", "c"} && |Live(before, 0)| == |Live(before, 0).Keys|;
    forall after | IsBannedCleaned(before, after, 0, SMALL)
      ensures |after| > SMALL.entriesSoftLimit
    {
      SoftLimitIff(before, after, 0, SMALL);
    }
  }

  // ---------------------------------------------------------------- what is stored about the hosts

  ghost predicate IsScored(h: HostScore, history: seq<Event>, config: Config, clock: int)
  {
    && h.totalScore == Sum(h.events) < config.threshold
    && Faithful(h.events, history, Window(config), clock)
  }

  function Window(config: Config): int
  {
    config.observationTime * MINUTE
  }

  ghost predicate AreScored(hosts: map<string, HostScore>, history: map<string, seq<Event>>, config: Config, clock: int)
  {
    hosts.Keys == history.Keys && forall ip :: ip in hosts ==> IsScored(hosts[ip], history[ip], config, clock)
  }

  /** Forgetting some hosts leaves the others as they are, also at a later time. */
  lemma ScoredLater(hosts: map<string, HostScore>, history: map<string, seq<Event>>, config: Config, clock: int,
                    gone: set<string>, now: int)
    requires AreScored(hosts, history, config, clock) && clock <= now
    ensures AreScored(Without(hosts, gone), Without(history, gone), config, now)
  {
  }

  /** The events in the window, with their total, are all that has to be stored. */
  function Scored(events: seq<Event>): HostScore
  {
    HostScore(Sum(events), events)
  }

  lemma ScoredTotal(events: seq<Event>)
    ensures Scored(events).totalScore == Sum(events)
  {
  }

  lemma ScoredWith(hosts: map<string, HostScore>, history: map<string, seq<Event>>, config: Config, now: int,
                   ip: string, all: seq<Event>)
    requires AreScored(hosts, history, config, now)
    requires Sum(InWindow(all, Window(config), now)) < config.threshold
    ensures AreScored(hosts[ip := Scored(InWindow(all, Window(config), now))], history[ip := all], config, now)
  {
    var kept := InWindow(all, Window(config), now);
    forall t | t >= now
      ensures InWindow(kept, Window(config), t) == InWindow(all, Window(config), t)
    {
      PrunedWindow(all, Window(config), now, t);
    }
  }

  /** Pruning the stored events gives the same as pruning the history. */
  lemma PrunedHistory(h: HostScore, history: seq<Event>, config: Config, clock: int, e: Event, now: int)
    requires IsScored(h, history, config, clock) && clock <= now
    ensures InWindow(h.events + [e], Window(config), now) == InWindow(history + [e], Window(config), now)
  {
    WindowAppend(h.events, e, Window(config), now);
    WindowAppend(history, e, Window(config), now);
  }

  /** The first event of a host is in the window and does not reach the threshold. */
  lemma FirstEvent(event: HostEvent, config: Config, now: int)
    requires config.IsValid()
    ensures var e := Event(now, config.Score(event));
            && InWindow([] + [e], Window(config), now) == [e] && Sum([e]) < config.threshold
            && HostScore(e.score, [e]) == Scored([e])
  {
    var e := Event(now, config.Score(event));
    WindowAppend([], e, Window(config), now);
    SumAppend([], e);
    assert [] + [e] == [e];
  }

  lemma ScoredKeys(hosts: map<string, HostScore>, history: map<string, seq<Event>>, config: Config, clock: int)
    requires AreScored(hosts, history, config, clock)
    ensures hosts.Keys == history.Keys
  {
  }

  lemma HostIsScored(hosts: map<string, HostScore>, history: map<string, seq<Event>>, config: Config, clock: int,
                     ip: string)
    requires AreScored(hosts, history, config, clock) && ip in hosts
    ensures ip in history && IsScored(hosts[ip], history[ip], config, clock)
  {
  }

  /** Storing what the window counts for one host leaves the others as they are. */
  lemma Remembered(hosts: map<string, HostScore>, history: map<string, seq<Event>>, config: Config, clock: int,
                   now: int, ip: string, all: seq<Event>)
    requires AreScored(hosts, history, config, clock) && clock <= now
    requires Sum(InWindow(all, Window(config), now)) < config.threshold
    ensures AreScored(hosts[ip := Scored(InWindow(all, Window(config), now))], history[ip := all], config, now)
  {
    hide AreScored, InWindow, Sum, Scored, Without;
    ScoredLater(hosts, history, config, clock, {}, now);
    WithoutNone(hosts, {});
    WithoutNone(history, {});
    ScoredWith(hosts, history, config, now, ip, all);
  }

  lemma StillKnown(hosts: map<string, HostScore>, history: map<string, seq<Event>>, config: Config, ip: string,
                   h: HostScore, all: seq<Event>)
    requires ip in hosts && hosts.Keys == history.Keys && |hosts| <= config.entriesHardLimit
    ensures AreHostsCleaned(hosts[ip := h], hosts[ip := h], config)
    ensures Without(history[ip := all], hosts.Keys + {ip} - hosts[ip := h].Keys) == history[ip := all]
  {
    assert hosts[ip := h].Keys == hosts.Keys;
    WithoutNone(history[ip := all], hosts.Keys + {ip} - hosts[ip := h].Keys);
  }

  /** What holds between any two operations, for the history of the hosts and the time of the last event. */
  ghost predicate IsSound(hosts: map<string, HostScore>, banned: map<string, int>, history: map<string, seq<Event>>,
                          config: Config, clock: int)
  {
    && config.IsValid()
    && AreDisjoint(hosts, banned)
    && AreScored(hosts, history, config, clock)
    && |hosts| <= config.entriesHardLimit && |banned| <= config.entriesHardLimit
  }

  ghost predicate AreDisjoint(hosts: map<string, HostScore>, banned: map<string, int>)
  {
    hosts.Keys !! banned.Keys
  }

  lemma StillDisjoint(hosts: map<string, HostScore>, banned: map<string, int>, ip: string)
    requires AreDisjoint(hosts, banned)
    ensures AreDisjoint(Without(hosts, {ip}), Without(banned, {ip}))
    ensures ip in banned ==> ip !in hosts
  {
  }

  lemma CompactStep(events: seq<Event>, kept: seq<Event>, i: nat, idx: nat)
    requires idx <= i < |events| && |kept| == |events| && kept[i..] == events[i..]
    ensures var more := kept[idx := events[i]];
            more[..idx + 1] == kept[..idx] + [events[i]] && more[i + 1..] == events[i + 1..]
  {
  }

  lemma SoundParts(hosts: map<string, HostScore>, banned: map<string, int>, history: map<string, seq<Event>>,
                   config: Config, clock: int)
    requires IsSound(hosts, banned, history, config, clock)
    ensures config.IsValid() && AreScored(hosts, history, config, clock)
    ensures hosts.Keys == history.Keys && |hosts| <= config.entriesHardLimit
  {
  }

  /** The stored events count what the history does; a host with no stored events or with a ban has no history. */
  lemma SilentHosts(hosts: map<string, HostScore>, banned: map<string, int>, history: map<string, seq<Event>>,
                    config: Config, clock: int, ip: string, now: int)
    requires IsSound(hosts, banned, history, config, clock) && clock <= now
    ensures ip in history <==> ip in hosts
    ensures ip in hosts ==>
              ip !in banned
                  && InWindow(hosts[ip].events, Window(config), now) == InWindow(history[ip], Window(config), now)
    ensures Sum(InWindow([], Window(config), now)) == 0
  {
    if ip in hosts {
      HostIsScored(hosts, history, config, clock, ip);
    }
  }

  lemma ForgetKeeps(hosts: map<string, HostScore>, banned: map<string, int>, history: map<string, seq<Event>>,
                    config: Config, clock: int, ip: string)
    requires IsSound(hosts, banned, history, config, clock)
    ensures IsSound(Without(hosts, {ip}), Without(banned, {ip}), Without(history, {ip}), config, clock)
    ensures ip !in hosts ==> Without(hosts, {ip}) == hosts && Without(history, {ip}) == history
    ensures ip !in banned ==> Without(banned, {ip}) == banned
    ensures ip in banned ==> ip !in hosts
  {
    hide AreScored, AreDisjoint, Without, Config.IsValid;
    StillDisjoint(hosts, banned, ip);
    ScoredLater(hosts, history, config, clock, {ip}, clock);
    ScoredKeys(hosts, history, config, clock);
    SizeWithout(banned, {ip});
    SizeWithout(hosts, {ip});
    if ip !in hosts {
      WithoutNone(hosts, {ip});
      WithoutNone(history, {ip});
    }
    if ip !in banned {
      WithoutNone(banned, {ip});
    }
  }

  /**
   * The host is banned: it is not scored any more, and the bans over the limit are evicted. The new ban is in force
   * unless there are too few bans that end earlier.
   */
  ghost predicate IsBan(hosts: map<string, HostScore>, banned: map<string, int>, history: map<string, seq<Event>>,
                        config: Config, ip: string, now: int,
                        hosts': map<string, HostScore>, banned': map<string, int>, history': map<string, seq<Event>>)
  {
    var before := banned[ip := now + config.banTime * 60_000_000_000];
    && hosts' == Without(hosts, {ip}) && history' == Without(history, {ip})
    && IsBannedCleaned(before, banned', now, config)
    && IsLive(before, ip, now)
    && (OutlivesCleanup(before, ip, now, config) ==> ip in banned')
    && (IsEvictedAtOnce(before, ip, now, config) ==> ip !in banned')
  }

  /** The host is scored: exactly its events in the window are stored, and the hosts over the limit are evicted. */
  ghost predicate IsScore(hosts: map<string, HostScore>, banned: map<string, int>, history: map<string, seq<Event>>,
                          config: Config, ip: string, all: seq<Event>, now: int,
                          hosts': map<string, HostScore>, banned': map<string, int>, history': map<string, seq<Event>>)
  {
    && banned' == Without(banned, {ip})
    && AreHostsCleaned(hosts[ip := Scored(InWindow(all, Window(config), now))], hosts', config)
    && history' == Without(history[ip := all], hosts.Keys + {ip} - hosts'.Keys)
  }

  lemma LastsUntil(banned: map<string, int>, ip: string, now: int, config: Config)
    requires config.IsValid()
    ensures IsLive(banned[ip := now + config.banTime * MINUTE], ip, now)
  {
  }

  lemma BanKeeps(hosts: map<string, HostScore>, banned: map<string, int>, history: map<string, seq<Event>>,
                 config: Config, clock: int, now: int, ip: string, until: int, after: map<string, int>)
    requires IsSound(hosts, banned, history, config, clock) && clock <= now
    requires IsBannedCleaned(Without(banned, {ip})[ip := until], after, now, config)
    requires until == now + config.banTime * MINUTE
    ensures IsSound(Without(hosts, {ip}), after, Without(history, {ip}), config, now)
  {
    WithoutOne(banned, ip, until);
    hide AreScored, IsBannedCleaned, AreDisjoint, Without, Config.IsValid;
    ScoredLater(hosts, history, config, clock, {ip}, now);
    SizeWithout(hosts, {ip});
    SizeWith(banned, ip, until);
    BannedBound(banned[ip := until], after, now, config);
    DisjointAfterBan(hosts, banned, ip, until, after);
  }

  lemma BanDone(hosts: map<string, HostScore>, banned: map<string, int>, history: map<string, seq<Event>>,
                config: Config, ip: string, now: int, after: map<string, int>)
    requires config.IsValid()
    requires IsBannedCleaned(Without(banned, {ip})[ip := now + config.banTime * MINUTE], after, now, config)
    ensures IsBan(hosts, banned, history, config, ip, now, Without(hosts, {ip}), after, Without(history, {ip}))
  {
    hide IsBannedCleaned, Without, OutlivesCleanup, IsEvictedAtOnce, Config.IsValid;
    WithoutOne(banned, ip, now + config.banTime * MINUTE);
    LastsUntil(banned, ip, now, config);
    BanOutlives(banned[ip := now + config.banTime * MINUTE], after, ip, now, config);
  }

  lemma DisjointAfterBan(hosts: map<string, HostScore>, banned: map<string, int>, ip: string, until: int,
                         after: map<string, int>)
    requires AreDisjoint(hosts, banned) && after.Keys <= banned[ip := until].Keys
    ensures AreDisjoint(Without(hosts, {ip}), after)
  {
  }

  lemma DisjointAfterScore(hosts: map<string, HostScore>, banned: map<string, int>, ip: string, h: HostScore,
                           after: map<string, HostScore>)
    requires AreDisjoint(hosts, banned) && after.Keys <= hosts[ip := h].Keys
    ensures AreDisjoint(after, Without(banned, {ip}))
  {
  }

  lemma ScoreKeeps(hosts: map<string, HostScore>, banned: map<string, int>, history: map<string, seq<Event>>,
                   config: Config, clock: int, now: int, ip: string, all: seq<Event>, after: map<string, HostScore>)
    requires IsSound(hosts, banned, history, config, clock) && clock <= now
    requires Sum(InWindow(all, Window(config), now)) < config.threshold
    requires AreHostsCleaned(hosts[ip := Scored(InWindow(all, Window(config), now))], after, config)
    ensures IsSound(after, Without(banned, {ip}), Without(history[ip := all], hosts.Keys + {ip} - after.Keys), config,
            now)
  {
    hide AreScored, InWindow, Sum, Scored, AreDisjoint, Without, Config.IsValid, AreHostsCleaned, Window;
    var h := Scored(InWindow(all, Window(config), now));
    Remembered(hosts, history, config, clock, now, ip, all);
    CleanedKeys(hosts[ip := h], after, config);
    KeysWith(hosts, ip, h);
    ScoredLater(hosts[ip := h], history[ip := all], config, now, hosts.Keys + {ip} - after.Keys, now);
    SizeWithout(banned, {ip});
    DisjointAfterScore(hosts, banned, ip, h, after);
  }

  lemma ScoreDone(hosts: map<string, HostScore>, banned: map<string, int>, history: map<string, seq<Event>>,
                  config: Config, ip: string, all: seq<Event>, now: int, after: map<string, HostScore>)
    requires AreHostsCleaned(hosts[ip := Scored(InWindow(all, Window(config), now))], after, config)
    ensures IsScore(hosts, banned, history, config, ip, all, now,
                    after, Without(banned, {ip}), Without(history[ip := all], hosts.Keys + {ip} - after.Keys))
  {
  }

  lemma KeysWith(hosts: map<string, HostScore>, ip: string, h: HostScore)
    ensures hosts[ip := h].Keys == hosts.Keys + {ip}
  {
  }

  lemma CleanedKeys(before: map<string, HostScore>, after: map<string, HostScore>, config: Config)
    requires AreHostsCleaned(before, after, config) && config.IsValid()
    ensures after == Without(before, before.Keys - after.Keys) && after.Keys <= before.Keys
    ensures |after| <= config.entriesHardLimit
  {
    WithoutKeys(before, before.Keys - after.Keys);
    if after == before {
      WithoutNone(before, before.Keys - after.Keys);
    }
  }

  lemma AtLeastOne(banTime: int, increment: int)
    requires banTime > 0 && increment > 0
    ensures banTime * increment / 100 >= 0 && (banTime * increment / 100 == 0 <==> banTime * increment < 100)
  {
    assert banTime * increment > 0;
  }

  // ---------------------------------------------------------------- the defender

  class MemoryDefender {
    const config: Config
    var hosts: map<string, HostScore>
    var banned: map<string, int>
    /** All the events of a host since it was last banned, deleted or evicted. */
    ghost var history: map<string, seq<Event>>
    /** The time of the last event. */
    ghost var clock: int

    constructor (config: Config, now: int)
      requires config.IsValid()
      ensures Valid() && hosts == map[] && banned == map[] && clock == now && this.config == config
    {
      this.config := config;
      hosts, banned, history, clock := map[], map[], map[], now;
    }

    ghost predicate Valid()
      reads this
    {
      IsSound(hosts, banned, history, config, clock)
    }

    ghost function HistoryOf(ip: string): seq<Event>
      reads this
    {
      if ip in history then history[ip] else []
    }

    /** The score of a host is what its whole history counts in the window; a host with a ban has none. */
    method GetScore(ip: string, now: int) returns (score: int)
      requires Valid() && clock <= now
      ensures score == Sum(InWindow(HistoryOf(ip), Window(config), now))
      ensures ip in banned ==> score == 0
    {
      score := 0;
      SilentHosts(hosts, banned, history, config, clock, ip, now);
      if ip in hosts {
        score := CurrentScore(hosts[ip].events, now);
      }
    }

    method CurrentScore(events: seq<Event>, now: int) returns (score: int)
      ensures score == Sum(InWindow(events, Window(config), now))
    {
      hide InWindow, Sum;
      NoEvents(Window(config), now);
      score := 0;
      for i := 0 to |events|
        invariant score == Sum(InWindow(events[..i], Window(config), now))
      {
        assert events[..i + 1] == events[..i] + [events[i]];
        WindowAppend(events[..i], events[i], Window(config), now);
        if events[i].dateTime + config.observationTime * MINUTE > now {
          SumAppend(InWindow(events[..i], Window(config), now), events[i]);
          score := score + events[i].score;
        }
      }
      assert events[..|events|] == events;
    }

    /** Whether a host is banned, by its score or by the deny list; a ban that is in force gets longer. */
    method IsBanned(ip: string, denied: bool, now: int) returns (result: bool)
      requires Valid()
      modifies this`banned
      ensures Valid()
      ensures result <==> denied || (ip in old(banned) && old(banned)[ip] > now)
      ensures if ip in old(banned) && old(banned)[ip] > now
              then var longer := if config.banTime * config.banTimeIncrement < 100 then 1
                                 else config.banTime * config.banTimeIncrement / 100;
                   banned == old(banned)[ip := old(banned)[ip] + longer * 60_000_000_000] && longer >= 1
              else banned == old(banned)
    {
      if ip in banned && banned[ip] > now {
        var increment := config.banTime * config.banTimeIncrement / 100;
        AtLeastOne(config.banTime, config.banTimeIncrement);
        if increment == 0 {
          increment := increment + 1;
        }
        assert banned[ip := banned[ip] + increment * MINUTE].Keys == banned.Keys;
        banned := banned[ip := banned[ip] + increment * MINUTE];
        return true;
      }
      return denied;
    }

    /** Forgets a host: it is neither banned nor scored afterwards. */
    method DeleteHost(ip: string) returns (deleted: bool)
      requires Valid()
      modifies this
      ensures Valid() && clock == old(clock)
      ensures deleted <==> ip in old(banned) || ip in old(hosts)
      ensures hosts == Without(old(hosts), {ip}) && banned == Without(old(banned), {ip})
      ensures history == Without(old(history), {ip})
    {
      hide IsSound, Without;
      ForgetKeeps(hosts, banned, history, config, clock, ip);
      if ip in banned {
        banned := Without(banned, {ip});
        return true;
      }
      if ip in hosts {
        hosts, history := Without(hosts, {ip}), Without(history, {ip});
        return true;
      }
      return false;
    }

    /** The event has no effect: the host is in the safe list or banned already. */
    ghost predicate IsIgnored(ip: string, isSafe: bool, now: int)
      reads this
    {
      isSafe || (ip in banned && banned[ip] > now)
    }

    /**
     * Adds an event. The host stops being scored and gets a ban exactly when the events of its whole history that
     * are in the window reach the threshold, and otherwise exactly those events are kept. The ban is in force unless
     * its own cleanup evicts it. Both maps stay within the hard limit.
     */
    method AddEvent(ip: string, isSafe: bool, event: HostEvent, now: int) returns (safe: bool)
      requires Valid() && clock <= now
      modifies this
      ensures Valid() && safe == isSafe
      ensures old(IsIgnored(ip, isSafe, now)) ==>
                hosts == old(hosts) && banned == old(banned) && history == old(history) && clock == old(clock)
      ensures !old(IsIgnored(ip, isSafe, now)) ==> clock == now
      ensures !old(IsIgnored(ip, isSafe, now)) ==>
                var all := old(HistoryOf(ip)) + [Event(now, config.Score(event))];
                if Sum(InWindow(all, Window(config), now)) >= config.threshold
                then IsBan(old(hosts), old(banned), old(history), config, ip, now, hosts, banned, history)
                else IsScore(old(hosts), old(banned), old(history), config, ip, all, now, hosts, banned, history)
    {
      hide IsBan, IsScore, IsSound, AreScored, IsBannedCleaned, AreHostsCleaned;
      hide InWindow, Sum, Config.IsValid, Config.Score, Without, Scored, Window;
      if isSafe {
        return true;
      }
      if ip in banned && banned[ip] > now {
        return false;
      }
      SoundParts(hosts, banned, history, config, clock);
      banned := Without(banned, {ip});
      var ev := Event(now, config.Score(event));
      ghost var all := HistoryOf(ip) + [ev];
      clock := now;
      if ip in hosts {
        HostIsScored(hosts, history, config, old(clock), ip);
        PrunedHistory(hosts[ip], history[ip], config, old(clock), ev, now);
        var hs := InWindowOf(hosts[ip].events + [ev], now);
        ScoredTotal(InWindow(all, Window(config), now));
        if hs.totalScore >= config.threshold {
          hosts, history := Without(hosts, {ip}), Without(history, {ip});
          banned := banned[ip := now + config.banTime * MINUTE];
          CleanupBanned(now);
          BanKeeps(old(hosts), old(banned), old(history), config, old(clock), now, ip, now + config.banTime * MINUTE,
              banned);
          BanDone(old(hosts), old(banned), old(history), config, ip, now, banned);
        } else {
          StillKnown(hosts, history, config, ip, hs, all);
          hosts, history := hosts[ip := hs], history[ip := all];
          ScoreKeeps(old(hosts), old(banned), old(history), config, old(clock), now, ip, all, hosts);
          ScoreDone(old(hosts), old(banned), old(history), config, ip, all, now, hosts);
        }
      } else {
        FirstEvent(event, config, now);
        hosts, history := hosts[ip := HostScore(ev.score, [ev])], history[ip := all];
        KeysWith(old(hosts), ip, HostScore(ev.score, [ev]));
        CleanupHosts();
        ScoreKeeps(old(hosts), old(banned), old(history), config, old(clock), now, ip, all, hosts);
        ScoreDone(old(hosts), old(banned), old(history), config, ip, all, now, hosts);
      }
      return false;
    }

    /** Compacts the events in place: those in the window stay, in order, with their total. */
    method InWindowOf(events: seq<Event>, now: int) returns (hs: HostScore)
      ensures hs == Scored(InWindow(events, Window(config), now))
    {
      hide InWindow, Sum;
      NoEvents(Window(config), now);
      var kept := events;
      var idx, totalScore := 0, 0;
      for i := 0 to |events|
        invariant idx <= i && |kept| == |events| && kept[i..] == events[i..]
        invariant kept[..idx] == InWindow(events[..i], Window(config), now) && totalScore == Sum(kept[..idx])
      {
        var event := kept[i];
        assert event == events[i] by {
          assert kept[i] == kept[i..][0];
        }
        assert events[..i + 1] == events[..i] + [event];
        WindowAppend(events[..i], event, Window(config), now);
        if event.dateTime + config.observationTime * MINUTE > now {
          SumAppend(kept[..idx], event);
          CompactStep(events, kept, i, idx);
          kept := kept[idx := event];
          totalScore := totalScore + event.score;
          idx := idx + 1;
        } else {
          assert kept[i + 1..] == kept[i..][1..] == events[i + 1..];
        }
      }
      assert events[..|events|] == events;
      return HostScore(totalScore, kept[..idx]);
    }

    method CleanupBanned(now: int)
      requires config.IsValid()
      modifies this`banned
      ensures IsBannedCleaned(old(banned), banned, now, config)
    {
      hide Without, IsBannedCleaned, IsOldestFirst, KeysOf, Expired;
      NotManyBans(banned, now, config);
      if |banned| > config.entriesHardLimit {
        var before := banned;
        RemoveExpired(now);
        ghost var live := banned;
        // expired addresses are removed, this could be enough
        var numToRemove := |banned| - config.entriesSoftLimit;
        if numToRemove <= 0 {
          ExpiredRemoved(before, now, config);
          return;
        }
        var list := SortedByValue(before);
        NoKeys(list);
        WithoutNone(live, {});
        var idx := 0;
        while idx < |list| && idx < numToRemove
          invariant idx <= numToRemove && idx <= |list| && banned == Without(live, KeysOf(list[..idx]))
        {
          Extended(list, idx);
          WithoutMore(live, KeysOf(list[..idx]), {list[idx].key});
          banned := Without(banned, {list[idx].key});
          idx := idx + 1;
        }
        OldestBansRemoved(before, now, list, idx, config);
      }
    }

    method RemoveExpired(now: int)
      modifies this`banned
      ensures banned == Without(old(banned), Expired(old(banned), now))
    {
      var before := banned;
      var rest := banned.Keys;
      while rest != {}
        invariant rest <= before.Keys && banned == Without(before, Expired(before, now) - rest)
        decreases rest
      {
        var k :| k in rest;
        if before[k] < now {
          banned := Without(banned, {k});
        }
        rest := rest - {k};
      }
      assert Expired(before, now) - {} == Expired(before, now);
    }

    method CleanupHosts()
      requires config.IsValid() && hosts.Keys == history.Keys
      modifies this`hosts, this`history
      ensures AreHostsCleaned(old(hosts), hosts, config)
      ensures history == Without(old(history), old(hosts).Keys - hosts.Keys)
    {
      hide Without, AreOldest, IsOldestFirst, KeysOf, LastSeen;
      if |hosts| > config.entriesHardLimit {
        var list := SortedByValue(Activity(hosts));
        var numToRemove := |hosts| - config.entriesSoftLimit;
        SameCount(hosts, Activity(hosts));
        ListLength(Activity(hosts), list);
        NoKeys(list);
        WithoutNone(hosts, {});
        WithoutNone(history, {});
        var idx := 0;
        while idx < |list| && idx < numToRemove
          invariant idx <= numToRemove
          invariant hosts == Without(old(hosts), KeysOf(list[..idx]))
                    && history == Without(old(history), KeysOf(list[..idx]))
        {
          Extended(list, idx);
          WithoutMore(old(hosts), KeysOf(list[..idx]), {list[idx].key});
          WithoutMore(old(history), KeysOf(list[..idx]), {list[idx].key});
          hosts, history := Without(hosts, {list[idx].key}), Without(history, {list[idx].key});
          idx := idx + 1;
        }
        PrefixIsOldest(Activity(old(hosts)), list, idx);
        OldestAreKeys(Activity(old(hosts)), KeysOf(list[..idx]), idx);
        WithoutKeys(old(hosts), KeysOf(list[..idx]));
        assert old(hosts).Keys - hosts.Keys == KeysOf(list[..idx]);
      } else {
        WithoutNone(history, hosts.Keys - hosts.Keys);
      }
    }
  }
}
