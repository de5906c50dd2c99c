/** The cache of checked credentials, bounded by evicting the ones used least recently. */
module CredentialCache {
  import opened Eviction
  import opened Maps

  const HOUR := 3_600_000

  /** Times are in milliseconds. */
  datatype Credential = Credential(key: string, hash: string, password: string, usedAt: int)

  datatype Added = Added(password: string, hash: string)

  function UsedAt(cache: map<string, Credential>): (values: map<string, int>)
    ensures values.Keys == cache.Keys
  {
    map k | k in cache :: cache[k].usedAt
  }

  function Unused(cache: map<string, Credential>, now: int): set<string>
  {
    set k | k in cache && cache[k].usedAt < now - HOUR
  }

  /**
   * Over the limit, what is unused for an hour goes; if what is left is five times the limit or more, the ones used
   * least recently go too, down to the limit.
   */
  ghost predicate IsCleaned(before: map<string, Credential>, after: map<string, Credential>, limit: nat, now: int)
  {
    var recent := Without(before, Unused(before, now));
    if |before| <= limit then after == before
    else if |recent| < 5 * limit then after == recent
    else
      && after == Without(recent, recent.Keys - after.Keys)
      && |after| == limit
      && AreOldest(UsedAt(recent), recent.Keys - after.Keys, |recent| - limit)
  }

  lemma CleanedBound(before: map<string, Credential>, after: map<string, Credential>, limit: nat, now: int)
    requires IsCleaned(before, after, limit, now) && limit > 0
    ensures |after| < 5 * limit
  {
  }

  lemma OldestRemoved(recent: map<string, Credential>, list: seq<KV>, n: nat, limit: nat)
    requires IsOldestFirst(UsedAt(recent), list)
    requires n <= |list| && n == |recent| - limit
    ensures var after := Without(recent, KeysOf(list[..n]));
            && after == Without(recent, recent.Keys - after.Keys) && |after| == limit
            && AreOldest(UsedAt(recent), recent.Keys - after.Keys, |recent| - limit)
  {
    var gone := KeysOf(list[..n]);
    PrefixIsOldest(UsedAt(recent), list, n);
    assert gone <= recent.Keys && |gone| == n;
    hide AreOldest, IsOldestFirst, KeysOf;
    WithoutKeys(recent, gone);
    assert recent.Keys - Without(recent, gone).Keys == gone;
  }

  /**
   * Over the limit, what was not used for an hour goes; nothing that goes was used later than what stays; and
   * anything else goes only if exactly the limit stays.
   */
  lemma WhatIsEvicted(before: map<string, Credential>, after: map<string, Credential>, limit: nat, now: int)
    requires IsCleaned(before, after, limit, now)
    ensures |before| > limit ==> forall k :: k in before && before[k].usedAt < now - 3_600_000 ==> k !in after
    ensures forall a, b :: a in before && a !in after && b in after ==> before[a].usedAt <= after[b].usedAt
    ensures forall k :: k in after ==> k in before && after[k] == before[k]
    ensures |before| <= limit ==> after == before
    ensures |after| != limit ==> forall k :: k in before && before[k].usedAt >= now - 3_600_000 ==> k in after
  {
  }

  /** Every entry is under its own key, and is what was added last for that key and not removed since. */
  ghost predicate AreAdded(cache: map<string, Credential>, added: map<string, Added>)
  {
    forall k :: k in cache ==>
                  cache[k].key == k && k in added && added[k] == Added(cache[k].password, cache[k].hash)
  }

  lemma AddedWithout(cache: map<string, Credential>, added: map<string, Added>, gone: set<string>)
    requires AreAdded(cache, added)
    ensures AreAdded(Without(cache, gone), added)
  {
  }

  class CredentialsCache {
    const sizeLimit: nat
    const passwordCaching: bool
    var cache: map<string, Credential>
    /** What was added last for each key, unless it was removed. */
    ghost var added: map<string, Added>

    constructor (sizeLimit: nat, passwordCaching: bool)
      requires sizeLimit > 0
      ensures Valid() && cache == map[] && this.sizeLimit == sizeLimit && this.passwordCaching == passwordCaching
    {
      this.sizeLimit, this.passwordCaching, cache, added := sizeLimit, passwordCaching, map[], map[];
    }

    ghost predicate Valid()
      reads this
    {
      sizeLimit > 0 && AreAdded(cache, added)
    }

    method Add(username: string, password: string, hash: string, now: int)
      requires Valid()
      modifies this
      ensures Valid()
      ensures if !passwordCaching || username == "" || password == "" || hash == ""
              then cache == old(cache) && added == old(added)
              else cache == old(cache)[username := Credential(username, hash, password, now)] &&
                   added == old(added)[username := Added(password, hash)]
    {
      if !passwordCaching || username == "" || password == "" || hash == "" {
        return;
      }
      cache := cache[username := Credential(username, hash, password, now)];
      added := added[username := Added(password, hash)];
    }

    method Remove(username: string)
      requires Valid()
      modifies this
      ensures Valid()
      ensures if passwordCaching then cache == Without(old(cache), {username})
              && added == Without(old(added), {username})
              else cache == old(cache) && added == old(added)
    {
      if passwordCaching {
        cache, added := Without(cache, {username}), Without(added, {username});
      }
    }

    /**
     * A password matches only if it was added last for the user, for the hash that is stored now, and not removed
     * since. A found entry is marked as used if it matches, and as the oldest if its hash is outdated.
     */
    method Check(username: string, password: string, hash: string, now: int) returns (found: bool, matches: bool)
      requires Valid()
      modifies this`cache
      ensures Valid()
      ensures matches ==> found && username in added && added[username] == Added(password, hash)
      ensures found ==> username in added && added[username].hash == hash
      ensures username in old(cache) && username != "" && password != "" && hash != "" ==>
                (found <==> added[username].hash == hash) && (matches <==> added[username] == Added(password, hash))
      ensures username == "" || password == "" || hash == "" || username !in old(cache) ==>
                !found && !matches && cache == old(cache)
      ensures cache.Keys == old(cache).Keys
      ensures forall k :: k in cache && k != username ==> cache[k] == old(cache)[k]
      ensures username in cache ==>
                cache[username] == old(cache)[username].(usedAt := cache[username].usedAt) &&
                (matches ==> cache[username].usedAt == now) &&
                (found && !matches ==> cache[username].usedAt == old(cache)[username].usedAt) &&
                (!found && username != "" && password != "" && hash != "" ==> cache[username].usedAt == 0)
    {
      if username == "" || password == "" || hash == "" {
        return false, false;
      }
      if username !in cache {
        return false, false;
      }
      var creds := cache[username];
      if creds.hash != hash {
        cache := cache[username := creds.(usedAt := 0)];
        return false, false;
      }
      matches := creds.password == password;
      if matches {
        cache := cache[username := creds.(usedAt := now)];
      }
      return true, matches;
    }

    method Cleanup(now: int)
      requires Valid()
      modifies this`cache
      ensures Valid()
      ensures if passwordCaching then IsCleaned(old(cache), cache, sizeLimit, now) && |cache| < 5 * sizeLimit
              else cache == old(cache)
    {
      hide Without, AreOldest, IsOldestFirst, KeysOf, Unused, AreAdded;
      if !passwordCaching || |cache| <= sizeLimit {
        return;
      }
      RemoveUnused(now);
      if |cache| < sizeLimit * 5 {
        return;
      }
      var numToRemove := |cache| - sizeLimit;
      var list := SortedByValue(UsedAt(cache));
      ghost var recent := cache;
      SameCount(cache, UsedAt(cache));
      ListLength(UsedAt(cache), list);
      NoKeys(list);
      WithoutNone(cache, {});
      var idx := 0;
      while idx < |list| && idx < numToRemove
        invariant idx <= numToRemove && cache == Without(recent, KeysOf(list[..idx]))
        invariant AreAdded(cache, added)
      {
        Extended(list, idx);
        WithoutMore(recent, KeysOf(list[..idx]), {list[idx].key});
        AddedWithout(cache, added, {list[idx].key});
        cache := Without(cache, {list[idx].key});
        idx := idx + 1;
      }
      OldestRemoved(recent, list, idx, sizeLimit);
    }

    method RemoveUnused(now: int)
      requires AreAdded(cache, added)
      modifies this`cache
      ensures cache == Without(old(cache), Unused(old(cache), now)) && AreAdded(cache, added)
    {
      ghost var before := cache;
      var rest := cache.Keys;
      while rest != {}
        invariant rest <= before.Keys && cache == Without(before, Unused(before, now) - rest)
        decreases rest
      {
        var k :| k in rest;
        if cache[k].usedAt < now - HOUR {
          cache := Without(cache, {k});
        }
        rest := rest - {k};
      }
      assert Unused(before, now) - {} == Unused(before, now);
    }
  }
}
