/** The buckets of the rate limiter, one for each source, bounded by evicting the ones used least recently. */
module RateLimiter {
  import opened Eviction
  import opened Maps

  /** A bucket of tokens, of which only the reservations taken from it matter here. */
  datatype Bucket = Bucket(lastActivity: int, reservations: nat)

  function Activity(buckets: map<string, Bucket>): (values: map<string, int>)
    ensures values.Keys == buckets.Keys
  {
    map s | s in buckets :: buckets[s].lastActivity
  }

  /** From the hard limit on, the buckets used least recently go, down to the soft limit. */
  ghost predicate IsCleaned(before: map<string, Bucket>, after: map<string, Bucket>, softLimit: int, hardLimit: int)
  {
    if |before| < hardLimit then after == before
    else
      && after == Without(before, before.Keys - after.Keys)
      && |after| == softLimit
      && AreOldest(Activity(before), before.Keys - after.Keys, |before| - softLimit)
  }

  lemma CleanedBound(before: map<string, Bucket>, after: map<string, Bucket>, softLimit: int, hardLimit: int,
                     source: string, b: Bucket)
    requires IsCleaned(before, after, softLimit, hardLimit) && softLimit < hardLimit
    ensures |after[source := b]| <= hardLimit
  {
    SizeWith(after, source, b);
  }

  /** Removing the first entries of the list, which is sorted by the last activity, down to the soft limit. */
  lemma OldestRemoved(before: map<string, Bucket>, list: seq<KV>, n: nat, softLimit: int, hardLimit: int)
    requires IsOldestFirst(Activity(before), list) && |before| >= hardLimit
    requires n <= |list| && n == |before| - softLimit
    ensures IsCleaned(before, Without(before, KeysOf(list[..n])), softLimit, hardLimit)
  {
    var gone := KeysOf(list[..n]);
    PrefixIsOldest(Activity(before), list, n);
    assert gone <= before.Keys && |gone| == n;
    hide AreOldest, IsOldestFirst, KeysOf;
    WithoutKeys(before, gone);
    assert before.Keys - Without(before, gone).Keys == gone;
  }

  /** No bucket that goes was used later than one that stays. */
  lemma EvictedLeastRecent(before: map<string, Bucket>, after: map<string, Bucket>, softLimit: int, hardLimit: int)
    requires IsCleaned(before, after, softLimit, hardLimit)
    ensures |after| == if |before| < hardLimit then |before| else softLimit
    ensures forall s, k :: s in before && s !in after && k in after ==> before[s].lastActivity <= after[k].lastActivity
  {
  }

  class SourceBuckets {
    var buckets: map<string, Bucket>
    const softLimit: int
    const hardLimit: int

    constructor (softLimit: int, hardLimit: int)
      requires 0 < softLimit < hardLimit
      ensures Valid() && buckets == map[] && this.softLimit == softLimit && this.hardLimit == hardLimit
    {
      this.softLimit, this.hardLimit, buckets := softLimit, hardLimit, map[];
    }

    ghost predicate Valid()
      reads this
    {
      0 < softLimit < hardLimit && |buckets| <= hardLimit
    }

    method Reserve(source: string, now: int) returns (found: bool)
      requires Valid()
      modifies this`buckets
      ensures Valid()
      ensures found <==> source in old(buckets)
      ensures buckets == if found then old(buckets)[source := Bucket(now, old(buckets)[source].reservations + 1)]
                         else old(buckets)
    {
      if source in buckets {
        SizeWith(buckets, source, Bucket(now, buckets[source].reservations + 1));
        buckets := buckets[source := Bucket(now, buckets[source].reservations + 1)];
        return true;
      }
      return false;
    }

    /** Adds a new bucket after making room for it, and takes the first reservation from it. */
    method AddAndReserve(source: string, now: int)
      requires Valid()
      modifies this`buckets
      ensures Valid()
      ensures exists kept ::
                IsCleaned(old(buckets), kept, softLimit, hardLimit) && buckets == kept[source := Bucket(now, 1)]
    {
      hide IsCleaned;
      Cleanup();
      CleanedBound(old(buckets), buckets, softLimit, hardLimit, source, Bucket(now, 1));
      buckets := buckets[source := Bucket(now, 1)];
    }

    method Cleanup()
      requires 0 < softLimit < hardLimit
      modifies this`buckets
      ensures IsCleaned(old(buckets), buckets, softLimit, hardLimit)
    {
      if |buckets| >= hardLimit {
        hide Without, AreOldest, IsOldestFirst, KeysOf, IsCleaned;
        var numToRemove := |buckets| - softLimit;
        var list := SortedByValue(Activity(buckets));
        SameCount(buckets, Activity(buckets));
        ListLength(Activity(buckets), list);
        NoKeys(list);
        WithoutNone(buckets, {});
        var idx := 0;
        while idx < |list| && idx < numToRemove
          invariant idx <= numToRemove && buckets == Without(old(buckets), KeysOf(list[..idx]))
        {
          Extended(list, idx);
          WithoutMore(old(buckets), KeysOf(list[..idx]), {list[idx].key});
          buckets := Without(buckets, {list[idx].key});
          idx := idx + 1;
        }
        OldestRemoved(old(buckets), list, idx, softLimit, hardLimit);
      }
    }

    /**
     * One event of a source: it takes a token from the bucket of the source, which is created if needed; the
     * buckets of the others are evicted at most.
     */
    method Wait(source: string, now: int)
      requires Valid()
      modifies this`buckets
      ensures Valid() && source in buckets && buckets[source].lastActivity == now
      ensures buckets[source].reservations ==
              (if source in old(buckets) then old(buckets)[source].reservations else 0) + 1
      ensures forall s :: s in buckets && s != source ==> s in old(buckets) && buckets[s] == old(buckets)[s]
    {
      var found := Reserve(source, now);
      if !found {
        AddAndReserve(source, now);
      }
    }
  }
}
