/**
 The cache object itself. Its fields are the two dictionaries, the
 CacheEntry and TagEntry objects they reach (as maps from reference to
 record, with counters for fresh references), the scan frequency and the
 two sweep-throttle fields. Every method is one sequential step at time
 `now`, proved to leave the state its specification function describes.
 */
module Cache {
  import opened Entries
  import opened StoreState
  import opened Detaching
  import opened Binding
  import opened Sweeping
  import opened Operations
  import opened CacheProperties

  /** One minute in 100-nanosecond ticks: the default scan frequency. */
  const DefaultScanFrequency: int := 600_000_000

  class MemoryCache<K(==), T(==), V> {
    const expirationScanFrequency: int
    var cacheEntries: map<K, EntryRef>
    var tagEntries: map<T, TagRef>
    var entryHeap: map<EntryRef, CacheEntry<V>>
    var tagHeap: map<TagRef, TagEntry<K>>
    var nextEntry: nat
    var nextTag: nat
    var lastExpirationScanTicks: int
    var cleanupIsRunning: int

    /** Everything mutable, as one value. */
    ghost function State(): Store<K, T, V>
      reads this
    {
      Store(cacheEntries, tagEntries, entryHeap, tagHeap, nextEntry, nextTag,
            lastExpirationScanTicks, cleanupIsRunning)
    }

    /** Between public calls: a positive scan frequency, a consistent
        store, and no sweep in progress. */
    ghost predicate Valid()
      reads this
    {
      expirationScanFrequency > 0 && Consistent(State()) && cleanupIsRunning == 0
    }

    /** Both maps start empty. */
    constructor (expirationScanFrequency: int)
      requires expirationScanFrequency > 0
      ensures Valid() && State() == EmptyStore()
      ensures this.expirationScanFrequency == expirationScanFrequency
    {
      this.expirationScanFrequency := expirationScanFrequency;
      cacheEntries, tagEntries, entryHeap, tagHeap := map[], map[], map[], map[];
      nextEntry, nextTag, lastExpirationScanTicks, cleanupIsRunning := 0, 0, 0, 0;
    }

    /** The parameterless constructor: scan at most once a minute. */
    constructor Default()
      ensures Valid() && State() == EmptyStore()
      ensures expirationScanFrequency == DefaultScanFrequency
    {
      expirationScanFrequency := DefaultScanFrequency;
      cacheEntries, tagEntries, entryHeap, tagHeap := map[], map[], map[], map[];
      nextEntry, nextTag, lastExpirationScanTicks, cleanupIsRunning := 0, 0, 0, 0;
    }

    /** Construction that refuses a non-positive scan frequency. */
    static method Create(expirationScanFrequency: int) returns (r: Result<MemoryCache<K, T, V>>)
      ensures r.Failure? <==> expirationScanFrequency <= 0
      ensures r.Failure? ==> r.error == ScanFrequencyOutOfRange
      ensures r.Success? ==> fresh(r.value) && r.value.Valid() && r.value.State() == EmptyStore()
      ensures r.Success? ==> r.value.expirationScanFrequency == expirationScanFrequency
    {
      if expirationScanFrequency <= 0 {
        return Failure(ScanFrequencyOutOfRange);
      }
      var c := new MemoryCache(expirationScanFrequency);
      r := Success(c);
    }

    /** GetValue: hand out the value; a sliding entry's window restarts. */
    method GetValue(e: EntryRef, now: int) returns (v: V)
      requires e in entryHeap
      modifies this
      ensures v == old(entryHeap[e].value)
      ensures State() == Read(old(State()), e, now)
    {
      v := entryHeap[e].value;
      entryHeap := entryHeap[e := Touch(entryHeap[e], now)];
    }

    /** TryGet: schedule a sweep if one is due, then look the key up. An
        expired entry found under the key is removed on the spot. */
    method TryGet(key: K, now: int) returns (r: Option<V>)
      requires Valid()
      modifies this
      ensures Valid()
      ensures r == TryGetResult(old(State()), expirationScanFrequency, key, now)
      ensures State() == AfterTryGet(old(State()), expirationScanFrequency, key, now)
    {
      ScheduleScanForExpiredEntries(now);
      if key !in cacheEntries {
        r := None;
      } else {
        var e := cacheEntries[key];
        if ExpiredAt(entryHeap[e], now) {
          RemoveCacheEntry(key, e);
          r := None;
        } else {
          var v := GetValue(e, now);
          r := Some(v);
        }
      }
      TryGetKeeps(old(State()), expirationScanFrequency, key, now);
      ScheduleSettles(old(State()), expirationScanFrequency, now);
    }

    /** The install step shared by Add and GetOrAddCacheEntry: the new entry
        takes the key, and a displaced entry is marked expired and
        unbound. */
    method ReplaceEntry(key: K, entry: CacheEntry<V>) returns (e: EntryRef)
      requires RefsResolve(State()) && entry.tagRefs <= tagHeap.Keys
      modifies this
      ensures e == old(nextEntry)
      ensures State() == Replace(old(State()), key, entry)
    {
      var deleted: Option<EntryRef> := None;
      if key in cacheEntries {
        deleted := Some(cacheEntries[key]);
      }
      e := nextEntry;
      entryHeap := entryHeap[e := entry];
      nextEntry := nextEntry + 1;
      cacheEntries := cacheEntries[key := e];
      if deleted.Some? {
        var prior := deleted.value;
        ghost var s1 := State();
        DetachOne(s1, key, prior);
        entryHeap := entryHeap[prior := MarkAsExpired(entryHeap[prior])];
        UnbindFromTagEntries(prior);
        assert State() == Detach(s1, {(key, prior)});
      }
    }

    /** Add: refuse a non-positive lifetime; otherwise schedule, store the
        new entry unconditionally, and bind it to its tags. */
    method Add(key: K, tags: seq<T>, isSliding: bool, lifetime: int, value: V, now: int) returns (r: Result<()>)
      requires Valid()
      modifies this
      ensures Valid()
      ensures r.Failure? <==> lifetime <= 0
      ensures r.Failure? ==> r.error == LifetimeOutOfRange
      ensures State() == AfterAdd(old(State()), expirationScanFrequency, key, tags, isSliding, lifetime, value, now)
    {
      if lifetime <= 0 {
        return Failure(LifetimeOutOfRange);
      }
      ScheduleScanForExpiredEntries(now);
      ScheduleKeeps(old(State()), expirationScanFrequency, now);
      ScheduleSettles(old(State()), expirationScanFrequency, now);
      var entry := NewCacheEntry(isSliding, lifetime, value, now);
      ghost var s1 := State();
      var e := ReplaceEntry(key, entry);
      ReplaceValid(s1, key, entry);
      BindToTagEntries(key, tags, e);
      AddKeeps(old(State()), expirationScanFrequency, key, tags, isSliding, lifetime, value, now);
      r := Success(());
    }

    /** GetOrAdd: refuse a non-positive lifetime; otherwise schedule, and
        read the live entry under the key, or install and read a new entry
        holding `made`, the value the factory would produce. `factoryRan`
        tells whether the new entry was the one read. */
    method GetOrAdd(key: K, tags: seq<T>, isSliding: bool, lifetime: int, made: V, now: int)
      returns (r: Result<V>, factoryRan: bool)
      requires Valid()
      modifies this
      ensures Valid()
      ensures r.Failure? <==> lifetime <= 0
      ensures r.Failure? ==> r.error == LifetimeOutOfRange && !factoryRan
      ensures r.Success? ==> (r.value, factoryRan) == GetOrAddResult(old(State()), expirationScanFrequency, key, made, now)
      ensures State() == AfterGetOrAdd(old(State()), expirationScanFrequency, key, tags, isSliding, lifetime, made, now)
    {
      if lifetime <= 0 {
        return Failure(LifetimeOutOfRange), false;
      }
      ScheduleScanForExpiredEntries(now);
      ScheduleKeeps(old(State()), expirationScanFrequency, now);
      ScheduleSettles(old(State()), expirationScanFrequency, now);
      var created := nextEntry;
      var actual: EntryRef;
      if key !in cacheEntries || ExpiredAt(entryHeap[cacheEntries[key]], now) {
        actual := GetOrAddCacheEntry(key, tags, NewCacheEntry(isSliding, lifetime, made, now), now);
      } else {
        actual := cacheEntries[key];
      }
      factoryRan := actual == created;
      var v := GetValue(actual, now);
      r := Success(v);
      GetOrAddKeeps(old(State()), expirationScanFrequency, key, tags, isSliding, lifetime, made, now);
    }

    /** GetOrAddCacheEntry: install `entry` only if the key is absent or its
        entry is expired, bind it only if it was installed, and return the
        entry the key holds. */
    method GetOrAddCacheEntry(key: K, tags: seq<T>, entry: CacheEntry<V>, now: int) returns (actual: EntryRef)
      requires Consistent(State()) && !entry.expired && entry.lifetime > 0 && entry.tagRefs == {}
      modifies this
      ensures actual == GetOrAddEntryRef(old(State()), key, now)
      ensures State() == AfterGetOrAddEntry(old(State()), key, tags, entry, now)
    {
      if key !in cacheEntries || ExpiredAt(entryHeap[cacheEntries[key]], now) {
        ghost var s0 := State();
        actual := ReplaceEntry(key, entry);
        ReplaceValid(s0, key, entry);
        BindToTagEntries(key, tags, actual);
      } else {
        actual := cacheEntries[key];
      }
    }

    /** BindToTagEntries: clear the entry's own set, then bind it to each
        tag in turn. */
    method BindToTagEntries(key: K, tags: seq<T>, e: EntryRef)
      requires StoreState.Valid(State()) && e in entryHeap && !entryHeap[e].expired
      requires key in cacheEntries && cacheEntries[key] == e && Unbound(State(), e)
      modifies this
      ensures State() == BindTags(old(State()), key, tags, e)
    {
      entryHeap := entryHeap[e := entryHeap[e].(tagRefs := {})];
      for i := 0 to |tags|
        invariant e in entryHeap && TagMapResolves(State())
        invariant State() == BindTags(old(State()), key, tags[..i], e)
      {
        BindTagsStep(old(State()), key, tags, i, e);
        BindToTagEntry(key, tags[i], e);
      }
      assert tags[..|tags|] == tags;
    }

    /** One pass of the bind loop: fetch or create the tag's TagEntry,
        record the entry in it under `key`, and list the TagEntry in the
        entry's own set. */
    method BindToTagEntry(key: K, t: T, e: EntryRef)
      requires StoreState.Valid(State()) && e in entryHeap && !entryHeap[e].expired
      modifies this
      ensures State() == BindOne(old(State()), key, t, e)
    {
      var x: TagRef;
      if t in tagEntries {
        x := tagEntries[t];
        assert x in tagEntries.Values;
      } else {
        x := nextTag;
        tagHeap := tagHeap[x := NewTagEntry(e, key)];
        tagEntries := tagEntries[t := x];
        nextTag := nextTag + 1;
      }
      if e !in tagHeap[x].cacheEntries {
        tagHeap := tagHeap[x := tagHeap[x].(cacheEntries := tagHeap[x].cacheEntries[e := key])];
      }
      // Run sequentially, the entry is still live and the TagEntry still
      // Active here, so the retry for a concurrent removal or eviction
      // never fires.
      assert !entryHeap[e].expired && tagHeap[x].state == Active;
      entryHeap := entryHeap[e := entryHeap[e].(tagRefs := entryHeap[e].tagRefs + {x})];
    }

    /** UnbindFromTagEntries: forget `e` in every Active TagEntry it lists. */
    method UnbindFromTagEntries(e: EntryRef)
      requires e in entryHeap && entryHeap[e].tagRefs <= tagHeap.Keys
      modifies this
      ensures cacheEntries == old(cacheEntries) && tagEntries == old(tagEntries) && entryHeap == old(entryHeap)
      ensures tagHeap == UnbindVictims(old(tagHeap), entryHeap, {e})
      ensures nextEntry == old(nextEntry) && nextTag == old(nextTag)
      ensures lastExpirationScanTicks == old(lastExpirationScanTicks) && cleanupIsRunning == old(cleanupIsRunning)
    {
      var todo := entryHeap[e].tagRefs;
      forall y | y in tagHeap
        ensures Unlink(tagHeap[y], y, entryHeap, {e}) ==
                  if tagHeap[y].state == Active && y in todo
                  then tagHeap[y].(cacheEntries := tagHeap[y].cacheEntries - {e}) else tagHeap[y]
      {
        UnlinkSingle(tagHeap[y], y, entryHeap, e);
      }
      while todo != {}
        invariant cacheEntries == old(cacheEntries) && tagEntries == old(tagEntries) && entryHeap == old(entryHeap)
        invariant todo <= entryHeap[e].tagRefs && tagHeap.Keys == old(tagHeap).Keys
        invariant forall y :: y in tagHeap ==>
                    tagHeap[y] == if y in todo then old(tagHeap)[y] else Unlink(old(tagHeap)[y], y, entryHeap, {e})
        invariant nextEntry == old(nextEntry) && nextTag == old(nextTag)
        invariant lastExpirationScanTicks == old(lastExpirationScanTicks) && cleanupIsRunning == old(cleanupIsRunning)
        decreases todo
      {
        var x :| x in todo;
        if tagHeap[x].state == Active {
          tagHeap := tagHeap[x := tagHeap[x].(cacheEntries := tagHeap[x].cacheEntries - {e})];
        }
        todo := todo - {x};
      }
    }

    /** RemoveCacheEntry: drop the key only while it still names `e`, mark
        `e` expired, and unbind it. */
    method RemoveCacheEntry(key: K, e: EntryRef)
      requires RefsResolve(State()) && e in entryHeap
      modifies this
      ensures State() == Detach(old(State()), {(key, e)})
    {
      DetachOne(State(), key, e);
      if key in cacheEntries && cacheEntries[key] == e {
        cacheEntries := cacheEntries - {key};
      }
      entryHeap := entryHeap[e := MarkAsExpired(entryHeap[e])];
      UnbindFromTagEntries(e);
    }

    /** Remove: take the key out, expire and unbind its entry; an absent key
        is a no-op. */
    method Remove(key: K)
      requires Valid()
      modifies this
      ensures Valid()
      ensures State() == AfterRemove(old(State()), key)
    {
      if key in cacheEntries {
        var e := cacheEntries[key];
        DetachOne(State(), key, e);
        cacheEntries := cacheEntries - {key};
        entryHeap := entryHeap[e := MarkAsExpired(entryHeap[e])];
        UnbindFromTagEntries(e);
      }
      RemoveKeeps(old(State()), key);
    }

    /** RemoveByTag: take the tag out and mark its TagEntry Removed, then
        remove every entry it records under the key recorded with it; an
        absent tag is a no-op. */
    method RemoveByTag(tag: T)
      requires Valid()
      modifies this
      ensures Valid()
      ensures State() == AfterRemoveByTag(old(State()), tag)
    {
      if tag in tagEntries {
        var x := tagEntries[tag];
        MemberPairsKeyed(State(), tag);
        tagEntries := tagEntries - {tag};
        tagHeap := tagHeap[x := tagHeap[x].(state := Removed)];
        var members := tagHeap[x].cacheEntries;
        assert State() == Retire(old(State()), tag);
        RemoveMembers(members);
        PairsAmongEnds(members);
      }
      RemoveByTagKeeps(old(State()), tag);
    }

    /** RemoveByTag's loop: remove each member of a retired TagEntry, under
        the key recorded with it. */
    method RemoveMembers(members: map<EntryRef, K>)
      requires RefsResolve(State()) && members.Keys <= entryHeap.Keys
      modifies this
      ensures State() == Detach(old(State()), PairsAmong(members, members.Keys))
    {
      ghost var s1 := State();
      var todo := members.Keys;
      ghost var done: set<EntryRef> := {};
      assert State() == Detach(s1, PairsAmong(members, done)) by {
        PairsAmongEnds(members);
        DetachNothing(s1);
      }
      while todo != {}
        invariant todo + done == members.Keys && todo !! done
        invariant State() == Detach(s1, PairsAmong(members, done))
        decreases todo
      {
        var e :| e in todo;
        RemoveMember(members, s1, done, e);
        todo, done := todo - {e}, done + {e};
      }
    }

    /** One pass of RemoveByTag's loop: RemoveCacheEntry for the next
        member, under the key the TagEntry recorded for it. */
    method RemoveMember(members: map<EntryRef, K>, ghost s1: Store<K, T, V>, ghost done: set<EntryRef>, e: EntryRef)
      requires RefsResolve(s1) && members.Keys <= s1.entryHeap.Keys && e in members
      requires State() == Detach(s1, PairsAmong(members, done))
      modifies this
      ensures State() == Detach(s1, PairsAmong(members, done + {e}))
    {
      RemoveMemberStep(s1, members, done, e);
      RemoveCacheEntry(members[e], e);
    }

    /** ScheduleScanForExpiredEntries: sweep now if more than one scan
        period has passed since the last sweep and none is running. */
    method ScheduleScanForExpiredEntries(now: int)
      requires StoreState.Valid(State())
      modifies this
      ensures State() == AfterSchedule(old(State()), expirationScanFrequency, now)
    {
      var nextExpirationScanTicks := now - expirationScanFrequency;
      if nextExpirationScanTicks > lastExpirationScanTicks {
        if cleanupIsRunning == 0 {
          cleanupIsRunning := 1;
          lastExpirationScanTicks := now;
          ThrottleIndependent(old(State()), now, 1);
          ScanForExpiredEntries(now);
        }
      }
    }

    /** ScanForExpiredEntries: remove every key whose entry is expired at
        `now`, then scatter every tag whose TagEntry has drained, then clear
        the running flag. */
    method ScanForExpiredEntries(now: int)
      requires StoreState.Valid(State())
      modifies this
      ensures State() == Swept(old(State()), now)
    {
      RemoveExpiredEntries(now);
      ExpiredDetachValid(old(State()), now);
      EvictDrainedTags();
      cleanupIsRunning := 0;
    }

    /** The key phase of the sweep: each key, visited once, is removed
        (conditionally on its entry) when its entry is expired at `now`. */
    method RemoveExpiredEntries(now: int)
      requires RefsResolve(State()) && KeyMapSound(State())
      modifies this
      ensures State() == Detach(old(State()), ExpiredPairs(old(State()), now, old(cacheEntries).Keys))
    {
      ghost var s0 := State();
      var keys := cacheEntries.Keys;
      ghost var done: set<K> := {};
      assert ExpiredPairs(s0, now, done) == {};
      DetachNothing(s0);
      while keys != {}
        invariant keys + done == s0.cacheEntries.Keys && keys !! done
        invariant State() == Detach(s0, ExpiredPairs(s0, now, done))
        decreases keys
      {
        var key :| key in keys;
        SweepKey(now, s0, done, key);
        keys, done := keys - {key}, done + {key};
      }
    }

    /** One pass of the key phase: remove the key's entry if it is expired
        at `now`. */
    method SweepKey(now: int, ghost s0: Store<K, T, V>, ghost done: set<K>, key: K)
      requires RefsResolve(s0) && KeyMapSound(s0) && key in s0.cacheEntries && key !in done
      requires State() == Detach(s0, ExpiredPairs(s0, now, done))
      modifies this
      ensures State() == Detach(s0, ExpiredPairs(s0, now, done + {key}))
    {
      SweepStep(s0, now, done, key);
      var e := cacheEntries[key];
      if ExpiredAt(entryHeap[e], now) {
        RemoveCacheEntry(key, e);
      }
    }

    /** The tag phase of the sweep: each tag, visited once, is scattered
        when its TagEntry holds no entry. */
    method EvictDrainedTags()
      requires RefsResolve(State()) && TagMapSound(State())
      modifies this
      ensures State() == EvictAmong(old(State()), old(tagEntries).Keys)
    {
      ghost var s1 := State();
      var tags := tagEntries.Keys;
      ghost var seen: set<T> := {};
      EvictNothing(s1);
      while tags != {}
        invariant tags + seen == s1.tagEntries.Keys && tags !! seen
        invariant State() == EvictAmong(s1, seen)
        decreases tags
      {
        var tag :| tag in tags;
        EvictStep(s1, seen, tag);
        var x := tagEntries[tag];
        if tagHeap[x].cacheEntries == map[] {
          ScatterEvictedTagEntry(tag, x);
        }
        tags, seen := tags - {tag}, seen + {tag};
      }
    }

    /** ScatterEvictedTagEntry for a drained TagEntry: take the tag out of
        the map only while it still names that TagEntry, and mark it
        Evicted. */
    method ScatterEvictedTagEntry(tag: T, x: TagRef)
      requires x in tagHeap && tagHeap[x].cacheEntries == map[]
      modifies this
      ensures State() == Scatter(old(State()), tag, x)
    {
      if tag in tagEntries && tagEntries[tag] == x {
        tagEntries := tagEntries - {tag};
        tagHeap := tagHeap[x := tagHeap[x].(state := Evicted)];
      }
    }
  }
}
