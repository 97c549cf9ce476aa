/**
 The public operations of the cache as state transitions on a Store: what
 TryGet, Add, GetOrAdd (with GetOrAddCacheEntry), Remove and RemoveByTag
 return and what they leave behind, each as one atomic step at time `now`,
 with the sweep (if due) run to completion first where the operation
 schedules one.
 */
module Operations {
  import opened Entries
  import opened StoreState
  import opened Detaching
  import opened Binding
  import opened Sweeping

  datatype Option<X> = None | Some(value: X)

  /** The argument checks the cache makes. */
  datatype Error = ScanFrequencyOutOfRange | LifetimeOutOfRange

  datatype Result<R> = Success(value: R) | Failure(error: Error)

  /** The entry stored under `key`, if that is `e`, as a one-pair set. */
  ghost function Pair<K>(key: K, e: EntryRef): (R: set<(K, EntryRef)>)
    ensures R == {(key, e)} && Victims(R) == {e}
  {
    var R := {(key, e)};
    assert forall p :: p in R ==> p.1 == e;
    assert (key, e) in R;
    R
  }

  /** A successful read of entry `e` (GetValue): the value is handed out and
      a sliding entry's window restarts at `now`. */
  ghost function Read<K, T, V>(s: Store<K, T, V>, e: EntryRef, now: int): (r: Store<K, T, V>)
    requires e in s.entryHeap
    ensures r.entryHeap.Keys == s.entryHeap.Keys && r.entryHeap[e] == Touch(s.entryHeap[e], now)
    ensures RefsResolve(s) ==> RefsResolve(r)
  {
    s.(entryHeap := s.entryHeap[e := Touch(s.entryHeap[e], now)])
  }

  /** The value a lookup of `key` at `now` finds: the stored entry's value
      while the entry is not expired. */
  ghost function Lookup<K, T, V>(s: Store<K, T, V>, key: K, now: int): (r: Option<V>)
    requires RefsResolve(s)
    ensures r.Some? <==> key in s.cacheEntries && !ExpiredAt(s.entryHeap[s.cacheEntries[key]], now)
  {
    if key in s.cacheEntries && !ExpiredAt(s.entryHeap[s.cacheEntries[key]], now) then
      Some(s.entryHeap[s.cacheEntries[key]].value)
    else
      None
  }

  /** The state a lookup leaves: a miss changes nothing, an expired entry is
      removed as by RemoveCacheEntry, a hit is a read. */
  ghost function AfterLookup<K, T, V>(s: Store<K, T, V>, key: K, now: int): (r: Store<K, T, V>)
    requires RefsResolve(s)
    ensures RefsResolve(r)
  {
    if key !in s.cacheEntries then s
    else
      var e := s.cacheEntries[key];
      if ExpiredAt(s.entryHeap[e], now) then Detach(s, Pair(key, e)) else Read(s, e, now)
  }

  /** TryGet: schedule, then look the key up. */
  ghost function TryGetResult<K, T, V>(s: Store<K, T, V>, frequency: int, key: K, now: int): Option<V>
    requires RefsResolve(s)
  {
    Lookup(AfterSchedule(s, frequency, now), key, now)
  }

  ghost function AfterTryGet<K, T, V>(s: Store<K, T, V>, frequency: int, key: K, now: int): (r: Store<K, T, V>)
    requires RefsResolve(s)
    ensures RefsResolve(r)
  {
    AfterLookup(AfterSchedule(s, frequency, now), key, now)
  }

  /** Storing `entry` as a fresh object under `key`, overwriting the map. */
  ghost function Install<K, T, V>(s: Store<K, T, V>, key: K, entry: CacheEntry<V>): (r: Store<K, T, V>)
    requires RefsResolve(s) && entry.tagRefs <= s.tagHeap.Keys
    ensures RefsResolve(r)
  {
    s.(cacheEntries := s.cacheEntries[key := s.nextEntry],
       entryHeap := s.entryHeap[s.nextEntry := entry],
       nextEntry := s.nextEntry + 1)
  }

  /** The install step of Add and GetOrAddCacheEntry: the new entry takes the
      key, and the entry it displaced (if any) is marked expired and
      unbound from its tags; the key itself stays with the new entry. */
  ghost function Replace<K, T, V>(s: Store<K, T, V>, key: K, entry: CacheEntry<V>): (r: Store<K, T, V>)
    requires RefsResolve(s)
    requires entry.tagRefs <= s.tagHeap.Keys
    ensures RefsResolve(r) && r.nextEntry == s.nextEntry + 1
    ensures key in r.cacheEntries && r.cacheEntries[key] == s.nextEntry && r.entryHeap[s.nextEntry] == entry
    ensures r.lastScan == s.lastScan && r.scanRunning == s.scanRunning
  {
    var s1 := Install(s, key, entry);
    if key in s.cacheEntries then Detach(s1, Pair(key, s.cacheEntries[key])) else s1
  }

  /** Install `entry` under `key`, then bind it to `tags`. */
  ghost function Put<K, T, V>(s: Store<K, T, V>, key: K, tags: seq<T>, entry: CacheEntry<V>): (r: Store<K, T, V>)
    requires RefsResolve(s) && entry.tagRefs <= s.tagHeap.Keys
    ensures RefsResolve(r) && s.nextEntry in r.entryHeap
    ensures key in r.cacheEntries && r.cacheEntries[key] == s.nextEntry
    ensures r.entryHeap[s.nextEntry] == entry.(tagRefs := r.entryHeap[s.nextEntry].tagRefs)
    ensures r.lastScan == s.lastScan && r.scanRunning == s.scanRunning
  {
    var s1 := Replace(s, key, entry);
    BindTagsResolve(s1, key, tags, s.nextEntry);
    BindTags(s1, key, tags, s.nextEntry)
  }

  /** Add: reject a non-positive lifetime before anything else, otherwise
      schedule and store the new entry unconditionally. */
  ghost function AfterAdd<K, T, V>(s: Store<K, T, V>, frequency: int, key: K, tags: seq<T>,
                                   isSliding: bool, lifetime: int, value: V, now: int): (r: Store<K, T, V>)
    requires RefsResolve(s)
    ensures RefsResolve(r)
  {
    if lifetime <= 0 then s
    else Put(AfterSchedule(s, frequency, now), key, tags, NewCacheEntry(isSliding, lifetime, value, now))
  }

  /** GetOrAddCacheEntry's condition: the new entry goes in only if the key
      is absent or holds an expired entry. */
  ghost predicate Installs<K, T, V>(s: Store<K, T, V>, key: K, now: int)
    requires RefsResolve(s)
  {
    key !in s.cacheEntries || ExpiredAt(s.entryHeap[s.cacheEntries[key]], now)
  }

  /** GetOrAddCacheEntry: the entry the key ends up holding, and the state. */
  ghost function GetOrAddEntryRef<K, T, V>(s: Store<K, T, V>, key: K, now: int): EntryRef
    requires RefsResolve(s)
  {
    if Installs(s, key, now) then s.nextEntry else s.cacheEntries[key]
  }

  ghost function AfterGetOrAddEntry<K, T, V>(s: Store<K, T, V>, key: K, tags: seq<T>,
                                             entry: CacheEntry<V>, now: int): (r: Store<K, T, V>)
    requires RefsResolve(s) && entry.tagRefs <= s.tagHeap.Keys
    ensures RefsResolve(r) && GetOrAddEntryRef(s, key, now) in r.entryHeap
  {
    if Installs(s, key, now) then Put(s, key, tags, entry) else s
  }

  /** GetOrAdd: reject a non-positive lifetime, otherwise schedule; a live
      entry is read; else a new entry holding the factory's value `made` is
      installed (and bound) and then read. The factory runs exactly when
      the new entry is the one installed. */
  ghost function GetOrAddResult<K, T, V>(s: Store<K, T, V>, frequency: int, key: K, made: V, now: int): (V, bool)
    requires RefsResolve(s)
  {
    var s1 := AfterSchedule(s, frequency, now);
    if Installs(s1, key, now) then (made, true) else (s1.entryHeap[s1.cacheEntries[key]].value, false)
  }

  ghost function AfterGetOrAdd<K, T, V>(s: Store<K, T, V>, frequency: int, key: K, tags: seq<T>,
                                        isSliding: bool, lifetime: int, made: V, now: int): (r: Store<K, T, V>)
    requires RefsResolve(s)
    ensures RefsResolve(r)
  {
    if lifetime <= 0 then s
    else
      var s1 := AfterSchedule(s, frequency, now);
      var s2 := AfterGetOrAddEntry(s1, key, tags, NewCacheEntry(isSliding, lifetime, made, now), now);
      Read(s2, GetOrAddEntryRef(s1, key, now), now)
  }

  /** Remove: take the key out of the map, expire and unbind its entry. */
  ghost function AfterRemove<K, T, V>(s: Store<K, T, V>, key: K): (r: Store<K, T, V>)
    requires RefsResolve(s)
    ensures RefsResolve(r)
  {
    if key in s.cacheEntries then Detach(s, Pair(key, s.cacheEntries[key])) else s
  }

  /** The (key, entry) pairs a TagEntry records. */
  ghost function MemberPairs<K>(m: map<EntryRef, K>): (R: set<(K, EntryRef)>)
    ensures Victims(R) == m.Keys
  {
    var R := set e | e in m :: (m[e], e);
    assert forall e :: e in m ==> (m[e], e) in R;
    R
  }

  /** The pairs of `m` whose entries lie in `among`: the part of a
      TagEntry's members that RemoveByTag has already removed. */
  ghost function PairsAmong<K>(m: map<EntryRef, K>, among: set<EntryRef>): (R: set<(K, EntryRef)>)
    ensures Victims(R) <= m.Keys
  {
    set e | e in among && e in m :: (m[e], e)
  }

  /** The first step of RemoveByTag: the tag leaves the map and its TagEntry
      is marked Removed. */
  ghost function Retire<K, T, V>(s: Store<K, T, V>, tag: T): Store<K, T, V>
    requires RefsResolve(s) && tag in s.tagEntries
  {
    var x := s.tagEntries[tag];
    s.(tagEntries := s.tagEntries - {tag},
       tagHeap := s.tagHeap[x := s.tagHeap[x].(state := Removed)])
  }

  /** RemoveByTag: retire the tag, then remove every entry its TagEntry
      records, each under the key recorded with it. */
  ghost function AfterRemoveByTag<K, T, V>(s: Store<K, T, V>, tag: T): (r: Store<K, T, V>)
    requires Valid(s)
    ensures RefsResolve(r)
  {
    if tag !in s.tagEntries then s
    else
      var x := s.tagEntries[tag];
      var m := s.tagHeap[x].cacheEntries;
      assert x in s.tagEntries.Values;
      assert forall e :: e in m ==> e in s.entryHeap;
      Detach(Retire(s, tag), MemberPairs(m))
  }
}
