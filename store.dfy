/**
 The whole mutable state of a MemoryCache as one value: the key map
 (`_cacheEntries`), the tag map (`_tagEntries`), the CacheEntry and
 TagEntry objects reachable by reference, the reference counters that make
 new objects fresh, and the two sweep-throttle fields. `Valid` is the
 consistency the cache operations keep between the two maps.
 */
module StoreState {
  import opened Entries

  datatype Store<K, T, V> = Store(
    cacheEntries: map<K, EntryRef>,
    tagEntries: map<T, TagRef>,
    entryHeap: map<EntryRef, CacheEntry<V>>,
    tagHeap: map<TagRef, TagEntry<K>>,
    nextEntry: nat,
    nextTag: nat,
    lastScan: int,
    scanRunning: int)

  /** Every tag in the tag map names an existing TagEntry. */
  ghost predicate TagMapResolves<K, T, V>(s: Store<K, T, V>)
  {
    forall t :: t in s.tagEntries ==> s.tagEntries[t] in s.tagHeap
  }

  /** No Active TagEntry records entry `e`. */
  ghost predicate Unbound<K, T, V>(s: Store<K, T, V>, e: EntryRef)
  {
    forall x :: x in s.tagHeap && s.tagHeap[x].state == Active ==> e !in s.tagHeap[x].cacheEntries
  }

  /** Every reference held anywhere resolves, and allocation counters are
      above every object allocated so far. */
  ghost predicate RefsResolve<K, T, V>(s: Store<K, T, V>)
  {
    && (forall k :: k in s.cacheEntries ==> s.cacheEntries[k] in s.entryHeap)
    && TagMapResolves(s)
    && (forall e :: e in s.entryHeap ==> e < s.nextEntry && s.entryHeap[e].tagRefs <= s.tagHeap.Keys)
    && (forall x :: x in s.tagHeap ==> x < s.nextTag)
  }

  /** The key map holds each entry under at most one key, and only entries
      whose expired flag is clear (every path that detaches an entry from
      its key also marks it expired). */
  ghost predicate KeyMapSound<K, T, V>(s: Store<K, T, V>)
    requires RefsResolve(s)
  {
    && (forall k1, k2 ::
          k1 in s.cacheEntries && k2 in s.cacheEntries && s.cacheEntries[k1] == s.cacheEntries[k2] ==> k1 == k2)
    && (forall k :: k in s.cacheEntries ==> !s.entryHeap[s.cacheEntries[k]].expired)
  }

  /** The tag map holds each TagEntry under at most one tag, and the
      TagEntries it holds are exactly the Active ones. */
  ghost predicate TagMapSound<K, T, V>(s: Store<K, T, V>)
    requires RefsResolve(s)
  {
    && (forall t1, t2 ::
          t1 in s.tagEntries && t2 in s.tagEntries && s.tagEntries[t1] == s.tagEntries[t2] ==> t1 == t2)
    && (forall x :: x in s.tagHeap ==> (s.tagHeap[x].state == Active <==> x in s.tagEntries.Values))
  }

  /** Tag side to entry side: an entry recorded by an Active TagEntry is
      unexpired, lists that TagEntry among its own, and is the entry the
      key map holds under the key the TagEntry recorded for it. */
  ghost predicate MembersBound<K, T, V>(s: Store<K, T, V>)
    requires RefsResolve(s)
  {
    forall x, e :: x in s.tagHeap && s.tagHeap[x].state == Active && e in s.tagHeap[x].cacheEntries ==>
      && e in s.entryHeap
      && !s.entryHeap[e].expired
      && x in s.entryHeap[e].tagRefs
      && s.tagHeap[x].cacheEntries[e] in s.cacheEntries
      && s.cacheEntries[s.tagHeap[x].cacheEntries[e]] == e
  }

  /** Entry side to tag side: an unexpired entry is recorded by every
      Active TagEntry it lists. */
  ghost predicate RefsBound<K, T, V>(s: Store<K, T, V>)
    requires RefsResolve(s)
  {
    forall e, x ::
      (e in s.entryHeap && !s.entryHeap[e].expired && x in s.entryHeap[e].tagRefs && s.tagHeap[x].state == Active)
      ==> e in s.tagHeap[x].cacheEntries
  }

  ghost predicate Valid<K, T, V>(s: Store<K, T, V>)
  {
    && RefsResolve(s)
    && KeyMapSound(s)
    && TagMapSound(s)
    && MembersBound(s)
    && RefsBound(s)
  }

  /** Every entry the key map holds has a positive lifetime: Add and
      GetOrAdd refuse any other. */
  ghost predicate PositiveLifetimes<K, T, V>(s: Store<K, T, V>)
    requires RefsResolve(s)
  {
    forall k :: k in s.cacheEntries ==> s.entryHeap[s.cacheEntries[k]].lifetime > 0
  }

  /** Everything the operations keep between calls. */
  ghost predicate Consistent<K, T, V>(s: Store<K, T, V>)
  {
    Valid(s) && PositiveLifetimes(s)
  }

  /** The two-sided invariant, for an Active TagEntry and any entry: the
      entry is in the TagEntry's set if and only if the TagEntry is in the
      entry's set and the entry is not expired. */
  lemma TwoSided<K, T, V>(s: Store<K, T, V>, x: TagRef, e: EntryRef)
    requires Valid(s)
    requires x in s.tagHeap && s.tagHeap[x].state == Active && e in s.entryHeap
    ensures e in s.tagHeap[x].cacheEntries <==> x in s.entryHeap[e].tagRefs && !s.entryHeap[e].expired
  {
  }

  /** The throttle fields play no part in consistency. */
  lemma ThrottleIndependent<K, T, V>(s: Store<K, T, V>, lastScan: int, scanRunning: int)
    requires Valid(s)
    ensures Valid(s.(lastScan := lastScan, scanRunning := scanRunning))
  {
  }

  /** The state of a newly constructed cache: both maps empty. */
  function EmptyStore<K, T, V>(): (s: Store<K, T, V>)
    ensures Consistent(s)
    ensures s.cacheEntries == map[] && s.tagEntries == map[] && s.scanRunning == 0
  {
    Store(map[], map[], map[], map[], 0, 0, 0, 0)
  }
}
