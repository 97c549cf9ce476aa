/**
 What the operations promise: each keeps the store consistent, Add is
 last-writer-wins, GetOrAdd installs only over an absent or expired entry,
 a lookup detaches what it finds expired, and removal by key or by tag
 cascades through both maps while missing keys and tags are no-ops.
 */
module CacheProperties {
  import opened Entries
  import opened StoreState
  import opened Detaching
  import opened Binding
  import opened Sweeping
  import opened Operations

  /** Installing before or after detaching the displaced entry is the same:
      the detach leaves the key alone once it names the new entry. */
  lemma ReplaceCommutes<K, T, V>(s: Store<K, T, V>, key: K, entry: CacheEntry<V>)
    requires RefsResolve(s) && entry.tagRefs <= s.tagHeap.Keys && key in s.cacheEntries
    ensures Replace(s, key, entry) == Install(Detach(s, Pair(key, s.cacheEntries[key])), key, entry)
  {
    var prior, n := s.cacheEntries[key], s.nextEntry;
    var R := Pair(key, prior);
    assert R == {(key, prior)};
    DropKeysFresh(s.cacheEntries, key, prior, n);
    MarkVictimsFresh(s.entryHeap, prior, n, entry);
    UnbindVictimsFresh(s.tagHeap, s.entryHeap, prior, n, entry);
  }

  lemma DropKeysFresh<K>(m: map<K, EntryRef>, key: K, prior: EntryRef, n: EntryRef)
    requires prior != n
    ensures DropKeys(m[key := n], {(key, prior)}) == DropKeys(m, {(key, prior)})[key := n]
  {
  }

  lemma MarkVictimsFresh<V>(heap: map<EntryRef, CacheEntry<V>>, prior: EntryRef, n: EntryRef, entry: CacheEntry<V>)
    requires prior != n
    ensures MarkVictims(heap[n := entry], {prior}) == MarkVictims(heap, {prior})[n := entry]
  {
  }

  lemma UnbindVictimsFresh<K, V>(tags: map<TagRef, TagEntry<K>>, heap: map<EntryRef, CacheEntry<V>>,
                                 prior: EntryRef, n: EntryRef, entry: CacheEntry<V>)
    requires prior != n && prior in heap
    ensures UnbindVictims(tags, heap[n := entry], {prior}) == UnbindVictims(tags, heap, {prior})
  {
    forall x | x in tags
      ensures Unlink(tags[x], x, heap[n := entry], {prior}) == Unlink(tags[x], x, heap, {prior})
    {
    }
  }

  /** A fresh, unexpired, untagged entry under a key that was free keeps
      the store consistent, and no Active TagEntry records it. */
  lemma InstallValid<K, T, V>(s: Store<K, T, V>, key: K, entry: CacheEntry<V>)
    requires Valid(s) && key !in s.cacheEntries && !entry.expired && entry.tagRefs == {}
    ensures Valid(Install(s, key, entry)) && Unbound(Install(s, key, entry), s.nextEntry)
  {
    var r := Install(s, key, entry);
    assert s.nextEntry !in s.entryHeap;
    assert KeyMapSound(r) && TagMapSound(r);
    InstallMembers(s, key, entry);
    assert RefsBound(r);
  }

  /** The new entry is recorded by no TagEntry, so every recorded entry
      keeps its key. */
  lemma InstallMembers<K, T, V>(s: Store<K, T, V>, key: K, entry: CacheEntry<V>)
    requires RefsResolve(s) && MembersBound(s) && key !in s.cacheEntries && entry.tagRefs == {}
    ensures RefsResolve(Install(s, key, entry)) && MembersBound(Install(s, key, entry))
    ensures Unbound(Install(s, key, entry), s.nextEntry)
  {
    var r := Install(s, key, entry);
    assert s.nextEntry !in s.entryHeap;
    assert r.tagHeap == s.tagHeap;
    forall x, e | x in r.tagHeap && r.tagHeap[x].state == Active && e in r.tagHeap[x].cacheEntries
      ensures e != s.nextEntry && r.entryHeap[e] == s.entryHeap[e]
      ensures r.tagHeap[x].cacheEntries[e] != key
    {
      assert e in s.entryHeap;
    }
  }

  /** The install step keeps the store consistent and leaves the new entry
      recorded by no Active TagEntry, ready to be bound. */
  lemma ReplaceValid<K, T, V>(s: Store<K, T, V>, key: K, entry: CacheEntry<V>)
    requires Valid(s) && !entry.expired && entry.tagRefs == {}
    ensures Valid(Replace(s, key, entry)) && Unbound(Replace(s, key, entry), s.nextEntry)
  {
    if key in s.cacheEntries {
      var R := Pair(key, s.cacheEntries[key]);
      ReplaceCommutes(s, key, entry);
      DetachValid(s, R);
      InstallValid(Detach(s, R), key, entry);
    } else {
      InstallValid(s, key, entry);
    }
  }

  /** After the install step the displaced entry is expired and recorded by
      no Active TagEntry. */
  lemma ReplaceRetires<K, T, V>(s: Store<K, T, V>, key: K, entry: CacheEntry<V>)
    requires Valid(s) && key in s.cacheEntries && !entry.expired && entry.tagRefs == {}
    ensures var r, prior := Replace(s, key, entry), s.cacheEntries[key];
      prior in r.entryHeap && r.entryHeap[prior].expired && Unbound(r, prior)
  {
    var R := Pair(key, s.cacheEntries[key]);
    ReplaceCommutes(s, key, entry);
    DetachUnbinds(s, R);
  }

  /** Storing and binding keeps the store consistent, and afterwards the
      two sides agree on the new entry: each tag of `tags` is mapped to an
      Active TagEntry recording the entry under `key`, and the entry lists
      exactly those TagEntries. */
  lemma PutAgrees<K, T, V>(s: Store<K, T, V>, key: K, tags: seq<T>, entry: CacheEntry<V>)
    requires Valid(s) && !entry.expired && entry.tagRefs == {}
    ensures var r, e := Put(s, key, tags, entry), s.nextEntry;
      && Valid(r)
      && (forall t :: t in tags ==>
            && t in r.tagEntries
            && r.tagHeap[r.tagEntries[t]].state == Active
            && e in r.tagHeap[r.tagEntries[t]].cacheEntries
            && r.tagHeap[r.tagEntries[t]].cacheEntries[e] == key)
      && r.entryHeap[e].tagRefs == (set t | t in tags :: r.tagEntries[t])
  {
    ReplaceValid(s, key, entry);
    BindTagsAgree(Replace(s, key, entry), key, tags, s.nextEntry);
  }

  /** Detaching the entry under `key` leaves every other key's entry as it
      was, and every other entry in every TagEntry that recorded it. */
  lemma DetachKeyFrame<K, T, V>(s: Store<K, T, V>, key: K)
    requires RefsResolve(s) && KeyMapSound(s) && key in s.cacheEntries
    ensures var e := s.cacheEntries[key];
            var r := Detach(s, Pair(key, e));
      && (forall k :: k in s.cacheEntries && k != key ==> r.entryHeap[s.cacheEntries[k]] == s.entryHeap[s.cacheEntries[k]])
      && (forall y, f :: y in s.tagHeap && f in s.tagHeap[y].cacheEntries && f != e ==>
            y in r.tagHeap && f in r.tagHeap[y].cacheEntries)
  {
    var e := s.cacheEntries[key];
    forall k | k in s.cacheEntries && k != key
      ensures s.cacheEntries[k] != e
    {
    }
  }

  /** The install step leaves the tag map alone, every other key's entry as
      it was, and every entry but the displaced one in every TagEntry that
      recorded it. */
  lemma ReplaceFrame<K, T, V>(s: Store<K, T, V>, key: K, entry: CacheEntry<V>)
    requires RefsResolve(s) && KeyMapSound(s) && entry.tagRefs <= s.tagHeap.Keys
    ensures var r := Replace(s, key, entry);
      && r.tagEntries == s.tagEntries
      && (forall k :: k in s.cacheEntries && k != key ==> r.entryHeap[s.cacheEntries[k]] == s.entryHeap[s.cacheEntries[k]])
      && (forall y, f :: y in s.tagHeap && f in s.tagHeap[y].cacheEntries && !(key in s.cacheEntries && f == s.cacheEntries[key]) ==>
            y in r.tagHeap && f in r.tagHeap[y].cacheEntries)
  {
    if key in s.cacheEntries {
      ReplaceCommutes(s, key, entry);
      DetachKeyFrame(s, key);
    }
  }

  /** Install and bind leave every mapped tag on its TagEntry, every other
      key's entry as it was, and every entry but the displaced one in every
      TagEntry that recorded it. */
  lemma PutFrame<K, T, V>(s: Store<K, T, V>, key: K, tags: seq<T>, entry: CacheEntry<V>)
    requires RefsResolve(s) && KeyMapSound(s) && entry.tagRefs <= s.tagHeap.Keys
    ensures var r := Put(s, key, tags, entry);
      && (forall u :: u in s.tagEntries ==> u in r.tagEntries && r.tagEntries[u] == s.tagEntries[u])
      && (forall k :: k in s.cacheEntries && k != key ==> r.entryHeap[s.cacheEntries[k]] == s.entryHeap[s.cacheEntries[k]])
      && (forall y, f :: y in s.tagHeap && f in s.tagHeap[y].cacheEntries && !(key in s.cacheEntries && f == s.cacheEntries[key]) ==>
            y in r.tagHeap && f in r.tagHeap[y].cacheEntries)
  {
    var s1 := Replace(s, key, entry);
    ReplaceFrame(s, key, entry);
    BindTagsKeepsMembers(s1, key, tags, s.nextEntry);
    forall k | k in s.cacheEntries && k != key
      ensures s.cacheEntries[k] != s.nextEntry
    {
      assert s.cacheEntries[k] in s.entryHeap;
    }
  }

  /** The key map holds `key`'s entry under no other key. */
  lemma PairKeyed<K, T, V>(s: Store<K, T, V>, key: K)
    requires Valid(s) && key in s.cacheEntries
    ensures KeyedBy(s, Pair(key, s.cacheEntries[key]))
  {
  }

  /** Detaching never shortens a lifetime. */
  lemma DetachLifetimes<K, T, V>(s: Store<K, T, V>, R: set<(K, EntryRef)>)
    requires RefsResolve(s) && PositiveLifetimes(s) && Victims(R) <= s.entryHeap.Keys
    ensures PositiveLifetimes(Detach(s, R))
  {
  }

  /** Scheduling keeps everything the operations rely on. */
  lemma ScheduleKeeps<K, T, V>(s: Store<K, T, V>, frequency: int, now: int)
    requires Consistent(s)
    ensures Consistent(AfterSchedule(s, frequency, now))
  {
    ScheduleValid(s, frequency, now);
    if ScanDue(now, frequency, s.lastScan, s.scanRunning) {
      var s1 := s.(lastScan := now, scanRunning := 1);
      DetachLifetimes(s1, ExpiredPairs(s1, now, s1.cacheEntries.Keys));
    }
  }

  /** A read changes nothing the invariant speaks of. */
  lemma ReadKeeps<K, T, V>(s: Store<K, T, V>, e: EntryRef, now: int)
    requires Consistent(s) && e in s.entryHeap
    ensures Consistent(Read(s, e, now))
  {
    var r := Read(s, e, now);
    ReadShape(s, e, now);
    assert KeyMapSound(r) && TagMapSound(r) && RefsBound(r) && PositiveLifetimes(r);
    ReadMembers(s, e, now);
  }

  /** A read keeps every entry's flag, tag set and lifetime. */
  lemma ReadShape<K, T, V>(s: Store<K, T, V>, e: EntryRef, now: int)
    requires e in s.entryHeap
    ensures var r := Read(s, e, now);
      && r.cacheEntries == s.cacheEntries && r.tagEntries == s.tagEntries && r.tagHeap == s.tagHeap
      && forall f :: f in s.entryHeap ==>
           && r.entryHeap[f].expired == s.entryHeap[f].expired
           && r.entryHeap[f].tagRefs == s.entryHeap[f].tagRefs
           && r.entryHeap[f].lifetime == s.entryHeap[f].lifetime
  {
  }

  lemma ReadMembers<K, T, V>(s: Store<K, T, V>, e: EntryRef, now: int)
    requires RefsResolve(s) && MembersBound(s) && e in s.entryHeap
    ensures RefsResolve(Read(s, e, now)) && MembersBound(Read(s, e, now))
  {
    ReadShape(s, e, now);
  }

  /** The install step puts the new entry under `key` and leaves every
      other key, and every lifetime, as it was. */
  lemma ReplaceKeys<K, T, V>(s: Store<K, T, V>, key: K, entry: CacheEntry<V>)
    requires RefsResolve(s) && entry.tagRefs <= s.tagHeap.Keys
    ensures Replace(s, key, entry).cacheEntries == s.cacheEntries[key := s.nextEntry]
    ensures forall f :: f in s.entryHeap ==> Replace(s, key, entry).entryHeap[f].lifetime == s.entryHeap[f].lifetime
  {
    if key in s.cacheEntries {
      ReplaceCommutes(s, key, entry);
      DropKeysFresh(s.cacheEntries, key, s.cacheEntries[key], s.nextEntry);
    }
  }

  /** Storing a new entry with a positive lifetime keeps everything the
      operations rely on; the key map gains the new entry under `key` and
      nothing else changes in it. */
  lemma PutKeeps<K, T, V>(s: Store<K, T, V>, key: K, tags: seq<T>, entry: CacheEntry<V>)
    requires Consistent(s) && !entry.expired && entry.lifetime > 0 && entry.tagRefs == {}
    ensures Consistent(Put(s, key, tags, entry))
    ensures Put(s, key, tags, entry).cacheEntries == s.cacheEntries[key := s.nextEntry]
  {
    PutAgrees(s, key, tags, entry);
    ReplaceKeys(s, key, entry);
    var r := Put(s, key, tags, entry);
    forall k | k in r.cacheEntries
      ensures r.entryHeap[r.cacheEntries[k]].lifetime > 0
    {
      if k != key {
        assert s.cacheEntries[k] in s.entryHeap;
      }
    }
  }

  /** TryGet keeps everything the operations rely on. */
  lemma TryGetKeeps<K, T, V>(s: Store<K, T, V>, frequency: int, key: K, now: int)
    requires Consistent(s)
    ensures Consistent(AfterTryGet(s, frequency, key, now))
  {
    ScheduleKeeps(s, frequency, now);
    var s1 := AfterSchedule(s, frequency, now);
    if key in s1.cacheEntries {
      var e := s1.cacheEntries[key];
      if ExpiredAt(s1.entryHeap[e], now) {
        PairKeyed(s1, key);
        DetachValid(s1, Pair(key, e));
        DetachLifetimes(s1, Pair(key, e));
      } else {
        ReadKeeps(s1, e, now);
      }
    }
  }

  /** A lookup succeeds exactly when the key holds an entry live at `now`,
      and then returns its value and keeps it; a miss changes nothing; an
      expired entry is taken out of the key map, marked expired and unbound
      from every tag. No other key and no tag mapping changes, and every
      other key's entry stays as it was and in every TagEntry that recorded
      it. */
  lemma LookupEffect<K, T, V>(s: Store<K, T, V>, key: K, now: int)
    requires Consistent(s)
    ensures var r, v := AfterLookup(s, key, now), Lookup(s, key, now);
      && (v.Some? <==> key in s.cacheEntries && !ExpiredAt(s.entryHeap[s.cacheEntries[key]], now))
      && (v.Some? ==> v.value == s.entryHeap[s.cacheEntries[key]].value)
      && (key !in s.cacheEntries ==> r == s)
      && (v.Some? ==> r.cacheEntries == s.cacheEntries)
      && (v.None? ==> r.cacheEntries == s.cacheEntries - {key})
      && r.tagEntries == s.tagEntries
      && (key in s.cacheEntries && v.None? ==>
            var e := s.cacheEntries[key]; r.entryHeap[e].expired && Unbound(r, e))
      && (forall k :: k in r.cacheEntries && k != key ==> r.entryHeap[r.cacheEntries[k]] == s.entryHeap[s.cacheEntries[k]])
      && (forall y, f :: y in s.tagHeap && f in s.tagHeap[y].cacheEntries &&
                         !(key in s.cacheEntries && f == s.cacheEntries[key]) ==>
            y in r.tagHeap && f in r.tagHeap[y].cacheEntries)
  {
    if key in s.cacheEntries && ExpiredAt(s.entryHeap[s.cacheEntries[key]], now) {
      LookupExpired(s, key, now);
      DetachKeyFrame(s, key);
    }
  }

  /** A lookup that finds an expired entry detaches it from its key alone. */
  lemma LookupExpired<K, T, V>(s: Store<K, T, V>, key: K, now: int)
    requires Valid(s) && key in s.cacheEntries && ExpiredAt(s.entryHeap[s.cacheEntries[key]], now)
    ensures var r, e := AfterLookup(s, key, now), s.cacheEntries[key];
      r.cacheEntries == s.cacheEntries - {key} && r.entryHeap[e].expired && Unbound(r, e)
  {
    var e := s.cacheEntries[key];
    PairKeyed(s, key);
    DetachUnbinds(s, Pair(key, e));
  }

  /** Add keeps everything the operations rely on. */
  lemma AddKeeps<K, T, V>(s: Store<K, T, V>, frequency: int, key: K, tags: seq<T>,
                          isSliding: bool, lifetime: int, value: V, now: int)
    requires Consistent(s)
    ensures Consistent(AfterAdd(s, frequency, key, tags, isSliding, lifetime, value, now))
  {
    if lifetime > 0 {
      ScheduleKeeps(s, frequency, now);
      PutKeeps(AfterSchedule(s, frequency, now), key, tags, NewCacheEntry(isSliding, lifetime, value, now));
    }
  }

  /** A non-positive lifetime is refused before anything happens. */
  lemma AddRejects<K, T, V>(s: Store<K, T, V>, frequency: int, key: K, tags: seq<T>,
                            isSliding: bool, lifetime: int, value: V, now: int)
    requires RefsResolve(s) && lifetime <= 0
    ensures AfterAdd(s, frequency, key, tags, isSliding, lifetime, value, now) == s
  {
  }

  /** Add is last-writer-wins: the key now holds a fresh entry with the
      given value, unexpired; no other key changes, and every other key's
      entry stays as it was and in every TagEntry that recorded it; every
      tag already mapped keeps its TagEntry; the
      entry it displaced is expired and unbound from every tag; and the new
      entry is bound to exactly the given tags, each recording it under
      `key`. */
  lemma AddStores<K, T, V>(s: Store<K, T, V>, frequency: int, key: K, tags: seq<T>,
                           isSliding: bool, lifetime: int, value: V, now: int)
    requires Consistent(s) && lifetime > 0
    ensures var s1, r := AfterSchedule(s, frequency, now), AfterAdd(s, frequency, key, tags, isSliding, lifetime, value, now);
            var e := s1.nextEntry;
      && e !in s1.entryHeap
      && r.cacheEntries == s1.cacheEntries[key := e]
      && r.entryHeap[e].value == value && !r.entryHeap[e].expired
      && (forall t :: t in tags ==>
            && t in r.tagEntries
            && r.tagHeap[r.tagEntries[t]].state == Active
            && e in r.tagHeap[r.tagEntries[t]].cacheEntries
            && r.tagHeap[r.tagEntries[t]].cacheEntries[e] == key)
      && r.entryHeap[e].tagRefs == (set t | t in tags :: r.tagEntries[t])
      && (key in s1.cacheEntries ==>
            var prior := s1.cacheEntries[key]; r.entryHeap[prior].expired && Unbound(r, prior))
      && (forall u :: u in s1.tagEntries ==> u in r.tagEntries && r.tagEntries[u] == s1.tagEntries[u])
      && (forall k :: k in r.cacheEntries && k != key ==> r.entryHeap[r.cacheEntries[k]] == s1.entryHeap[s1.cacheEntries[k]])
      && (forall y, f :: y in s1.tagHeap && f in s1.tagHeap[y].cacheEntries &&
                         !(key in s1.cacheEntries && f == s1.cacheEntries[key]) ==>
            y in r.tagHeap && f in r.tagHeap[y].cacheEntries)
  {
    ScheduleKeeps(s, frequency, now);
    var s1 := AfterSchedule(s, frequency, now);
    var entry := NewCacheEntry(isSliding, lifetime, value, now);
    PutAgrees(s1, key, tags, entry);
    PutKeeps(s1, key, tags, entry);
    PutFrame(s1, key, tags, entry);
    if key in s1.cacheEntries {
      ReplaceRetires(s1, key, entry);
    }
  }

  /** An Add followed by a TryGet of the same key at the same instant finds
      the value just added. */
  lemma AddThenTryGet<K, T, V>(s: Store<K, T, V>, frequency: int, key: K, tags: seq<T>,
                               isSliding: bool, lifetime: int, value: V, now: int)
    requires Consistent(s) && frequency > 0 && lifetime > 0
    ensures TryGetResult(AfterAdd(s, frequency, key, tags, isSliding, lifetime, value, now), frequency, key, now)
            == Some(value)
  {
    ScheduleSettles(s, frequency, now);
    AddStores(s, frequency, key, tags, isSliding, lifetime, value, now);
  }

  /** GetOrAdd keeps everything the operations rely on. */
  lemma GetOrAddKeeps<K, T, V>(s: Store<K, T, V>, frequency: int, key: K, tags: seq<T>,
                               isSliding: bool, lifetime: int, made: V, now: int)
    requires Consistent(s)
    ensures Consistent(AfterGetOrAdd(s, frequency, key, tags, isSliding, lifetime, made, now))
  {
    if lifetime > 0 {
      ScheduleKeeps(s, frequency, now);
      var s1 := AfterSchedule(s, frequency, now);
      var entry := NewCacheEntry(isSliding, lifetime, made, now);
      if Installs(s1, key, now) {
        PutKeeps(s1, key, tags, entry);
      }
      ReadKeeps(AfterGetOrAddEntry(s1, key, tags, entry, now), GetOrAddEntryRef(s1, key, now), now);
    }
  }

  /** A non-positive lifetime is refused before anything happens. */
  lemma GetOrAddRejects<K, T, V>(s: Store<K, T, V>, frequency: int, key: K, tags: seq<T>,
                                 isSliding: bool, lifetime: int, made: V, now: int)
    requires RefsResolve(s) && lifetime <= 0
    ensures AfterGetOrAdd(s, frequency, key, tags, isSliding, lifetime, made, now) == s
  {
  }

  /** GetOrAdd over a live entry returns that entry's value without running
      the factory; it installs nothing and binds nothing: the key map, the
      tag map and every TagEntry stay as they were. */
  lemma GetOrAddHit<K, T, V>(s: Store<K, T, V>, frequency: int, key: K, tags: seq<T>,
                             isSliding: bool, lifetime: int, made: V, now: int)
    requires Consistent(s) && lifetime > 0
    requires !Installs(AfterSchedule(s, frequency, now), key, now)
    ensures var s1, r := AfterSchedule(s, frequency, now),
                         AfterGetOrAdd(s, frequency, key, tags, isSliding, lifetime, made, now);
      && key in s1.cacheEntries
      && GetOrAddResult(s, frequency, key, made, now) == (s1.entryHeap[s1.cacheEntries[key]].value, false)
      && r.cacheEntries == s1.cacheEntries && r.tagEntries == s1.tagEntries && r.tagHeap == s1.tagHeap
      && r.nextEntry == s1.nextEntry && r.nextTag == s1.nextTag
  {
  }

  /** GetOrAdd over an absent or expired entry runs the factory and returns
      its value; the key now holds a fresh entry with that value, bound to
      exactly the given tags; the expired entry it displaced is unbound;
      every other key's entry stays as it was and in every TagEntry that
      recorded it, and every tag already mapped keeps its TagEntry. */
  lemma GetOrAddMiss<K, T, V>(s: Store<K, T, V>, frequency: int, key: K, tags: seq<T>,
                              isSliding: bool, lifetime: int, made: V, now: int)
    requires Consistent(s) && lifetime > 0
    requires Installs(AfterSchedule(s, frequency, now), key, now)
    ensures var s1, r := AfterSchedule(s, frequency, now),
                         AfterGetOrAdd(s, frequency, key, tags, isSliding, lifetime, made, now);
            var e := s1.nextEntry;
      && GetOrAddResult(s, frequency, key, made, now) == (made, true)
      && e !in s1.entryHeap
      && r.cacheEntries == s1.cacheEntries[key := e]
      && r.entryHeap[e].value == made && !ExpiredAt(r.entryHeap[e], now)
      && (forall t :: t in tags ==>
            && t in r.tagEntries
            && r.tagHeap[r.tagEntries[t]].state == Active
            && e in r.tagHeap[r.tagEntries[t]].cacheEntries
            && r.tagHeap[r.tagEntries[t]].cacheEntries[e] == key)
      && r.entryHeap[e].tagRefs == (set t | t in tags :: r.tagEntries[t])
      && (key in s1.cacheEntries ==>
            var prior := s1.cacheEntries[key]; r.entryHeap[prior].expired && Unbound(r, prior))
      && (forall u :: u in s1.tagEntries ==> u in r.tagEntries && r.tagEntries[u] == s1.tagEntries[u])
      && (forall k :: k in r.cacheEntries && k != key ==> r.entryHeap[r.cacheEntries[k]] == s1.entryHeap[s1.cacheEntries[k]])
      && (forall y, f :: y in s1.tagHeap && f in s1.tagHeap[y].cacheEntries &&
                         !(key in s1.cacheEntries && f == s1.cacheEntries[key]) ==>
            y in r.tagHeap && f in r.tagHeap[y].cacheEntries)
  {
    ScheduleKeeps(s, frequency, now);
    var s1 := AfterSchedule(s, frequency, now);
    var entry := NewCacheEntry(isSliding, lifetime, made, now);
    PutAgrees(s1, key, tags, entry);
    PutKeeps(s1, key, tags, entry);
    PutFrame(s1, key, tags, entry);
    if key in s1.cacheEntries {
      ReplaceRetires(s1, key, entry);
    }
  }

  /** The entry GetOrAdd hands out is live at `now` and keeps the key. */
  lemma GetOrAddLeavesLive<K, T, V>(s: Store<K, T, V>, frequency: int, key: K, tags: seq<T>,
                                    isSliding: bool, lifetime: int, made: V, now: int)
    requires Consistent(s) && lifetime > 0
    ensures var r := AfterGetOrAdd(s, frequency, key, tags, isSliding, lifetime, made, now);
      && key in r.cacheEntries
      && !ExpiredAt(r.entryHeap[r.cacheEntries[key]], now)
      && r.entryHeap[r.cacheEntries[key]].value == GetOrAddResult(s, frequency, key, made, now).0
      && r.lastScan == AfterSchedule(s, frequency, now).lastScan
      && r.scanRunning == AfterSchedule(s, frequency, now).scanRunning
  {
    ScheduleKeeps(s, frequency, now);
    var s1 := AfterSchedule(s, frequency, now);
    if Installs(s1, key, now) {
      GetOrAddMiss(s, frequency, key, tags, isSliding, lifetime, made, now);
    } else {
      var e := s1.cacheEntries[key];
      assert s1.entryHeap[e].lifetime > 0;
    }
  }

  /** The factory runs at most once per key at one instant: a second
      GetOrAdd of the same key returns what the first returned and does not
      run its own factory. */
  lemma GetOrAddTwice<K, T, V>(s: Store<K, T, V>, frequency: int, key: K, tags: seq<T>,
                               isSliding: bool, lifetime: int, made: V, made2: V, now: int)
    requires Consistent(s) && frequency > 0 && lifetime > 0
    ensures var r := AfterGetOrAdd(s, frequency, key, tags, isSliding, lifetime, made, now);
      GetOrAddResult(r, frequency, key, made2, now) == (GetOrAddResult(s, frequency, key, made, now).0, false)
  {
    var r := AfterGetOrAdd(s, frequency, key, tags, isSliding, lifetime, made, now);
    GetOrAddLeavesLive(s, frequency, key, tags, isSliding, lifetime, made, now);
    ScheduleSettles(s, frequency, now);
    assert AfterSchedule(r, frequency, now) == r;
  }

  /** Remove keeps everything the operations rely on. */
  lemma RemoveKeeps<K, T, V>(s: Store<K, T, V>, key: K)
    requires Consistent(s)
    ensures Consistent(AfterRemove(s, key))
  {
    if key in s.cacheEntries {
      PairKeyed(s, key);
      DetachValid(s, Pair(key, s.cacheEntries[key]));
      DetachLifetimes(s, Pair(key, s.cacheEntries[key]));
    }
  }

  /** Remove takes exactly `key` out of the key map, marks its entry expired
      and unbinds it from every tag; on an absent key it changes nothing.
      Every other key's entry stays as it was and in every TagEntry that
      recorded it. */
  lemma RemoveEffect<K, T, V>(s: Store<K, T, V>, key: K)
    requires Consistent(s)
    ensures var r := AfterRemove(s, key);
      && r.cacheEntries == s.cacheEntries - {key}
      && r.tagEntries == s.tagEntries
      && (key !in s.cacheEntries ==> r == s)
      && (key in s.cacheEntries ==> var e := s.cacheEntries[key]; r.entryHeap[e].expired && Unbound(r, e))
      && (forall k :: k in r.cacheEntries ==> r.entryHeap[r.cacheEntries[k]] == s.entryHeap[s.cacheEntries[k]])
      && (forall y, f :: y in s.tagHeap && f in s.tagHeap[y].cacheEntries &&
                         !(key in s.cacheEntries && f == s.cacheEntries[key]) ==>
            y in r.tagHeap && f in r.tagHeap[y].cacheEntries)
  {
    if key in s.cacheEntries {
      PairKeyed(s, key);
      DetachUnbinds(s, Pair(key, s.cacheEntries[key]));
      DetachKeyFrame(s, key);
      }
  }

  /** Taking a tag out of the map and marking its TagEntry Removed keeps the
      store consistent. */
  lemma RetireValid<K, T, V>(s: Store<K, T, V>, tag: T)
    requires Valid(s) && tag in s.tagEntries
    ensures Valid(Retire(s, tag))
  {
    RetireTagMap(s, tag);
    var r := Retire(s, tag);
    assert RefsResolve(r) && KeyMapSound(r);
    assert MembersBound(r);
    assert RefsBound(r);
  }

  lemma RetireTagMap<K, T, V>(s: Store<K, T, V>, tag: T)
    requires Valid(s) && tag in s.tagEntries
    ensures RefsResolve(Retire(s, tag)) && TagMapSound(Retire(s, tag))
  {
    var r, x := Retire(s, tag), s.tagEntries[tag];
    forall y | y in r.tagHeap
      ensures r.tagHeap[y].state == Active <==> y in r.tagEntries.Values
    {
      if y != x && y in s.tagEntries.Values {
        var u :| u in s.tagEntries && s.tagEntries[u] == y;
        assert u in r.tagEntries;
      }
    }
  }

  /** The pairs a TagEntry records name each entry under its only key. */
  lemma MemberPairsKeyed<K, T, V>(s: Store<K, T, V>, tag: T)
    requires Valid(s) && tag in s.tagEntries
    ensures var m := s.tagHeap[s.tagEntries[tag]].cacheEntries;
      m.Keys <= s.entryHeap.Keys && KeyedBy(Retire(s, tag), MemberPairs(m))
  {
    var x := s.tagEntries[tag];
    assert x in s.tagEntries.Values;
  }

  /** RemoveByTag's loop, one member further: detaching the next member
      after those already removed is detaching them all at once. */
  lemma RemoveMemberStep<K, T, V>(s: Store<K, T, V>, m: map<EntryRef, K>, done: set<EntryRef>, e: EntryRef)
    requires RefsResolve(s) && m.Keys <= s.entryHeap.Keys && e in m
    ensures var d := Detach(s, PairsAmong(m, done));
      RefsResolve(d) && e in d.entryHeap &&
      Detach(d, {(m[e], e)}) == Detach(s, PairsAmong(m, done + {e}))
  {
    var A := PairsAmong(m, done);
    assert PairsAmong(m, done + {e}) == A + {(m[e], e)};
    DetachTwice(s, A, {(m[e], e)});
  }

  /** RemoveByTag's loop, at its ends: nothing removed yet, and every
      member removed. */
  lemma PairsAmongEnds<K>(m: map<EntryRef, K>)
    ensures PairsAmong(m, {}) == {} && PairsAmong(m, m.Keys) == MemberPairs(m)
  {
  }

  /** RemoveByTag keeps everything the operations rely on. */
  lemma RemoveByTagKeeps<K, T, V>(s: Store<K, T, V>, tag: T)
    requires Consistent(s)
    ensures Consistent(AfterRemoveByTag(s, tag))
  {
    if tag in s.tagEntries {
      var m := s.tagHeap[s.tagEntries[tag]].cacheEntries;
      RetireValid(s, tag);
      MemberPairsKeyed(s, tag);
      DetachValid(Retire(s, tag), MemberPairs(m));
      DetachLifetimes(Retire(s, tag), MemberPairs(m));
    }
  }

  /** RemoveByTag on a tag the map does not hold changes nothing. */
  lemma RemoveByTagAbsent<K, T, V>(s: Store<K, T, V>, tag: T)
    requires Consistent(s) && tag !in s.tagEntries
    ensures AfterRemoveByTag(s, tag) == s
  {
  }

  /** RemoveByTag cascades: the tag leaves the map and its TagEntry is
      Removed; a key leaves the key map exactly when its entry is bound to
      the tag, and every key that stays keeps its entry untouched. */
  lemma RemoveByTagKeys<K, T, V>(s: Store<K, T, V>, tag: T)
    requires Consistent(s) && tag in s.tagEntries
    ensures var r, x := AfterRemoveByTag(s, tag), s.tagEntries[tag];
      && r.tagEntries == s.tagEntries - {tag}
      && r.tagHeap[x].state == Removed
      && (forall k :: k in s.cacheEntries ==> (k in r.cacheEntries <==> x !in s.entryHeap[s.cacheEntries[k]].tagRefs))
      && (forall k :: k in r.cacheEntries ==>
            k in s.cacheEntries && r.cacheEntries[k] == s.cacheEntries[k]
            && r.entryHeap[r.cacheEntries[k]] == s.entryHeap[s.cacheEntries[k]])
  {
    var x, m := s.tagEntries[tag], s.tagHeap[s.tagEntries[tag]].cacheEntries;
    var s1, R := Retire(s, tag), MemberPairs(m);
    var r := AfterRemoveByTag(s, tag);
    assert x in s.tagEntries.Values;
    MemberPairsKeyed(s, tag);
    forall k | k in s.cacheEntries
      ensures (k, s.cacheEntries[k]) in R <==> x in s.entryHeap[s.cacheEntries[k]].tagRefs
    {
      var e := s.cacheEntries[k];
      if x in s.entryHeap[e].tagRefs {
        assert e in m;
        assert s.cacheEntries[m[e]] == e;
        assert (m[e], e) in R;
      }
    }
    forall k | k in r.cacheEntries
      ensures r.entryHeap[r.cacheEntries[k]] == s.entryHeap[s.cacheEntries[k]]
    {
      assert s.cacheEntries[k] !in Victims(R);
    }
  }

  /** After RemoveByTag every entry the tag recorded is expired and bound to
      no tag, while the other entries stay in every TagEntry that held
      them. */
  lemma RemoveByTagUnbinds<K, T, V>(s: Store<K, T, V>, tag: T)
    requires Consistent(s) && tag in s.tagEntries
    ensures var r, m := AfterRemoveByTag(s, tag), s.tagHeap[s.tagEntries[tag]].cacheEntries;
      && (forall e :: e in m ==> r.entryHeap[e].expired && Unbound(r, e))
      && (forall y, e :: y in s.tagHeap && y != s.tagEntries[tag] && e in s.tagHeap[y].cacheEntries && e !in m ==>
            e in r.tagHeap[y].cacheEntries)
  {
    var m := s.tagHeap[s.tagEntries[tag]].cacheEntries;
    RetireValid(s, tag);
    MemberPairsKeyed(s, tag);
    DetachUnbinds(Retire(s, tag), MemberPairs(m));
  }

  /** Adding under a tag and then removing by that tag leaves the key
      unmapped, whatever else the cache holds. */
  lemma AddThenRemoveByTag<K, T, V>(s: Store<K, T, V>, frequency: int, key: K, tags: seq<T>,
                                    isSliding: bool, lifetime: int, value: V, now: int, tag: T)
    requires Consistent(s) && lifetime > 0 && tag in tags
    ensures var r := AfterAdd(s, frequency, key, tags, isSliding, lifetime, value, now);
      Consistent(r) && key !in AfterRemoveByTag(r, tag).cacheEntries
  {
    var r := AfterAdd(s, frequency, key, tags, isSliding, lifetime, value, now);
    AddKeeps(s, frequency, key, tags, isSliding, lifetime, value, now);
    AddStores(s, frequency, key, tags, isSliding, lifetime, value, now);
    RemoveByTagKeys(r, tag);
  }

  /** An Add leaves every other key where it was, bound to every tag it
      was bound to (as scheduled at `now`). */
  lemma AddKeepsOtherBindings<K, T, V>(s: Store<K, T, V>, frequency: int, key: K, tags: seq<T>,
                                       isSliding: bool, lifetime: int, value: V, now: int, k: K, u: T)
    requires Consistent(s) && lifetime > 0 && k != key
    ensures var s1, r := AfterSchedule(s, frequency, now), AfterAdd(s, frequency, key, tags, isSliding, lifetime, value, now);
      k in s1.cacheEntries && u in s1.tagEntries && s1.tagEntries[u] in s1.entryHeap[s1.cacheEntries[k]].tagRefs ==>
        k in r.cacheEntries && u in r.tagEntries && r.tagEntries[u] in r.entryHeap[r.cacheEntries[k]].tagRefs
  {
    AddStores(s, frequency, key, tags, isSliding, lifetime, value, now);
  }

  /** Right after an Add at `now`, a schedule at the same `now` is a no-op. */
  lemma AddSettles<K, T, V>(s: Store<K, T, V>, frequency: int, key: K, tags: seq<T>,
                            isSliding: bool, lifetime: int, value: V, now: int)
    requires Consistent(s) && frequency > 0 && lifetime > 0
    ensures var r := AfterAdd(s, frequency, key, tags, isSliding, lifetime, value, now);
      AfterSchedule(r, frequency, now) == r
  {
    ScheduleSettles(s, frequency, now);
  }

  /** Two keys added under the same tag at the same instant both go with
      one RemoveByTag of that tag: the second Add leaves the first key's
      entry in the tag's TagEntry. */
  lemma AddTwiceThenRemoveByTag<K, T, V>(s: Store<K, T, V>, frequency: int, a: K, b: K, tag: T,
                                         isSliding: bool, lifetime: int, va: V, vb: V, now: int)
    requires Consistent(s) && frequency > 0 && lifetime > 0 && a != b
    ensures var r1 := AfterAdd(s, frequency, a, [tag], isSliding, lifetime, va, now);
            var r2 := AfterAdd(r1, frequency, b, [tag], isSliding, lifetime, vb, now);
      Consistent(r2) && a !in AfterRemoveByTag(r2, tag).cacheEntries && b !in AfterRemoveByTag(r2, tag).cacheEntries
  {
    var r1 := AfterAdd(s, frequency, a, [tag], isSliding, lifetime, va, now);
    var r2 := AfterAdd(r1, frequency, b, [tag], isSliding, lifetime, vb, now);
    AddTagged(s, frequency, a, tag, isSliding, lifetime, va, now);
    AddKeeps(s, frequency, a, [tag], isSliding, lifetime, va, now);
    AddSettles(s, frequency, a, [tag], isSliding, lifetime, va, now);
    AddKeepsOtherBindings(r1, frequency, b, [tag], isSliding, lifetime, vb, now, a, tag);
    AddThenRemoveByTag(r1, frequency, b, [tag], isSliding, lifetime, vb, now, tag);
    RemoveByTagKeys(r2, tag);
  }

  /** An Add under a single tag binds the key's new entry to that tag. */
  lemma AddTagged<K, T, V>(s: Store<K, T, V>, frequency: int, key: K, tag: T,
                           isSliding: bool, lifetime: int, value: V, now: int)
    requires Consistent(s) && lifetime > 0
    ensures var r := AfterAdd(s, frequency, key, [tag], isSliding, lifetime, value, now);
      key in r.cacheEntries && tag in r.tagEntries && r.tagEntries[tag] in r.entryHeap[r.cacheEntries[key]].tagRefs
  {
    AddStores(s, frequency, key, [tag], isSliding, lifetime, value, now);
  }
}
