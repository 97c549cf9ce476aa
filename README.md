# MemoryCache: a verified model of a tag-aware, time-expiring cache

`Common.Cache.MemoryCache` stores values under keys. Each value sits in a
CacheEntry with a lifetime that is either fixed (counted from creation) or
sliding (counted from the last read). An entry may be bound to tags. The
cache keeps two dictionaries:

- `_cacheEntries` maps a key to its CacheEntry.
- `_tagEntries` maps a tag to a TagEntry, the reverse index of the entries
  bound to that tag (each recorded with its key). A TagEntry is Active,
  Evicted (drained to empty by the sweep) or Removed (invalidated by
  `RemoveByTag`).

The public operations are `TryGet`, `Add` (last writer wins), `GetOrAdd`
(installs only over an absent or expired entry), `Remove` and `RemoveByTag`
(removes every entry bound to the tag). A throttled expiration sweep drops
expired entries and retires drained TagEntries.

The model is sequential. Every public operation is one atomic step at an
explicit time `now`, counted in 100-nanosecond ticks.

- `entries.dfy` (module `Entries`): the CacheEntry and TagEntry records and
  the entry-level operations the cache calls. These are expiry at a time,
  MarkAsExpired, and the read that restarts a sliding window.
- `store.dfy` (module `StoreState`): the whole mutable state as one value, a
  `Store`. It holds:
  - both dictionaries;
  - the CacheEntry and TagEntry objects, as maps from reference to record,
    so object identity is a number;
  - the allocation counters;
  - the two sweep-throttle fields.

  The module also defines the consistency the operations keep. The two
  central facts are:
  - an entry is in an Active TagEntry's set if and only if the entry lists
    that TagEntry and is not expired;
  - an Active TagEntry records an entry only under the key that maps to
    that entry;
  - a mapped (hence unexpired) entry is recorded, under that key, by every
    Active TagEntry it lists.
- `detaching.dfy` (module `Detaching`): `RemoveCacheEntry` lifted to a set of
  (key, entry) pairs. It removes the key only while it still names that
  entry, marks the entry expired, and unbinds it from its Active TagEntries.
  `Remove`, `RemoveByTag`, the sweep and `Add`'s replacement of an older
  entry are all instances of it.
- `binding.dfy` (module `Binding`): `BindToTagEntries` as a function of the
  tag sequence, and what a clean bind establishes.
- `sweeping.dfy` (module `Sweeping`): the throttle decision and the two
  phases of `ScanForExpiredEntries`.
- `operations.dfy` (module `Operations`): what each public operation
  returns and the state it leaves, as functions of the state before.
- `properties.dfy` (module `CacheProperties`): what the operations promise.
- `memory_cache.dfy` (module `Cache`): class `MemoryCache`, whose fields
  mirror the source's fields. Each method updates them in place and is
  proved to leave exactly the state its specification function describes.
  Its loops carry the invariants that tie them to that function.

`ScatterEvictedTagEntry` re-binds the members of the TagEntry's own set
(lines 314-331 of `Common/Cache/MemoryCache.cs`), and the scan calls it
only for a TagEntry it found empty (line 299), so in the model that loop
has nothing to visit.

## Model

| member | source | states |
|---|---|---|
| Cache.MemoryCache.constructor | Common/Cache/MemoryCache.cs:18-30 | with a positive scan frequency, both maps start empty, no sweep is running, the store is consistent and the frequency is kept |
| Cache.MemoryCache.Default | Common/Cache/MemoryCache.cs:32-35 | the parameterless constructor scans at most once a minute (600,000,000 ticks) and starts empty |
| Cache.MemoryCache.Create | Common/Cache/MemoryCache.cs:18-30 | construction fails with ScanFrequencyOutOfRange if and only if the frequency is at most zero; otherwise it yields a fresh, empty, consistent cache |
| Cache.MemoryCache.GetValue | Common/Cache/MemoryCache.cs:58-59 | a read hands out the entry's value; a sliding entry's window restarts at `now` |
| Cache.MemoryCache.TryGet | Common/Cache/MemoryCache.cs:37-60 | schedules a sweep, then returns the value exactly when the key holds an entry live at `now`; an expired entry is removed on the spot; the cache stays consistent |
| Cache.MemoryCache.ReplaceEntry | Common/Cache/MemoryCache.cs:74-87 | the new entry takes the key; the entry it displaces is marked expired and unbound from its tags |
| Cache.MemoryCache.Add | Common/Cache/MemoryCache.cs:62-93 | fails with LifetimeOutOfRange if and only if the lifetime is at most zero, and then changes nothing; otherwise schedules, stores and binds as AfterAdd says; the cache stays consistent |
| Cache.MemoryCache.GetOrAdd | Common/Cache/MemoryCache.cs:95-117 | fails if and only if the lifetime is at most zero, changing nothing and running no factory; otherwise returns the live entry's value, or installs and returns the factory's value, and reports which; the cache stays consistent |
| Cache.MemoryCache.GetOrAddCacheEntry | Common/Cache/MemoryCache.cs:143-174 | installs the new entry only over an absent or expired one, binds it only then, and returns the entry the key ends up holding |
| Cache.MemoryCache.BindToTagEntries | Common/Cache/MemoryCache.cs:176-203 | clears the entry's own TagEntry set, then binds it tag by tag; the loop invariant ties each prefix of the tags to BindTags |
| Cache.MemoryCache.BindToTagEntry | Common/Cache/MemoryCache.cs:180-201 | one tag: fetch the tag's TagEntry or create a fresh Active one, record the entry under its key, and list the TagEntry in the entry's set |
| Cache.MemoryCache.UnbindFromTagEntries | Common/Cache/MemoryCache.cs:205-221 | removes the entry from exactly the Active TagEntries it lists; nothing else changes |
| Cache.MemoryCache.RemoveCacheEntry | Common/Cache/MemoryCache.cs:223-230 | drops the key only while it still names the entry, marks the entry expired and unbinds it (Detach of one pair) |
| Cache.MemoryCache.Remove | Common/Cache/MemoryCache.cs:232-241 | an absent key is a no-op; otherwise the key leaves the map and its entry is expired and unbound; the cache stays consistent |
| Cache.MemoryCache.RemoveByTag | Common/Cache/MemoryCache.cs:243-258 | an absent tag is a no-op; otherwise the tag leaves the map, its TagEntry is marked Removed and every entry it records is removed under its recorded key; the cache stays consistent |
| Cache.MemoryCache.RemoveMembers | Common/Cache/MemoryCache.cs:250-256 | the loop over a retired TagEntry's members removes them all, whatever the order |
| Cache.MemoryCache.RemoveMember | Common/Cache/MemoryCache.cs:252-255 | one member more removed is one pair more detached |
| Cache.MemoryCache.ScheduleScanForExpiredEntries | Common/Cache/MemoryCache.cs:264-277 | sweeps only when more than one scan period has passed since the last scan and no sweep is running, recording `now` as the last scan |
| Cache.MemoryCache.ScanForExpiredEntries | Common/Cache/MemoryCache.cs:279-306 | removes the expired keys, then scatters the drained tags, then clears the running flag (Swept) |
| Cache.MemoryCache.RemoveExpiredEntries | Common/Cache/MemoryCache.cs:283-292 | the key loop detaches exactly the keys whose entry is expired at `now` |
| Cache.MemoryCache.SweepKey | Common/Cache/MemoryCache.cs:285-291 | one key more examined: its entry is detached if expired, otherwise nothing changes |
| Cache.MemoryCache.EvictDrainedTags | Common/Cache/MemoryCache.cs:294-303 | the tag loop scatters exactly the tags whose TagEntry is empty |
| Cache.MemoryCache.ScatterEvictedTagEntry | Common/Cache/MemoryCache.cs:308-313 | the tag leaves the map only while it still names the drained TagEntry, which becomes Evicted |
| Entries.NewCacheEntry | Common/Cache/MemoryCache.cs:74 | a new entry holds the value, is bound to nothing, is live from `now` for exactly `lifetime` ticks and expired from then on |
| Entries.ExpiredAt | Common/Cache/MemoryCache.cs:50 | defines CheckIfExpired at a time: the flag is set, or at least `lifetime` ticks have passed since creation (fixed) or the last read (sliding); the same test serves lines 50, 149 and 288 |
| Entries.MarkAsExpired | Common/Cache/MemoryCache.cs:227 | marking is irreversible: the entry is expired at every time; value, tags and policy are kept |
| Entries.Touch | Common/Cache/MemoryCache.cs:58 | a read keeps value, tags and flag; a fixed entry is unchanged; a live sliding entry is live for exactly `lifetime` ticks from the read |
| Entries.NewTagEntry | Common/Cache/MemoryCache.cs:186 | a tag's first TagEntry is Active and records exactly the entry that created it, under its key |
| Entries.FixedDeadline | Common/Cache/MemoryCache.cs:50 | however often a fixed entry is read, it expires exactly at creation + lifetime |
| Entries.SlidingDeadline | Common/Cache/MemoryCache.cs:58 | after reads, a sliding entry expires exactly one lifetime after the last read |
| Entries.TouchAll | Common/Cache/MemoryCache.cs:58 | defines the entry after GetValue calls at the given times, in order, each a Touch |
| Entries.SlidingStaysLive | Common/Cache/MemoryCache.cs:50 | reads of a sliding entry spaced less than its lifetime apart each find it live |
| StoreState.TwoSided | Common/Cache/MemoryCache.cs:198-201 | in a consistent store, an entry is in an Active TagEntry's set if and only if it lists that TagEntry and is not expired |
| StoreState.ThrottleIndependent | Common/Cache/MemoryCache.cs:260-262 | the throttle fields play no part in consistency |
| StoreState.EmptyStore | Common/Cache/MemoryCache.cs:27-29 | the initial state has both maps empty and is consistent |
| StoreState.Unbound | Common/Cache/MemoryCache.cs:205-221 | defines "no Active TagEntry records the entry": what UnbindFromTagEntries leaves for a detached entry |
| Detaching.Detach | Common/Cache/MemoryCache.cs:223-230 | detaching keeps every object and every entry's tag set; keys are only removed, and only those naming a detached entry; every detached entry is expired |
| Detaching.DropKeys | Common/Cache/MemoryCache.cs:225 | defines the key-map side of RemoveCacheEntry: a key is dropped only while it still names the detached entry |
| Detaching.MarkVictims | Common/Cache/MemoryCache.cs:227 | defines MarkAsExpired applied to every detached entry, all other entries unchanged |
| Detaching.Unlink | Common/Cache/MemoryCache.cs:211-217 | defines one TagEntry after UnbindFromTagEntries: an Active TagEntry drops the detached entries that list it; a non-Active one is untouched |
| Detaching.UnbindVictims | Common/Cache/MemoryCache.cs:205-221 | defines UnbindFromTagEntries over every detached entry, as Unlink on each TagEntry |
| Detaching.DetachTwice | Common/Cache/MemoryCache.cs:223-230 | removing entries one after another equals removing them all at once, in any order |
| Detaching.DetachValid | Common/Cache/MemoryCache.cs:223-230 | detaching entries, each under its only key, keeps the store consistent |
| Detaching.DetachUnbinds | Common/Cache/MemoryCache.cs:205-230 | detached entries are expired and in no Active TagEntry; every other entry stays in every TagEntry that held it |
| Detaching.UnlinkSingle | Common/Cache/MemoryCache.cs:211-217 | unbinding one entry touches only the Active TagEntries it lists |
| Detaching.DetachOne | Common/Cache/MemoryCache.cs:223-230 | RemoveCacheEntry's three steps, in order, amount to Detach of one pair |
| Detaching.DetachNothing | Common/Cache/MemoryCache.cs:223-230 | detaching no pair changes nothing |
| Binding.BindOne | Common/Cache/MemoryCache.cs:180-201 | after one bind step the tag is mapped, its TagEntry holds the entry, and the entry lists that TagEntry; a missing tag gets a fresh TagEntry |
| Binding.BindTags | Common/Cache/MemoryCache.cs:176-203 | binding leaves the key map and every other entry alone; already mapped tags keep their TagEntry; every tag given ends up mapped |
| Binding.BindOneValid | Common/Cache/MemoryCache.cs:180-201 | one bind step of a live, installed entry keeps the store consistent |
| Binding.BindTagsValid | Common/Cache/MemoryCache.cs:176-203 | binding a live, installed, unbound entry to any tags keeps the store consistent |
| Binding.BindTagsStep | Common/Cache/MemoryCache.cs:180-201 | the bind loop, one tag further, stays consistent and adds exactly one bind step |
| Binding.BindTagsFresh | Common/Cache/MemoryCache.cs:186 | binding maps only the given tags anew, each to a newly allocated TagEntry |
| Binding.BindTagsRefs | Common/Cache/MemoryCache.cs:198-201 | after binding, the entry lists exactly the TagEntries of the given tags |
| Binding.BindTagsAgree | Common/Cache/MemoryCache.cs:176-203 | after a clean bind both sides agree: each tag is mapped to an Active TagEntry recording the entry under its key and listed by the entry, and a missing tag got a fresh TagEntry |
| Binding.BindTagsKeepsMembers | Common/Cache/MemoryCache.cs:176-203 | binding only adds: every tag already mapped keeps its TagEntry, and every TagEntry keeps every entry it recorded |
| Binding.BindOneKeepsMembers | Common/Cache/MemoryCache.cs:186-188 | one bind step removes no entry from any TagEntry |
| Sweeping.Swept | Common/Cache/MemoryCache.cs:279-306 | a sweep keeps the last-scan time and leaves the running flag clear |
| Sweeping.ScanDue | Common/Cache/MemoryCache.cs:268-270 | defines the throttle test: more than one scan period has passed since the last scan, and no scan is running |
| Sweeping.AfterSchedule | Common/Cache/MemoryCache.cs:264-277 | defines ScheduleScanForExpiredEntries: when the scan is due, stamp `now`, set the running flag and sweep to completion; otherwise nothing changes |
| Sweeping.ExpiredPairs | Common/Cache/MemoryCache.cs:283-292 | defines the key phase's victims: the (key, entry) pairs whose entry is expired at `now`, each entry in the heap |
| Sweeping.Drained | Common/Cache/MemoryCache.cs:299 | defines the tag phase's test: the tag is mapped to a TagEntry whose set is empty |
| Sweeping.EvictAmong | Common/Cache/MemoryCache.cs:294-303 | defines the tag phase over a set of tags: each drained tag leaves the map and its TagEntry becomes Evicted; references still resolve |
| Sweeping.Scatter | Common/Cache/MemoryCache.cs:308-313 | defines ScatterEvictedTagEntry on a drained TagEntry: the tag leaves the map only while it still names that TagEntry, which becomes Evicted |
| Sweeping.ScanThrottle | Common/Cache/MemoryCache.cs:264-277 | once a schedule at `now` has swept, a schedule at `later` sweeps again (stamped `later`) exactly when `later > now + frequency`, and otherwise leaves the store as it is |
| Sweeping.SweptValid | Common/Cache/MemoryCache.cs:279-306 | a sweep keeps the store consistent |
| Sweeping.SweptKeys | Common/Cache/MemoryCache.cs:283-292 | after a sweep the key map holds exactly the keys whose entry was live at `now`, each with its entry untouched; none is expired |
| Sweeping.SweptTags | Common/Cache/MemoryCache.cs:294-303 | after a sweep no mapped tag is drained; each drained tag left the map with its TagEntry Evicted; others keep their TagEntry |
| Sweeping.EvictAll | Common/Cache/MemoryCache.cs:294-303 | the tag phase over every tag removes exactly the drained ones and marks them Evicted |
| Sweeping.EvictValid | Common/Cache/MemoryCache.cs:294-303 | retiring drained tags keeps the store consistent |
| Sweeping.ScheduleValid | Common/Cache/MemoryCache.cs:264-277 | scheduling, with or without a sweep, keeps the store consistent |
| Sweeping.ScheduleSettles | Common/Cache/MemoryCache.cs:264-277 | once scheduled at `now`, no further sweep is due at `now`; a sweep that ran records `now` and clears the flag |
| Sweeping.SweepStep | Common/Cache/MemoryCache.cs:285-291 | the key phase one key further: an unexamined key still holds its original entry, which is detached exactly if expired |
| Sweeping.EvictStep | Common/Cache/MemoryCache.cs:296-302 | the tag phase one tag further: a drained tag is scattered, any other is left alone |
| Operations.Read | Common/Cache/MemoryCache.cs:58 | a read changes only the read entry, as Touch says |
| Operations.Lookup | Common/Cache/MemoryCache.cs:43-59 | a lookup finds a value if and only if the key holds an entry live at `now` |
| Operations.AfterLookup | Common/Cache/MemoryCache.cs:43-59 | defines the state a lookup leaves: a hit is read (Read), an expired entry is detached under its key, a miss changes nothing; references still resolve |
| Operations.TryGetResult | Common/Cache/MemoryCache.cs:37-60 | defines what TryGet returns: the lookup's result after the schedule |
| Operations.AfterTryGet | Common/Cache/MemoryCache.cs:37-60 | defines the state TryGet leaves: the schedule, then the lookup |
| Operations.Replace | Common/Cache/MemoryCache.cs:74-87 | after the install step the key names the new entry, which is stored as given; the throttle is untouched |
| Operations.Install | Common/Cache/MemoryCache.cs:74-80 | defines the install step over a free key: the new entry gets the next reference and the key names it; nothing else changes |
| Operations.Put | Common/Cache/MemoryCache.cs:74-92 | after install and bind the key names the new entry, which differs from the given one only in its tag set |
| Operations.AfterAdd | Common/Cache/MemoryCache.cs:62-93 | defines the state Add leaves: a non-positive lifetime changes nothing; otherwise schedule, then install and bind a fresh entry |
| Operations.Installs | Common/Cache/MemoryCache.cs:109 | defines GetOrAdd's test: the key is absent or holds an entry expired at `now` |
| Operations.GetOrAddEntryRef | Common/Cache/MemoryCache.cs:147-173 | defines the entry GetOrAddCacheEntry returns: the new one when it installs, the key's live entry otherwise |
| Operations.AfterGetOrAddEntry | Common/Cache/MemoryCache.cs:143-174 | defines the state GetOrAddCacheEntry leaves: install and bind only when it installs |
| Operations.GetOrAddResult | Common/Cache/MemoryCache.cs:109-116 | defines what GetOrAdd returns: the factory's value and true when it installs, else the live entry's value and false |
| Operations.AfterGetOrAdd | Common/Cache/MemoryCache.cs:95-117 | defines the state GetOrAdd leaves: a non-positive lifetime changes nothing; otherwise schedule, then install when due, then read the key's entry |
| Operations.AfterRemove | Common/Cache/MemoryCache.cs:232-241 | defines the state Remove leaves: an absent key changes nothing; otherwise its entry is detached under it |
| Operations.MemberPairs | Common/Cache/MemoryCache.cs:250-253 | the pairs RemoveByTag removes name exactly the TagEntry's members |
| Operations.PairsAmong | Common/Cache/MemoryCache.cs:250-256 | defines the members RemoveByTag's loop has already removed; their entries are all members |
| Operations.Retire | Common/Cache/MemoryCache.cs:246-248 | defines RemoveByTag's first step: the tag leaves the map and its TagEntry is marked Removed |
| Operations.AfterRemoveByTag | Common/Cache/MemoryCache.cs:243-258 | defines the state RemoveByTag leaves: an absent tag changes nothing; otherwise retire the tag, then detach every member under its recorded key |
| CacheProperties.ReplaceCommutes | Common/Cache/MemoryCache.cs:76-87 | installing and then expiring the displaced entry equals expiring it first and then installing |
| CacheProperties.InstallValid | Common/Cache/MemoryCache.cs:74-80 | a fresh, live, untagged entry under a free key keeps the store consistent and is in no Active TagEntry |
| CacheProperties.ReplaceValid | Common/Cache/MemoryCache.cs:74-87 | the install step keeps the store consistent and leaves the new entry in no Active TagEntry |
| CacheProperties.ReplaceRetires | Common/Cache/MemoryCache.cs:82-87 | after the install step the displaced entry is expired and in no Active TagEntry |
| CacheProperties.PutAgrees | Common/Cache/MemoryCache.cs:74-92 | after install and bind the store is consistent and both sides agree on the new entry's tags |
| CacheProperties.DetachKeyFrame | Common/Cache/MemoryCache.cs:223-230 | removing one key's entry leaves every other key's entry as it was and every other entry in every TagEntry that recorded it |
| CacheProperties.ReplaceFrame | Common/Cache/MemoryCache.cs:74-87 | the install step leaves the tag map, every other key's entry, and every entry but the displaced one in its TagEntries |
| CacheProperties.PutFrame | Common/Cache/MemoryCache.cs:74-92 | install and bind keep every mapped tag on its TagEntry, every other key's entry as it was, and every entry but the displaced one in its TagEntries |
| CacheProperties.ReplaceKeys | Common/Cache/MemoryCache.cs:76-80 | the install step changes the key map only at the key |
| CacheProperties.PutKeeps | Common/Cache/MemoryCache.cs:74-92 | install and bind keep the store consistent and change the key map only at the key |
| CacheProperties.ScheduleKeeps | Common/Cache/MemoryCache.cs:264-277 | scheduling keeps everything the operations rely on |
| CacheProperties.ReadKeeps | Common/Cache/MemoryCache.cs:58 | a read keeps the store consistent |
| CacheProperties.TryGetKeeps | Common/Cache/MemoryCache.cs:37-60 | TryGet keeps the store consistent |
| CacheProperties.LookupEffect | Common/Cache/MemoryCache.cs:43-59 | a hit returns the stored value and keeps the key; a miss on an absent key changes nothing; an expired entry leaves the key map and is expired and unbound; no tag mapping changes; every other key's entry stays as it was and in every TagEntry that recorded it |
| CacheProperties.LookupExpired | Common/Cache/MemoryCache.cs:50-56 | an expired entry found by a lookup is detached from its key alone |
| CacheProperties.AddKeeps | Common/Cache/MemoryCache.cs:62-93 | Add keeps the store consistent |
| CacheProperties.AddRejects | Common/Cache/MemoryCache.cs:65-68 | Add with a lifetime of at most zero leaves the state exactly as it was |
| CacheProperties.AddStores | Common/Cache/MemoryCache.cs:74-92 | last writer wins: the key holds a fresh live entry with the value, no other key changes, every other key's entry stays as it was and in every TagEntry that recorded it, every mapped tag keeps its TagEntry, the displaced entry is expired and unbound, and the new entry is bound to exactly the given tags |
| CacheProperties.AddThenTryGet | Common/Cache/MemoryCache.cs:74-92 | TryGet right after Add, at the same instant, returns the added value |
| CacheProperties.GetOrAddKeeps | Common/Cache/MemoryCache.cs:95-117 | GetOrAdd keeps the store consistent |
| CacheProperties.GetOrAddRejects | Common/Cache/MemoryCache.cs:99-102 | GetOrAdd with a lifetime of at most zero leaves the state exactly as it was |
| CacheProperties.GetOrAddHit | Common/Cache/MemoryCache.cs:109-116 | over a live entry GetOrAdd returns its value without running the factory, and installs and binds nothing |
| CacheProperties.GetOrAddMiss | Common/Cache/MemoryCache.cs:147-173 | over an absent or expired entry GetOrAdd returns the factory's value; the key holds a fresh entry bound to exactly the tags; the displaced entry is unbound; every other key's entry stays as it was and in every TagEntry that recorded it, and every mapped tag keeps its TagEntry |
| CacheProperties.GetOrAddLeavesLive | Common/Cache/MemoryCache.cs:109-116 | after GetOrAdd the key holds a live entry whose value is the one returned |
| CacheProperties.GetOrAddTwice | Common/Cache/MemoryCache.cs:109-116 | a second GetOrAdd of the key at the same instant returns the first one's value and does not run its factory |
| CacheProperties.RemoveKeeps | Common/Cache/MemoryCache.cs:232-241 | Remove keeps the store consistent |
| CacheProperties.RemoveEffect | Common/Cache/MemoryCache.cs:232-241 | Remove takes exactly the key out; its entry is expired and unbound; an absent key is a no-op; the tag map is untouched; every other key's entry stays as it was and in every TagEntry that recorded it |
| CacheProperties.RetireValid | Common/Cache/MemoryCache.cs:246-248 | taking the tag out and marking its TagEntry Removed keeps the store consistent |
| CacheProperties.MemberPairsKeyed | Common/Cache/MemoryCache.cs:250-256 | each member of the retired TagEntry is the entry the key map holds under its recorded key, and under no other key |
| CacheProperties.RemoveMemberStep | Common/Cache/MemoryCache.cs:250-256 | RemoveByTag's loop one member further is one pair more detached |
| CacheProperties.PairsAmongEnds | Common/Cache/MemoryCache.cs:250-256 | the loop starts with nothing removed and ends with every member removed |
| CacheProperties.RemoveByTagKeeps | Common/Cache/MemoryCache.cs:243-258 | RemoveByTag keeps the store consistent |
| CacheProperties.RemoveByTagAbsent | Common/Cache/MemoryCache.cs:246 | RemoveByTag of an unmapped tag changes nothing |
| CacheProperties.RemoveByTagKeys | Common/Cache/MemoryCache.cs:243-258 | the tag leaves the map with its TagEntry Removed; a key leaves the key map if and only if its entry was bound to the tag; the other keys keep their entries untouched |
| CacheProperties.RemoveByTagUnbinds | Common/Cache/MemoryCache.cs:250-256 | every member of the tag ends expired and in no Active TagEntry; other entries stay in every TagEntry that held them |
| CacheProperties.AddThenRemoveByTag | Common/Cache/MemoryCache.cs:89-92 | after Add under a tag, RemoveByTag of that tag leaves the key unmapped |
| CacheProperties.AddTagged | Common/Cache/MemoryCache.cs:89-92 | after Add under a single tag, the key's entry lists that tag's TagEntry |
| CacheProperties.AddSettles | Common/Cache/MemoryCache.cs:264-277 | right after an Add at `now`, a schedule at the same `now` changes nothing |
| CacheProperties.AddKeepsOtherBindings | Common/Cache/MemoryCache.cs:74-92 | an Add under another key leaves a key mapped and bound to every tag it was bound to |
| CacheProperties.AddTwiceThenRemoveByTag | Common/Cache/MemoryCache.cs:243-258 | two keys added under one tag at one instant are both unmapped by RemoveByTag of that tag |

## Left out

- Concurrency is not modelled: the concurrent dictionaries' atomic callbacks, `lock`, `Interlocked`, `Volatile` and the thread pool. Each operation is one atomic step. The sweep runs to completion inside `ScheduleScanForExpiredEntries`, before the caller continues.
- Cache.MemoryCache.BindToTagEntry: does not model the race re-check and retry (lines 190-196). That check aborts when the entry was expired or the TagEntry removed meanwhile, and retries when the TagEntry was evicted. Run sequentially, none of this can happen, so the model asserts the entry is live and the TagEntry Active instead of branching.
- Cache.MemoryCache.ScatterEvictedTagEntry: requires the TagEntry's set to be empty, which is how its only caller, the scan, calls it. Its re-bind loop over that set (lines 314-331) therefore never runs and is not modelled.
- `GetOrAddAsync` (lines 119-141) and the lazy cells `LazyValue`/`LazyTask` are not modelled. `GetOrAdd`'s factory is modelled by the value it yields (`made`). `factoryRan` reports whether the new entry was the one installed. Factory failure, task results and the at-most-once guarantee between threads are not modelled.
- `GetValue<T>`'s type coercion is not modelled: all stored values have one type `V`.
- Null arguments are not modelled, since Dafny values are never null. In the source:
  - `TryGet`, `Add` and `GetOrAdd` throw ArgumentNullException for a null key (lines 39, 64, 98), and `GetOrAdd` for a null factory (line 103);
  - `Remove(null)` and `RemoveByTag(null)` throw from the dictionaries (lines 235, 246);
  - a null element of `tags` makes `_tagEntries.GetOrAdd` throw (line 186) after the entry is installed and bound to the earlier tags, leaving it installed and partly bound;
  - `tags == null` binds the new entry to no tag, which the model expresses as an empty sequence.
- `CacheEntry` and `TagEntry` are not part of this model; only the members the cache calls are modelled, as inferred from their use:
  - `CheckIfExpired` at a time is "flag set, or at least `lifetime` ticks since creation (fixed) or last read (sliding)";
  - `GetValue` restarts a sliding window;
  - `MarkAsExpired` sets a one-way flag;
  - a TagEntry's state is Active, Evicted or Removed.
- Clock reads: `DateTime.UtcNow` becomes the parameter `now`. The source reads the clock at lines 266, 272 and 281, and the entries read it when checking expiry; the model uses one instant for the whole operation.
- Tick arithmetic: durations and times are unbounded integer ticks. In the source, `DateTime.UtcNow - _expirationScanFrequency` (line 266) throws ArgumentOutOfRangeException when the result would fall before `DateTime.MinValue`; it does not wrap. The constructor (line 20) accepts such a frequency, and every `TryGet`, `Add` and `GetOrAdd` on that cache then throws. The model does not capture this: `ScanDue` computes `now - frequency` for any frequency.
- Memory reclamation is not modelled: removed CacheEntries and TagEntries stay in the reference maps, as garbage the source would collect.
- Enumeration order: the loops visit keys, tags and members in an arbitrary order (`:|`), and every proof holds for every order. The loops iterate over a snapshot of the keys taken at loop entry; while a loop runs it only removes keys it has already visited.
- Context files that are not part of this model: `AspNet.Mvc/Helpers/TimeZoneHelper.cs`, `MrAdvice/ValidateAnnotations/ValidateAnnotationsAttribute.cs` and `Common/Extensions/TaskExtensions.cs`. They are framework plumbing outside the cache.
