/**
 The two record kinds the cache store keeps: a CacheEntry (one slot: value,
 expiration policy, and the TagEntries it is bound to) and a TagEntry (the
 reverse index from one tag to the entries bound to it, with its lifecycle
 state). Both are heap objects in the cache; here they are records reached
 through an EntryRef or a TagRef, which stand for object identity.

 Time is a tick count supplied by the caller (`now`); lifetimes are tick
 counts as well.
 */
module Entries {

  /** Identity of a CacheEntry object. */
  type EntryRef = nat

  /** Identity of a TagEntry object. */
  type TagRef = nat

  /** Lifecycle of a TagEntry: Active binds new entries; Evicted was drained
      by the sweep; Removed was invalidated by RemoveByTag. */
  datatype TagState = Active | Evicted | Removed

  /** A cached value with its expiration policy. `touchedAt` is the creation
      time, moved forward on each read when the entry is sliding. `expired`
      is the one-way flag set by MarkAsExpired. */
  datatype CacheEntry<V> = CacheEntry(
    value: V,
    isSliding: bool,
    lifetime: int,
    touchedAt: int,
    expired: bool,
    tagRefs: set<TagRef>)

  /** A tag's reverse index: each bound entry with the key it was stored
      under, and the tag's lifecycle state. */
  datatype TagEntry<K> = TagEntry(cacheEntries: map<EntryRef, K>, state: TagState)

  /** CheckIfExpired: the flag is set, or the lifetime has elapsed since the
      entry was created (fixed) or last read (sliding). */
  predicate ExpiredAt<V>(e: CacheEntry<V>, now: int)
  {
    e.expired || now - e.touchedAt >= e.lifetime
  }

  /** A new, unexpired, untagged entry created at `now`. */
  function NewCacheEntry<V>(isSliding: bool, lifetime: int, value: V, now: int): (e: CacheEntry<V>)
    ensures lifetime > 0 ==> !ExpiredAt(e, now)
    ensures forall t :: now <= t < now + lifetime ==> !ExpiredAt(e, t)
    ensures forall t :: now + lifetime <= t ==> ExpiredAt(e, t)
    ensures e.value == value && e.tagRefs == {}
  {
    CacheEntry(value, isSliding, lifetime, now, false, {})
  }

  /** MarkAsExpired: irreversible; the entry is expired at every time from
      then on, and nothing else about it changes. */
  function MarkAsExpired<V>(e: CacheEntry<V>): (r: CacheEntry<V>)
    ensures forall t :: ExpiredAt(r, t)
    ensures r.value == e.value && r.tagRefs == e.tagRefs && r.isSliding == e.isSliding
    ensures r.expired
  {
    e.(expired := true)
  }

  /** The side effect of GetValue on a successful read: a sliding entry's
      window restarts at `now`; a fixed entry is left as it was. */
  function Touch<V>(e: CacheEntry<V>, now: int): (r: CacheEntry<V>)
    ensures r.value == e.value && r.tagRefs == e.tagRefs && r.expired == e.expired
    ensures !e.isSliding ==> r == e
    ensures e.isSliding && !e.expired ==>
              forall t :: now <= t < now + e.lifetime <==> now <= t && !ExpiredAt(r, t)
  {
    if e.isSliding then e.(touchedAt := now) else e
  }

  /** A fresh TagEntry created on the first bind to a tag: Active, holding
      the entry that caused its creation. */
  function NewTagEntry<K>(e: EntryRef, key: K): (r: TagEntry<K>)
    ensures r.state == Active && r.cacheEntries.Keys == {e} && r.cacheEntries[e] == key
  {
    TagEntry(map[e := key], Active)
  }

  /** The entry after a series of reads at the given times. */
  function TouchAll<V>(e: CacheEntry<V>, readTimes: seq<int>): CacheEntry<V>
  {
    if readTimes == [] then e else Touch(TouchAll(e, readTimes[..|readTimes| - 1]), readTimes[|readTimes| - 1])
  }

  /** A fixed entry's deadline does not move however it is read: after any
      number of reads it is expired exactly from creation time + lifetime. */
  lemma {:induction false} FixedDeadline<V>(e: CacheEntry<V>, readTimes: seq<int>)
    requires !e.isSliding
    ensures TouchAll(e, readTimes) == e
    ensures forall t :: ExpiredAt(TouchAll(e, readTimes), t) <==> e.expired || t - e.touchedAt >= e.lifetime
  {
    if readTimes != [] {
      FixedDeadline(e, readTimes[..|readTimes| - 1]);
    }
  }

  /** After a series of reads, a sliding entry's window starts at the last
      read: it expires exactly one lifetime after it (unless flagged). */
  lemma {:induction false} SlidingDeadline<V>(e: CacheEntry<V>, readTimes: seq<int>)
    requires e.isSliding && readTimes != []
    ensures TouchAll(e, readTimes) == e.(touchedAt := readTimes[|readTimes| - 1])
    ensures forall t :: ExpiredAt(TouchAll(e, readTimes), t) <==>
                          e.expired || t - readTimes[|readTimes| - 1] >= e.lifetime
  {
    var n := |readTimes|;
    if n == 1 {
      assert readTimes[..0] == [];
    } else {
      SlidingDeadline(e, readTimes[..n - 1]);
    }
  }

  /** Reads of a sliding entry spaced less than its lifetime apart (the
      first within a lifetime of creation) each find the entry live. */
  lemma SlidingStaysLive<V>(e: CacheEntry<V>, readTimes: seq<int>)
    requires e.isSliding && !e.expired
    requires readTimes != [] && readTimes[0] - e.touchedAt < e.lifetime
    requires forall i :: 0 < i < |readTimes| ==> readTimes[i] - readTimes[i - 1] < e.lifetime
    ensures forall i :: 0 <= i < |readTimes| ==> !ExpiredAt(TouchAll(e, readTimes[..i]), readTimes[i])
  {
    forall i | 0 <= i < |readTimes|
      ensures !ExpiredAt(TouchAll(e, readTimes[..i]), readTimes[i])
    {
      if i == 0 {
        assert readTimes[..0] == [];
      } else {
        SlidingDeadline(e, readTimes[..i]);
      }
    }
  }
}
