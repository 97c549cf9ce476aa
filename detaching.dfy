/**
 Detaching entries from the cache. `RemoveCacheEntry(key, entry)` removes
 the key only while it still maps to that entry (`_cacheEntries.Remove(key,
 entry)`), marks the entry expired, and unbinds it from every Active
 TagEntry it lists. `Detach(s, R)` is that step for a whole set R of
 (key, entry) pairs; Remove, RemoveByTag, the sweep and Add's replacement of
 an older entry are all instances of it.
 */
module Detaching {
  import opened Entries
  import opened StoreState

  /** The entries a set of (key, entry) pairs names. */
  ghost function Victims<K>(R: set<(K, EntryRef)>): set<EntryRef>
  {
    set p | p in R :: p.1
  }

  /** Conditional key removal for every pair of R. */
  ghost function DropKeys<K>(m: map<K, EntryRef>, R: set<(K, EntryRef)>): map<K, EntryRef>
  {
    map k | k in m && (k, m[k]) !in R :: m[k]
  }

  /** MarkAsExpired applied to every entry of E. */
  ghost function MarkVictims<V>(heap: map<EntryRef, CacheEntry<V>>, E: set<EntryRef>): map<EntryRef, CacheEntry<V>>
  {
    map e | e in heap :: if e in E then MarkAsExpired(heap[e]) else heap[e]
  }

  /** TagEntry `x` after UnbindFromTagEntries of every entry of E: an
      Active TagEntry forgets the entries of E that list it; a TagEntry
      that is no longer Active is left alone. */
  ghost function Unlink<K, V>(te: TagEntry<K>, x: TagRef, heap: map<EntryRef, CacheEntry<V>>, E: set<EntryRef>): TagEntry<K>
    requires E <= heap.Keys
  {
    if te.state == Active then
      te.(cacheEntries := map e | e in te.cacheEntries && !(e in E && x in heap[e].tagRefs) :: te.cacheEntries[e])
    else
      te
  }

  ghost function UnbindVictims<K, V>(tags: map<TagRef, TagEntry<K>>, heap: map<EntryRef, CacheEntry<V>>, E: set<EntryRef>)
    : map<TagRef, TagEntry<K>>
    requires E <= heap.Keys
  {
    map x | x in tags :: Unlink(tags[x], x, heap, E)
  }

  /** RemoveCacheEntry for every pair of R. Only the three components it
      names change; objects are never created or destroyed, no entry's tag
      set changes, and TagEntries keep their states. */
  ghost function Detach<K, T, V>(s: Store<K, T, V>, R: set<(K, EntryRef)>): (r: Store<K, T, V>)
    requires Victims(R) <= s.entryHeap.Keys
    ensures r.entryHeap.Keys == s.entryHeap.Keys && r.tagHeap.Keys == s.tagHeap.Keys
    ensures forall e :: e in s.entryHeap ==> r.entryHeap[e].tagRefs == s.entryHeap[e].tagRefs
    ensures forall x :: x in s.tagHeap ==>
              r.tagHeap[x].state == s.tagHeap[x].state &&
              r.tagHeap[x].cacheEntries.Keys <= s.tagHeap[x].cacheEntries.Keys
    ensures forall k :: k in r.cacheEntries ==> k in s.cacheEntries && r.cacheEntries[k] == s.cacheEntries[k]
    ensures forall k :: k in s.cacheEntries && (k, s.cacheEntries[k]) !in R ==> k in r.cacheEntries
    ensures forall e :: e in Victims(R) ==> r.entryHeap[e].expired
    ensures RefsResolve(s) ==> RefsResolve(r)
  {
    s.(cacheEntries := DropKeys(s.cacheEntries, R),
       entryHeap := MarkVictims(s.entryHeap, Victims(R)),
       tagHeap := UnbindVictims(s.tagHeap, s.entryHeap, Victims(R)))
  }

  /** R names each of its entries under the only key that may map to it. */
  ghost predicate KeyedBy<K, T, V>(s: Store<K, T, V>, R: set<(K, EntryRef)>)
  {
    forall p, k :: p in R && k in s.cacheEntries && s.cacheEntries[k] == p.1 ==> k == p.0
  }

  lemma DropKeysTwice<K>(m: map<K, EntryRef>, A: set<(K, EntryRef)>, B: set<(K, EntryRef)>)
    ensures DropKeys(DropKeys(m, A), B) == DropKeys(m, A + B)
  {
  }

  lemma MarkVictimsTwice<V>(heap: map<EntryRef, CacheEntry<V>>, A: set<EntryRef>, B: set<EntryRef>)
    ensures MarkVictims(MarkVictims(heap, A), B) == MarkVictims(heap, A + B)
  {
    var lhs, rhs := MarkVictims(MarkVictims(heap, A), B), MarkVictims(heap, A + B);
    forall e | e in heap
      ensures lhs[e] == rhs[e]
    {
    }
  }

  lemma UnbindVictimsTwice<K, V>(tags: map<TagRef, TagEntry<K>>, heap: map<EntryRef, CacheEntry<V>>,
                                 A: set<EntryRef>, B: set<EntryRef>)
    requires A + B <= heap.Keys
    ensures UnbindVictims(UnbindVictims(tags, heap, A), MarkVictims(heap, A), B) == UnbindVictims(tags, heap, A + B)
  {
    var heap1 := MarkVictims(heap, A);
    var lhs, rhs := UnbindVictims(UnbindVictims(tags, heap, A), heap1, B), UnbindVictims(tags, heap, A + B);
    forall x | x in tags
      ensures lhs[x] == rhs[x]
    {
      if tags[x].state == Active {
        var c := tags[x].cacheEntries;
        var c1 := Unlink(tags[x], x, heap, A).cacheEntries;
        forall e | e in c
          ensures (e in c1 && !(e in B && x in heap1[e].tagRefs)) <==> !(e in A + B && x in heap[e].tagRefs)
        {
        }
        assert lhs[x].cacheEntries == rhs[x].cacheEntries;
      }
    }
  }

  /** Detaching pair by pair is detaching all pairs at once, whatever the
      order: the loops that call RemoveCacheEntry rest on this. */
  lemma DetachTwice<K, T, V>(s: Store<K, T, V>, A: set<(K, EntryRef)>, B: set<(K, EntryRef)>)
    requires Victims(A + B) <= s.entryHeap.Keys
    ensures Detach(Detach(s, A), B) == Detach(s, A + B)
  {
    assert Victims(A + B) == Victims(A) + Victims(B);
    DropKeysTwice(s.cacheEntries, A, B);
    MarkVictimsTwice(s.entryHeap, Victims(A), Victims(B));
    UnbindVictimsTwice(s.tagHeap, s.entryHeap, Victims(A), Victims(B));
  }

  /** Detaching pairs that name each entry under its only key keeps the
      store consistent. */
  lemma DetachValid<K, T, V>(s: Store<K, T, V>, R: set<(K, EntryRef)>)
    requires Valid(s) && Victims(R) <= s.entryHeap.Keys && KeyedBy(s, R)
    ensures Valid(Detach(s, R))
  {
    var r := Detach(s, R);
    assert RefsResolve(r);
    DetachKeyMapSound(s, R);
    assert TagMapSound(r);
    DetachMembersBound(s, R);
    DetachRefsBound(s, R);
  }

  lemma DetachKeyMapSound<K, T, V>(s: Store<K, T, V>, R: set<(K, EntryRef)>)
    requires Valid(s) && Victims(R) <= s.entryHeap.Keys && KeyedBy(s, R)
    ensures RefsResolve(Detach(s, R)) && KeyMapSound(Detach(s, R))
  {
    var r, V := Detach(s, R), Victims(R);
    forall k | k in r.cacheEntries
      ensures !r.entryHeap[r.cacheEntries[k]].expired
    {
      assert s.cacheEntries[k] !in V;
    }
  }

  lemma DetachMembersBound<K, T, V>(s: Store<K, T, V>, R: set<(K, EntryRef)>)
    requires RefsResolve(s) && MembersBound(s) && Victims(R) <= s.entryHeap.Keys
    ensures RefsResolve(Detach(s, R)) && MembersBound(Detach(s, R))
  {
    DetachedMembersBound(s, R, Detach(s, R));
  }

  /** DetachMembersBound on the three components Detach computes. */
  lemma DetachedMembersBound<K, T, V>(s: Store<K, T, V>, R: set<(K, EntryRef)>, r: Store<K, T, V>)
    requires RefsResolve(s) && MembersBound(s) && Victims(R) <= s.entryHeap.Keys && RefsResolve(r)
    requires r == s.(cacheEntries := DropKeys(s.cacheEntries, R),
                     entryHeap := MarkVictims(s.entryHeap, Victims(R)),
                     tagHeap := UnbindVictims(s.tagHeap, s.entryHeap, Victims(R)))
    ensures MembersBound(r)
  {
    forall x, e | x in r.tagHeap && r.tagHeap[x].state == Active && e in r.tagHeap[x].cacheEntries
      ensures e in r.entryHeap && !r.entryHeap[e].expired && x in r.entryHeap[e].tagRefs
      ensures r.tagHeap[x].cacheEntries[e] in r.cacheEntries && r.cacheEntries[r.tagHeap[x].cacheEntries[e]] == e
    {
      assert r.tagHeap[x].state == s.tagHeap[x].state;
      DetachMemberBound(s, R, x, e);
    }
  }

  /** An entry an Active TagEntry still records after the detach was not
      detached, and keeps its key. */
  lemma DetachMemberBound<K, T, V>(s: Store<K, T, V>, R: set<(K, EntryRef)>, x: TagRef, e: EntryRef)
    requires RefsResolve(s) && MembersBound(s) && Victims(R) <= s.entryHeap.Keys
    requires x in s.tagHeap && s.tagHeap[x].state == Active
    requires e in UnbindVictims(s.tagHeap, s.entryHeap, Victims(R))[x].cacheEntries
    ensures var k := s.tagHeap[x].cacheEntries[e];
      && e in s.entryHeap && e !in Victims(R) && x in s.entryHeap[e].tagRefs
      && UnbindVictims(s.tagHeap, s.entryHeap, Victims(R))[x].cacheEntries[e] == k
      && k in DropKeys(s.cacheEntries, R) && DropKeys(s.cacheEntries, R)[k] == e
      && MarkVictims(s.entryHeap, Victims(R))[e] == s.entryHeap[e]
  {
    var V := Victims(R);
    var te := s.tagHeap[x];
    assert UnbindVictims(s.tagHeap, s.entryHeap, V)[x] == Unlink(te, x, s.entryHeap, V);
    assert e in te.cacheEntries;
    assert e in s.entryHeap && x in s.entryHeap[e].tagRefs;
    assert e !in V;
    var k := te.cacheEntries[e];
    assert k in s.cacheEntries && s.cacheEntries[k] == e;
    assert (k, e) !in R;
  }

  lemma DetachRefsBound<K, T, V>(s: Store<K, T, V>, R: set<(K, EntryRef)>)
    requires Valid(s) && Victims(R) <= s.entryHeap.Keys
    ensures RefsResolve(Detach(s, R)) && RefsBound(Detach(s, R))
  {
  }

  /** After detaching, every named entry is expired and recorded by no
      Active TagEntry, and every other entry's bindings are as they were. */
  lemma DetachUnbinds<K, T, V>(s: Store<K, T, V>, R: set<(K, EntryRef)>)
    requires RefsResolve(s) && MembersBound(s) && Victims(R) <= s.entryHeap.Keys
    ensures forall e :: e in Victims(R) ==> Detach(s, R).entryHeap[e].expired
    ensures forall x, e :: x in s.tagHeap && s.tagHeap[x].state == Active && e in Victims(R) ==>
              e !in Detach(s, R).tagHeap[x].cacheEntries
    ensures forall x, e :: x in s.tagHeap && e in s.tagHeap[x].cacheEntries && e !in Victims(R) ==>
              e in Detach(s, R).tagHeap[x].cacheEntries
  {
  }

  /** Unbinding one entry touches only the Active TagEntries it lists. */
  lemma UnlinkSingle<K, V>(te: TagEntry<K>, x: TagRef, heap: map<EntryRef, CacheEntry<V>>, e: EntryRef)
    requires e in heap
    ensures Unlink(te, x, heap, {e}) ==
              if te.state == Active && x in heap[e].tagRefs then te.(cacheEntries := te.cacheEntries - {e}) else te
  {
    if te.state == Active && x !in heap[e].tagRefs {
      assert Unlink(te, x, heap, {e}).cacheEntries == te.cacheEntries;
    }
  }

  /** RemoveCacheEntry step by step: drop the key if it still names the
      entry, mark the entry expired, then unbind it using its (unchanged)
      tag set. */
  lemma DetachOne<K, T, V>(s: Store<K, T, V>, key: K, e: EntryRef)
    requires e in s.entryHeap
    ensures var heap := s.entryHeap[e := MarkAsExpired(s.entryHeap[e])];
      Victims({(key, e)}) == {e} &&
      Detach(s, {(key, e)}) ==
        s.(cacheEntries := if key in s.cacheEntries && s.cacheEntries[key] == e then s.cacheEntries - {key} else s.cacheEntries,
           entryHeap := heap,
           tagHeap := UnbindVictims(s.tagHeap, heap, {e}))
  {
    var R := {(key, e)};
    assert Victims(R) == {e};
    var heap := s.entryHeap[e := MarkAsExpired(s.entryHeap[e])];
    assert MarkVictims(s.entryHeap, {e}) == heap;
    forall x | x in s.tagHeap
      ensures Unlink(s.tagHeap[x], x, s.entryHeap, {e}) == Unlink(s.tagHeap[x], x, heap, {e})
    {
      UnlinkSingle(s.tagHeap[x], x, s.entryHeap, e);
      UnlinkSingle(s.tagHeap[x], x, heap, e);
    }
  }

  /** Detaching no pair changes nothing. */
  lemma DetachNothing<K, T, V>(s: Store<K, T, V>)
    ensures Detach(s, {}) == s
  {
    var R: set<(K, EntryRef)> := {};
    assert Victims(R) == {};
    assert DropKeys(s.cacheEntries, R) == s.cacheEntries;
    assert MarkVictims(s.entryHeap, {}) == s.entryHeap;
    forall x | x in s.tagHeap
      ensures Unlink(s.tagHeap[x], x, s.entryHeap, {}) == s.tagHeap[x]
    {
      var te := s.tagHeap[x];
      if te.state == Active {
        assert Unlink(te, x, s.entryHeap, {}).cacheEntries == te.cacheEntries;
      }
    }
    assert UnbindVictims(s.tagHeap, s.entryHeap, {}) == s.tagHeap;
  }
}
