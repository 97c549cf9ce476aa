/**
 Binding a newly installed entry to its tags (BindToTagEntries). For each
 tag in turn: fetch the tag's TagEntry, or create a fresh Active one that
 already holds the entry; add the entry under its key if absent; then add
 the TagEntry to the entry's own set. The entry's set is cleared first.
 */
module Binding {
  import opened Entries
  import opened StoreState

  /** One iteration of the bind loop, for tag `t`. */
  ghost function BindOne<K, T, V>(s: Store<K, T, V>, key: K, t: T, e: EntryRef): (r: Store<K, T, V>)
    requires e in s.entryHeap && TagMapResolves(s)
    ensures e in r.entryHeap && TagMapResolves(r)
    ensures t in r.tagEntries && e in r.tagHeap[r.tagEntries[t]].cacheEntries
    ensures r.entryHeap[e] == s.entryHeap[e].(tagRefs := s.entryHeap[e].tagRefs + {r.tagEntries[t]})
    ensures r.nextTag >= s.nextTag && (t !in s.tagEntries ==> r.tagEntries[t] == s.nextTag)
  {
    if t in s.tagEntries then
      var x := s.tagEntries[t];
      var te := s.tagHeap[x];
      var te' := if e in te.cacheEntries then te else te.(cacheEntries := te.cacheEntries[e := key]);
      s.(tagHeap := s.tagHeap[x := te'],
         entryHeap := s.entryHeap[e := s.entryHeap[e].(tagRefs := s.entryHeap[e].tagRefs + {x})])
    else
      var x := s.nextTag;
      s.(tagEntries := s.tagEntries[t := x],
         tagHeap := s.tagHeap[x := NewTagEntry(e, key)],
         nextTag := s.nextTag + 1,
         entryHeap := s.entryHeap[e := s.entryHeap[e].(tagRefs := s.entryHeap[e].tagRefs + {x})])
  }

  /** The state after binding `e` (stored under `key`) to the tags `ts`, in
      order. Binding touches neither the key map nor any other entry; tags
      already mapped keep their TagEntry; afterwards every tag of `ts` is
      mapped, its TagEntry holds `e`, and `e` lists exactly those
      TagEntries. */
  ghost function BindTags<K, T, V>(s: Store<K, T, V>, key: K, ts: seq<T>, e: EntryRef): (r: Store<K, T, V>)
    requires e in s.entryHeap && TagMapResolves(s)
    ensures e in r.entryHeap && TagMapResolves(r)
    ensures r.cacheEntries == s.cacheEntries && r.entryHeap.Keys == s.entryHeap.Keys
    ensures forall f :: f in s.entryHeap && f != e ==> r.entryHeap[f] == s.entryHeap[f]
    ensures r.entryHeap[e] == s.entryHeap[e].(tagRefs := r.entryHeap[e].tagRefs)
    ensures forall t :: t in s.tagEntries ==> t in r.tagEntries && r.tagEntries[t] == s.tagEntries[t]
    ensures forall t :: t in ts ==> t in r.tagEntries
    ensures r.lastScan == s.lastScan && r.scanRunning == s.scanRunning && r.nextEntry == s.nextEntry
    decreases |ts|
  {
    if ts == [] then
      s.(entryHeap := s.entryHeap[e := s.entryHeap[e].(tagRefs := {})])
    else
      var init, t := ts[..|ts| - 1], ts[|ts| - 1];
      var s1 := BindTags(s, key, init, e);
      var r := BindOne(s1, key, t, e);
      assert ts == init + [t];
      r
  }

  /** One bind step keeps the store consistent when the entry is unexpired
      and is the one the key map holds under `key`. */
  lemma BindOneValid<K, T, V>(s: Store<K, T, V>, key: K, t: T, e: EntryRef)
    requires Valid(s) && e in s.entryHeap && !s.entryHeap[e].expired
    requires key in s.cacheEntries && s.cacheEntries[key] == e
    ensures TagMapResolves(s) && Valid(BindOne(s, key, t, e))
  {
    if t in s.tagEntries {
      BindExistingValid(s, key, t, e);
    } else {
      BindFreshValid(s, key, t, e);
    }
  }

  lemma BindExistingValid<K, T, V>(s: Store<K, T, V>, key: K, t: T, e: EntryRef)
    requires Valid(s) && e in s.entryHeap && !s.entryHeap[e].expired
    requires key in s.cacheEntries && s.cacheEntries[key] == e && t in s.tagEntries
    ensures TagMapResolves(s) && Valid(BindOne(s, key, t, e))
  {
    BindOneResolve(s, key, t, e);
    BindExistingSound(s, key, t, e);
    BindExistingMembers(s, key, t, e);
    BindExistingRefs(s, key, t, e);
  }

  lemma BindExistingSound<K, T, V>(s: Store<K, T, V>, key: K, t: T, e: EntryRef)
    requires RefsResolve(s) && KeyMapSound(s) && TagMapSound(s) && e in s.entryHeap && t in s.tagEntries
    ensures TagMapResolves(s) && RefsResolve(BindOne(s, key, t, e))
    ensures KeyMapSound(BindOne(s, key, t, e)) && TagMapSound(BindOne(s, key, t, e))
  {
    BindOneResolve(s, key, t, e);
    var r := BindOne(s, key, t, e);
    assert r.tagEntries == s.tagEntries && r.cacheEntries == s.cacheEntries;
    forall f | f in s.entryHeap
      ensures r.entryHeap[f].expired == s.entryHeap[f].expired
    {
    }
    forall y | y in s.tagHeap
      ensures r.tagHeap[y].state == s.tagHeap[y].state
    {
    }
  }

  lemma BindExistingMembers<K, T, V>(s: Store<K, T, V>, key: K, t: T, e: EntryRef)
    requires RefsResolve(s) && MembersBound(s) && e in s.entryHeap && !s.entryHeap[e].expired
    requires key in s.cacheEntries && s.cacheEntries[key] == e && t in s.tagEntries
    ensures TagMapResolves(s) && RefsResolve(BindOne(s, key, t, e)) && MembersBound(BindOne(s, key, t, e))
  {
    BindOneResolve(s, key, t, e);
    var r := BindOne(s, key, t, e);
    var x := s.tagEntries[t];
    assert r.cacheEntries == s.cacheEntries;
    forall y, f | y in r.tagHeap && r.tagHeap[y].state == Active && f in r.tagHeap[y].cacheEntries
      ensures f in r.entryHeap && !r.entryHeap[f].expired && y in r.entryHeap[f].tagRefs
      ensures r.tagHeap[y].cacheEntries[f] in r.cacheEntries && r.cacheEntries[r.tagHeap[y].cacheEntries[f]] == f
    {
      if y == x && f == e && e !in s.tagHeap[x].cacheEntries {
        assert r.tagHeap[y].cacheEntries[f] == key;
      } else {
        assert f in s.tagHeap[y].cacheEntries && r.tagHeap[y].cacheEntries[f] == s.tagHeap[y].cacheEntries[f];
        assert f in s.entryHeap && y in s.entryHeap[f].tagRefs;
      }
    }
  }

  lemma BindExistingRefs<K, T, V>(s: Store<K, T, V>, key: K, t: T, e: EntryRef)
    requires RefsResolve(s) && RefsBound(s) && e in s.entryHeap && t in s.tagEntries
    ensures TagMapResolves(s) && RefsResolve(BindOne(s, key, t, e)) && RefsBound(BindOne(s, key, t, e))
  {
    BindOneResolve(s, key, t, e);
    var r := BindOne(s, key, t, e);
    var x := s.tagEntries[t];
    forall f, y | f in r.entryHeap && !r.entryHeap[f].expired && y in r.entryHeap[f].tagRefs && r.tagHeap[y].state == Active
      ensures f in r.tagHeap[y].cacheEntries
    {
      if !(f == e && y == x) {
        assert y in s.entryHeap[f].tagRefs && s.tagHeap[y].state == Active;
        assert f in s.tagHeap[y].cacheEntries;
      }
    }
  }

  lemma FreshValue<A, B>(m: map<A, B>, a: A, b: B)
    requires a !in m
    ensures m[a := b].Values == m.Values + {b}
  {
    var m' := m[a := b];
    forall v | v in m.Values
      ensures v in m'.Values
    {
      var u :| u in m && m[u] == v;
      assert m'[u] == v;
    }
    assert m'[a] == b;
  }

  lemma BindFreshValid<K, T, V>(s: Store<K, T, V>, key: K, t: T, e: EntryRef)
    requires Valid(s) && e in s.entryHeap && !s.entryHeap[e].expired
    requires key in s.cacheEntries && s.cacheEntries[key] == e && t !in s.tagEntries
    ensures TagMapResolves(s) && Valid(BindOne(s, key, t, e))
  {
    BindOneResolve(s, key, t, e);
    BindFreshSound(s, key, t, e);
    BindFreshBound(s, key, t, e);
  }

  lemma BindFreshSound<K, T, V>(s: Store<K, T, V>, key: K, t: T, e: EntryRef)
    requires RefsResolve(s) && KeyMapSound(s) && TagMapSound(s) && e in s.entryHeap && t !in s.tagEntries
    ensures TagMapResolves(s) && RefsResolve(BindOne(s, key, t, e))
    ensures KeyMapSound(BindOne(s, key, t, e)) && TagMapSound(BindOne(s, key, t, e))
  {
    BindOneResolve(s, key, t, e);
    var r := BindOne(s, key, t, e);
    var x := s.nextTag;
    assert x !in s.tagHeap;
    assert r.cacheEntries == s.cacheEntries;
    forall f | f in s.entryHeap
      ensures r.entryHeap[f].expired == s.entryHeap[f].expired
    {
    }
    assert KeyMapSound(r);
    FreshValue(s.tagEntries, t, x);
    assert TagMapSound(r);
  }

  lemma BindFreshBound<K, T, V>(s: Store<K, T, V>, key: K, t: T, e: EntryRef)
    requires Valid(s) && e in s.entryHeap && !s.entryHeap[e].expired
    requires key in s.cacheEntries && s.cacheEntries[key] == e && t !in s.tagEntries
    ensures TagMapResolves(s) && RefsResolve(BindOne(s, key, t, e))
    ensures MembersBound(BindOne(s, key, t, e)) && RefsBound(BindOne(s, key, t, e))
  {
    BindFreshMembers(s, key, t, e);
    BindFreshRefs(s, key, t, e);
  }

  lemma BindFreshMembers<K, T, V>(s: Store<K, T, V>, key: K, t: T, e: EntryRef)
    requires RefsResolve(s) && MembersBound(s) && e in s.entryHeap && !s.entryHeap[e].expired
    requires key in s.cacheEntries && s.cacheEntries[key] == e && t !in s.tagEntries
    ensures TagMapResolves(s) && RefsResolve(BindOne(s, key, t, e))
    ensures MembersBound(BindOne(s, key, t, e))
  {
    BindOneResolve(s, key, t, e);
    var r := BindOne(s, key, t, e);
    var x := s.nextTag;
    assert x !in s.tagHeap;
    forall y, f | y in r.tagHeap && r.tagHeap[y].state == Active && f in r.tagHeap[y].cacheEntries
      ensures f in r.entryHeap && !r.entryHeap[f].expired && y in r.entryHeap[f].tagRefs
      ensures r.tagHeap[y].cacheEntries[f] in r.cacheEntries && r.cacheEntries[r.tagHeap[y].cacheEntries[f]] == f
    {
      assert r.cacheEntries == s.cacheEntries;
      if y != x {
        assert y in s.tagHeap && r.tagHeap[y] == s.tagHeap[y];
        assert f in s.entryHeap && y in s.entryHeap[f].tagRefs;
        assert y in r.entryHeap[f].tagRefs;
      } else {
        assert r.tagHeap[x] == NewTagEntry(e, key);
        assert f == e && r.tagHeap[x].cacheEntries[f] == key;
      }
    }
  }

  lemma BindFreshRefs<K, T, V>(s: Store<K, T, V>, key: K, t: T, e: EntryRef)
    requires RefsResolve(s) && RefsBound(s) && e in s.entryHeap
    requires t !in s.tagEntries
    ensures TagMapResolves(s) && RefsResolve(BindOne(s, key, t, e))
    ensures RefsBound(BindOne(s, key, t, e))
  {
    BindOneResolve(s, key, t, e);
    var r := BindOne(s, key, t, e);
    var x := s.nextTag;
    assert x !in s.tagHeap;
    forall f, y | f in r.entryHeap && !r.entryHeap[f].expired && y in r.entryHeap[f].tagRefs && r.tagHeap[y].state == Active
      ensures f in r.tagHeap[y].cacheEntries
    {
      if f != e {
        assert y in s.tagHeap;
      }
    }
  }

  /** Binding an unexpired entry that is installed under `key` and held by
      no Active TagEntry keeps the store consistent. */
  lemma {:induction false} BindTagsValid<K, T, V>(s: Store<K, T, V>, key: K, ts: seq<T>, e: EntryRef)
    requires Valid(s) && e in s.entryHeap && !s.entryHeap[e].expired
    requires key in s.cacheEntries && s.cacheEntries[key] == e
    requires Unbound(s, e)
    ensures TagMapResolves(s) && Valid(BindTags(s, key, ts, e))
    decreases |ts|
  {
    if ts == [] {
      BindNoneValid(s, key, e);
    } else {
      var init := ts[..|ts| - 1];
      BindTagsValid(s, key, init, e);
      BindOneValid(BindTags(s, key, init, e), key, ts[|ts| - 1], e);
    }
  }

  /** The start of the bind, the entry's own set cleared, keeps the store
      consistent when no Active TagEntry records the entry. */
  lemma BindNoneValid<K, T, V>(s: Store<K, T, V>, key: K, e: EntryRef)
    requires Valid(s) && e in s.entryHeap
    requires Unbound(s, e)
    ensures TagMapResolves(s) && Valid(BindTags(s, key, [], e))
  {
    ClearRefsSound(s, e);
    ClearRefsBound(s, e);
  }

  lemma ClearRefsSound<K, T, V>(s: Store<K, T, V>, e: EntryRef)
    requires Valid(s) && e in s.entryHeap
    ensures var r := s.(entryHeap := s.entryHeap[e := s.entryHeap[e].(tagRefs := {})]);
      RefsResolve(r) && KeyMapSound(r) && TagMapSound(r)
  {
  }

  lemma ClearRefsBound<K, T, V>(s: Store<K, T, V>, e: EntryRef)
    requires Valid(s) && e in s.entryHeap
    requires Unbound(s, e)
    ensures var r := s.(entryHeap := s.entryHeap[e := s.entryHeap[e].(tagRefs := {})]);
      RefsResolve(r) && MembersBound(r) && RefsBound(r)
  {
    var r := s.(entryHeap := s.entryHeap[e := s.entryHeap[e].(tagRefs := {})]);
    forall x, f | x in r.tagHeap && r.tagHeap[x].state == Active && f in r.tagHeap[x].cacheEntries
      ensures f != e && r.entryHeap[f] == s.entryHeap[f]
    {
    }
  }

  /** The bind loop, one tag further: binding the first i + 1 tags is
      binding the first i and then the next one, from a consistent state in
      which the entry is still unexpired. */
  lemma BindTagsStep<K, T, V>(s: Store<K, T, V>, key: K, ts: seq<T>, i: nat, e: EntryRef)
    requires Valid(s) && e in s.entryHeap && !s.entryHeap[e].expired
    requires key in s.cacheEntries && s.cacheEntries[key] == e
    requires Unbound(s, e)
    requires i < |ts|
    ensures TagMapResolves(s)
    ensures var d := BindTags(s, key, ts[..i], e);
      Valid(d) && e in d.entryHeap && !d.entryHeap[e].expired &&
      BindTags(s, key, ts[..i + 1], e) == BindOne(d, key, ts[i], e)
  {
    BindTagsValid(s, key, ts[..i], e);
    BindTagsSnoc(s, key, ts, i, e);
  }

  /** Binding the first i + 1 tags unfolds into binding the first i, then
      one more. */
  lemma BindTagsSnoc<K, T, V>(s: Store<K, T, V>, key: K, ts: seq<T>, i: nat, e: EntryRef)
    requires e in s.entryHeap && TagMapResolves(s) && i < |ts|
    ensures BindTags(s, key, ts[..i + 1], e) == BindOne(BindTags(s, key, ts[..i], e), key, ts[i], e)
  {
    assert ts[..i + 1][..i] == ts[..i];
  }

  /** Binding adds to the tag map only tags of `ts`, each not mapped before
      getting a TagEntry allocated during the bind. */
  lemma {:induction false} BindTagsFresh<K, T, V>(s: Store<K, T, V>, key: K, ts: seq<T>, e: EntryRef)
    requires e in s.entryHeap && TagMapResolves(s)
    ensures BindTags(s, key, ts, e).nextTag >= s.nextTag
    ensures forall t :: t in BindTags(s, key, ts, e).tagEntries ==> t in s.tagEntries || t in ts
    ensures forall t :: t in ts && t !in s.tagEntries ==> BindTags(s, key, ts, e).tagEntries[t] >= s.nextTag
    decreases |ts|
  {
    if ts != [] {
      var init, t := ts[..|ts| - 1], ts[|ts| - 1];
      BindTagsFresh(s, key, init, e);
      var s1 := BindTags(s, key, init, e);
      var r := BindOne(s1, key, t, e);
      assert ts == init + [t];
      assert r == BindTags(s, key, ts, e);
      forall u | u in ts && u !in s.tagEntries
        ensures r.tagEntries[u] >= s.nextTag
      {
        if u in init {
          assert r.tagEntries[u] == s1.tagEntries[u];
        }
      }
    }
  }

  /** The entry's own set lists exactly the TagEntries of the bound tags. */
  lemma {:induction false} BindTagsRefs<K, T, V>(s: Store<K, T, V>, key: K, ts: seq<T>, e: EntryRef)
    requires e in s.entryHeap && TagMapResolves(s)
    ensures BindTags(s, key, ts, e).entryHeap[e].tagRefs == set t | t in ts :: BindTags(s, key, ts, e).tagEntries[t]
    decreases |ts|
  {
    if ts != [] {
      var init, t := ts[..|ts| - 1], ts[|ts| - 1];
      BindTagsRefs(s, key, init, e);
      var s1 := BindTags(s, key, init, e);
      var r := BindOne(s1, key, t, e);
      assert ts == init + [t];
      assert r == BindTags(s, key, ts, e);
      BindOneKeepsMap(s1, key, t, e);
      TagImageSnoc(s1.tagEntries, r.tagEntries, init, t);
    }
  }

  /** Binding only adds: every tag already mapped keeps its TagEntry, and
      every TagEntry keeps every entry it recorded. */
  lemma {:induction false} BindTagsKeepsMembers<K, T, V>(s: Store<K, T, V>, key: K, ts: seq<T>, e: EntryRef)
    requires e in s.entryHeap && RefsResolve(s)
    ensures TagMapResolves(s)
    ensures var r := BindTags(s, key, ts, e);
      && (forall u :: u in s.tagEntries ==> u in r.tagEntries && r.tagEntries[u] == s.tagEntries[u])
      && (forall y, f :: y in s.tagHeap && f in s.tagHeap[y].cacheEntries ==> y in r.tagHeap && f in r.tagHeap[y].cacheEntries)
    decreases |ts|
  {
    if ts != [] {
      var init, t := ts[..|ts| - 1], ts[|ts| - 1];
      BindTagsKeepsMembers(s, key, init, e);
      BindTagsResolve(s, key, init, e);
      var s1 := BindTags(s, key, init, e);
      BindOneKeepsMembers(s1, key, t, e);
      BindOneKeepsMap(s1, key, t, e);
      assert ts == init + [t];
      assert BindOne(s1, key, t, e) == BindTags(s, key, ts, e);
    }
  }

  /** One bind step adds the entry to one TagEntry and removes nothing. */
  lemma BindOneKeepsMembers<K, T, V>(s: Store<K, T, V>, key: K, t: T, e: EntryRef)
    requires e in s.entryHeap && RefsResolve(s)
    ensures TagMapResolves(s)
    ensures forall y, f :: y in s.tagHeap && f in s.tagHeap[y].cacheEntries ==>
              y in BindOne(s, key, t, e).tagHeap && f in BindOne(s, key, t, e).tagHeap[y].cacheEntries
  {
    assert s.nextTag !in s.tagHeap;
  }

  /** A bind step keeps every tag the map already held where it was. */
  lemma BindOneKeepsMap<K, T, V>(s: Store<K, T, V>, key: K, t: T, e: EntryRef)
    requires e in s.entryHeap && TagMapResolves(s)
    ensures forall u :: u in s.tagEntries ==>
              u in BindOne(s, key, t, e).tagEntries && BindOne(s, key, t, e).tagEntries[u] == s.tagEntries[u]
  {
  }

  /** The TagEntries of `init + [t]` under a map that agrees with an earlier
      one on `init`. */
  lemma TagImageSnoc<T>(m1: map<T, TagRef>, m2: map<T, TagRef>, init: seq<T>, t: T)
    requires forall u :: u in init ==> u in m1
    requires forall u :: u in m1 ==> u in m2 && m2[u] == m1[u]
    requires t in m2
    ensures (set u | u in init + [t] :: m2[u]) == (set u | u in init :: m1[u]) + {m2[t]}
  {
    var lhs, rhs := set u | u in init + [t] :: m2[u], (set u | u in init :: m1[u]) + {m2[t]};
    forall y | y in lhs
      ensures y in rhs
    {
      var u :| u in init + [t] && m2[u] == y;
      if u != t {
        assert u in init;
      }
    }
    forall y | y in rhs
      ensures y in lhs
    {
      if y != m2[t] {
        var u :| u in init && m1[u] == y;
        assert u in init + [t];
      }
    }
  }

  /** After a clean bind the two sides agree: every bound tag is mapped to
      an Active TagEntry that records the entry under its key and that the
      entry lists, the entry lists nothing else, and a tag that was
      missing got a fresh TagEntry. */
  lemma BindTagsAgree<K, T, V>(s: Store<K, T, V>, key: K, ts: seq<T>, e: EntryRef)
    requires Valid(s) && e in s.entryHeap && !s.entryHeap[e].expired
    requires key in s.cacheEntries && s.cacheEntries[key] == e
    requires Unbound(s, e)
    ensures TagMapResolves(s)
    ensures var r := BindTags(s, key, ts, e);
      && Valid(r)
      && (forall t :: t in ts ==>
            && t in r.tagEntries
            && r.tagHeap[r.tagEntries[t]].state == Active
            && e in r.tagHeap[r.tagEntries[t]].cacheEntries
            && r.tagHeap[r.tagEntries[t]].cacheEntries[e] == key
            && r.tagEntries[t] in r.entryHeap[e].tagRefs)
      && r.entryHeap[e].tagRefs == (set t | t in ts :: r.tagEntries[t])
      && (forall t :: t in ts && t !in s.tagEntries ==> r.tagEntries[t] !in s.tagHeap)
  {
    var r := BindTags(s, key, ts, e);
    BindTagsValid(s, key, ts, e);
    BindTagsFresh(s, key, ts, e);
    BindTagsRefs(s, key, ts, e);
    forall t | t in ts
      ensures r.tagHeap[r.tagEntries[t]].state == Active
      ensures r.tagHeap[r.tagEntries[t]].cacheEntries[e] == key
    {
      var x := r.tagEntries[t];
      assert x in r.tagEntries.Values;
    }
  }

  /** Binding allocates TagEntries only from the counter, so every
      reference still resolves. */
  lemma {:induction false} BindTagsResolve<K, T, V>(s: Store<K, T, V>, key: K, ts: seq<T>, e: EntryRef)
    requires e in s.entryHeap && RefsResolve(s)
    ensures TagMapResolves(s) && RefsResolve(BindTags(s, key, ts, e))
    decreases |ts|
  {
    if ts != [] {
      var init, t := ts[..|ts| - 1], ts[|ts| - 1];
      BindTagsResolve(s, key, init, e);
      var s1 := BindTags(s, key, init, e);
      BindOneResolve(s1, key, t, e);
      assert ts == init + [t];
      assert BindOne(s1, key, t, e) == BindTags(s, key, ts, e);
    }
  }

  /** One bind step keeps every reference resolving: the TagEntry it adds
      to the entry's set is in the heap, and a new one is numbered below
      the new counter. */
  lemma BindOneResolve<K, T, V>(s: Store<K, T, V>, key: K, t: T, e: EntryRef)
    requires e in s.entryHeap && RefsResolve(s)
    ensures TagMapResolves(s) && RefsResolve(BindOne(s, key, t, e))
  {
    var r := BindOne(s, key, t, e);
    var x := r.tagEntries[t];
    assert x in r.tagHeap && r.tagHeap.Keys == s.tagHeap.Keys + {x};
    assert r.entryHeap.Keys == s.entryHeap.Keys && r.nextEntry == s.nextEntry;
    forall f | f in r.entryHeap
      ensures r.entryHeap[f].tagRefs <= r.tagHeap.Keys
    {
      if f != e {
        assert r.entryHeap[f] == s.entryHeap[f];
      }
    }
  }
}
