/**
 The expiration sweep (ScanForExpiredEntries) and its throttle
 (ScheduleScanForExpiredEntries). The sweep first detaches every key whose
 entry is expired at `now`, then retires every tag whose TagEntry has
 drained to empty: the tag leaves the tag map and its TagEntry becomes
 Evicted (ScatterEvictedTagEntry). Finally the running flag is cleared.
 */
module Sweeping {
  import opened Entries
  import opened StoreState
  import opened Detaching

  /** The throttle: a scan starts only when more than one scan period has
      passed since the last one and no scan is running. */
  predicate ScanDue(now: int, frequency: int, lastScan: int, running: int)
  {
    now - frequency > lastScan && running == 0
  }

  /** The (key, entry) pairs among keys `ks` whose entry is expired at `now`. */
  ghost function ExpiredPairs<K, T, V>(s: Store<K, T, V>, now: int, ks: set<K>): (R: set<(K, EntryRef)>)
    ensures Victims(R) <= s.entryHeap.Keys
  {
    var R := set k | k in ks && k in s.cacheEntries && s.cacheEntries[k] in s.entryHeap &&
                     ExpiredAt(s.entryHeap[s.cacheEntries[k]], now) :: (k, s.cacheEntries[k]);
    assert forall p :: p in R ==> p.1 in s.entryHeap;
    R
  }

  /** Tag `t` is mapped to a TagEntry that holds no entry. */
  ghost predicate Drained<K, T, V>(s: Store<K, T, V>, t: T)
    requires RefsResolve(s)
  {
    t in s.tagEntries && s.tagHeap[s.tagEntries[t]].cacheEntries == map[]
  }

  /** The TagEntries of the drained tags among `ts`. */
  ghost function DrainedRefs<K, T, V>(s: Store<K, T, V>, ts: set<T>): set<TagRef>
    requires RefsResolve(s)
  {
    set t | t in ts && Drained(s, t) :: s.tagEntries[t]
  }

  /** ScatterEvictedTagEntry for every drained tag among `ts`. */
  ghost function EvictAmong<K, T, V>(s: Store<K, T, V>, ts: set<T>): (r: Store<K, T, V>)
    requires RefsResolve(s)
    ensures RefsResolve(r)
  {
    s.(tagEntries := map t | t in s.tagEntries && !(t in ts && Drained(s, t)) :: s.tagEntries[t],
       tagHeap := map x | x in s.tagHeap ::
                    if x in DrainedRefs(s, ts) then s.tagHeap[x].(state := Evicted) else s.tagHeap[x])
  }

  /** ScatterEvictedTagEntry on a TagEntry the sweep found drained: the tag
      leaves the map only while it still names that TagEntry, which then
      becomes Evicted. */
  ghost function Scatter<K, T, V>(s: Store<K, T, V>, t: T, x: TagRef): Store<K, T, V>
    requires x in s.tagHeap
  {
    if t in s.tagEntries && s.tagEntries[t] == x then
      s.(tagEntries := s.tagEntries - {t}, tagHeap := s.tagHeap[x := s.tagHeap[x].(state := Evicted)])
    else s
  }

  /** The state after one sweep at `now`. */
  ghost function Swept<K, T, V>(s: Store<K, T, V>, now: int): (r: Store<K, T, V>)
    requires RefsResolve(s)
    ensures RefsResolve(r) && r.lastScan == s.lastScan && r.scanRunning == 0
  {
    var s1 := Detach(s, ExpiredPairs(s, now, s.cacheEntries.Keys));
    EvictAmong(s1, s1.tagEntries.Keys).(scanRunning := 0)
  }

  /** The state after ScheduleScanForExpiredEntries at `now`, with the scan
      run to completion before the caller continues. */
  ghost function AfterSchedule<K, T, V>(s: Store<K, T, V>, frequency: int, now: int): (r: Store<K, T, V>)
    requires RefsResolve(s)
    ensures RefsResolve(r)
  {
    if ScanDue(now, frequency, s.lastScan, s.scanRunning) then Swept(s.(lastScan := now, scanRunning := 1), now)
    else s
  }

  /** A scan started at `now` holds off the next one for exactly one scan
      period: a later schedule sweeps again, stamped with its own time,
      when more than `frequency` has passed, and otherwise changes nothing. */
  lemma ScanThrottle<K, T, V>(s: Store<K, T, V>, frequency: int, now: int, later: int)
    requires RefsResolve(s) && ScanDue(now, frequency, s.lastScan, s.scanRunning)
    ensures var r := AfterSchedule(s, frequency, now);
      && r.lastScan == now && r.scanRunning == 0
      && (later > now + frequency ==>
            AfterSchedule(r, frequency, later) == Swept(r.(lastScan := later, scanRunning := 1), later))
      && (later <= now + frequency ==> AfterSchedule(r, frequency, later) == r)
  {
  }

  /** Each expired entry is named under its only key. */
  lemma ExpiredPairsKeyed<K, T, V>(s: Store<K, T, V>, now: int, ks: set<K>)
    requires Valid(s)
    ensures KeyedBy(s, ExpiredPairs(s, now, ks))
  {
  }

  /** Retiring drained tags keeps the store consistent. */
  lemma EvictValid<K, T, V>(s: Store<K, T, V>, ts: set<T>)
    requires Valid(s)
    ensures Valid(EvictAmong(s, ts))
  {
    EvictTagMap(s, ts);
    EvictBound(s, ts);
  }

  /** The tags left in the map are exactly the Active TagEntries' tags. */
  lemma EvictTagMap<K, T, V>(s: Store<K, T, V>, ts: set<T>)
    requires RefsResolve(s) && TagMapSound(s)
    ensures RefsResolve(EvictAmong(s, ts)) && TagMapSound(EvictAmong(s, ts))
  {
    var r, D := EvictAmong(s, ts), DrainedRefs(s, ts);
    forall x | x in r.tagHeap
      ensures r.tagHeap[x].state == Active <==> x in r.tagEntries.Values
    {
      if x !in D && x in s.tagEntries.Values {
        var t :| t in s.tagEntries && s.tagEntries[t] == x;
        assert t in r.tagEntries;
      }
    }
  }

  /** Evicted TagEntries were Active; no other TagEntry and no entry
      changes, so both directions of the binding still hold. */
  lemma EvictBound<K, T, V>(s: Store<K, T, V>, ts: set<T>)
    requires RefsResolve(s) && KeyMapSound(s) && MembersBound(s) && RefsBound(s)
    ensures var r := EvictAmong(s, ts);
      RefsResolve(r) && KeyMapSound(r) && MembersBound(r) && RefsBound(r)
  {
    var r := EvictAmong(s, ts);
    EvictKeepsActive(s, ts);
    assert r.cacheEntries == s.cacheEntries && r.entryHeap == s.entryHeap;
    forall x, f | x in r.tagHeap && r.tagHeap[x].state == Active && f in r.tagHeap[x].cacheEntries
      ensures f in r.entryHeap && !r.entryHeap[f].expired && x in r.entryHeap[f].tagRefs
      ensures r.tagHeap[x].cacheEntries[f] in r.cacheEntries && r.cacheEntries[r.tagHeap[x].cacheEntries[f]] == f
    {
      assert s.tagHeap[x].state == Active && f in s.tagHeap[x].cacheEntries;
      assert s.tagHeap[x].cacheEntries[f] == r.tagHeap[x].cacheEntries[f];
    }
    forall f, y | f in r.entryHeap && !r.entryHeap[f].expired && y in r.entryHeap[f].tagRefs && r.tagHeap[y].state == Active
      ensures f in r.tagHeap[y].cacheEntries
    {
      assert y in s.tagHeap && s.tagHeap[y].state == Active;
    }
  }

  /** An Active TagEntry after the tag phase is the one that was there. */
  lemma EvictKeepsActive<K, T, V>(s: Store<K, T, V>, ts: set<T>)
    requires RefsResolve(s)
    ensures var r := EvictAmong(s, ts);
      && r.tagHeap.Keys == s.tagHeap.Keys
      && forall x :: x in r.tagHeap && r.tagHeap[x].state == Active ==> r.tagHeap[x] == s.tagHeap[x]
  {
  }

  /** A sweep keeps the store consistent. */
  lemma SweptValid<K, T, V>(s: Store<K, T, V>, now: int)
    requires Valid(s)
    ensures Valid(Swept(s, now))
  {
    ExpiredDetachValid(s, now);
    var s1 := Detach(s, ExpiredPairs(s, now, s.cacheEntries.Keys));
    EvictValid(s1, s1.tagEntries.Keys);
    ThrottleIndependent(EvictAmong(s1, s1.tagEntries.Keys), s1.lastScan, 0);
  }

  lemma ExpiredDetachValid<K, T, V>(s: Store<K, T, V>, now: int)
    requires Valid(s)
    ensures Valid(Detach(s, ExpiredPairs(s, now, s.cacheEntries.Keys)))
  {
    ExpiredPairsKeyed(s, now, s.cacheEntries.Keys);
    DetachValid(s, ExpiredPairs(s, now, s.cacheEntries.Keys));
  }

  /** After a sweep at `now` the key map holds exactly the keys whose entry
      was live at `now`, each with the same entry, untouched. */
  lemma SweptKeys<K, T, V>(s: Store<K, T, V>, now: int)
    requires Valid(s)
    ensures var r := Swept(s, now);
      && (forall k :: k in r.cacheEntries <==> k in s.cacheEntries && !ExpiredAt(s.entryHeap[s.cacheEntries[k]], now))
      && (forall k :: k in r.cacheEntries ==>
            r.cacheEntries[k] == s.cacheEntries[k] && r.entryHeap[r.cacheEntries[k]] == s.entryHeap[s.cacheEntries[k]])
      && (forall k :: k in r.cacheEntries ==> !ExpiredAt(r.entryHeap[r.cacheEntries[k]], now))
  {
    var R := ExpiredPairs(s, now, s.cacheEntries.Keys);
    var r := Swept(s, now);
    forall k | k in s.cacheEntries && !ExpiredAt(s.entryHeap[s.cacheEntries[k]], now)
      ensures s.cacheEntries[k] !in Victims(R)
    {
    }
  }

  /** After a sweep no tag in the tag map is drained, and every tag that
      the key phase left drained is out of the map with its TagEntry
      Evicted; undrained tags keep their TagEntry. */
  lemma SweptTags<K, T, V>(s: Store<K, T, V>, now: int)
    requires Valid(s)
    ensures var s1 := Detach(s, ExpiredPairs(s, now, s.cacheEntries.Keys));
            var r := Swept(s, now);
      && RefsResolve(s1) && RefsResolve(r)
      && (forall t :: t in r.tagEntries ==> !Drained(r, t))
      && (forall t :: t in s1.tagEntries && Drained(s1, t) ==>
            t !in r.tagEntries && r.tagHeap[s1.tagEntries[t]].state == Evicted)
      && (forall t :: t in s1.tagEntries && !Drained(s1, t) ==>
            t in r.tagEntries && r.tagEntries[t] == s1.tagEntries[t])
  {
    var s1 := Detach(s, ExpiredPairs(s, now, s.cacheEntries.Keys));
    var e := EvictAmong(s1, s1.tagEntries.Keys);
    EvictAll(s1);
    assert Swept(s, now) == e.(scanRunning := 0);
  }

  /** The tag phase over every tag: what it leaves in the map is undrained,
      what it takes out was drained and is Evicted. */
  lemma EvictAll<K, T, V>(s: Store<K, T, V>)
    requires RefsResolve(s)
    ensures var r := EvictAmong(s, s.tagEntries.Keys);
      && (forall t :: t in r.tagEntries ==> !Drained(r, t))
      && (forall t :: t in s.tagEntries && Drained(s, t) ==>
            t !in r.tagEntries && r.tagHeap[s.tagEntries[t]].state == Evicted)
      && (forall t :: t in s.tagEntries && !Drained(s, t) ==>
            t in r.tagEntries && r.tagEntries[t] == s.tagEntries[t])
  {
    var r := EvictAmong(s, s.tagEntries.Keys);
    forall t | t in r.tagEntries
      ensures !Drained(r, t)
    {
      var x := s.tagEntries[t];
      assert !Drained(s, t);
    }
  }

  /** Scheduling keeps the store consistent, with or without a sweep. */
  lemma ScheduleValid<K, T, V>(s: Store<K, T, V>, frequency: int, now: int)
    requires Valid(s)
    ensures Valid(AfterSchedule(s, frequency, now))
  {
    if ScanDue(now, frequency, s.lastScan, s.scanRunning) {
      ThrottleIndependent(s, now, 1);
      SweptValid(s.(lastScan := now, scanRunning := 1), now);
    }
  }

  /** Once scheduling has happened at `now`, no further sweep is due at the
      same instant: a started sweep records `now` and a skipped one leaves
      the throttle as it found it. A sweep that ran leaves the flag clear. */
  lemma ScheduleSettles<K, T, V>(s: Store<K, T, V>, frequency: int, now: int)
    requires RefsResolve(s) && frequency > 0
    ensures var r := AfterSchedule(s, frequency, now);
      && !ScanDue(now, frequency, r.lastScan, r.scanRunning)
      && (ScanDue(now, frequency, s.lastScan, s.scanRunning) ==> r.lastScan == now && r.scanRunning == 0)
  {
  }

  /** One more key examined by the key phase of the sweep. */
  lemma ExpiredPairsStep<K, T, V>(s: Store<K, T, V>, now: int, done: set<K>, k: K)
    requires RefsResolve(s) && k in s.cacheEntries
    ensures ExpiredPairs(s, now, done + {k}) ==
              ExpiredPairs(s, now, done) +
              (if ExpiredAt(s.entryHeap[s.cacheEntries[k]], now) then {(k, s.cacheEntries[k])} else {})
  {
  }

  /** While the key phase runs, a key not yet examined still holds its
      original entry, untouched. */
  lemma SweepPending<K, T, V>(s: Store<K, T, V>, now: int, done: set<K>, k: K)
    requires RefsResolve(s) && KeyMapSound(s) && k in s.cacheEntries && k !in done
    ensures var d := Detach(s, ExpiredPairs(s, now, done));
      k in d.cacheEntries && d.cacheEntries[k] == s.cacheEntries[k] &&
      d.entryHeap[s.cacheEntries[k]] == s.entryHeap[s.cacheEntries[k]]
  {
    var R := ExpiredPairs(s, now, done);
    assert (k, s.cacheEntries[k]) !in R;
    assert s.cacheEntries[k] !in Victims(R);
  }

  /** One more key examined by the key phase of the sweep: the state after
      it is the state before with that key's entry detached if it is
      expired at `now`, and left alone otherwise. */
  lemma SweepStep<K, T, V>(s: Store<K, T, V>, now: int, done: set<K>, k: K)
    requires RefsResolve(s) && KeyMapSound(s) && k in s.cacheEntries && k !in done
    ensures var d := Detach(s, ExpiredPairs(s, now, done));
      var e := s.cacheEntries[k];
      RefsResolve(d) && k in d.cacheEntries && d.cacheEntries[k] == e &&
      e in d.entryHeap && d.entryHeap[e] == s.entryHeap[e] &&
      Detach(s, ExpiredPairs(s, now, done + {k})) ==
        if ExpiredAt(s.entryHeap[e], now) then Detach(d, {(k, e)}) else d
  {
    var e := s.cacheEntries[k];
    SweepPending(s, now, done, k);
    ExpiredPairsStep(s, now, done, k);
    if ExpiredAt(s.entryHeap[e], now) {
      DetachTwice(s, ExpiredPairs(s, now, done), {(k, e)});
    } else {
      assert ExpiredPairs(s, now, done + {k}) == ExpiredPairs(s, now, done);
    }
  }

  /** One more tag examined by the tag phase of the sweep: a drained tag is
      scattered, any other is left alone. A tag not yet examined still
      names its original TagEntry, whose members are untouched. */
  lemma EvictStep<K, T, V>(s: Store<K, T, V>, seen: set<T>, t: T)
    requires RefsResolve(s) && TagMapSound(s) && t in s.tagEntries && t !in seen
    ensures var d, x := EvictAmong(s, seen), s.tagEntries[t];
      && t in d.tagEntries && d.tagEntries[t] == x && x in d.tagHeap
      && d.tagHeap[x].cacheEntries == s.tagHeap[x].cacheEntries
      && EvictAmong(s, seen + {t}) == if Drained(s, t) then Scatter(d, t, x) else d
  {
    var x := s.tagEntries[t];
    forall u | u in seen && u in s.tagEntries
      ensures s.tagEntries[u] != x
    {
      assert u != t;
    }
    assert x !in DrainedRefs(s, seen);
    if Drained(s, t) {
      EvictDrainedStep(s, seen, t);
    } else {
      EvictKeptStep(s, seen, t);
    }
  }

  lemma EvictDrainedStep<K, T, V>(s: Store<K, T, V>, seen: set<T>, t: T)
    requires RefsResolve(s) && t in s.tagEntries && t !in seen && Drained(s, t)
    requires s.tagEntries[t] !in DrainedRefs(s, seen)
    ensures var d, x := EvictAmong(s, seen), s.tagEntries[t];
      && t in d.tagEntries && d.tagEntries[t] == x && x in d.tagHeap
      && d.tagHeap[x].cacheEntries == s.tagHeap[x].cacheEntries
      && EvictAmong(s, seen + {t}) == Scatter(d, t, x)
  {
    var d, x := EvictAmong(s, seen), s.tagEntries[t];
    var lhs := EvictAmong(s, seen + {t});
    assert DrainedRefs(s, seen + {t}) == DrainedRefs(s, seen) + {x};
    assert lhs.tagEntries == Scatter(d, t, x).tagEntries;
    assert lhs.tagHeap == Scatter(d, t, x).tagHeap;
  }

  lemma EvictKeptStep<K, T, V>(s: Store<K, T, V>, seen: set<T>, t: T)
    requires RefsResolve(s) && t in s.tagEntries && t !in seen && !Drained(s, t)
    requires s.tagEntries[t] !in DrainedRefs(s, seen)
    ensures var d, x := EvictAmong(s, seen), s.tagEntries[t];
      && t in d.tagEntries && d.tagEntries[t] == x && x in d.tagHeap
      && d.tagHeap[x].cacheEntries == s.tagHeap[x].cacheEntries
      && EvictAmong(s, seen + {t}) == d
  {
    var d := EvictAmong(s, seen);
    var lhs := EvictAmong(s, seen + {t});
    assert DrainedRefs(s, seen + {t}) == DrainedRefs(s, seen);
    assert lhs.tagEntries == d.tagEntries;
  }

  /** Examining no tag retires nothing. */
  lemma EvictNothing<K, T, V>(s: Store<K, T, V>)
    requires RefsResolve(s)
    ensures EvictAmong(s, {}) == s
  {
    assert DrainedRefs(s, {}) == {};
    assert EvictAmong(s, {}).tagEntries == s.tagEntries;
    assert EvictAmong(s, {}).tagHeap == s.tagHeap;
  }
}
