/**
  The invariant of the open-addressing map and the behaviour of its public operations
  against the key-to-value map its live slots denote.
 */
module OpenAddressingValid {
  import opened Wrappers
  import opened Exceptions
  import opened TableMath
  import opened Entries
  import opened QuadraticProbing
  import opened OpenAddressing

  /** The key-to-value map the live slots denote. */
  ghost function Contents<K, V>(m: OpenMap<K, V>): map<K, V> {
    EntryMap(LiveEntries(m.data))
  }

  /** Slot p is the n-th probe from k's home for some n, and every earlier probe lands on a non-empty slot. */
  ghost predicate Reachable<K, V>(s: seq<Slot<K, V>>, k: K, p: nat, hash: K -> int)
    requires |s| > 0
  {
    exists n :: 0 <= n < |s| && Probe(Home(k, |s|, hash), n, |s|) == p && Used(s, Home(k, |s|, hash), 0, n)
  }

  /** Every live entry can be found along the probe chain of its key. */
  ghost predicate AllReachable<K, V>(s: seq<Slot<K, V>>, hash: K -> int)
    requires |s| > 0
  {
    forall p :: 0 <= p < |s| && s[p].Full? ==> Reachable(s, s[p].entry.key, p, hash)
  }

  /** `size` counts the live entries and `filledCells` the non-empty slots. */
  ghost predicate Counted<K, V>(m: OpenMap<K, V>) {
    m.size == |LiveEntries(m.data)| && m.filledCells == CountFilled(m.data)
  }

  /** The invariant every public operation keeps. */
  ghost predicate Valid<K, V>(m: OpenMap<K, V>, hash: K -> int) {
    && Shaped(m)
    && UniqueKeys(LiveEntries(m.data))
    && AllReachable(m.data, hash)
    && Counted(m)
  }

  /** s' has a non-empty slot wherever s has one. */
  ghost predicate Fills<K, V>(s: seq<Slot<K, V>>, s': seq<Slot<K, V>>) {
    |s'| == |s| && forall j :: 0 <= j < |s| && !s[j].Empty? ==> !s'[j].Empty?
  }

  lemma SquareMono(a: int, b: int)
    requires 0 <= a <= b
    ensures a * a <= b * b
  {
    MulSign(b - a, b + a);
    assert b * b - a * a == (b - a) * (b + a);
  }

  // ---------------------------------------------------------------------------
  // Reachability

  /** Filling more slots keeps a slot reachable. */
  lemma ReachableMore<K, V>(s: seq<Slot<K, V>>, s': seq<Slot<K, V>>, k: K, p: nat, hash: K -> int)
    requires |s| > 0 && Fills(s, s') && Reachable(s, k, p, hash)
    ensures Reachable(s', k, p, hash)
  {
    var base := Home(k, |s|, hash);
    var n :| 0 <= n < |s| && Probe(base, n, |s|) == p && Used(s, base, 0, n);
    assert Used(s', base, 0, n);
  }

  /** Overwriting one slot keeps every entry reachable, provided no slot empties and a new entry is reachable. */
  lemma AllReachableUpdate<K, V>(s: seq<Slot<K, V>>, idx: nat, x: Slot<K, V>, hash: K -> int)
    requires idx < |s| && AllReachable(s, hash)
    requires s[idx].Empty? || !x.Empty?
    requires x.Full? ==> Reachable(s[idx := x], x.entry.key, idx, hash)
    ensures AllReachable(s[idx := x], hash)
  {
    var s' := s[idx := x];
    assert Fills(s, s');
    forall p | 0 <= p < |s'| && s'[p].Full? ensures Reachable(s', s'[p].entry.key, p, hash) {
      if p != idx {
        ReachableMore(s, s', s[p].entry.key, p, hash);
      }
    }
  }

  /** The slot an insertion takes is reachable along the new key's probe chain. */
  lemma FirstFreeReachable<K, V>(s: seq<Slot<K, V>>, e: Entry<K, V>, hash: K -> int)
    requires |s| > 0 && FirstFree(s, Home(e.key, |s|, hash), 0).Some?
    ensures
      var idx := FirstFree(s, Home(e.key, |s|, hash), 0).value;
      Reachable(s[idx := Full(e)], e.key, idx, hash)
  {
    var base := Home(e.key, |s|, hash);
    var idx := FirstFree(s, base, 0).value;
    var s' := s[idx := Full(e)];
    var n :| 0 <= n < |s| && Probe(base, n, |s|) == idx && Occupied(s, base, 0, n);
    assert Used(s', base, 0, n);
  }

  /** Storing a new entry in the slot an insertion takes keeps every entry reachable. */
  lemma PlaceReachable<K, V>(s: seq<Slot<K, V>>, e: Entry<K, V>, hash: K -> int)
    requires |s| > 0 && AllReachable(s, hash) && FirstFree(s, Home(e.key, |s|, hash), 0).Some?
    ensures AllReachable(s[FirstFree(s, Home(e.key, |s|, hash), 0).value := Full(e)], hash)
  {
    FirstFreeReachable(s, e, hash);
    AllReachableUpdate(s, FirstFree(s, Home(e.key, |s|, hash), 0).value, Full(e), hash);
  }

  // ---------------------------------------------------------------------------
  // find

  /** Under the invariant `find` reports a slot exactly for a present key, and that slot holds the key's value. */
  lemma FindCorrect<K, V>(m: OpenMap<K, V>, k: K, hash: K -> int)
    requires Valid(m, hash)
    ensures Find(m, Some(k), hash).Some? <==> k in Contents(m)
    ensures Find(m, Some(k), hash).Some? ==>
      m.data[Find(m, Some(k), hash).value] == Full(Entry(k, Contents(m)[k]))
  {
    var s := m.data;
    var base := Home(k, |s|, hash);
    var es := LiveEntries(s);
    EntryMapDomain(es, k);
    match FindFrom(s, k, base, 0)
    case Some(q) =>
      var e := s[q].entry;
      LiveEntriesMembership(s, e);
      EntryMapValue(es, e);
    case None =>
      if HasKey(es, k) {
        var e :| e in es && e.key == k;
        FindFromMissesNothing(s, e, hash);
        assert false;
      }
  }

  /** Under reachability the search for a live entry's key does not stop short of it. */
  lemma FindFromMissesNothing<K, V>(s: seq<Slot<K, V>>, e: Entry<K, V>, hash: K -> int)
    requires |s| > 0 && AllReachable(s, hash) && e in LiveEntries(s)
    ensures FindFrom(s, e.key, Home(e.key, |s|, hash), 0).Some?
  {
    var base := Home(e.key, |s|, hash);
    LiveEntriesMembership(s, e);
    var p :| 0 <= p < |s| && s[p] == Full(e);
    assert Reachable(s, e.key, p, hash);
    var n :| 0 <= n < |s| && Probe(base, n, |s|) == p && Used(s, base, 0, n);
    assert Holds(s, e.key, Probe(base, n, |s|));
  }

  // ---------------------------------------------------------------------------
  // rehash

  /** The copy loop leaves every copied entry reachable in the new table. */
  lemma {:induction false} ReinsertReachable<K, V>(src: seq<Slot<K, V>>, i: nat, t: seq<Slot<K, V>>, hash: K -> int)
    requires i <= |src| && |t| > 0 && Reinsert(src, i, t, hash).Success? && AllReachable(t, hash)
    ensures AllReachable(Reinsert(src, i, t, hash).value, hash)
    decreases |src| - i
  {
    if i < |src| {
      if src[i].Full? {
        var e := src[i].entry;
        var idx := FirstFree(t, Home(e.key, |t|, hash), 0).value;
        var t' := t[idx := Full(e)];
        PlaceReachable(t, e, hash);
        assert Reinsert(src, i, t, hash) == Reinsert(src, i + 1, t', hash);
        ReinsertReachable(src, i + 1, t', hash);
      } else {
        assert Reinsert(src, i, t, hash) == Reinsert(src, i + 1, t, hash);
        ReinsertReachable(src, i + 1, t, hash);
      }
    }
  }

  /** A successful rehash keeps the invariant and the key-to-value map. */
  lemma RehashValid<K, V>(m: OpenMap<K, V>, hash: K -> int)
    requires Valid(m, hash) && Rehash(m, hash).Success?
    ensures Valid(Rehash(m, hash).value, hash) && Contents(Rehash(m, hash).value) == Contents(m)
  {
    var grown := Grow(m.primeCounter, |m.data|);
    var blank: seq<Slot<K, V>> := EmptyTable(grown.1);
    var r := Rehash(m, hash).value;
    assert r.data == Reinsert(m.data, 0, blank, hash).value;
    RehashEntries(m, hash);
    ReinsertReachable(m.data, 0, blank, hash);
    EntryMapPermutation(LiveEntries(m.data), LiveEntries(r.data));
    CountFilledNoTombs(r.data);
    assert |multiset(LiveEntries(r.data))| == |multiset(LiveEntries(m.data))|;
  }

  /**
    The copy loop finds room for every entry while the number of entries, less one, stays
    within a bound r whose square is below the capacity.
   */
  lemma {:induction false} ReinsertSucceeds<K, V>(src: seq<Slot<K, V>>, i: nat, t: seq<Slot<K, V>>, hash: K -> int, r: nat)
    requires i <= |src| && |t| > 0
    requires |LiveEntries(t)| + |LiveEntries(src[i..])| <= r + 1 && r * r < |t|
    ensures Reinsert(src, i, t, hash).Success?
    decreases |src| - i
  {
    if i < |src| {
      ReinsertStep(src, i);
      if src[i].Full? {
        var e := src[i].entry;
        var c := |LiveEntries(t)|;
        assert c * c < |t| by {
          SquareMono(c, r);
        }
        var base := Home(e.key, |t|, hash);
        SparseTableHasRoom(t, base);
        var idx := FirstFree(t, base, 0).value;
        var t' := t[idx := Full(e)];
        LiveEntriesAddSlot(t, idx, e);
        ReinsertSucceeds(src, i + 1, t', hash, r);
        assert Reinsert(src, i, t, hash) == Reinsert(src, i + 1, t', hash);
      } else {
        ReinsertSucceeds(src, i + 1, t, hash, r);
        assert Reinsert(src, i, t, hash) == Reinsert(src, i + 1, t, hash);
      }
    }
  }

  /** `rehash` succeeds whenever the number of live entries, less one, squared stays below the grown capacity. */
  lemma RehashSucceeds<K, V>(m: OpenMap<K, V>, hash: K -> int)
    requires Shaped(m)
    requires (|LiveEntries(m.data)| - 1) * (|LiveEntries(m.data)| - 1) < Grow(m.primeCounter, |m.data|).1
    ensures Rehash(m, hash).Success?
  {
    var grown := Grow(m.primeCounter, |m.data|);
    var blank: seq<Slot<K, V>> := EmptyTable(grown.1);
    assert m.data[0..] == m.data;
    var n := |LiveEntries(m.data)|;
    ReinsertSucceeds(m.data, 0, blank, hash, if n == 0 then 0 else n - 1);
  }

  // ---------------------------------------------------------------------------
  // insert

  /** Placing with growth keeps every entry reachable and `filledCells` in step with the slots. */
  lemma {:induction false} PlaceGrowingKeeps<K, V>(m: OpenMap<K, V>, e: Entry<K, V>, hash: K -> int)
    requires Valid(m, hash) && PlaceGrowing(m, e, hash).Success?
    ensures
      var r := PlaceGrowing(m, e, hash).value;
      AllReachable(r.data, hash) && r.filledCells == CountFilled(r.data)
    decreases |FullIndices(m.data)| * |FullIndices(m.data)| - |m.data|, 1
  {
    if FirstFree(m.data, Home(e.key, |m.data|, hash), 0).Some? {
      PlaceReachable(m.data, e, hash);
    } else {
      GrowAndPlaceKeeps(m, e, hash);
    }
  }

  /** The same for the grow-and-retry fallback. */
  lemma {:induction false} GrowAndPlaceKeeps<K, V>(m: OpenMap<K, V>, e: Entry<K, V>, hash: K -> int)
    requires Valid(m, hash) && FirstFree(m.data, Home(e.key, |m.data|, hash), 0).None?
    requires GrowAndPlace(m, e, hash).Success?
    ensures
      var r := GrowAndPlace(m, e, hash).value;
      AllReachable(r.data, hash) && r.filledCells == CountFilled(r.data)
    decreases |FullIndices(m.data)| * |FullIndices(m.data)| - |m.data|, 0
  {
    ProbeFailureMeansCrowded(m.data, Home(e.key, |m.data|, hash));
    var g := Rehash(m, hash).value;
    RehashValid(m, hash);
    FullIndicesCount(m.data);
    FullIndicesCount(g.data);
    RehashEntries(m, hash);
    PlaceGrowingKeeps(g, e, hash);
  }

  /**
    `insert(k, v)` under the invariant: it rejects exactly a present key, and a successful
    insert keeps the invariant and binds k to v.
   */
  lemma InsertValid<K, V>(m: OpenMap<K, V>, k: K, v: V, hash: K -> int)
    requires Valid(m, hash)
    ensures Insert(m, Some(k), v, hash) == Failure(IllegalArgument) <==> k in Contents(m)
    ensures Insert(m, Some(k), v, hash).Success? ==>
      var r := Insert(m, Some(k), v, hash).value;
      Valid(r, hash) && Contents(r) == Contents(m)[k := v]
  {
    FindCorrect(m, k, hash);
    if k !in Contents(m) {
      var e := Entry(k, v);
      var p := PlaceGrowing(m, e, hash);
      if p.Success? {
        var placed := p.value;
        PlaceGrowingKeeps(m, e, hash);
        PlaceGrowingEntries(m, e, hash);
        EntryMapAdd(LiveEntries(m.data), LiveEntries(placed.data), e);
        assert |multiset(LiveEntries(placed.data))| == |multiset(LiveEntries(m.data))| + 1;
        var counted := placed.(size := placed.size + 1);
        assert Valid(counted, hash);
        if LoadReached(counted.filledCells, |counted.data|) && Rehash(counted, hash).Success? {
          RehashValid(counted, hash);
        }
      }
    }
  }

  /**
    Without the probe-failure fallback, `insert` rehashes exactly when the load test holds
    after the entry is placed and counted; otherwise only that one slot changes.
   */
  lemma InsertRehashesAtLoad<K, V>(m: OpenMap<K, V>, k: K, v: V, hash: K -> int, idx: nat)
    requires Shaped(m) && Find(m, Some(k), hash).None?
    requires FirstFree(m.data, Home(k, |m.data|, hash), 0) == Some(idx)
    requires Insert(m, Some(k), v, hash).Success?
    ensures idx < |m.data|
    ensures
      var filled := m.filledCells + (if m.data[idx].Empty? then 1 else 0);
      && (|Insert(m, Some(k), v, hash).value.data| > |m.data| <==> LoadReached(filled, |m.data|))
      && (!LoadReached(filled, |m.data|) ==>
            Insert(m, Some(k), v, hash).value == OpenMap(m.data[idx := Full(Entry(k, v))], m.primeCounter, m.size + 1, filled))
      && (LoadReached(filled, |m.data|) ==>
            && (Insert(m, Some(k), v, hash).value.primeCounter, |Insert(m, Some(k), v, hash).value.data|) == Grow(m.primeCounter, |m.data|)
            && Insert(m, Some(k), v, hash).value.filledCells == Insert(m, Some(k), v, hash).value.size)
  {
    var e := Entry(k, v);
    var placed := Place(m, idx, e);
    var counted := placed.(size := placed.size + 1);
    PlaceWithoutGrowing(m, e, hash, idx);
    InsertAfterPlace(m, k, v, hash, placed);
    var filled := m.filledCells + (if m.data[idx].Empty? then 1 else 0);
    assert placed.filledCells == filled && |placed.data| == |m.data|;
    CountAndCheckShape(placed, hash);
  }

  /** The tail of `insert` grows the table exactly when the load test holds, and otherwise only counts. */
  lemma CountAndCheckShape<K, V>(p: OpenMap<K, V>, hash: K -> int)
    requires Shaped(p) && CountAndCheck(p, hash).Success?
    ensures |CountAndCheck(p, hash).value.data| > |p.data| <==> LoadReached(p.filledCells, |p.data|)
    ensures !LoadReached(p.filledCells, |p.data|) ==> CountAndCheck(p, hash).value == p.(size := p.size + 1)
    ensures LoadReached(p.filledCells, |p.data|) ==>
      var r := CountAndCheck(p, hash).value;
      (r.primeCounter, |r.data|) == Grow(p.primeCounter, |p.data|) && r.filledCells == r.size
  {
    if LoadReached(p.filledCells, |p.data|) {
      CountAtLoad(p, hash);
    } else {
      CountBelowLoad(p, hash);
    }
  }

  /** Inserting a new key into a table without tombstones whose probes must find room, below the load threshold. */
  lemma InsertIntoRoom<K, V>(m: OpenMap<K, V>, k: K, v: V, hash: K -> int)
    requires Shaped(m) && Counted(m) && NoTombs(m.data) && Find(m, Some(k), hash).None?
    requires |LiveEntries(m.data)| * |LiveEntries(m.data)| < |m.data|
    requires !LoadReached(|LiveEntries(m.data)| + 1, |m.data|)
    ensures Insert(m, Some(k), v, hash).Success?
    ensures
      var r := Insert(m, Some(k), v, hash).value;
      && |r.data| == |m.data| && r.primeCounter == m.primeCounter && NoTombs(r.data)
      && |LiveEntries(r.data)| == |LiveEntries(m.data)| + 1
  {
    var base := Home(k, |m.data|, hash);
    SparseTableHasRoom(m.data, base);
    var idx := FirstFree(m.data, base, 0).value;
    PlacedBelowLoad(m, k, v, hash, idx);
    PlacedIntoEmpty(m, idx, Entry(k, v));
  }

  /** A new key whose probe reaches slot idx, below the load threshold: the insert is that placement, counted. */
  lemma PlacedBelowLoad<K, V>(m: OpenMap<K, V>, k: K, v: V, hash: K -> int, idx: nat)
    requires Shaped(m) && Counted(m) && NoTombs(m.data) && Find(m, Some(k), hash).None?
    requires FirstFree(m.data, Home(k, |m.data|, hash), 0) == Some(idx)
    requires !LoadReached(|LiveEntries(m.data)| + 1, |m.data|)
    ensures idx < |m.data| && !m.data[idx].Full?
    ensures Insert(m, Some(k), v, hash) == Success(Place(m, idx, Entry(k, v)).(size := m.size + 1))
  {
    var e := Entry(k, v);
    var placed := Place(m, idx, e);
    PlaceWithoutGrowing(m, e, hash, idx);
    assert !LoadReached(placed.filledCells, |placed.data|) by {
      PlaceCounts(m, idx, e);
    }
    InsertAfterPlace(m, k, v, hash, placed);
    CountBelowLoad(placed, hash);
  }

  /** Placing into a free slot of a table without tombstones keeps it free of tombstones and adds one live entry. */
  lemma PlacedIntoEmpty<K, V>(m: OpenMap<K, V>, idx: nat, e: Entry<K, V>)
    requires NoTombs(m.data) && idx < |m.data| && !m.data[idx].Full?
    ensures NoTombs(Place(m, idx, e).data)
    ensures |LiveEntries(Place(m, idx, e).data)| == |LiveEntries(m.data)| + 1
  {
    LiveEntriesAddSlot(m.data, idx, e);
    assert Place(m, idx, e).data == m.data[idx := Full(e)];
  }

  /** Placing into a counted table without tombstones adds one live entry and one filled cell. */
  lemma PlaceCounts<K, V>(m: OpenMap<K, V>, idx: nat, e: Entry<K, V>)
    requires Counted(m) && NoTombs(m.data) && idx < |m.data| && !m.data[idx].Full?
    ensures Place(m, idx, e).filledCells == |LiveEntries(m.data)| + 1
    ensures |LiveEntries(Place(m, idx, e).data)| == |LiveEntries(m.data)| + 1
  {
    CountFilledNoTombs(m.data);
    assert m.data[idx].Empty?;
    LiveEntriesAddSlot(m.data, idx, e);
  }

  /** An insert of a new key, once the entry is placed, only counts it and checks the load. */
  lemma InsertAfterPlace<K, V>(m: OpenMap<K, V>, k: K, v: V, hash: K -> int, placed: OpenMap<K, V>)
    requires Shaped(m) && Find(m, Some(k), hash).None?
    requires PlaceGrowing(m, Entry(k, v), hash) == Success(placed)
    ensures Insert(m, Some(k), v, hash) == CountAndCheck(placed, hash)
  {
  }

  /** Below the load threshold the tail of `insert` only counts the entry. */
  lemma CountBelowLoad<K, V>(p: OpenMap<K, V>, hash: K -> int)
    requires Shaped(p) && !LoadReached(p.filledCells, |p.data|)
    ensures CountAndCheck(p, hash) == Success(p.(size := p.size + 1))
  {
  }

  /** At the load threshold the tail of `insert` rehashes the counted table. */
  lemma CountAtLoad<K, V>(p: OpenMap<K, V>, hash: K -> int)
    requires Shaped(p) && LoadReached(p.filledCells, |p.data|)
    ensures CountAndCheck(p, hash) == Rehash(p.(size := p.size + 1), hash)
  {
  }

  /** A probe that finds a free slot places the entry there, without growing. */
  lemma PlaceWithoutGrowing<K, V>(m: OpenMap<K, V>, e: Entry<K, V>, hash: K -> int, idx: nat)
    requires Shaped(m) && FirstFree(m.data, Home(e.key, |m.data|, hash), 0) == Some(idx)
    ensures idx < |m.data| && !m.data[idx].Full?
    ensures PlaceGrowing(m, e, hash) == Success(Place(m, idx, e))
  {
  }

  /** The crowded insert whose probe finds a slot: counting the entry reaches the load threshold and the table grows once. */
  lemma CrowdPlaced<K, V>(m: OpenMap<K, V>, k: K, v: V, hash: K -> int)
    requires Shaped(m) && Counted(m) && NoTombs(m.data) && Find(m, Some(k), hash).None?
    requires FirstFree(m.data, Home(k, |m.data|, hash), 0).Some?
    requires LoadReached(|LiveEntries(m.data)| + 1, |m.data|)
    requires |LiveEntries(m.data)| * |LiveEntries(m.data)| < Grow(m.primeCounter, |m.data|).1
    ensures Insert(m, Some(k), v, hash).Success?
    ensures (Insert(m, Some(k), v, hash).value.primeCounter, |Insert(m, Some(k), v, hash).value.data|) == Grow(m.primeCounter, |m.data|)
  {
    var e := Entry(k, v);
    var idx := FirstFree(m.data, Home(k, |m.data|, hash), 0).value;
    var placed := Place(m, idx, e);
    var counted := placed.(size := placed.size + 1);
    PlaceCounts(m, idx, e);
    PlaceWithoutGrowing(m, e, hash, idx);
    InsertAfterPlace(m, k, v, hash, placed);
    CountAtLoad(placed, hash);
    RehashSucceeds(counted, hash);
  }

  /** The crowded insert whose probe fails: the table grows once and the entry then finds room below the threshold. */
  lemma CrowdFallback<K, V>(m: OpenMap<K, V>, k: K, v: V, hash: K -> int)
    requires Shaped(m) && Counted(m) && NoTombs(m.data) && Find(m, Some(k), hash).None?
    requires FirstFree(m.data, Home(k, |m.data|, hash), 0).None?
    requires |LiveEntries(m.data)| * |LiveEntries(m.data)| < Grow(m.primeCounter, |m.data|).1
    requires !LoadReached(|LiveEntries(m.data)| + 1, Grow(m.primeCounter, |m.data|).1)
    ensures Insert(m, Some(k), v, hash).Success?
    ensures (Insert(m, Some(k), v, hash).value.primeCounter, |Insert(m, Some(k), v, hash).value.data|) == Grow(m.primeCounter, |m.data|)
  {
    var e := Entry(k, v);
    var n := |LiveEntries(m.data)|;
    assert Rehash(m, hash).Success? by {
      ProbeFailureMeansCrowded(m.data, Home(k, |m.data|, hash));
      FullIndicesCount(m.data);
      SquareMono(n - 1, n);
      RehashSucceeds(m, hash);
    }
    var g := Rehash(m, hash).value;
    RehashEntries(m, hash);
    var gbase := Home(k, |g.data|, hash);
    SparseTableHasRoom(g.data, gbase);
    var idx := FirstFree(g.data, gbase, 0).value;
    var placed := Place(g, idx, e);
    assert placed.filledCells == n + 1 by {
      CountFilledNoTombs(g.data);
    }
    PlaceAfterGrowing(m, e, hash);
    PlaceWithoutGrowing(g, e, hash, idx);
    InsertAfterPlace(m, k, v, hash, placed);
    CountBelowLoad(placed, hash);
  }

  /** A probe that finds no free slot grows the table and places the entry in the grown one. */
  lemma PlaceAfterGrowing<K, V>(m: OpenMap<K, V>, e: Entry<K, V>, hash: K -> int)
    requires Shaped(m) && FirstFree(m.data, Home(e.key, |m.data|, hash), 0).None?
    requires Rehash(m, hash).Success?
    ensures PlaceGrowing(m, e, hash) == PlaceGrowing(Rehash(m, hash).value, e, hash)
  {
    assert PlaceGrowing(m, e, hash) == GrowAndPlace(m, e, hash);
  }

  /** Inserting a new key into a table without tombstones that reaches the load threshold: exactly one growth. */
  lemma InsertIntoCrowd<K, V>(m: OpenMap<K, V>, k: K, v: V, hash: K -> int)
    requires Shaped(m) && Counted(m) && NoTombs(m.data) && Find(m, Some(k), hash).None?
    requires LoadReached(|LiveEntries(m.data)| + 1, |m.data|)
    requires |LiveEntries(m.data)| * |LiveEntries(m.data)| < Grow(m.primeCounter, |m.data|).1
    requires !LoadReached(|LiveEntries(m.data)| + 1, Grow(m.primeCounter, |m.data|).1)
    ensures Insert(m, Some(k), v, hash).Success?
    ensures (Insert(m, Some(k), v, hash).value.primeCounter, |Insert(m, Some(k), v, hash).value.data|) == Grow(m.primeCounter, |m.data|)
  {
    if FirstFree(m.data, Home(k, |m.data|, hash), 0).Some? {
      CrowdPlaced(m, k, v, hash);
    } else {
      CrowdFallback(m, k, v, hash);
    }
  }

  /**
    From a fresh map, the first three inserts of new keys keep the five slots and the
    fourth grows the capacity to eleven, whatever the hash function.
   */
  lemma FourthInsertGrows<K, V>(k1: K, k2: K, k3: K, k4: K, v1: V, v2: V, v3: V, v4: V, hash: K -> int)
    requires k1 != k2 && k1 != k3 && k1 != k4 && k2 != k3 && k2 != k4 && k3 != k4
    ensures
      var r1 := Insert(NewMap(), Some(k1), v1, hash);
      r1.Success? && |r1.value.data| == 5 &&
      var r2 := Insert(r1.value, Some(k2), v2, hash);
      r2.Success? && |r2.value.data| == 5 &&
      var r3 := Insert(r2.value, Some(k3), v3, hash);
      r3.Success? && |r3.value.data| == 5 &&
      var r4 := Insert(r3.value, Some(k4), v4, hash);
      r4.Success? && |r4.value.data| == 11
  {
    var m0: OpenMap<K, V> := NewMap();
    NewMapValid<K, V>(hash);
    InitialCapacityOk();
    InsertNewKeyIntoRoom(m0, k1, v1, hash);
    var m1 := Insert(m0, Some(k1), v1, hash).value;
    assert Contents(m1) == map[k1 := v1];
    InsertNewKeyIntoRoom(m1, k2, v2, hash);
    var m2 := Insert(m1, Some(k2), v2, hash).value;
    assert Contents(m2) == map[k1 := v1, k2 := v2];
    InsertNewKeyIntoRoom(m2, k3, v3, hash);
    var m3 := Insert(m2, Some(k3), v3, hash).value;
    assert Contents(m3) == map[k1 := v1, k2 := v2, k3 := v3];
    FindCorrect(m3, k4, hash);
    InsertIntoCrowd(m3, k4, v4, hash);
  }

  /** A new key into a valid sparse table without tombstones, below the load threshold: the table keeps its size and gains the binding. */
  lemma InsertNewKeyIntoRoom<K, V>(m: OpenMap<K, V>, k: K, v: V, hash: K -> int)
    requires Valid(m, hash) && NoTombs(m.data) && k !in Contents(m)
    requires |LiveEntries(m.data)| * |LiveEntries(m.data)| < |m.data|
    requires !LoadReached(|LiveEntries(m.data)| + 1, |m.data|)
    ensures Insert(m, Some(k), v, hash).Success?
    ensures
      var r := Insert(m, Some(k), v, hash).value;
      && Valid(r, hash) && Contents(r) == Contents(m)[k := v] && NoTombs(r.data)
      && |r.data| == |m.data| && r.primeCounter == m.primeCounter
      && |LiveEntries(r.data)| == |LiveEntries(m.data)| + 1
  {
    FindCorrect(m, k, hash);
    InsertIntoRoom(m, k, v, hash);
    InsertValid(m, k, v, hash);
  }

  // ---------------------------------------------------------------------------
  // remove, put, get, has, size

  /** Turning a live slot into a tombstone keeps the invariant once `size` drops by one, and unbinds that key. */
  lemma TombstoneValid<K, V>(m: OpenMap<K, V>, idx: nat, hash: K -> int)
    requires Valid(m, hash) && idx < |m.data| && m.data[idx].Full?
    ensures
      var m' := m.(data := m.data[idx := Tomb], size := m.size - 1);
      Valid(m', hash) && Contents(m') == Contents(m) - {m.data[idx].entry.key}
  {
    var s := m.data;
    var s' := s[idx := Tomb];
    LiveEntriesTombSlot(s, idx);
    EntryMapRemove(LiveEntries(s), LiveEntries(s'), s[idx].entry);
    AllReachableUpdate(s, idx, Tomb, hash);
    CountFilledUpdate(s, idx, Tomb);
  }

  /**
    `remove(k)` under the invariant: it succeeds exactly for a present key, returns its
    value, unbinds it, keeps the invariant and the capacity, and leaves `filledCells` as it was.
   */
  lemma RemoveValid<K, V>(m: OpenMap<K, V>, k: K, hash: K -> int)
    requires Valid(m, hash)
    ensures Remove(m, Some(k), hash).Success? <==> k in Contents(m)
    ensures Remove(m, Some(k), hash).Success? ==>
      var r := Remove(m, Some(k), hash).value;
      && r.1 == Contents(m)[k]
      && Valid(r.0, hash) && Contents(r.0) == Contents(m) - {k}
      && |r.0.data| == |m.data| && r.0.filledCells == m.filledCells
  {
    FindCorrect(m, k, hash);
    if k in Contents(m) {
      TombstoneValid(m, Find(m, Some(k), hash).value, hash);
    }
  }

  /** Rebinding the key of a live slot keeps the invariant and rebinds that key in the map. */
  lemma RebindValid<K, V>(m: OpenMap<K, V>, idx: nat, v: V, hash: K -> int)
    requires Valid(m, hash) && idx < |m.data| && m.data[idx].Full?
    ensures
      var k := m.data[idx].entry.key;
      var m' := m.(data := m.data[idx := Full(Entry(k, v))]);
      Valid(m', hash) && Contents(m') == Contents(m)[k := v]
  {
    var s := m.data;
    var e := s[idx].entry;
    var x := Full(Entry(e.key, v));
    var s' := s[idx := x];
    var m' := m.(data := s');
    assert UniqueKeys(LiveEntries(s')) && Contents(m') == Contents(m)[e.key := v] by {
      LiveEntriesSwapSlot(s, idx, Entry(e.key, v));
      EntryMapReplace(LiveEntries(s), LiveEntries(s'), e, v);
    }
    assert AllReachable(s', hash) by {
      assert Fills(s, s');
      ReachableMore(s, s', e.key, idx, hash);
      AllReachableUpdate(s, idx, x, hash);
    }
    assert Counted(m') by {
      LiveEntriesSwapSlot(s, idx, Entry(e.key, v));
      CountFilledUpdate(s, idx, x);
    }
  }

  /**
    `put(k, v)` under the invariant: it succeeds exactly for a present key, rebinds it,
    and keeps the invariant, the counters and the capacity.
   */
  lemma PutValid<K, V>(m: OpenMap<K, V>, k: K, v: V, hash: K -> int)
    requires Valid(m, hash)
    ensures Put(m, Some(k), v, hash).Success? <==> k in Contents(m)
    ensures Put(m, Some(k), v, hash).Success? ==>
      var r := Put(m, Some(k), v, hash).value;
      && Valid(r, hash) && Contents(r) == Contents(m)[k := v]
      && r.size == m.size && r.filledCells == m.filledCells && |r.data| == |m.data|
  {
    FindCorrect(m, k, hash);
    if k in Contents(m) {
      RebindValid(m, Find(m, Some(k), hash).value, v, hash);
    }
  }

  /** `get(k)` under the invariant: the bound value, or an illegal-argument error for an absent or null key. */
  lemma GetCorrect<K, V>(m: OpenMap<K, V>, key: Option<K>, hash: K -> int)
    requires Valid(m, hash)
    ensures Get(m, key, hash) ==
      if key.Some? && key.value in Contents(m) then Success(Contents(m)[key.value]) else Failure(IllegalArgument)
  {
    if key.Some? {
      FindCorrect(m, key.value, hash);
    }
  }

  /** `has(k)` under the invariant: whether the key is bound (never for a null key). */
  lemma HasCorrect<K, V>(m: OpenMap<K, V>, key: Option<K>, hash: K -> int)
    requires Valid(m, hash)
    ensures Has(m, key, hash) <==> key.Some? && key.value in Contents(m)
  {
    if key.Some? {
      FindCorrect(m, key.value, hash);
    }
  }

  /** `size()` under the invariant: the number of bound keys. */
  lemma SizeCorrect<K, V>(m: OpenMap<K, V>, hash: K -> int)
    requires Valid(m, hash)
    ensures Size(m) == |Contents(m)|
  {
    EntryMapSize(LiveEntries(m.data));
  }

  /** The constructor establishes the invariant with no binding. */
  lemma NewMapValid<K, V>(hash: K -> int)
    ensures Valid(NewMap<K, V>(), hash) && Contents(NewMap<K, V>()) == map[]
  {
    var m: OpenMap<K, V> := NewMap();
    LiveEntriesNone(m.data);
    CountFilledNoTombs(m.data);
  }
}
