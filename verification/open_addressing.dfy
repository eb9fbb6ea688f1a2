/**
  The open-addressing hash map: one array of slots, quadratic probing,
  tombstones for deleted entries, growth along the prime table.
  The map is a value; every operation returns the new map.
 */
module OpenAddressing {
  import opened Wrappers
  import opened Exceptions
  import opened TableMath
  import opened Entries
  import opened QuadraticProbing

  /** A cell of the backing array: never used, deleted (the tombstone), or holding an entry. */
  datatype Slot<K, V> = Empty | Tomb | Full(entry: Entry<K, V>)

  /** The map's fields. The capacity is the length of `data`. */
  datatype OpenMap<K, V> = OpenMap(data: seq<Slot<K, V>>, primeCounter: nat, size: int, filledCells: int)

  /** The capacity agrees with the prime counter (and so is positive). */
  predicate Shaped<K, V>(m: OpenMap<K, V>) {
    CapacityOk(m.primeCounter, |m.data|)
  }

  /** A newly allocated backing array: every slot empty. */
  function EmptyTable<K, V>(cap: nat): (s: seq<Slot<K, V>>)
    ensures |s| == cap && NoTombs(s) && LiveEntries(s) == [] && CountFilled(s) == 0
    ensures forall i :: 0 <= i < |s| ==> s[i] == Empty
  {
    var s := seq(cap, _ => Empty);
    LiveEntriesNone(s);
    CountFilledNoTombs(s);
    s
  }

  /** The constructor: five empty slots, both counters zero. */
  function NewMap<K, V>(): (m: OpenMap<K, V>)
    ensures Shaped(m) && |m.data| == InitialCapacity
    ensures m.size == 0 && m.filledCells == 0
    ensures forall i :: 0 <= i < |m.data| ==> m.data[i] == Empty
  {
    OpenMap(EmptyTable(InitialCapacity), 0, 0, 0)
  }

  /** `getIndex(k)` for the current capacity. */
  function Home<K>(k: K, cap: nat, hash: K -> int): (r: nat)
    requires cap > 0
    ensures r < cap
  {
    GetIndex(hash(k), cap)
  }

  // ---------------------------------------------------------------------------
  // Views of a slot array

  function SlotEntries<K, V>(x: Slot<K, V>): seq<Entry<K, V>> {
    if x.Full? then [x.entry] else []
  }

  /** The live entries in increasing slot order (tombstones and empty slots skipped). */
  function LiveEntries<K, V>(s: seq<Slot<K, V>>): seq<Entry<K, V>>
    decreases |s|
  {
    if |s| == 0 then [] else SlotEntries(s[0]) + LiveEntries(s[1..])
  }

  /** The number of slots that are not empty: live entries plus tombstones. */
  function CountFilled<K, V>(s: seq<Slot<K, V>>): nat
    decreases |s|
  {
    if |s| == 0 then 0 else (if s[0].Empty? then 0 else 1) + CountFilled(s[1..])
  }

  ghost function FullIndices<K, V>(s: seq<Slot<K, V>>): set<nat> {
    set i | 0 <= i < |s| && s[i].Full?
  }

  ghost predicate NoTombs<K, V>(s: seq<Slot<K, V>>) {
    forall i :: 0 <= i < |s| ==> !s[i].Tomb?
  }

  lemma {:induction false} LiveEntriesConcat<K, V>(a: seq<Slot<K, V>>, b: seq<Slot<K, V>>)
    ensures LiveEntries(a + b) == LiveEntries(a) + LiveEntries(b)
    decreases |a|
  {
    if |a| > 0 {
      assert (a + b)[0] == a[0];
      assert (a + b)[1..] == a[1..] + b;
      LiveEntriesConcat(a[1..], b);
      calc {
        LiveEntries(a + b);
        SlotEntries(a[0]) + LiveEntries(a[1..] + b);
        SlotEntries(a[0]) + (LiveEntries(a[1..]) + LiveEntries(b));
        (SlotEntries(a[0]) + LiveEntries(a[1..])) + LiveEntries(b);
      }
    } else {
      assert a + b == b;
    }
  }

  /** Overwriting one slot swaps that slot's entry in the multiset of live entries. */
  lemma LiveEntriesUpdate<K, V>(s: seq<Slot<K, V>>, i: nat, x: Slot<K, V>)
    requires i < |s|
    ensures multiset(LiveEntries(s[i := x])) + multiset(SlotEntries(s[i]))
         == multiset(LiveEntries(s)) + multiset(SlotEntries(x))
  {
    var s' := s[i := x];
    assert s == s[..i] + [s[i]] + s[i + 1..];
    assert s' == s[..i] + [x] + s[i + 1..];
    LiveEntriesConcat(s[..i] + [s[i]], s[i + 1..]);
    LiveEntriesConcat(s[..i], [s[i]]);
    LiveEntriesConcat(s[..i] + [x], s[i + 1..]);
    LiveEntriesConcat(s[..i], [x]);
    LiveEntriesSingle(s[i]);
    LiveEntriesSingle(x);
  }

  lemma LiveEntriesSingle<K, V>(x: Slot<K, V>)
    ensures LiveEntries([x]) == SlotEntries(x)
  {
    assert [x][1..] == [];
  }

  /** Storing an entry in a slot without one adds exactly that entry to the live entries. */
  lemma LiveEntriesAddSlot<K, V>(s: seq<Slot<K, V>>, idx: nat, e: Entry<K, V>)
    requires idx < |s| && !s[idx].Full?
    ensures multiset(LiveEntries(s[idx := Full(e)])) == multiset(LiveEntries(s)) + multiset{e}
    ensures |LiveEntries(s[idx := Full(e)])| == |LiveEntries(s)| + 1
  {
    LiveEntriesUpdate(s, idx, Full(e));
    assert SlotEntries(s[idx]) == [] && SlotEntries(Full(e)) == [e];
    assert |multiset(LiveEntries(s[idx := Full(e)]))| == |multiset(LiveEntries(s)) + multiset{e}|;
  }

  /** Turning a full slot into a tombstone removes exactly its entry from the live entries. */
  lemma LiveEntriesTombSlot<K, V>(s: seq<Slot<K, V>>, idx: nat)
    requires idx < |s| && s[idx].Full?
    ensures s[idx].entry in LiveEntries(s)
    ensures multiset(LiveEntries(s[idx := Tomb])) == multiset(LiveEntries(s)) - multiset{s[idx].entry}
    ensures |LiveEntries(s[idx := Tomb])| + 1 == |LiveEntries(s)|
  {
    var e := s[idx].entry;
    var a, b := multiset(LiveEntries(s[idx := Tomb])), multiset(LiveEntries(s));
    LiveEntriesMembership(s, e);
    LiveEntriesUpdate(s, idx, Tomb);
    assert SlotEntries(s[idx]) == [e] && SlotEntries<K, V>(Tomb) == [];
    assert a + multiset{e} == b;
    assert |a| + 1 == |b|;
  }

  /** Overwriting a full slot with a new entry swaps the two entries in the live entries. */
  lemma LiveEntriesSwapSlot<K, V>(s: seq<Slot<K, V>>, idx: nat, e': Entry<K, V>)
    requires idx < |s| && s[idx].Full?
    ensures s[idx].entry in LiveEntries(s)
    ensures multiset(LiveEntries(s[idx := Full(e')])) == multiset(LiveEntries(s)) - multiset{s[idx].entry} + multiset{e'}
    ensures |LiveEntries(s[idx := Full(e')])| == |LiveEntries(s)|
  {
    var e := s[idx].entry;
    var a, b := multiset(LiveEntries(s[idx := Full(e')])), multiset(LiveEntries(s));
    assert e in b by {
      LiveEntriesMembership(s, e);
    }
    assert a + multiset{e} == b + multiset{e'} by {
      LiveEntriesUpdate(s, idx, Full(e'));
      assert SlotEntries(s[idx]) == [e] && SlotEntries(Full(e')) == [e'];
    }
    assert |a| + 1 == |b| + 1 by {
      assert |a + multiset{e}| == |b + multiset{e'}|;
    }
    MultisetTrade(a, b, e, e');
  }

  /** Overwriting one slot changes the filled count by that slot's change of emptiness. */
  lemma {:induction false} CountFilledUpdate<K, V>(s: seq<Slot<K, V>>, i: nat, x: Slot<K, V>)
    requires i < |s|
    ensures CountFilled(s[i := x]) + (if s[i].Empty? then 0 else 1)
         == CountFilled(s) + (if x.Empty? then 0 else 1)
    decreases |s|
  {
    if i == 0 {
      assert s[i := x][1..] == s[1..];
    } else {
      assert s[i := x][1..] == s[1..][i - 1 := x];
      CountFilledUpdate(s[1..], i - 1, x);
    }
  }

  /** An entry is live exactly when some slot holds it. */
  lemma {:induction false} LiveEntriesMembership<K, V>(s: seq<Slot<K, V>>, e: Entry<K, V>)
    ensures e in LiveEntries(s) <==> exists i :: 0 <= i < |s| && s[i] == Full(e)
    decreases |s|
  {
    if |s| > 0 {
      LiveEntriesMembership(s[1..], e);
      if e in LiveEntries(s[1..]) {
        var i :| 0 <= i < |s[1..]| && s[1..][i] == Full(e);
        assert s[i + 1] == Full(e);
      }
      if exists i :: 0 <= i < |s| && s[i] == Full(e) {
        var i :| 0 <= i < |s| && s[i] == Full(e);
        if i > 0 {
          assert s[1..][i - 1] == Full(e);
        }
      }
    }
  }

  /** Without tombstones the filled count is the number of live entries. */
  lemma {:induction false} CountFilledNoTombs<K, V>(s: seq<Slot<K, V>>)
    requires NoTombs(s)
    ensures CountFilled(s) == |LiveEntries(s)|
    decreases |s|
  {
    if |s| > 0 {
      assert NoTombs(s[1..]) by {
        forall i | 0 <= i < |s[1..]| ensures !s[1..][i].Tomb? {
          assert s[1..][i] == s[i + 1];
        }
      }
      CountFilledNoTombs(s[1..]);
    }
  }

  /** A slot array with no full slot has no live entries. */
  lemma {:induction false} LiveEntriesNone<K, V>(s: seq<Slot<K, V>>)
    requires forall i :: 0 <= i < |s| ==> !s[i].Full?
    ensures LiveEntries(s) == []
    decreases |s|
  {
    if |s| > 0 {
      assert forall i :: 0 <= i < |s[1..]| ==> s[1..][i] == s[i + 1];
      LiveEntriesNone(s[1..]);
    }
  }

  /** The number of full slots is the number of live entries. */
  lemma {:induction false} FullIndicesCount<K, V>(s: seq<Slot<K, V>>)
    ensures |FullIndices(s)| == |LiveEntries(s)|
    decreases |s|
  {
    if |s| > 0 {
      var n := |s| - 1;
      var p := s[..n];
      assert s == p + [s[n]];
      LiveEntriesConcat(p, [s[n]]);
      assert LiveEntries([s[n]]) == SlotEntries(s[n]) by {
        assert [s[n]][1..] == [];
      }
      FullIndicesCount(p);
      if s[n].Full? {
        assert FullIndices(s) == FullIndices(p) + {n};
      } else {
        assert FullIndices(s) == FullIndices(p);
      }
    }
  }

  // ---------------------------------------------------------------------------
  // Probing

  /** Slot p is full and holds key k. */
  predicate Holds<K(==), V>(s: seq<Slot<K, V>>, k: K, p: nat)
    requires p < |s|
  {
    s[p].Full? && s[p].entry.key == k
  }

  /** Probes i..n-1 all land on non-empty slots. */
  ghost predicate Used<K, V>(s: seq<Slot<K, V>>, base: nat, i: nat, n: nat)
    requires |s| > 0
  {
    forall j :: i <= j < n ==> !s[Probe(base, j, |s|)].Empty?
  }

  /** Probes i..n-1 land on non-empty slots that do not hold k: a search walks past them. */
  ghost predicate Passes<K, V>(s: seq<Slot<K, V>>, k: K, base: nat, i: nat, n: nat)
    requires |s| > 0
  {
    forall j :: i <= j < n ==> !s[Probe(base, j, |s|)].Empty? && !Holds(s, k, Probe(base, j, |s|))
  }

  /** Probes i..n-1 all land on full slots: an insertion walks past them. */
  ghost predicate Occupied<K, V>(s: seq<Slot<K, V>>, base: nat, i: nat, n: nat)
    requires |s| > 0
  {
    forall j :: i <= j < n ==> s[Probe(base, j, |s|)].Full?
  }

  /**
    The search loop of `find` from probe i on: the slot of the first probe that holds k,
    stopping at the first empty slot or after `capacity` probes; tombstones are walked past.
   */
  function FindFrom<K(==), V>(s: seq<Slot<K, V>>, k: K, base: nat, i: nat): (r: Option<nat>)
    requires |s| > 0 && i <= |s|
    ensures r.Some? ==> r.value < |s| && Holds(s, k, r.value)
    ensures r.Some? ==> exists n :: i <= n < |s| && Probe(base, n, |s|) == r.value && Passes(s, k, base, i, n)
    ensures r.None? ==> forall n :: i <= n < |s| && Used(s, base, i, n) ==> !Holds(s, k, Probe(base, n, |s|))
    decreases |s| - i
  {
    if i == |s| then None
    else
      var p := Probe(base, i, |s|);
      if s[p].Empty? then None
      else if Holds(s, k, p) then Some(p)
      else FindFrom(s, k, base, i + 1)
  }

  /** `find(key)`: the slot holding the key, or none (always none for a null key). */
  function Find<K(==), V>(m: OpenMap<K, V>, key: Option<K>, hash: K -> int): (r: Option<nat>)
    requires |m.data| > 0
    ensures r.Some? ==> key.Some? && r.value < |m.data| && Holds(m.data, key.value, r.value)
  {
    if key.None? then None else FindFrom(m.data, key.value, Home(key.value, |m.data|, hash), 0)
  }

  /**
    The slot an insertion takes from probe i on: the first probe landing on an empty slot
    or a tombstone, or none when every remaining probe lands on a full slot.
   */
  function FirstFree<K, V>(s: seq<Slot<K, V>>, base: nat, i: nat): (r: Option<nat>)
    requires |s| > 0 && i <= |s|
    ensures r.Some? ==> r.value < |s| && !s[r.value].Full?
    ensures r.Some? ==> exists n :: i <= n < |s| && Probe(base, n, |s|) == r.value && Occupied(s, base, i, n)
    ensures r.None? <==> Occupied(s, base, i, |s|)
    decreases |s| - i
  {
    if i == |s| then None
    else
      var p := Probe(base, i, |s|);
      if !s[p].Full? then Some(p) else FirstFree(s, base, i + 1)
  }

  /** When every probe lands on a full slot, the square of the number of full slots reaches the capacity. */
  lemma ProbeFailureMeansCrowded<K, V>(s: seq<Slot<K, V>>, base: nat)
    requires |s| > 0 && Occupied(s, base, 0, |s|)
    ensures |FullIndices(s)| * |FullIndices(s)| >= |s|
  {
    var n := |FullIndices(s)|;
    if n * n < |s| {
      assert n <= n * n by {
        if n > 0 {
          MulSign(n, n);
        }
      }
      forall i | 0 <= i <= n ensures Probe(base, i, |s|) in FullIndices(s) {
      }
      ProbesFillSet(base, n, |s|, FullIndices(s));
    }
  }

  /** The probe for a key finds a free slot whenever the full slots are fewer than the square root of the capacity. */
  lemma SparseTableHasRoom<K, V>(s: seq<Slot<K, V>>, base: nat)
    requires |s| > 0 && |LiveEntries(s)| * |LiveEntries(s)| < |s|
    ensures FirstFree(s, base, 0).Some?
  {
    FullIndicesCount(s);
    if FirstFree(s, base, 0).None? {
      ProbeFailureMeansCrowded(s, base);
    }
  }

  /** Stores an entry in a free slot; a previously empty slot becomes a filled cell, a tombstone already was one. */
  function Place<K, V>(m: OpenMap<K, V>, idx: nat, e: Entry<K, V>): (r: OpenMap<K, V>)
    requires idx < |m.data| && !m.data[idx].Full?
    ensures |r.data| == |m.data| && r.primeCounter == m.primeCounter && r.size == m.size
    ensures r.filledCells - m.filledCells == CountFilled(r.data) - CountFilled(m.data)
  {
    CountFilledUpdate(m.data, idx, Full(e));
    m.(data := m.data[idx := Full(e)],
       filledCells := if m.data[idx].Empty? then m.filledCells + 1 else m.filledCells)
  }

  // ---------------------------------------------------------------------------
  // Rehashing

  /**
    The copy loop of `rehash` from old slot i on: every live entry, in slot order, goes to the
    first free probe of the new table; a probe that finds no room ends in the nested rehash
    that indexes the old array with the grown capacity, i.e. an out-of-bounds error.
   */
  function Reinsert<K, V>(src: seq<Slot<K, V>>, i: nat, t: seq<Slot<K, V>>, hash: K -> int): (r: Result<seq<Slot<K, V>>, Error>)
    requires i <= |src| && |t| > 0
    ensures r.Failure? ==> r.error == IndexOutOfBounds
    ensures r.Success? ==> |r.value| == |t|
    decreases |src| - i
  {
    if i == |src| then Success(t)
    else if src[i].Full? then
      var e := src[i].entry;
      match FirstFree(t, Home(e.key, |t|, hash), 0)
      case None => Failure(IndexOutOfBounds)
      case Some(idx) => Reinsert(src, i + 1, t[idx := Full(e)], hash)
    else
      Reinsert(src, i + 1, t, hash)
  }

  /** The copy loop moves every live entry of the old slots into the new table, once. */
  lemma {:induction false} ReinsertMovesEntries<K, V>(src: seq<Slot<K, V>>, i: nat, t: seq<Slot<K, V>>, hash: K -> int)
    requires i <= |src| && |t| > 0 && Reinsert(src, i, t, hash).Success?
    ensures multiset(LiveEntries(Reinsert(src, i, t, hash).value)) == multiset(LiveEntries(t)) + multiset(LiveEntries(src[i..]))
    decreases |src| - i
  {
    if i == |src| {
      assert src[i..] == [];
    } else {
      ReinsertStep(src, i);
      if src[i].Full? {
        var e := src[i].entry;
        var idx := FirstFree(t, Home(e.key, |t|, hash), 0).value;
        var t' := t[idx := Full(e)];
        assert SlotEntries(t[idx]) == [];
        LiveEntriesUpdate(t, idx, Full(e));
        assert multiset(LiveEntries(t')) == multiset(LiveEntries(t)) + multiset(SlotEntries(src[i]));
        assert Reinsert(src, i, t, hash) == Reinsert(src, i + 1, t', hash);
        ReinsertMovesEntries(src, i + 1, t', hash);
      } else {
        assert SlotEntries(src[i]) == [];
        assert Reinsert(src, i, t, hash) == Reinsert(src, i + 1, t, hash);
        ReinsertMovesEntries(src, i + 1, t, hash);
      }
    }
  }

  /** The copy loop writes no tombstone. */
  lemma {:induction false} ReinsertNoTombs<K, V>(src: seq<Slot<K, V>>, i: nat, t: seq<Slot<K, V>>, hash: K -> int)
    requires i <= |src| && |t| > 0 && Reinsert(src, i, t, hash).Success? && NoTombs(t)
    ensures NoTombs(Reinsert(src, i, t, hash).value)
    decreases |src| - i
  {
    if i < |src| {
      if src[i].Full? {
        var e := src[i].entry;
        var idx := FirstFree(t, Home(e.key, |t|, hash), 0).value;
        ReinsertNoTombs(src, i + 1, t[idx := Full(e)], hash);
      } else {
        ReinsertNoTombs(src, i + 1, t, hash);
      }
    }
  }

  /** The live entries from old slot i on: slot i's entry, then those after it. */
  lemma ReinsertStep<K, V>(src: seq<Slot<K, V>>, i: nat)
    requires i < |src|
    ensures LiveEntries(src[i..]) == SlotEntries(src[i]) + LiveEntries(src[i + 1..])
  {
    assert src[i..][0] == src[i];
    assert src[i..][1..] == src[i + 1..];
  }

  /** Placing adds exactly the new entry to the live entries. */
  lemma PlaceEntries<K, V>(m: OpenMap<K, V>, idx: nat, e: Entry<K, V>)
    requires idx < |m.data| && !m.data[idx].Full?
    ensures multiset(LiveEntries(Place(m, idx, e).data)) == multiset(LiveEntries(m.data)) + multiset{e}
    ensures |LiveEntries(Place(m, idx, e).data)| == |LiveEntries(m.data)| + 1
  {
    LiveEntriesAddSlot(m.data, idx, e);
  }

  /**
    `rehash`: grow the capacity, copy the live entries into a fresh table, drop every
    tombstone and reset `filledCells` to `size`.
   */
  function Rehash<K, V>(m: OpenMap<K, V>, hash: K -> int): (r: Result<OpenMap<K, V>, Error>)
    requires Shaped(m)
    ensures r.Failure? ==> r.error == IndexOutOfBounds
    ensures r.Success? ==> Shaped(r.value) && (r.value.primeCounter, |r.value.data|) == Grow(m.primeCounter, |m.data|)
    ensures r.Success? ==> NoTombs(r.value.data) && r.value.size == m.size && r.value.filledCells == m.size
  {
    var grown := Grow(m.primeCounter, |m.data|);
    var blank := EmptyTable(grown.1);
    var t :- Reinsert(m.data, 0, blank, hash);
    ReinsertNoTombs(m.data, 0, blank, hash);
    Success(OpenMap(t, grown.0, m.size, m.size))
  }

  /** A successful rehash keeps exactly the live entries. */
  lemma RehashEntries<K, V>(m: OpenMap<K, V>, hash: K -> int)
    requires Shaped(m)
    ensures Rehash(m, hash).Success? ==> multiset(LiveEntries(Rehash(m, hash).value.data)) == multiset(LiveEntries(m.data))
    ensures Rehash(m, hash).Success? ==> |LiveEntries(Rehash(m, hash).value.data)| == |LiveEntries(m.data)|
  {
    if Rehash(m, hash).Failure? { return; }
    var grown := Grow(m.primeCounter, |m.data|);
    var blank: seq<Slot<K, V>> := EmptyTable(grown.1);
    assert m.data[0..] == m.data;
    ReinsertMovesEntries(m.data, 0, blank, hash);
    var r := Rehash(m, hash).value;
    assert |multiset(LiveEntries(r.data))| == |multiset(LiveEntries(m.data))|;
  }

  /**
    Places a new entry: at the first free probe, or, when every probe lands on a full slot,
    after growing the table (as often as needed).
   */
  function PlaceGrowing<K, V>(m: OpenMap<K, V>, e: Entry<K, V>, hash: K -> int): (r: Result<OpenMap<K, V>, Error>)
    requires Shaped(m)
    ensures r.Failure? ==> r.error == IndexOutOfBounds
    ensures r.Success? ==> Shaped(r.value) && |r.value.data| >= |m.data| && r.value.size == m.size
    decreases |FullIndices(m.data)| * |FullIndices(m.data)| - |m.data|, 1
  {
    match FirstFree(m.data, Home(e.key, |m.data|, hash), 0)
    case Some(idx) => Success(Place(m, idx, e))
    case None => GrowAndPlace(m, e, hash)
  }

  /**
    The fallback of `PlaceGrowing` once every probe landed on a full slot: rehash, then place
    again. Each growth keeps the number of live entries and raises the capacity, and a failed
    probe shows that capacity is at most the square of the live count, so the growing stops.
   */
  function GrowAndPlace<K, V>(m: OpenMap<K, V>, e: Entry<K, V>, hash: K -> int): (r: Result<OpenMap<K, V>, Error>)
    requires Shaped(m) && FirstFree(m.data, Home(e.key, |m.data|, hash), 0).None?
    ensures r.Failure? ==> r.error == IndexOutOfBounds
    ensures r.Success? ==> Shaped(r.value) && |r.value.data| >= |m.data| && r.value.size == m.size
    decreases |FullIndices(m.data)| * |FullIndices(m.data)| - |m.data|, 0
  {
    ProbeFailureMeansCrowded(m.data, Home(e.key, |m.data|, hash));
    var g :- Rehash(m, hash);
    RehashEntries(m, hash);
    FullIndicesCount(m.data);
    FullIndicesCount(g.data);
    PlaceGrowing(g, e, hash)
  }

  /** Placing with growth adds exactly the new entry to the live entries. */
  lemma {:induction false} PlaceGrowingEntries<K, V>(m: OpenMap<K, V>, e: Entry<K, V>, hash: K -> int)
    requires Shaped(m)
    ensures PlaceGrowing(m, e, hash).Success? ==>
      multiset(LiveEntries(PlaceGrowing(m, e, hash).value.data)) == multiset(LiveEntries(m.data)) + multiset{e}
    decreases |FullIndices(m.data)| * |FullIndices(m.data)| - |m.data|, 1
  {
    match FirstFree(m.data, Home(e.key, |m.data|, hash), 0)
    case Some(idx) => PlaceEntries(m, idx, e);
    case None => GrowAndPlaceEntries(m, e, hash);
  }

  /** The same for the grow-and-retry fallback. */
  lemma {:induction false} GrowAndPlaceEntries<K, V>(m: OpenMap<K, V>, e: Entry<K, V>, hash: K -> int)
    requires Shaped(m) && FirstFree(m.data, Home(e.key, |m.data|, hash), 0).None?
    ensures GrowAndPlace(m, e, hash).Success? ==>
      multiset(LiveEntries(GrowAndPlace(m, e, hash).value.data)) == multiset(LiveEntries(m.data)) + multiset{e}
    decreases |FullIndices(m.data)| * |FullIndices(m.data)| - |m.data|, 0
  {
    if Rehash(m, hash).Success? {
      ProbeFailureMeansCrowded(m.data, Home(e.key, |m.data|, hash));
      var g := Rehash(m, hash).value;
      RehashEntries(m, hash);
      FullIndicesCount(m.data);
      FullIndicesCount(g.data);
      PlaceGrowingEntries(g, e, hash);
    }
  }

  // ---------------------------------------------------------------------------
  // The public operations

  /** The tail of `insert`: `size++`, then a rehash when the load test holds. */
  function CountAndCheck<K, V>(p: OpenMap<K, V>, hash: K -> int): (r: Result<OpenMap<K, V>, Error>)
    requires Shaped(p)
    ensures r.Failure? ==> r.error == IndexOutOfBounds
    ensures r.Success? ==> Shaped(r.value) && r.value.size == p.size + 1 && |r.value.data| >= |p.data|
    ensures r.Success? ==> multiset(LiveEntries(r.value.data)) == multiset(LiveEntries(p.data))
  {
    if LoadReached(p.filledCells, |p.data|) then
      RehashEntries(p.(size := p.size + 1), hash);
      Rehash(p.(size := p.size + 1), hash)
    else
      Success(p.(size := p.size + 1))
  }

  /**
    `insert(k, v)`: rejects a null or present key; otherwise places the entry, counts it,
    and rehashes when `filledCells / capacity >= 0.75`.
   */
  function Insert<K(==), V>(m: OpenMap<K, V>, key: Option<K>, v: V, hash: K -> int): (r: Result<OpenMap<K, V>, Error>)
    requires Shaped(m)
    ensures r.Failure? ==> r.error == IllegalArgument || r.error == IndexOutOfBounds
    ensures (r.Failure? && r.error == IllegalArgument) <==> (key.None? || Find(m, key, hash).Some?)
    ensures r.Success? ==> Shaped(r.value) && r.value.size == m.size + 1 && |r.value.data| >= |m.data|
    ensures r.Success? ==> multiset(LiveEntries(r.value.data)) == multiset(LiveEntries(m.data)) + multiset{Entry(key.value, v)}
  {
    if key.None? || Find(m, key, hash).Some? then Failure(IllegalArgument)
    else
      PlaceGrowingEntries(m, Entry(key.value, v), hash);
      var placed :- PlaceGrowing(m, Entry(key.value, v), hash);
      CountAndCheck(placed, hash)
  }

  /**
    The private `remove(Entry)`: walks the probe sequence again until it reaches the slot
    that holds the target entry (object identity, so slot `idx`) and puts the tombstone there.
    Calling `equals` on an empty slot is a null dereference; running out of probes changes nothing.
   */
  function TombstoneFrom<K, V>(s: seq<Slot<K, V>>, base: nat, idx: nat, i: nat): (r: Result<seq<Slot<K, V>>, Error>)
    requires |s| > 0 && i <= |s| && idx < |s|
    ensures r.Failure? ==> r.error == NullPointer
    ensures r.Success? ==> r.value == s || r.value == s[idx := Tomb]
    decreases |s| - i
  {
    if i == |s| then Success(s)
    else
      var p := Probe(base, i, |s|);
      if s[p].Empty? then Failure(NullPointer)
      else if p == idx then Success(s[p := Tomb])
      else TombstoneFrom(s, base, idx, i + 1)
  }

  /** Whenever `find` reports slot idx, the private remove reaches that same slot without a null dereference. */
  lemma {:induction false} TombstoneFromReachesFound<K, V>(s: seq<Slot<K, V>>, k: K, base: nat, idx: nat, i: nat, n: nat)
    requires |s| > 0 && i <= n < |s| && idx < |s|
    requires Probe(base, n, |s|) == idx && Holds(s, k, idx) && Passes(s, k, base, i, n)
    ensures TombstoneFrom(s, base, idx, i) == Success(s[idx := Tomb])
    decreases n - i
  {
    if Probe(base, i, |s|) != idx {
      TombstoneFromReachesFound(s, k, base, idx, i + 1, n);
    }
  }

  /** The private remove tombstones exactly the slot `find` reported. */
  lemma RemoveOverloadsAgree<K, V>(s: seq<Slot<K, V>>, k: K, base: nat, idx: nat)
    requires |s| > 0 && idx < |s| && FindFrom(s, k, base, 0) == Some(idx)
    ensures TombstoneFrom(s, base, idx, 0) == Success(s[idx := Tomb])
  {
    var n :| 0 <= n < |s| && Probe(base, n, |s|) == idx && Passes(s, k, base, 0, n);
    TombstoneFromReachesFound(s, k, base, idx, 0, n);
  }

  /**
    `remove(k)`: the value of the found entry, with a tombstone in its slot; `size` drops by
    one and `filledCells` stays, since the tombstone still fills the cell.
   */
  function Remove<K(==), V>(m: OpenMap<K, V>, key: Option<K>, hash: K -> int): (r: Result<(OpenMap<K, V>, V), Error>)
    requires |m.data| > 0
    ensures r.Success? <==> Find(m, key, hash).Some?
    ensures r.Failure? ==> r.error == IllegalArgument
    ensures r.Success? ==>
      var idx := Find(m, key, hash).value;
      && r.value.0 == m.(data := m.data[idx := Tomb], size := m.size - 1)
      && r.value.1 == m.data[idx].entry.value
  {
    match Find(m, key, hash)
    case None => Failure(IllegalArgument)
    case Some(idx) =>
      var k := key.value;
      var base := Home(k, |m.data|, hash);
      RemoveOverloadsAgree(m.data, k, base, idx);
      var value := m.data[idx].entry.value;
      match TombstoneFrom(m.data, base, idx, 0)
      case Success(data) => Success((m.(data := data, size := m.size - 1), value))
      case Failure(err) => Failure(err)
  }

  /** `put(k, v)`: overwrites the value of the found entry; nothing else changes. */
  function Put<K(==), V>(m: OpenMap<K, V>, key: Option<K>, v: V, hash: K -> int): (r: Result<OpenMap<K, V>, Error>)
    requires |m.data| > 0
    ensures r.Success? <==> Find(m, key, hash).Some?
    ensures r.Failure? ==> r.error == IllegalArgument
    ensures r.Success? ==>
      var idx := Find(m, key, hash).value;
      r.value == m.(data := m.data[idx := Full(Entry(key.value, v))])
  {
    match Find(m, key, hash)
    case None => Failure(IllegalArgument)
    case Some(idx) => Success(m.(data := m.data[idx := Full(m.data[idx].entry.(value := v))]))
  }

  /** `get(k)`: the value of the found entry. */
  function Get<K(==), V>(m: OpenMap<K, V>, key: Option<K>, hash: K -> int): (r: Result<V, Error>)
    requires |m.data| > 0
    ensures r.Success? <==> Find(m, key, hash).Some?
    ensures r.Failure? ==> r.error == IllegalArgument
  {
    match Find(m, key, hash)
    case None => Failure(IllegalArgument)
    case Some(idx) => Success(m.data[idx].entry.value)
  }

  /** `has(k)`: whether `find` succeeds; never throws. */
  function Has<K(==), V>(m: OpenMap<K, V>, key: Option<K>, hash: K -> int): (r: bool)
    requires |m.data| > 0
    ensures r ==> key.Some?
  {
    Find(m, key, hash).Some?
  }

  /** `size()`. */
  function Size<K, V>(m: OpenMap<K, V>): int {
    m.size
  }
}
