/**
  `insert` exactly as written, including the fallback taken when every probe lands on a
  full slot: `handleCollision` rehashes and calls the public `insert` again, which counts
  the entry, and the outer `insert` then counts it a second time.
 */
module OpenAddressingFindings {
  import opened Wrappers
  import opened Exceptions
  import opened TableMath
  import opened Entries
  import opened QuadraticProbing
  import opened OpenAddressing
  import opened OpenAddressingValid

  /**
    `insert(k, v)` as written: when the probe finds no free slot, `rehash()` followed by
    the public `insert(k, v)`, whose own `size++` and load test run before the outer ones.
   */
  function InsertAsWritten<K(==), V>(m: OpenMap<K, V>, key: Option<K>, v: V, hash: K -> int): (r: Result<OpenMap<K, V>, Error>)
    requires Shaped(m)
    ensures r.Success? ==> key.Some? && Shaped(r.value) && r.value.size >= m.size + 1
    ensures r.Success? ==> multiset(LiveEntries(r.value.data)) == multiset(LiveEntries(m.data)) + multiset{Entry(key.value, v)}
    ensures r.Success? && FirstFree(m.data, Home(key.value, |m.data|, hash), 0).None? ==> r.value.size >= m.size + 2
    decreases |FullIndices(m.data)| * |FullIndices(m.data)| - |m.data|
  {
    if key.None? || Find(m, key, hash).Some? then Failure(IllegalArgument)
    else
      var e := Entry(key.value, v);
      var base := Home(e.key, |m.data|, hash);
      match FirstFree(m.data, base, 0)
      case Some(idx) =>
        PlaceEntries(m, idx, e);
        CountAndCheck(Place(m, idx, e), hash)
      case None =>
        ProbeFailureMeansCrowded(m.data, base);
        match Rehash(m, hash)
        case Failure(err) => Failure(err)
        case Success(g) =>
          FullIndicesCount(m.data);
          FullIndicesCount(g.data);
          RehashEntries(m, hash);
          match InsertAsWritten(g, key, v, hash)
          case Failure(err) => Failure(err)
          case Success(inner) => CountAndCheck(inner, hash)
  }

  /** A successful written insert stores exactly one more live entry. */
  lemma InsertAsWrittenAddsOne<K, V>(m: OpenMap<K, V>, k: K, v: V, hash: K -> int)
    requires Shaped(m) && InsertAsWritten(m, Some(k), v, hash).Success?
    ensures |LiveEntries(InsertAsWritten(m, Some(k), v, hash).value.data)| == |LiveEntries(m.data)| + 1
  {
    var r := InsertAsWritten(m, Some(k), v, hash).value;
    assert |multiset(LiveEntries(r.data))| == |multiset(LiveEntries(m.data))| + 1;
  }

  /**
    On the fallback path the written code leaves `size` above the number of live entries:
    a map whose counter was right ends with a counter too large by at least one.
   */
  lemma FallbackOvercounts<K, V>(m: OpenMap<K, V>, k: K, v: V, hash: K -> int)
    requires Shaped(m) && m.size == |LiveEntries(m.data)|
    requires FirstFree(m.data, Home(k, |m.data|, hash), 0).None?
    requires InsertAsWritten(m, Some(k), v, hash).Success?
    ensures
      var r := InsertAsWritten(m, Some(k), v, hash).value;
      r.size > |LiveEntries(r.data)|
  {
    InsertAsWrittenAddsOne(m, k, v, hash);
  }

  /** The identity hash on integer keys. */
  function IntHash(x: int): int {
    x
  }

  /** An insert whose probe takes an empty slot and stays below the load threshold just fills that slot. */
  lemma PlainInsert<K, V>(m: OpenMap<K, V>, k: K, v: V, hash: K -> int, idx: nat)
    requires Shaped(m) && Find(m, Some(k), hash).None?
    requires FirstFree(m.data, Home(k, |m.data|, hash), 0) == Some(idx) && m.data[idx].Empty?
    requires !LoadReached(m.filledCells + 1, |m.data|)
    ensures InsertAsWritten(m, Some(k), v, hash)
         == Success(OpenMap(m.data[idx := Full(Entry(k, v))], m.primeCounter, m.size + 1, m.filledCells + 1))
  {
    var placed := Place(m, idx, Entry(k, v));
    assert InsertAsWritten(m, Some(k), v, hash) == CountAndCheck(placed, hash);
    CountBelowLoad(placed, hash);
  }

  /** The slot for key k at capacity five under the identity hash, for small non-negative k. */
  lemma HomeAtFive(k: int)
    requires 0 <= k < 10
    ensures Home(k, 5, IntHash) == k % 5
  {
    assert JavaRem(k, 5) == k % 5;
  }

  /** The slot holding key k with value k. */
  function Own(k: int): Slot<int, int> {
    Full(Entry(k, k))
  }

  /** The map after inserting key 0 into a fresh map. */
  function After0(): OpenMap<int, int> {
    OpenMap([Own(0), Empty, Empty, Empty, Empty], 0, 1, 1)
  }

  /** ... then key 1. */
  function After1(): OpenMap<int, int> {
    OpenMap([Own(0), Own(1), Empty, Empty, Empty], 0, 2, 2)
  }

  /** ... then key 4. */
  function After4(): OpenMap<int, int> {
    OpenMap([Own(0), Own(1), Empty, Empty, Own(4)], 0, 3, 3)
  }

  /** A new key whose home slot is empty takes that slot, below the load threshold. */
  lemma InsertAtEmptyHome<K, V>(m: OpenMap<K, V>, k: K, v: V, hash: K -> int, after: OpenMap<K, V>)
    requires Shaped(m) && m.data[Home(k, |m.data|, hash)].Empty?
    requires !LoadReached(m.filledCells + 1, |m.data|)
    requires after == OpenMap(m.data[Home(k, |m.data|, hash) := Full(Entry(k, v))], m.primeCounter, m.size + 1, m.filledCells + 1)
    ensures InsertAsWritten(m, Some(k), v, hash) == Success(after)
  {
    var h := Home(k, |m.data|, hash);
    FirstProbeIsHome(h, |m.data|);
    assert Find(m, Some(k), hash).None?;
    assert FirstFree(m.data, h, 0) == Some(h);
    PlainInsert(m, k, v, hash, h);
  }

  lemma InsertZero()
    ensures InsertAsWritten(NewMap(), Some(0), 0, IntHash) == Success(After0())
  {
    var m: OpenMap<int, int> := NewMap();
    InitialCapacityOk();
    HomeAtFive(0);
    assert m.data[0 := Own(0)] == After0().data;
    InsertAtEmptyHome(m, 0, 0, IntHash, After0());
  }

  lemma InsertOne()
    ensures InsertAsWritten(After0(), Some(1), 1, IntHash) == Success(After1())
  {
    var m := After0();
    InitialCapacityOk();
    HomeAtFive(1);
    assert m.data[1 := Own(1)] == After1().data;
    InsertAtEmptyHome(m, 1, 1, IntHash, After1());
  }

  lemma InsertFour()
    ensures InsertAsWritten(After1(), Some(4), 4, IntHash) == Success(After4())
  {
    var m := After1();
    InitialCapacityOk();
    HomeAtFive(4);
    assert m.data[4 := Own(4)] == After4().data;
    InsertAtEmptyHome(m, 4, 4, IntHash, After4());
  }

  /** Every probe for key 5 at capacity five lands on slot 0, 1 or 4, all full after keys 0, 1 and 4. */
  lemma FiveFindsNoRoom()
    ensures FirstFree(After4().data, Home(5, 5, IntHash), 0).None?
  {
    var s := After4().data;
    HomeAtFive(5);
    forall j | 0 <= j < 5 ensures s[Probe(0, j, 5)].Full? {
      assert j == 0 || j == 1 || j == 2 || j == 3 || j == 4;
    }
  }

  /** The live entries after keys 0, 1 and 4, in slot order, and no tombstone among the slots. */
  lemma After4Entries()
    ensures LiveEntries(After4().data) == [Entry(0, 0), Entry(1, 1), Entry(4, 4)]
    ensures CountFilled(After4().data) == 3 && NoTombs(After4().data)
  {
    var s := After4().data;
    assert s[1..][1..][1..][1..][1..] == [];
    forall i | 0 <= i < |s| ensures !s[i].Tomb? {
      assert i == 0 || i == 1 || i == 2 || i == 3 || i == 4;
    }
  }

  /** Keys 0, 1 and 4 sit in their home slots. */
  lemma After4Reachable()
    ensures AllReachable(After4().data, IntHash)
  {
    var s := After4().data;
    HomeAtFive(0);
    HomeAtFive(1);
    HomeAtFive(4);
    forall p | 0 <= p < |s| && s[p].Full? ensures Reachable(s, s[p].entry.key, p, IntHash) {
      assert p == 0 || p == 1 || p == 4;
      assert Probe(Home(s[p].entry.key, 5, IntHash), 0, 5) == p;
      assert Used(s, Home(s[p].entry.key, 5, IntHash), 0, 0);
    }
  }

  /** The three entries have distinct keys and bind each key to itself. */
  lemma ThreeEntries()
    ensures
      var es := [Entry(0, 0), Entry(1, 1), Entry(4, 4)];
      UniqueKeys(es) && EntryMap(es) == map[0 := 0, 1 := 1, 4 := 4]
  {
    var es := [Entry(0, 0), Entry(1, 1), Entry(4, 4)];
    var one, two := [Entry(0, 0)], [Entry(0, 0), Entry(1, 1)];
    assert es[..2] == two && two[..1] == one && one[..0] == [];
    assert EntryMap(one) == map[0 := 0];
    assert EntryMap(two) == map[0 := 0, 1 := 1];
    forall e | e in es ensures multiset(es)[e] <= 1 {
      assert multiset(es) == multiset{Entry(0, 0), Entry(1, 1), Entry(4, 4)};
    }
  }

  /** The map after keys 0, 1 and 4 satisfies the invariant and binds each key to itself. */
  lemma After4Valid()
    ensures Valid(After4(), IntHash)
    ensures Contents(After4()) == map[0 := 0, 1 := 1, 4 := 4]
  {
    InitialCapacityOk();
    After4Entries();
    After4Reachable();
    ThreeEntries();
  }

  /**
    On a valid five-slot table holding three entries but not key 5, the fallback's rehash
    succeeds with eleven slots and the retried insert of key 5 finds room below the load threshold.
   */
  lemma RehashThenRetry(m: OpenMap<int, int>)
    requires Valid(m, IntHash) && m.primeCounter == 0 && |m.data| == 5
    requires |LiveEntries(m.data)| == 3 && 5 !in Contents(m)
    ensures Rehash(m, IntHash).Success?
    ensures InsertAsWritten(Rehash(m, IntHash).value, Some(5), 5, IntHash).Success?
    ensures
      var inner := InsertAsWritten(Rehash(m, IntHash).value, Some(5), 5, IntHash).value;
      inner.filledCells == 4 && |inner.data| == 11 && inner.size == 4
  {
    InitialCapacityOk();
    RehashSucceeds(m, IntHash);
    RehashValid(m, IntHash);
    var g := Rehash(m, IntHash).value;
    RehashEntries(m, IntHash);
    RetryFindsRoom(g);
  }

  /** The retried insert of key 5 into the grown table finds room below the load threshold. */
  lemma RetryFindsRoom(g: OpenMap<int, int>)
    requires Valid(g, IntHash) && NoTombs(g.data) && |g.data| == 11 && |LiveEntries(g.data)| == 3
    requires 5 !in Contents(g)
    ensures InsertAsWritten(g, Some(5), 5, IntHash).Success?
    ensures InsertAsWritten(g, Some(5), 5, IntHash).value.filledCells == 4
    ensures |InsertAsWritten(g, Some(5), 5, IntHash).value.data| == 11
    ensures InsertAsWritten(g, Some(5), 5, IntHash).value.size == 4
  {
    var e := Entry(5, 5);
    FindCorrect(g, 5, IntHash);
    var gbase := Home(5, |g.data|, IntHash);
    SparseTableHasRoom(g.data, gbase);
    var idx := FirstFree(g.data, gbase, 0).value;
    var placed := Place(g, idx, e);
    assert placed.filledCells == 4 by {
      CountFilledNoTombs(g.data);
    }
    assert InsertAsWritten(g, Some(5), 5, IntHash) == CountAndCheck(placed, IntHash);
  }

  /** The fallback step of the written insert: rehash, the retried insert, then the outer count and load test. */
  lemma FallbackStep<K, V>(m: OpenMap<K, V>, k: K, v: V, hash: K -> int)
    requires Shaped(m) && Find(m, Some(k), hash).None?
    requires FirstFree(m.data, Home(k, |m.data|, hash), 0).None?
    requires Rehash(m, hash).Success?
    requires InsertAsWritten(Rehash(m, hash).value, Some(k), v, hash).Success?
    requires
      var inner := InsertAsWritten(Rehash(m, hash).value, Some(k), v, hash).value;
      !LoadReached(inner.filledCells, |inner.data|)
    ensures InsertAsWritten(m, Some(k), v, hash).Success?
    ensures
      InsertAsWritten(m, Some(k), v, hash).value.size
        == InsertAsWritten(Rehash(m, hash).value, Some(k), v, hash).value.size + 1
  {
  }

  /**
    From that map, the written insert of key 5 takes the fallback and succeeds, counting
    five keys while four are stored.
   */
  lemma FallbackSucceeds()
    ensures InsertAsWritten(After4(), Some(5), 5, IntHash).Success?
    ensures InsertAsWritten(After4(), Some(5), 5, IntHash).value.size == 5
    ensures |LiveEntries(InsertAsWritten(After4(), Some(5), 5, IntHash).value.data)| == 4
  {
    FiveFindsNoRoom();
    After4Valid();
    After4Entries();
    FindCorrect(After4(), 5, IntHash);
    RehashThenRetry(After4());
    FallbackStep(After4(), 5, 5, IntHash);
    InsertAsWrittenAddsOne(After4(), 5, 5, IntHash);
  }

  /**
    The fallback is reachable from a fresh map: with the identity hash, keys 0, 1 and 4
    fill slots 0, 1 and 4 of the five, and every probe for key 5 (slots 0, 1, 4, 4, 1)
    lands on a full slot. The written `insert` then reports five keys while four are stored.
   */
  lemma FallbackFromFreshMap()
    ensures InsertAsWritten(NewMap(), Some(0), 0, IntHash) == Success(After0())
    ensures InsertAsWritten(After0(), Some(1), 1, IntHash) == Success(After1())
    ensures InsertAsWritten(After1(), Some(4), 4, IntHash) == Success(After4())
    ensures InsertAsWritten(After4(), Some(5), 5, IntHash).Success?
    ensures
      var r := InsertAsWritten(After4(), Some(5), 5, IntHash).value;
      r.size == 5 && |LiveEntries(r.data)| == 4
  {
    InsertZero();
    InsertOne();
    InsertFour();
    FallbackSucceeds();
  }

  /** The corrected insert on the same map counts key 5 once: four keys, `size` four, capacity eleven. */
  lemma CorrectedInsertCountsOnce()
    ensures Insert(After4(), Some(5), 5, IntHash).Success?
    ensures
      var r := Insert(After4(), Some(5), 5, IntHash).value;
      r.size == 4 && |LiveEntries(r.data)| == 4 && |r.data| == 11
  {
    var m := After4();
    After4Crowded();
    InsertIntoCrowd(m, 5, 5, IntHash);
    InsertValid(m, 5, 5, IntHash);
  }

  /** The map after keys 0, 1 and 4 meets the conditions under which inserting key 5 grows it exactly once. */
  lemma After4Crowded()
    ensures Valid(After4(), IntHash) && NoTombs(After4().data) && |LiveEntries(After4().data)| == 3
    ensures Find(After4(), Some(5), IntHash).None? && 5 !in Contents(After4())
    ensures Grow(After4().primeCounter, |After4().data|).1 == 11
  {
    After4Valid();
    After4Entries();
    InitialCapacityOk();
    FindCorrect(After4(), 5, IntHash);
  }
}
