/**
  The invariant of the chaining map and the correctness of its operations against the
  abstract map its entries denote.
 */
module ChainingValid {
  import opened Wrappers
  import opened Exceptions
  import opened TableMath
  import opened Entries
  import opened Chaining

  /** The key-to-value map the chaining map stands for. */
  ghost function Contents<K, V>(m: ChainMap<K, V>): map<K, V> {
    EntryMap(Flatten(m.buckets))
  }

  /**
    What every operation keeps: the capacity follows the prime table, each entry sits in its
    key's bucket, no key occurs twice, and `size` counts the entries.
   */
  ghost predicate Valid<K, V>(m: ChainMap<K, V>, hash: K -> int) {
    && Shaped(m)
    && Placed(m.buckets, hash)
    && UniqueKeys(Flatten(m.buckets))
    && m.size == |Flatten(m.buckets)|
  }

  lemma NewMapValid<K, V>(hash: K -> int)
    ensures Valid(NewMap<K, V>(), hash)
    ensures Contents(NewMap<K, V>()) == map[]
  {
    var m := NewMap<K, V>();
    assert Flatten(m.buckets) == [];
  }

  /** Under placement, a key is bound exactly when its own bucket holds an entry with it. */
  lemma InOwnBucket<K, V>(m: ChainMap<K, V>, k: K, hash: K -> int)
    requires Valid(m, hash)
    ensures
      var b := m.buckets[Bucket(k, |m.buckets|, hash)];
      k in Contents(m) <==> exists j :: 0 <= j < |b| && b[j].key == k
  {
    var bs := m.buckets;
    var i := Bucket(k, |bs|, hash);
    EntryMapDomain(Flatten(bs), k);
    if k in Contents(m) {
      var e :| e in Flatten(bs) && e.key == k;
      FlattenMember(bs, e);
      var x :| 0 <= x < |bs| && e in bs[x];
      var j :| 0 <= j < |bs[x]| && bs[x][j] == e;
      assert x == i;
    }
    if exists j :: 0 <= j < |bs[i]| && bs[i][j].key == k {
      var j :| 0 <= j < |bs[i]| && bs[i][j].key == k;
      FlattenMember(bs, bs[i][j]);
    }
  }

  /** `find` succeeds exactly on the bound keys and returns the entry holding the bound value. */
  lemma FindCorrect<K, V>(m: ChainMap<K, V>, k: K, hash: K -> int)
    requires Valid(m, hash)
    ensures Find(m, Some(k), hash).Some? <==> k in Contents(m)
    ensures Find(m, Some(k), hash).Some? ==>
      Contents(m)[k] == m.buckets[Bucket(k, |m.buckets|, hash)][Find(m, Some(k), hash).value].value
  {
    InOwnBucket(m, k, hash);
    var i := Bucket(k, |m.buckets|, hash);
    if Find(m, Some(k), hash).Some? {
      var e := m.buckets[i][Find(m, Some(k), hash).value];
      FlattenMember(m.buckets, e);
      EntryMapValue(Flatten(m.buckets), e);
    }
  }

  /** `rehash` keeps the invariant and the abstract map. */
  lemma RehashValid<K, V>(m: ChainMap<K, V>, hash: K -> int)
    requires Valid(m, hash)
    ensures Valid(Rehash(m, hash), hash)
    ensures Contents(Rehash(m, hash)) == Contents(m)
  {
    EntryMapPermutation(Flatten(m.buckets), Flatten(Rehash(m, hash).buckets));
  }

  /**
    `insert` fails exactly when the key is already bound; otherwise it binds the key and
    keeps the invariant.
   */
  lemma InsertValid<K, V>(m: ChainMap<K, V>, k: K, v: V, hash: K -> int)
    requires Valid(m, hash)
    ensures Insert(m, Some(k), v, hash).Failure? <==> k in Contents(m)
    ensures Insert(m, Some(k), v, hash).Success? ==>
      && Valid(Insert(m, Some(k), v, hash).value, hash)
      && Contents(Insert(m, Some(k), v, hash).value) == Contents(m)[k := v]
  {
    FindCorrect(m, k, hash);
    var r := Insert(m, Some(k), v, hash);
    if r.Success? {
      EntryMapAdd(Flatten(m.buckets), Flatten(r.value.buckets), Entry(k, v));
    }
  }

  /**
    With a valid map, the fourth insertion of distinct keys into a new map is the one that
    grows the capacity from five to eleven: 4/5 is the first load factor at or above 0.75.
   */
  lemma FourthInsertGrows<K, V>(k1: K, k2: K, k3: K, k4: K, v: V, hash: K -> int)
    requires k1 != k2 && k1 != k3 && k1 != k4 && k2 != k3 && k2 != k4 && k3 != k4
    ensures
      var r1 := Insert(NewMap<K, V>(), Some(k1), v, hash);
      r1.Success? && |r1.value.buckets| == 5 &&
      var r2 := Insert(r1.value, Some(k2), v, hash);
      r2.Success? && |r2.value.buckets| == 5 &&
      var r3 := Insert(r2.value, Some(k3), v, hash);
      r3.Success? && |r3.value.buckets| == 5 &&
      var r4 := Insert(r3.value, Some(k4), v, hash);
      r4.Success? && |r4.value.buckets| == 11
  {
    InitialCapacityOk();
    var m0 := NewMap<K, V>();
    NewMapValid<K, V>(hash);
    InsertValid(m0, k1, v, hash);
    var m1 := Insert(m0, Some(k1), v, hash).value;
    InsertValid(m1, k2, v, hash);
    var m2 := Insert(m1, Some(k2), v, hash).value;
    InsertValid(m2, k3, v, hash);
    var m3 := Insert(m2, Some(k3), v, hash).value;
    InsertValid(m3, k4, v, hash);
  }

  /** Deleting an entry from a bucket keeps every entry in its key's bucket. */
  lemma DropPlaced<K, V>(bs: seq<seq<Entry<K, V>>>, i: nat, j: nat, hash: K -> int)
    requires i < |bs| && j < |bs[i]| && Placed(bs, hash)
    ensures Placed(bs[i := bs[i][..j] + bs[i][j + 1..]], hash)
  {
    var r: seq<seq<Entry<K, V>>> := bs[i := bs[i][..j] + bs[i][j + 1..]];
    forall x: nat, y: nat | x < |r| && y < |r[x]| ensures Bucket(r[x][y].key, |r|, hash) == x {
      if x == i {
        assert r[x][y] == (if y < j then bs[i][y] else bs[i][y + 1]);
      }
    }
  }

  /** Deleting a present entry from a placed array with unique keys unbinds its key. */
  lemma DropValid<K, V>(bs: seq<seq<Entry<K, V>>>, i: nat, j: nat, hash: K -> int)
    requires i < |bs| && j < |bs[i]| && Placed(bs, hash) && UniqueKeys(Flatten(bs))
    ensures
      var r := bs[i := bs[i][..j] + bs[i][j + 1..]];
      && Placed(r, hash)
      && UniqueKeys(Flatten(r))
      && EntryMap(Flatten(r)) == EntryMap(Flatten(bs)) - {bs[i][j].key}
      && |Flatten(r)| + 1 == |Flatten(bs)|
  {
    DropEntries(bs, i, j);
    DropPlaced(bs, i, j, hash);
    FlattenMember(bs, bs[i][j]);
    EntryMapRemove(Flatten(bs), Flatten(bs[i := bs[i][..j] + bs[i][j + 1..]]), bs[i][j]);
  }

  /**
    `remove` succeeds exactly on a bound key; it returns the bound value, unbinds the key
    and keeps the invariant.
   */
  lemma RemoveValid<K, V>(m: ChainMap<K, V>, k: K, hash: K -> int)
    requires Valid(m, hash)
    ensures Remove(m, Some(k), hash).Success? <==> k in Contents(m)
    ensures Remove(m, Some(k), hash).Success? ==>
      var r := Remove(m, Some(k), hash).value;
      && r.1 == Contents(m)[k]
      && Valid(r.0, hash)
      && Contents(r.0) == Contents(m) - {k}
  {
    FindCorrect(m, k, hash);
    if k in Contents(m) {
      var bs: seq<seq<Entry<K, V>>> := m.buckets;
      var i := Bucket(k, |bs|, hash);
      var j := Find(m, Some(k), hash).value;
      var r := Remove(m, Some(k), hash).value;
      assert r.0 == ChainMap(bs[i := bs[i][..j] + bs[i][j + 1..]], m.primeCounter, m.size - 1);
      DropValid(bs, i, j, hash);
    }
  }

  /** Overwriting position j of a sequence trades the old element for the new one. */
  lemma UpdateTrades<T>(s: seq<T>, j: nat, x: T)
    requires j < |s|
    ensures multiset(s[j := x]) + multiset{s[j]} == multiset(s) + multiset{x}
  {
    assert s == s[..j] + [s[j]] + s[j + 1..];
    assert s[j := x] == s[..j] + [x] + s[j + 1..];
  }

  /** Rebinding the entry at position j of a bucket trades it for the rebound entry. */
  lemma SetEntries<K, V>(bs: seq<seq<Entry<K, V>>>, i: nat, j: nat, v: V)
    requires i < |bs| && j < |bs[i]|
    ensures
      var e := bs[i][j];
      multiset(Flatten(bs[i := bs[i][j := Entry(e.key, v)]])) + multiset{e}
        == multiset(Flatten(bs)) + multiset{Entry(e.key, v)}
    ensures |Flatten(bs[i := bs[i][j := Entry(bs[i][j].key, v)]])| == |Flatten(bs)|
  {
    var e := bs[i][j];
    var e' := Entry(e.key, v);
    var b' := bs[i][j := e'];
    FlattenUpdate(bs, i, b');
    UpdateTrades(bs[i], j, e');
    MultisetShuffle(multiset(Flatten(bs[i := b'])), multiset(b'), multiset(bs[i]), multiset(Flatten(bs)), e, e');
  }

  /** Rebinding an entry keeps every entry in its key's bucket. */
  lemma SetPlaced<K, V>(bs: seq<seq<Entry<K, V>>>, i: nat, j: nat, v: V, hash: K -> int)
    requires i < |bs| && j < |bs[i]| && Placed(bs, hash)
    ensures Placed(bs[i := bs[i][j := Entry(bs[i][j].key, v)]], hash)
  {
    var r: seq<seq<Entry<K, V>>> := bs[i := bs[i][j := Entry(bs[i][j].key, v)]];
    forall x: nat, y: nat | x < |r| && y < |r[x]| ensures Bucket(r[x][y].key, |r|, hash) == x {
      if x == i && y == j {
        assert r[x][y].key == bs[i][j].key;
      }
    }
  }

  /** Rebinding a present entry in a placed array with unique keys rebinds its key. */
  lemma SetValid<K, V>(bs: seq<seq<Entry<K, V>>>, i: nat, j: nat, v: V, hash: K -> int)
    requires i < |bs| && j < |bs[i]| && Placed(bs, hash) && UniqueKeys(Flatten(bs))
    ensures
      var r := bs[i := bs[i][j := Entry(bs[i][j].key, v)]];
      && Placed(r, hash)
      && UniqueKeys(Flatten(r))
      && EntryMap(Flatten(r)) == EntryMap(Flatten(bs))[bs[i][j].key := v]
      && |Flatten(r)| == |Flatten(bs)|
  {
    var e := bs[i][j];
    var r := bs[i := bs[i][j := Entry(e.key, v)]];
    SetEntries(bs, i, j, v);
    SetPlaced(bs, i, j, v, hash);
    FlattenMember(bs, e);
    assert e in multiset(Flatten(bs));
    MultisetTrade(multiset(Flatten(r)), multiset(Flatten(bs)), e, Entry(e.key, v));
    EntryMapReplace(Flatten(bs), Flatten(r), e, v);
  }

  /** `put` succeeds exactly on a bound key; it rebinds the key and keeps the invariant. */
  lemma PutValid<K, V>(m: ChainMap<K, V>, k: K, v: V, hash: K -> int)
    requires Valid(m, hash)
    ensures Put(m, Some(k), v, hash).Success? <==> k in Contents(m)
    ensures Put(m, Some(k), v, hash).Success? ==>
      && Valid(Put(m, Some(k), v, hash).value, hash)
      && Contents(Put(m, Some(k), v, hash).value) == Contents(m)[k := v]
  {
    FindCorrect(m, k, hash);
    if k in Contents(m) {
      var bs: seq<seq<Entry<K, V>>> := m.buckets;
      var i := Bucket(k, |bs|, hash);
      var j := Find(m, Some(k), hash).value;
      var r := Put(m, Some(k), v, hash).value;
      assert r == ChainMap(bs[i := bs[i][j := Entry(bs[i][j].key, v)]], m.primeCounter, m.size);
      SetValid(bs, i, j, v, hash);
    }
  }

  /** `get` returns the bound value and rejects a null or unbound key. */
  lemma GetCorrect<K, V>(m: ChainMap<K, V>, key: Option<K>, hash: K -> int)
    requires Valid(m, hash)
    ensures Get(m, key, hash) ==
      if key.Some? && key.value in Contents(m) then Success(Contents(m)[key.value]) else Failure(IllegalArgument)
  {
    if key.Some? {
      FindCorrect(m, key.value, hash);
    }
  }

  /** `has` decides membership, and is false for a null key. */
  lemma HasCorrect<K, V>(m: ChainMap<K, V>, key: Option<K>, hash: K -> int)
    requires Valid(m, hash)
    ensures Has(m, key, hash) <==> key.Some? && key.value in Contents(m)
  {
    if key.Some? {
      FindCorrect(m, key.value, hash);
    }
  }

  /** `size` is the number of bound keys. */
  lemma SizeCorrect<K, V>(m: ChainMap<K, V>, hash: K -> int)
    requires Valid(m, hash)
    ensures Size(m) == |Contents(m)|
  {
    EntryMapSize(Flatten(m.buckets));
  }
}
