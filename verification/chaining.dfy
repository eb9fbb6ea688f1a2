/**
  The separate-chaining hash map: an array of buckets, each a list of entries appended
  at the tail, growth along the prime table. A bucket that Java leaves `null` is the
  empty bucket here. The map is a value; every operation returns the new map.
 */
module Chaining {
  import opened Wrappers
  import opened Exceptions
  import opened TableMath
  import opened Entries

  /** The map's fields. The capacity is the number of buckets. */
  datatype ChainMap<K, V> = ChainMap(buckets: seq<seq<Entry<K, V>>>, primeCounter: nat, size: int)

  /** The capacity agrees with the prime counter (and so is positive). */
  predicate Shaped<K, V>(m: ChainMap<K, V>) {
    CapacityOk(m.primeCounter, |m.buckets|)
  }

  /** `getIndex(k)` for the current capacity. */
  function Bucket<K>(k: K, cap: nat, hash: K -> int): (r: nat)
    requires cap > 0
    ensures r < cap
  {
    GetIndex(hash(k), cap)
  }

  // ---------------------------------------------------------------------------
  // The entries of a bucket array

  /** All entries, bucket by bucket, each bucket from head to tail. */
  function Flatten<K, V>(bs: seq<seq<Entry<K, V>>>): seq<Entry<K, V>>
    decreases |bs|
  {
    if |bs| == 0 then [] else bs[0] + Flatten(bs[1..])
  }

  lemma {:induction false} FlattenConcat<K, V>(a: seq<seq<Entry<K, V>>>, b: seq<seq<Entry<K, V>>>)
    ensures Flatten(a + b) == Flatten(a) + Flatten(b)
    decreases |a|
  {
    if |a| == 0 {
      assert a + b == b;
    } else {
      assert (a + b)[1..] == a[1..] + b;
      FlattenConcat(a[1..], b);
    }
  }

  /** The entries before bucket i, bucket i itself, and the entries after it. */
  lemma {:induction false} FlattenSplit<K, V>(bs: seq<seq<Entry<K, V>>>, i: nat)
    requires i < |bs|
    ensures Flatten(bs) == Flatten(bs[..i]) + bs[i] + Flatten(bs[i + 1..])
    decreases i
  {
    if i == 0 {
      assert bs[..0] == [];
      assert Flatten(bs[..0]) == [];
    } else {
      var prefix := bs[..i];
      FlattenSplit(bs[1..], i - 1);
      assert bs[1..][..i - 1] == prefix[1..];
      assert bs[1..][i - 1] == bs[i];
      assert bs[1..][i..] == bs[i + 1..];
      assert Flatten(prefix) == bs[0] + Flatten(prefix[1..]);
    }
  }

  /** Replacing bucket i by b trades that bucket's entries for b's. */
  lemma FlattenUpdate<K, V>(bs: seq<seq<Entry<K, V>>>, i: nat, b: seq<Entry<K, V>>)
    requires i < |bs|
    ensures multiset(Flatten(bs[i := b])) + multiset(bs[i]) == multiset(Flatten(bs)) + multiset(b)
    ensures |Flatten(bs[i := b])| + |bs[i]| == |Flatten(bs)| + |b|
  {
    var bs' := bs[i := b];
    FlattenSplit(bs, i);
    FlattenSplit(bs', i);
    assert bs'[..i] == bs[..i] && bs'[i + 1..] == bs[i + 1..];
  }

  /** An entry is among all entries exactly when some bucket holds it. */
  lemma {:induction false} FlattenMember<K, V>(bs: seq<seq<Entry<K, V>>>, e: Entry<K, V>)
    ensures e in Flatten(bs) <==> exists i :: 0 <= i < |bs| && e in bs[i]
    decreases |bs|
  {
    if |bs| > 0 {
      FlattenMember(bs[1..], e);
      if e in Flatten(bs[1..]) {
        var i :| 0 <= i < |bs[1..]| && e in bs[1..][i];
        assert e in bs[i + 1];
      }
      if exists i :: 0 <= i < |bs| && e in bs[i] {
        var i :| 0 <= i < |bs| && e in bs[i];
        if i > 0 {
          assert e in bs[1..][i - 1];
        }
      }
    }
  }

  /** Every entry sits in the bucket its key's hash selects. */
  ghost predicate Placed<K, V>(bs: seq<seq<Entry<K, V>>>, hash: K -> int) {
    forall i, j :: 0 <= i < |bs| && 0 <= j < |bs[i]| ==> Bucket(bs[i][j].key, |bs|, hash) == i
  }

  /** A newly allocated bucket array (all `null` in Java): no entries anywhere. */
  function EmptyBuckets<K, V>(cap: nat): (bs: seq<seq<Entry<K, V>>>)
    ensures |bs| == cap
    ensures forall i :: 0 <= i < |bs| ==> bs[i] == []
  {
    seq(cap, _ => [])
  }

  /** An array of empty buckets holds no entries. */
  lemma {:induction false} EmptyBucketsHoldNothing<K, V>(bs: seq<seq<Entry<K, V>>>)
    requires forall i :: 0 <= i < |bs| ==> bs[i] == []
    ensures Flatten(bs) == []
    decreases |bs|
  {
    if |bs| > 0 {
      EmptyBucketsHoldNothing(bs[1..]);
    }
  }

  /** The constructor: five empty buckets, prime counter and size zero. */
  function NewMap<K, V>(): (m: ChainMap<K, V>)
    ensures Shaped(m) && |m.buckets| == InitialCapacity
    ensures m.size == 0 && Flatten(m.buckets) == []
  {
    var bs := EmptyBuckets(InitialCapacity);
    EmptyBucketsHoldNothing(bs);
    ChainMap(bs, 0, 0)
  }

  // ---------------------------------------------------------------------------
  // Insertion into a bucket array and rehashing

  /**
    The private `insert(structure, entry)`: append the entry at the tail of the bucket its
    key selects (creating the list when the slot is `null`); every other bucket is unchanged.
   */
  function AddLast<K, V>(bs: seq<seq<Entry<K, V>>>, e: Entry<K, V>, hash: K -> int): (r: seq<seq<Entry<K, V>>>)
    requires |bs| > 0
    ensures |r| == |bs|
    ensures r[Bucket(e.key, |bs|, hash)] == bs[Bucket(e.key, |bs|, hash)] + [e]
    ensures forall i :: 0 <= i < |bs| && i != Bucket(e.key, |bs|, hash) ==> r[i] == bs[i]
  {
    var i := Bucket(e.key, |bs|, hash);
    bs[i := bs[i] + [e]]
  }

  /** Appending adds exactly the new entry, and it lands where lookups will search for it. */
  lemma AddLastEntries<K, V>(bs: seq<seq<Entry<K, V>>>, e: Entry<K, V>, hash: K -> int)
    requires |bs| > 0
    ensures multiset(Flatten(AddLast(bs, e, hash))) == multiset(Flatten(bs)) + multiset{e}
    ensures |Flatten(AddLast(bs, e, hash))| == |Flatten(bs)| + 1
    ensures Placed(bs, hash) ==> Placed(AddLast(bs, e, hash), hash)
  {
    var i := Bucket(e.key, |bs|, hash);
    var r: seq<seq<Entry<K, V>>> := AddLast(bs, e, hash);
    assert r == bs[i := bs[i] + [e]];
    FlattenUpdate(bs, i, bs[i] + [e]);
    var a, b, c := multiset(Flatten(r)), multiset(Flatten(bs)), multiset(bs[i]);
    assert multiset(bs[i] + [e]) == c + multiset{e};
    assert a + c == b + multiset{e} + c;
    MultisetCancel(a, c, b + multiset{e});
    if Placed(bs, hash) {
      forall x: nat, y: nat | 0 <= x < |r| && 0 <= y < |r[x]| ensures Bucket(r[x][y].key, |r|, hash) == x {
        if x == i && y == |bs[i]| {
          assert r[x][y] == e;
        } else {
          assert r[x][y] == bs[x][y];
        }
      }
    }
  }

  /**
    The inner loops of `rehash`: insert the entries one after another, in order, into the
    new bucket array `t`.
   */
  function Reinsert<K, V>(es: seq<Entry<K, V>>, t: seq<seq<Entry<K, V>>>, hash: K -> int): (r: seq<seq<Entry<K, V>>>)
    requires |t| > 0
    ensures |r| == |t|
    ensures multiset(Flatten(r)) == multiset(Flatten(t)) + multiset(es)
    ensures |Flatten(r)| == |Flatten(t)| + |es|
    ensures Placed(t, hash) ==> Placed(r, hash)
    decreases |es|
  {
    if |es| == 0 then t
    else
      AddLastEntries(t, es[0], hash);
      assert es == [es[0]] + es[1..];
      Reinsert(es[1..], AddLast(t, es[0], hash), hash)
  }

  /**
    Each bucket after reinsertion is the old bucket followed by the reinserted entries that
    hash to it, in their original order.
   */
  lemma {:induction false} ReinsertKeepsOrder<K, V>(es: seq<Entry<K, V>>, t: seq<seq<Entry<K, V>>>, hash: K -> int, i: nat)
    requires 0 <= i < |t|
    ensures Reinsert(es, t, hash)[i] == t[i] + Selected(es, |t|, hash, i)
    decreases |es|
  {
    if |es| > 0 {
      var t' := AddLast(t, es[0], hash);
      ReinsertKeepsOrder(es[1..], t', hash, i);
      ReinsertUnroll(es, t, hash);
      var rest := Selected(es[1..], |t|, hash, i);
      if Bucket(es[0].key, |t|, hash) == i {
        assert Selected(es, |t|, hash, i) == [es[0]] + rest;
        assert t'[i] + rest == t[i] + ([es[0]] + rest);
      } else {
        assert Selected(es, |t|, hash, i) == [] + rest;
      }
    }
  }

  /** One step of the reinsertion: the first entry is appended, then the rest follow. */
  lemma ReinsertUnroll<K, V>(es: seq<Entry<K, V>>, t: seq<seq<Entry<K, V>>>, hash: K -> int)
    requires |es| > 0 && |t| > 0
    ensures Reinsert(es, t, hash) == Reinsert(es[1..], AddLast(t, es[0], hash), hash)
  {
  }

  /** The entries of `es` whose key selects bucket i, in order. */
  function Selected<K, V>(es: seq<Entry<K, V>>, cap: nat, hash: K -> int, i: nat): seq<Entry<K, V>>
    requires cap > 0
    decreases |es|
  {
    if |es| == 0 then []
    else (if Bucket(es[0].key, cap, hash) == i then [es[0]] else []) + Selected(es[1..], cap, hash, i)
  }

  /**
    `rehash()`: move to the next capacity and re-insert every entry, bucket by bucket and
    each bucket from its head, into a fresh array. Nothing is lost or added, the count is
    kept, and every entry ends up in the bucket its key selects under the new capacity.
   */
  function Rehash<K, V>(m: ChainMap<K, V>, hash: K -> int): (r: ChainMap<K, V>)
    requires Shaped(m)
    ensures Shaped(r) && r.size == m.size
    ensures (r.primeCounter, |r.buckets|) == Grow(m.primeCounter, |m.buckets|)
    ensures multiset(Flatten(r.buckets)) == multiset(Flatten(m.buckets))
    ensures |Flatten(r.buckets)| == |Flatten(m.buckets)|
    ensures Placed(r.buckets, hash)
  {
    var grown := Grow(m.primeCounter, |m.buckets|);
    var blank := EmptyBuckets(grown.1);
    EmptyBucketsHoldNothing(blank);
    assert Placed(blank, hash);
    ChainMap(Reinsert(Flatten(m.buckets), blank, hash), grown.0, m.size)
  }

  // ---------------------------------------------------------------------------
  // Lookup

  /** The loop of `find` over one bucket: the position of the first entry with key k. */
  function FindIn<K(==), V>(b: seq<Entry<K, V>>, k: K): (r: Option<nat>)
    ensures r.Some? ==> r.value < |b| && b[r.value].key == k
    ensures r.Some? ==> forall j :: 0 <= j < r.value ==> b[j].key != k
    ensures r.None? <==> forall j :: 0 <= j < |b| ==> b[j].key != k
    decreases |b|
  {
    if |b| == 0 then None
    else if b[0].key == k then Some(0)
    else match FindIn(b[1..], k)
      case None => None
      case Some(j) => Some(j + 1)
  }

  /**
    `find(key)`: nothing for a null key; otherwise the position of the first entry with
    that key in the bucket the key selects.
   */
  function Find<K(==), V>(m: ChainMap<K, V>, key: Option<K>, hash: K -> int): (r: Option<nat>)
    requires |m.buckets| > 0
    ensures r.Some? ==> key.Some? && r.value < |m.buckets[Bucket(key.value, |m.buckets|, hash)]|
    ensures r.Some? ==> m.buckets[Bucket(key.value, |m.buckets|, hash)][r.value].key == key.value
    ensures r.Some? ==> forall j :: 0 <= j < r.value ==> m.buckets[Bucket(key.value, |m.buckets|, hash)][j].key != key.value
    ensures r.None? && key.Some? ==>
      var b := m.buckets[Bucket(key.value, |m.buckets|, hash)];
      forall j :: 0 <= j < |b| ==> b[j].key != key.value
  {
    if key.None? then None else FindIn(m.buckets[Bucket(key.value, |m.buckets|, hash)], key.value)
  }

  // ---------------------------------------------------------------------------
  // The public operations

  /**
    `insert(k, v)`: a null or present key is an illegal argument; otherwise the entry is
    appended to its bucket, `size` grows by one, and the table is rehashed once the load
    factor reaches 0.75.
   */
  function Insert<K(==), V>(m: ChainMap<K, V>, key: Option<K>, v: V, hash: K -> int): (r: Result<ChainMap<K, V>, Error>)
    requires Shaped(m)
    ensures r.Failure? <==> key.None? || Find(m, key, hash).Some?
    ensures r.Failure? ==> r.error == IllegalArgument
    ensures r.Success? ==> Shaped(r.value) && r.value.size == m.size + 1
    ensures r.Success? ==> multiset(Flatten(r.value.buckets)) == multiset(Flatten(m.buckets)) + multiset{Entry(key.value, v)}
    ensures r.Success? ==> |Flatten(r.value.buckets)| == |Flatten(m.buckets)| + 1
    ensures r.Success? && Placed(m.buckets, hash) ==> Placed(r.value.buckets, hash)
    ensures r.Success? ==>
      (r.value.primeCounter, |r.value.buckets|)
        == if LoadReached(m.size + 1, |m.buckets|) then Grow(m.primeCounter, |m.buckets|) else (m.primeCounter, |m.buckets|)
  {
    if key.None? || Find(m, key, hash).Some? then Failure(IllegalArgument)
    else
      var e := Entry(key.value, v);
      AddLastEntries(m.buckets, e, hash);
      var counted := ChainMap(AddLast(m.buckets, e, hash), m.primeCounter, m.size + 1);
      if LoadReached(counted.size, |counted.buckets|) then Success(Rehash(counted, hash)) else Success(counted)
  }

  /**
    `remove(k)`: a missing (or null) key is an illegal argument; otherwise the entry `find`
    returned leaves its bucket, `size` drops by one and its value is returned.
   */
  function Remove<K(==), V>(m: ChainMap<K, V>, key: Option<K>, hash: K -> int): (r: Result<(ChainMap<K, V>, V), Error>)
    requires |m.buckets| > 0
    ensures r.Success? <==> Find(m, key, hash).Some?
    ensures r.Failure? ==> r.error == IllegalArgument
    ensures r.Success? ==>
      && |r.value.0.buckets| == |m.buckets| && r.value.0.primeCounter == m.primeCounter
      && r.value.0.size == m.size - 1
      && forall x :: 0 <= x < |m.buckets| && x != Bucket(key.value, |m.buckets|, hash) ==> r.value.0.buckets[x] == m.buckets[x]
    ensures r.Success? ==>
      var b, b' := m.buckets[Bucket(key.value, |m.buckets|, hash)], r.value.0.buckets[Bucket(key.value, |m.buckets|, hash)];
      var j := Find(m, key, hash).value;
      && |b'| + 1 == |b|
      && (forall x :: 0 <= x < |b'| ==> b'[x] == if x < j then b[x] else b[x + 1])
    ensures r.Success? ==>
      && Entry(key.value, r.value.1) in multiset(Flatten(m.buckets))
      && multiset(Flatten(r.value.0.buckets)) == multiset(Flatten(m.buckets)) - multiset{Entry(key.value, r.value.1)}
  {
    match Find(m, key, hash)
    case None => Failure(IllegalArgument)
    case Some(j) =>
      var i := Bucket(key.value, |m.buckets|, hash);
      var b := m.buckets[i];
      DropEntries(m.buckets, i, j);
      FlattenMember(m.buckets, b[j]);
      Success((m.(buckets := m.buckets[i := b[..j] + b[j + 1..]], size := m.size - 1), b[j].value))
  }

  /** Deleting position j of a bucket removes exactly that entry. */
  lemma DropEntries<K, V>(bs: seq<seq<Entry<K, V>>>, i: nat, j: nat)
    requires i < |bs| && j < |bs[i]|
    ensures multiset(Flatten(bs[i := bs[i][..j] + bs[i][j + 1..]])) == multiset(Flatten(bs)) - multiset{bs[i][j]}
    ensures |Flatten(bs[i := bs[i][..j] + bs[i][j + 1..]])| + 1 == |Flatten(bs)|
  {
    var b := bs[i];
    var b' := b[..j] + b[j + 1..];
    FlattenUpdate(bs, i, b');
    assert b == b[..j] + [b[j]] + b[j + 1..];
    assert multiset(b) == multiset(b') + multiset{b[j]};
    var a := multiset(Flatten(bs[i := b']));
    assert a + multiset{b[j]} + multiset(b') == multiset(Flatten(bs)) + multiset(b');
    MultisetCancel(a + multiset{b[j]}, multiset(b'), multiset(Flatten(bs)));
    MultisetSwap(a, multiset(Flatten(bs)), multiset{b[j]}, multiset{});
    assert multiset(Flatten(bs)) + multiset{} == multiset(Flatten(bs));
  }


  /** `put(k, v)`: a missing key is an illegal argument; otherwise the found entry takes value v. */
  function Put<K(==), V>(m: ChainMap<K, V>, key: Option<K>, v: V, hash: K -> int): (r: Result<ChainMap<K, V>, Error>)
    requires |m.buckets| > 0
    ensures r.Success? <==> Find(m, key, hash).Some?
    ensures r.Failure? ==> r.error == IllegalArgument
    ensures r.Success? ==>
      var i := Bucket(key.value, |m.buckets|, hash);
      r.value == m.(buckets := m.buckets[i := m.buckets[i][Find(m, key, hash).value := Entry(key.value, v)]])
  {
    match Find(m, key, hash)
    case None => Failure(IllegalArgument)
    case Some(j) =>
      var i := Bucket(key.value, |m.buckets|, hash);
      Success(m.(buckets := m.buckets[i := m.buckets[i][j := m.buckets[i][j].(value := v)]]))
  }

  /** `get(k)`: a missing key is an illegal argument; otherwise the found entry's value. */
  function Get<K(==), V>(m: ChainMap<K, V>, key: Option<K>, hash: K -> int): (r: Result<V, Error>)
    requires |m.buckets| > 0
    ensures r.Success? <==> Find(m, key, hash).Some?
    ensures r.Failure? ==> r.error == IllegalArgument
  {
    match Find(m, key, hash)
    case None => Failure(IllegalArgument)
    case Some(j) => Success(m.buckets[Bucket(key.value, |m.buckets|, hash)][j].value)
  }

  /** `has(k)`: whether `find` succeeds; never throws. */
  function Has<K(==), V>(m: ChainMap<K, V>, key: Option<K>, hash: K -> int): (r: bool)
    requires |m.buckets| > 0
    ensures r ==> key.Some?
  {
    Find(m, key, hash).Some?
  }

  /** `size()`. */
  function Size<K, V>(m: ChainMap<K, V>): int {
    m.size
  }
}
