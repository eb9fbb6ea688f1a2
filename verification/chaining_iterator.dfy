/**
  The key iterator of the chaining map: a cursor of bucket index, position in the bucket
  and count of keys produced, which skips empty buckets and stops after `size` keys.
 */
module ChainingIterator {
  import opened Wrappers
  import opened Exceptions
  import opened Entries
  import opened Chaining
  import opened ChainingValid

  /** The iterator's fields: `dataIndex`, `numElement` and `linkedListIndex`. */
  datatype Cursor = Cursor(bucket: nat, produced: nat, offset: nat)

  /** A new iterator. */
  function Start(): (c: Cursor)
    ensures c.bucket == 0 && c.produced == 0 && c.offset == 0
  {
    Cursor(0, 0, 0)
  }

  /** `hasNext()`: fewer keys produced than the map's `size`. */
  function HasNext<K, V>(m: ChainMap<K, V>, c: Cursor): bool {
    c.produced < m.size
  }

  /** The skip loop of `next()` from bucket d: the first non-empty bucket, or none when it runs off the array. */
  function SkipEmpty<K, V>(bs: seq<seq<Entry<K, V>>>, d: nat): (r: Option<nat>)
    requires d <= |bs|
    ensures r.Some? ==> d <= r.value < |bs| && bs[r.value] != []
    ensures r.Some? ==> forall j :: d <= j < r.value ==> bs[j] == []
    ensures r.None? ==> forall j :: d <= j < |bs| ==> bs[j] == []
    decreases |bs| - d
  {
    if d == |bs| then None
    else if bs[d] != [] then Some(d)
    else SkipEmpty(bs, d + 1)
  }

  /**
    `next()`: no such element once `size` keys were produced; otherwise the key at the
    cursor's position in the next non-empty bucket, moving to the following bucket after
    the last entry of this one. Running off the array, or a position past the end of the
    bucket, is an out-of-bounds error.
   */
  function Next<K, V>(m: ChainMap<K, V>, c: Cursor): (r: Result<(K, Cursor), Error>)
    ensures r == Failure(NoSuchElement) <==> !HasNext(m, c)
    ensures r.Failure? && HasNext(m, c) ==> r.error == IndexOutOfBounds
    ensures r.Success? ==>
      var c' := r.value.1;
      && c'.produced == c.produced + 1
      && (c'.bucket > c.bucket || (c'.bucket == c.bucket && c'.offset == c.offset + 1))
  {
    if !HasNext(m, c) then Failure(NoSuchElement)
    else if c.bucket > |m.buckets| then Failure(IndexOutOfBounds)
    else
      match SkipEmpty(m.buckets, c.bucket)
      case None => Failure(IndexOutOfBounds)
      case Some(j) =>
        var b := m.buckets[j];
        if c.offset >= |b| then Failure(IndexOutOfBounds)
        else if c.offset + 1 >= |b| then Success((b[c.offset].key, Cursor(j + 1, c.produced + 1, 0)))
        else Success((b[c.offset].key, Cursor(j, c.produced + 1, c.offset + 1)))
  }

  /**
    The cursor has passed exactly `produced` entries: the whole buckets before its bucket
    and `offset` entries of its own, and a non-zero offset lies inside a bucket.
   */
  ghost predicate Tracks<K, V>(bs: seq<seq<Entry<K, V>>>, c: Cursor) {
    && c.bucket <= |bs|
    && (c.offset == 0 || (c.bucket < |bs| && c.offset < |bs[c.bucket]|))
    && |Flatten(bs[..c.bucket])| + c.offset == c.produced
  }

  /** Skipping empty buckets passes no entries. */
  lemma SkipPassesNothing<K, V>(bs: seq<seq<Entry<K, V>>>, d: nat, j: nat)
    requires d <= j <= |bs| && forall x :: d <= x < j ==> bs[x] == []
    ensures Flatten(bs[..j]) == Flatten(bs[..d])
    ensures j == |bs| ==> Flatten(bs) == Flatten(bs[..d])
  {
    assert bs[..|bs|] == bs;
    assert bs[..j] == bs[..d] + bs[d..j];
    FlattenConcat(bs[..d], bs[d..j]);
    EmptyBucketsHoldNothing(bs[d..j]);
  }

  /** Passing the whole of bucket j adds its entries. */
  lemma PassBucket<K, V>(bs: seq<seq<Entry<K, V>>>, j: nat)
    requires j < |bs|
    ensures Flatten(bs[..j + 1]) == Flatten(bs[..j]) + bs[j]
  {
    assert bs[..j + 1] == bs[..j] + [bs[j]];
    FlattenConcat(bs[..j], [bs[j]]);
    assert Flatten([bs[j]]) == bs[j] + Flatten([bs[j]][1..]);
    assert [bs[j]][1..] == [];
  }

  /**
    While keys remain, `next()` yields the key of the next entry in bucket order and the new
    cursor has passed one more entry.
   */
  lemma NextYields<K, V>(m: ChainMap<K, V>, c: Cursor)
    requires m.size == |Flatten(m.buckets)| && Tracks(m.buckets, c) && HasNext(m, c)
    ensures Next(m, c).Success?
    ensures Next(m, c).value.0 == Flatten(m.buckets)[c.produced].key
    ensures Tracks(m.buckets, Next(m, c).value.1)
  {
    var bs := m.buckets;
    var d := c.bucket;
    if SkipEmpty(bs, d).None? {
      SkipPassesNothing(bs, d, |bs|);
      assert false;
    }
    var j := SkipEmpty(bs, d).value;
    SkipPassesNothing(bs, d, j);
    FlattenSplit(bs, j);
    PassBucket(bs, j);
  }

  /**
    Drives the iterator to the end, as a for-each loop over the map does: the keys come
    out bucket by bucket, one per entry, and `next()` then raises no-such-element.
   */
  method CollectKeys<K, V>(m: ChainMap<K, V>) returns (keys: seq<K>, last: Cursor)
    requires m.size == |Flatten(m.buckets)|
    ensures keys == KeysOf(Flatten(m.buckets))
    ensures Next(m, last) == Failure(NoSuchElement)
  {
    keys := [];
    last := Start();
    assert m.buckets[..0] == [];
    while HasNext(m, last)
      invariant Tracks(m.buckets, last) && last.produced <= m.size
      invariant keys == KeysOf(Flatten(m.buckets)[..last.produced])
      decreases m.size - last.produced
    {
      NextYields(m, last);
      var step := Next(m, last).value;
      ghost var es := Flatten(m.buckets);
      assert es[..last.produced + 1] == es[..last.produced] + [es[last.produced]];
      keys := keys + [step.0];
      last := step.1;
    }
    assert Flatten(m.buckets)[..last.produced] == Flatten(m.buckets);
  }

  /** Under the invariant the iterator produces every bound key exactly once. */
  lemma CollectKeysCoversMap<K, V>(m: ChainMap<K, V>, hash: K -> int)
    requires Valid(m, hash)
    ensures forall i, j :: 0 <= i < j < |KeysOf(Flatten(m.buckets))| ==> KeysOf(Flatten(m.buckets))[i] != KeysOf(Flatten(m.buckets))[j]
    ensures forall k :: k in KeysOf(Flatten(m.buckets)) <==> k in Contents(m)
    ensures |KeysOf(Flatten(m.buckets))| == m.size
  {
    KeysOfUnique(Flatten(m.buckets));
  }
}
