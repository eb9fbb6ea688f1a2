/**
  The key iterator of the open-addressing map: a cursor over the slot array that skips
  empty slots and tombstones and stops after `size` keys.
 */
module OpenAddressingIterator {
  import opened Wrappers
  import opened Exceptions
  import opened Entries
  import opened OpenAddressing
  import opened OpenAddressingValid

  /** The iterator's fields: the next slot to look at and the number of keys produced. */
  datatype Cursor = Cursor(index: nat, produced: nat)

  /** A new iterator. */
  function Start(): (c: Cursor)
    ensures c.index == 0 && c.produced == 0
  {
    Cursor(0, 0)
  }

  /** `hasNext()`: fewer keys produced than the map's `size`. */
  function HasNext<K, V>(m: OpenMap<K, V>, c: Cursor): bool {
    c.produced < m.size
  }

  /** The skip loop of `next()` from slot i: the first full slot, or none when it runs off the array. */
  function SkipDead<K, V>(s: seq<Slot<K, V>>, i: nat): (r: Option<nat>)
    requires i <= |s|
    ensures r.Some? ==> i <= r.value < |s| && s[r.value].Full?
    ensures r.Some? ==> forall j :: i <= j < r.value ==> !s[j].Full?
    ensures r.None? ==> forall j :: i <= j < |s| ==> !s[j].Full?
    decreases |s| - i
  {
    if i == |s| then None
    else if s[i].Full? then Some(i)
    else SkipDead(s, i + 1)
  }

  /**
    `next()`: no such element once `size` keys were produced; otherwise the key of the next
    full slot, and running off the array is an out-of-bounds error.
   */
  function Next<K, V>(m: OpenMap<K, V>, c: Cursor): (r: Result<(K, Cursor), Error>)
    ensures r == Failure(NoSuchElement) <==> !HasNext(m, c)
    ensures r.Success? ==> r.value.1.produced == c.produced + 1 && r.value.1.index > c.index
  {
    if !HasNext(m, c) then Failure(NoSuchElement)
    else if c.index > |m.data| then Failure(IndexOutOfBounds)
    else
      match SkipDead(m.data, c.index)
      case None => Failure(IndexOutOfBounds)
      case Some(j) => Success((m.data[j].entry.key, Cursor(j + 1, c.produced + 1)))
  }

  /** The cursor has passed exactly `produced` live entries. */
  ghost predicate Tracks<K, V>(s: seq<Slot<K, V>>, c: Cursor) {
    c.index <= |s| && |LiveEntries(s[..c.index])| == c.produced
  }

  /** Skipping dead slots from i to the full slot j passes that one live entry and no other. */
  lemma SkipPassesOne<K, V>(s: seq<Slot<K, V>>, i: nat, j: nat)
    requires i <= j < |s| && s[j].Full? && forall x :: i <= x < j ==> !s[x].Full?
    ensures LiveEntries(s[..j + 1]) == LiveEntries(s[..i]) + [s[j].entry]
  {
    assert s[..j + 1] == (s[..i] + s[i..j]) + [s[j]];
    LiveEntriesConcat(s[..i] + s[i..j], [s[j]]);
    LiveEntriesConcat(s[..i], s[i..j]);
    LiveEntriesNone(s[i..j]);
    LiveEntriesSingle(s[j]);
  }

  /** The live entries of the whole array are those before slot i followed by those from i on. */
  lemma SplitAt<K, V>(s: seq<Slot<K, V>>, i: nat)
    requires i <= |s|
    ensures LiveEntries(s) == LiveEntries(s[..i]) + LiveEntries(s[i..])
  {
    assert s == s[..i] + s[i..];
    LiveEntriesConcat(s[..i], s[i..]);
  }

  /**
    While keys remain, `next()` yields the key of the next live entry in slot order and the
    new cursor has passed one more live entry.
   */
  lemma NextYields<K, V>(m: OpenMap<K, V>, c: Cursor)
    requires m.size == |LiveEntries(m.data)| && Tracks(m.data, c) && HasNext(m, c)
    ensures Next(m, c).Success?
    ensures Next(m, c).value.0 == LiveEntries(m.data)[c.produced].key
    ensures Tracks(m.data, Next(m, c).value.1)
  {
    var s := m.data;
    var i := c.index;
    SplitAt(s, i);
    if SkipDead(s, i).None? {
      LiveEntriesNone(s[i..]);
      assert false;
    }
    var j := SkipDead(s, i).value;
    SkipPassesOne(s, i, j);
    SplitAt(s, j + 1);
    assert LiveEntries(s)[c.produced] == LiveEntries(s[..j + 1])[c.produced];
  }

  /**
    Drives the iterator to the end, as a for-each loop over the map does: the keys come
    out in slot order, one per live entry, and `next()` then raises no-such-element.
   */
  method CollectKeys<K, V>(m: OpenMap<K, V>) returns (keys: seq<K>, last: Cursor)
    requires m.size == |LiveEntries(m.data)|
    ensures keys == KeysOf(LiveEntries(m.data))
    ensures Next(m, last) == Failure(NoSuchElement)
  {
    keys := [];
    last := Start();
    assert m.data[..0] == [];
    while HasNext(m, last)
      invariant Tracks(m.data, last) && last.produced <= m.size
      invariant keys == KeysOf(LiveEntries(m.data)[..last.produced])
      decreases m.size - last.produced
    {
      NextYields(m, last);
      var step := Next(m, last).value;
      ghost var es := LiveEntries(m.data);
      assert es[..last.produced + 1] == es[..last.produced] + [es[last.produced]];
      keys := keys + [step.0];
      last := step.1;
    }
    assert LiveEntries(m.data)[..last.produced] == LiveEntries(m.data);
  }

  /** Under the invariant the iterator produces every bound key exactly once. */
  lemma CollectKeysCoversMap<K, V>(m: OpenMap<K, V>, hash: K -> int)
    requires Valid(m, hash)
    ensures forall i, j :: 0 <= i < j < |KeysOf(LiveEntries(m.data))| ==> KeysOf(LiveEntries(m.data))[i] != KeysOf(LiveEntries(m.data))[j]
    ensures forall k :: k in KeysOf(LiveEntries(m.data)) <==> k in Contents(m)
    ensures |KeysOf(LiveEntries(m.data))| == m.size
  {
    KeysOfUnique(LiveEntries(m.data));
  }
}
