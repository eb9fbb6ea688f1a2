/**
  Key-value entries and the abstract map a collection of entries denotes.
  Both hash maps are specified against `EntryMap` of the entries they hold.
 */
module Entries {

  /** The key-value pair both maps store (Java's private `Entry` class). */
  datatype Entry<K, V> = Entry(key: K, value: V)

  /** No two different entries share a key and no entry occurs twice. */
  ghost predicate UniqueKeys<K, V>(es: seq<Entry<K, V>>) {
    && (forall e1, e2 :: e1 in es && e2 in es && e1.key == e2.key ==> e1 == e2)
    && (forall e :: e in es ==> multiset(es)[e] <= 1)
  }

  /** Some entry of `es` carries key `k`. */
  ghost predicate HasKey<K, V>(es: seq<Entry<K, V>>, k: K) {
    exists e :: e in es && e.key == k
  }

  /** The key-to-value map denoted by a sequence of entries (a later entry wins a clash). */
  ghost function EntryMap<K, V>(es: seq<Entry<K, V>>): map<K, V>
    decreases |es|
  {
    if |es| == 0 then map[]
    else EntryMap(es[..|es| - 1])[es[|es| - 1].key := es[|es| - 1].value]
  }

  /** The keys of the map are exactly the keys of the entries. */
  lemma {:induction false} EntryMapDomain<K, V>(es: seq<Entry<K, V>>, k: K)
    ensures k in EntryMap(es) <==> HasKey(es, k)
    decreases |es|
  {
    if |es| > 0 {
      var p, last := es[..|es| - 1], es[|es| - 1];
      assert es == p + [last];
      EntryMapDomain(p, k);
      if HasKey(p, k) {
        var e :| e in p && e.key == k;
        assert e in es;
      }
      if k == last.key {
        assert last in es;
      }
      if HasKey(es, k) && k != last.key {
        var e :| e in es && e.key == k;
        assert e in p;
      }
    }
  }

  /** A sub-multiset of entries with unique keys has unique keys. */
  lemma UniqueKeysSub<K, V>(a: seq<Entry<K, V>>, b: seq<Entry<K, V>>)
    requires multiset(a) <= multiset(b) && UniqueKeys(b)
    ensures UniqueKeys(a)
  {
    forall e | e in a ensures e in b {
      assert e in multiset(a);
    }
  }

  /** Under unique keys every entry is what the map holds for its key. */
  lemma {:induction false} EntryMapValue<K, V>(es: seq<Entry<K, V>>, e: Entry<K, V>)
    requires UniqueKeys(es) && e in es
    ensures e.key in EntryMap(es) && EntryMap(es)[e.key] == e.value
    decreases |es|
  {
    var p, last := es[..|es| - 1], es[|es| - 1];
    assert es == p + [last];
    if e != last {
      assert e in p;
      assert last in es;
      assert e.key != last.key;
      UniqueKeysSub(p, es);
      EntryMapValue(p, e);
    }
  }

  /** Under unique keys the map has one key per entry. */
  lemma {:induction false} EntryMapSize<K, V>(es: seq<Entry<K, V>>)
    requires UniqueKeys(es)
    ensures |EntryMap(es)| == |es|
    decreases |es|
  {
    if |es| > 0 {
      var p, last := es[..|es| - 1], es[|es| - 1];
      assert es == p + [last];
      UniqueKeysSub(p, es);
      EntryMapSize(p);
      EntryMapDomain(p, last.key);
    }
  }

  /** Two entry collections with the same multiset denote the same map. */
  lemma EntryMapPermutation<K, V>(a: seq<Entry<K, V>>, b: seq<Entry<K, V>>)
    requires multiset(a) == multiset(b) && UniqueKeys(a)
    ensures UniqueKeys(b) && EntryMap(b) == EntryMap(a)
  {
    UniqueKeysSub(b, a);
    forall k | k in EntryMap(b) ensures k in EntryMap(a) {
      EntryMapDomain(a, k);
      EntryMapDomain(b, k);
      var e :| e in b && e.key == k;
      assert e in multiset(b);
    }
    forall k | k in EntryMap(a) ensures k in EntryMap(b) && EntryMap(b)[k] == EntryMap(a)[k] {
      EntryMapDomain(a, k);
      var e :| e in a && e.key == k;
      assert e in multiset(a);
      EntryMapValue(a, e);
      EntryMapValue(b, e);
    }
  }

  /** Adding an entry with a fresh key adds that binding to the map. */
  lemma EntryMapAdd<K, V>(a: seq<Entry<K, V>>, b: seq<Entry<K, V>>, e: Entry<K, V>)
    requires UniqueKeys(a) && e.key !in EntryMap(a)
    requires multiset(b) == multiset(a) + multiset{e}
    ensures UniqueKeys(b) && EntryMap(b) == EntryMap(a)[e.key := e.value]
  {
    EntryMapDomain(a, e.key);
    assert e !in a;
    forall x ensures x in b <==> x in a || x == e {
      assert x in b <==> x in multiset(b);
      assert x in a <==> x in multiset(a);
    }
    forall x ensures multiset(b)[x] <= 1 {
      assert x in a ==> x != e;
    }
    var m := EntryMap(a)[e.key := e.value];
    forall k | k in EntryMap(b) ensures k in m {
      EntryMapDomain(a, k);
      EntryMapDomain(b, k);
      if k != e.key {
        var x :| x in b && x.key == k;
        assert x in a;
      }
    }
    forall k | k in m ensures k in EntryMap(b) && EntryMap(b)[k] == m[k] {
      if k == e.key {
        EntryMapValue(b, e);
      } else {
        EntryMapDomain(a, k);
        var x :| x in a && x.key == k;
        EntryMapValue(a, x);
        EntryMapValue(b, x);
      }
    }
  }

  /** Removing a present entry removes its key from the map. */
  lemma EntryMapRemove<K, V>(a: seq<Entry<K, V>>, b: seq<Entry<K, V>>, e: Entry<K, V>)
    requires UniqueKeys(a) && e in a
    requires multiset(b) == multiset(a) - multiset{e}
    ensures UniqueKeys(b) && EntryMap(b) == EntryMap(a) - {e.key}
  {
    UniqueKeysSub(b, a);
    assert e in multiset(a);
    forall x ensures x in b <==> x in a && x != e {
      assert x in b <==> x in multiset(b);
      assert x in a <==> x in multiset(a);
    }
    var m := EntryMap(a) - {e.key};
    forall k | k in EntryMap(b) ensures k in m {
      EntryMapDomain(a, k);
      EntryMapDomain(b, k);
      var x :| x in b && x.key == k;
      assert x in a && x != e;
    }
    forall k | k in m ensures k in EntryMap(b) && EntryMap(b)[k] == m[k] {
      EntryMapDomain(a, k);
      var x :| x in a && x.key == k;
      assert x in b;
      EntryMapValue(a, x);
      EntryMapValue(b, x);
    }
  }

  /** Replacing a present entry by one with the same key rebinds that key. */
  lemma EntryMapReplace<K, V>(a: seq<Entry<K, V>>, b: seq<Entry<K, V>>, e: Entry<K, V>, v: V)
    requires UniqueKeys(a) && e in a
    requires multiset(b) == multiset(a) - multiset{e} + multiset{Entry(e.key, v)}
    ensures UniqueKeys(b) && EntryMap(b) == EntryMap(a)[e.key := v]
  {
    var e' := Entry(e.key, v);
    ReplaceMembers(a, b, e, v);
    var m := EntryMap(a)[e.key := v];
    forall k | k in EntryMap(b) ensures k in m {
      EntryMapDomain(a, k);
      EntryMapDomain(b, k);
      if k != e.key {
        var x :| x in b && x.key == k;
        assert x in a;
      }
    }
    forall k | k in m ensures k in EntryMap(b) && EntryMap(b)[k] == m[k] {
      if k == e.key {
        assert e' in b;
        EntryMapValue(b, e');
      } else {
        EntryMapDomain(a, k);
        var x :| x in a && x.key == k;
        assert x in b;
        EntryMapValue(a, x);
        EntryMapValue(b, x);
      }
    }
  }

  /** The entries after a replacement: the old ones but e, and the new one; keys stay unique. */
  lemma ReplaceMembers<K, V>(a: seq<Entry<K, V>>, b: seq<Entry<K, V>>, e: Entry<K, V>, v: V)
    requires UniqueKeys(a) && e in a
    requires multiset(b) == multiset(a) - multiset{e} + multiset{Entry(e.key, v)}
    ensures forall x :: x in b <==> (x in a && x != e) || x == Entry(e.key, v)
    ensures UniqueKeys(b)
  {
    assert e in multiset(a);
    forall x ensures x in b <==> (x in a && x != e) || x == Entry(e.key, v) {
      assert x in b <==> x in multiset(b);
      assert x in a <==> x in multiset(a);
    }
  }

  /** Prepending an entry whose key is new keeps the keys unique. */
  lemma UniqueKeysCons<K, V>(e: Entry<K, V>, es: seq<Entry<K, V>>)
    requires UniqueKeys(es) && !HasKey(es, e.key)
    ensures UniqueKeys([e] + es)
  {
    var s := [e] + es;
    assert e !in es;
    forall x ensures x in s <==> x == e || x in es {
    }
    assert multiset(s) == multiset{e} + multiset(es);
  }

  /** The keys of entries, in order. */
  function KeysOf<K, V>(es: seq<Entry<K, V>>): (ks: seq<K>)
    ensures |ks| == |es|
    ensures forall i :: 0 <= i < |es| ==> ks[i] == es[i].key
  {
    seq(|es|, i requires 0 <= i < |es| => es[i].key)
  }

  /** The keys of entries with unique keys are pairwise distinct and are the map's keys. */
  lemma KeysOfUnique<K, V>(es: seq<Entry<K, V>>)
    requires UniqueKeys(es)
    ensures forall i, j :: 0 <= i < j < |es| ==> KeysOf(es)[i] != KeysOf(es)[j]
    ensures forall k :: k in KeysOf(es) <==> k in EntryMap(es)
  {
    forall i, j | 0 <= i < j < |es| ensures KeysOf(es)[i] != KeysOf(es)[j] {
      if es[i].key == es[j].key {
        assert es[i] in es && es[j] in es;
        TwoPositions(es, i, j);
      }
    }
    forall k ensures k in KeysOf(es) <==> k in EntryMap(es) {
      EntryMapDomain(es, k);
      if HasKey(es, k) {
        var e :| e in es && e.key == k;
        var i :| 0 <= i < |es| && es[i] == e;
        assert KeysOf(es)[i] == k;
      }
    }
  }

  /** An entry at two positions occurs twice in the multiset. */
  lemma TwoPositions<K, V>(es: seq<Entry<K, V>>, i: nat, j: nat)
    requires i < j < |es| && es[i] == es[j]
    ensures multiset(es)[es[i]] >= 2
  {
    assert es == es[..j] + es[j..];
    assert es[i] in es[..j];
    assert es[j] in es[j..];
    assert multiset(es) == multiset(es[..j]) + multiset(es[j..]);
  }

  /** Cancelling from a multiset equation: a + x == b + y gives a == b + y - x. */
  lemma MultisetSwap<T>(a: multiset<T>, b: multiset<T>, x: multiset<T>, y: multiset<T>)
    requires a + x == b + y
    ensures a == b + y - x
  {
  }

  /** Cancelling a common summand: a + c == d + c gives a == d. */
  lemma MultisetCancel<T>(a: multiset<T>, c: multiset<T>, d: multiset<T>)
    requires a + c == d + c
    ensures a == d
  {
    forall x ensures a[x] == d[x] {
      assert (a + c)[x] == (d + c)[x];
    }
  }

  /** Trading one element for another: a + {x} == b + {y} with x in b gives a == b - {x} + {y}. */
  lemma MultisetTrade<T>(a: multiset<T>, b: multiset<T>, x: T, y: T)
    requires a + multiset{x} == b + multiset{y} && x in b
    ensures a == b - multiset{x} + multiset{y}
  {
    forall z ensures a[z] == (b - multiset{x} + multiset{y})[z] {
      assert (a + multiset{x})[z] == (b + multiset{y})[z];
    }
  }

  /** Replacing part c of a sum by b when b + {x} == c + {y}: a + c == f + b gives a + {x} == f + {y}. */
  lemma MultisetShuffle<T>(a: multiset<T>, b: multiset<T>, c: multiset<T>, f: multiset<T>, x: T, y: T)
    requires a + c == f + b && b + multiset{x} == c + multiset{y}
    ensures a + multiset{x} == f + multiset{y}
  {
    forall z ensures (a + multiset{x})[z] == (f + multiset{y})[z] {
      assert (a + c)[z] == (f + b)[z];
      assert (b + multiset{x})[z] == (c + multiset{y})[z];
    }
  }
}
