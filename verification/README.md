# Hash maps by open addressing and by separate chaining, in Dafny

This project models the two hand-written Java hash maps `OpenAddressingHashMap` and
`ChainingHashMap`. Both implement the
same key-to-value contract over an array whose capacity follows the prime table
5, 11, 23, …, 205759 and doubles once the table is used up.

- `OpenAddressingHashMap` keeps entries in one array of slots and probes quadratically:
  probe `i` lands on `(getIndex(k) + i*i) % capacity`.
  - A deleted entry leaves a tombstone. Lookups walk past a tombstone; insertions reuse it.
  - Two counters are kept: `size` counts the live entries, and `filledCells` counts the
    live entries plus the tombstones.
  - The table grows once `filledCells / capacity >= 0.75`.
- `ChainingHashMap` keeps an array of linked lists (buckets). A new entry is appended at
  the tail of its bucket.
  - The table grows once `size / capacity >= 0.75`.
  - A rehash drains every bucket, from its head, into a new array.

Each map is an immutable Dafny datatype, and every operation is a pure function that
returns the new map.

- A Java exception is a `Failure` of a `Result`: `IllegalArgument`, `NoSuchElement`,
  `IndexOutOfBounds` or `NullPointer`.
- A `null` key is `Option.None`.
- `hashCode` is a parameter `hash: K -> int`.
- An open-addressing slot is `Empty`, `Tomb` or `Full(entry)`. This tagged type replaces
  the tombstone object, which Java compares by identity.
- A chaining bucket is a `seq<Entry>`. A bucket that Java leaves `null` is the empty
  sequence. Every operation treats a `null` bucket and an empty bucket alike.

Each map has a ghost view `Contents`: the `map<K, V>` its live entries denote. Each also
has an invariant `Valid`:

- the capacity matches the prime counter;
- no key occurs twice;
- `size` counts the entries, and `filledCells` counts the non-empty slots;
- every entry can be found where lookups search for it. For open addressing, every probe
  before it lands on a non-empty slot. For chaining, the entry sits in its key's bucket.

Every public operation is proved correct against `Contents` under `Valid`, and proved to
keep `Valid`. The one exception is the open-addressing `insert` when every probe lands on a
full slot: there the code counts the new key twice (see "## Findings"). The model's
`OpenAddressing.Insert` is the corrected `insert`, and those proofs are about it. The code as
written is `OpenAddressingFindings.InsertAsWritten`.

Both maps test the load after `size++` (OpenAddressingHashMap.java:59-60,
ChainingHashMap.java:43-45). So the fourth insertion into a new map already grows it to 11
slots (`FourthInsertGrows` in both maps). The iterators are cursors, and they are proved to produce each bound key
exactly once, in array order.

Files:

| file | module | contents |
|---|---|---|
| `wrappers.dfy` | `Wrappers`, `Exceptions` | `Option`, `Result`, the exceptions |
| `table_math.dfy` | `TableMath` | `getIndex`, the prime table and `growCapacity`, the load-factor test |
| `entries.dfy` | `Entries` | `Entry`, the abstract map of a sequence of entries, multiset helpers |
| `quadratic_probing.dfy` | `QuadraticProbing` | the probe sequence and the distinctness of its first probes |
| `open_addressing.dfy` | `OpenAddressing` | the open-addressing map and its operations |
| `open_addressing_valid.dfy` | `OpenAddressingValid` | its invariant and correctness lemmas |
| `open_addressing_iterator.dfy` | `OpenAddressingIterator` | its iterator |
| `open_addressing_findings.dfy` | `OpenAddressingFindings` | `insert` exactly as written, and the double count it shows |
| `chaining.dfy` | `Chaining` | the chaining map and its operations |
| `chaining_valid.dfy` | `ChainingValid` | its invariant and correctness lemmas |
| `chaining_iterator.dfy` | `ChainingIterator` | its iterator |

## Model

| member | source | states |
|---|---|---|
| TableMath.JavaRem | hashMap-spring24/src/main/hashing/OpenAddressingHashMap.java:210 | Java's `%` is strictly inside (-capacity, capacity) and takes the sign of the dividend |
| TableMath.GetIndex | hashMap-spring24/src/main/hashing/OpenAddressingHashMap.java:209-211 | `Math.abs(hash % capacity)` lies in [0, capacity) for every hash value, negative ones included |
| TableMath.GetIndexIsAbsMod | hashMap-spring24/src/main/hashing/OpenAddressingHashMap.java:209-211 | the index equals the magnitude of the hash reduced modulo the capacity |
| TableMath.Grow | hashMap-spring24/src/main/hashing/OpenAddressingHashMap.java:125-133 | `growCapacity` (also ChainingHashMap.java:90-97) increments the prime counter; the capacity strictly grows; it doubles once the primes run out; the prime counter and capacity stay consistent |
| TableMath.InitialCapacityOk | hashMap-spring24/src/main/hashing/OpenAddressingHashMap.java:30-39 | the initial capacity 5 agrees with prime counter 0, and the first growth moves to 11 |
| TableMath.LoadReachedIsRatio | hashMap-spring24/src/main/hashing/OpenAddressingHashMap.java:217-219 | the integer test `4*count >= 3*capacity` is the quotient `count/capacity >= 0.75` taken over the reals (used by both maps) |
| TableMath.LoadReached | hashMap-spring24/src/main/hashing/OpenAddressingHashMap.java:217-219 | `calculateLoadFactor() >= loadFactor` (also ChainingHashMap.java:175-177) as an integer test; `TableMath.LoadReachedIsRatio` states that it is the real quotient compared against 0.75 |
| QuadraticProbing.Probe | hashMap-spring24/src/main/hashing/OpenAddressingHashMap.java:77 | a probe `(base + i*i) % capacity` is a valid slot index |
| QuadraticProbing.FirstProbeIsHome | hashMap-spring24/src/main/hashing/OpenAddressingHashMap.java:77 | probe 0 lands on the home slot |
| QuadraticProbing.EarlyProbesDistinct | hashMap-spring24/src/main/hashing/OpenAddressingHashMap.java:76-77 | probes i < j with j*j < capacity land on different slots |
| QuadraticProbing.ProbeSetSize | hashMap-spring24/src/main/hashing/OpenAddressingHashMap.java:76-77 | when r*r < capacity, probes 0..r visit exactly r+1 distinct slots |
| OpenAddressing.EmptyTable | hashMap-spring24/src/main/hashing/OpenAddressingHashMap.java:103 | a new array has the requested length and only empty slots, so no entries and no filled cells |
| OpenAddressing.NewMap | hashMap-spring24/src/main/hashing/OpenAddressingHashMap.java:30-39 | the constructor gives five empty slots, prime counter 0, `size` 0 and `filledCells` 0 |
| OpenAddressing.Home | hashMap-spring24/src/main/hashing/OpenAddressingHashMap.java:47 | the home slot of a key is a valid index |
| OpenAddressing.FindFrom | hashMap-spring24/src/main/hashing/OpenAddressingHashMap.java:231-244 | a found slot holds the key and is the first probe that does; every earlier probe lands on a non-empty slot without the key, so tombstones are passed. Not found means no probe up to the first empty slot holds the key |
| OpenAddressing.Find | hashMap-spring24/src/main/hashing/OpenAddressingHashMap.java:226-245 | `find` never succeeds on a null key, and a found slot holds the key |
| OpenAddressing.FirstFree | hashMap-spring24/src/main/hashing/OpenAddressingHashMap.java:76-87 | the slot taken is the first probe that lands on an empty slot or a tombstone; there is none exactly when every probe lands on a full slot |
| OpenAddressing.ProbeFailureMeansCrowded | hashMap-spring24/src/main/hashing/OpenAddressingHashMap.java:88-89 | if every probe lands on a full slot, the number of full slots squared is at least the capacity |
| OpenAddressing.SparseTableHasRoom | hashMap-spring24/src/main/hashing/OpenAddressingHashMap.java:76-87 | if the live count squared is below the capacity, the probe finds a free slot |
| OpenAddressing.Place | hashMap-spring24/src/main/hashing/OpenAddressingHashMap.java:49-54 | placing keeps the capacity, the prime counter and `size`; `filledCells` grows by the change in non-empty slots: by one for an empty slot and by none for a tombstone |
| OpenAddressing.PlaceEntries | hashMap-spring24/src/main/hashing/OpenAddressingHashMap.java:49-54 | placing into a free slot adds exactly the new entry to the live entries, and no other |
| OpenAddressing.Reinsert | hashMap-spring24/src/main/hashing/OpenAddressingHashMap.java:105-116 | copying into the new table keeps its length; the only failure is the out-of-bounds of a nested rehash |
| OpenAddressing.ReinsertMovesEntries | hashMap-spring24/src/main/hashing/OpenAddressingHashMap.java:105-116 | copying moves exactly the live entries of the old table (tombstones and empty slots skipped) into the new one |
| OpenAddressing.ReinsertNoTombs | hashMap-spring24/src/main/hashing/OpenAddressingHashMap.java:105-116 | copying into a table without tombstones leaves none |
| OpenAddressing.Rehash | hashMap-spring24/src/main/hashing/OpenAddressingHashMap.java:99-120 | `rehash` grows the capacity as `growCapacity` does, drops every tombstone and sets `filledCells` to `size`; its only failure is out-of-bounds |
| OpenAddressing.RehashEntries | hashMap-spring24/src/main/hashing/OpenAddressingHashMap.java:99-120 | a successful `rehash` keeps exactly the live entries, as a multiset |
| OpenAddressing.PlaceGrowing | hashMap-spring24/src/main/hashing/OpenAddressingHashMap.java:47-58 | placement with the corrected fallback (grow and retry) keeps `size`, never shrinks the table, and fails only out-of-bounds |
| OpenAddressing.GrowAndPlace | hashMap-spring24/src/main/hashing/OpenAddressingHashMap.java:89-93 | the corrected fallback, taken when every probe lands on a full slot, rehashes once and places again; it keeps `size` and never shrinks the table |
| OpenAddressing.PlaceGrowingEntries | hashMap-spring24/src/main/hashing/OpenAddressingHashMap.java:47-58 | placement with the corrected fallback adds exactly the new entry to the live entries |
| OpenAddressing.GrowAndPlaceEntries | hashMap-spring24/src/main/hashing/OpenAddressingHashMap.java:89-93 | the grow-and-retry fallback adds exactly the new entry to the live entries |
| OpenAddressing.Insert | hashMap-spring24/src/main/hashing/OpenAddressingHashMap.java:42-63 | the corrected `insert` (see ## Findings): it rejects a null or present key with IllegalArgument, and only those. On success it adds exactly the new entry and `size` grows by one; the code as written is `OpenAddressingFindings.InsertAsWritten` |
| OpenAddressing.TombstoneFromReachesFound | hashMap-spring24/src/main/hashing/OpenAddressingHashMap.java:154-169 | the probe loop of `remove(Entry)` tombstones the slot of the entry when it is reached along the chain `find` walked |
| OpenAddressing.RemoveOverloadsAgree | hashMap-spring24/src/main/hashing/OpenAddressingHashMap.java:154-169 | `remove(Entry)` tombstones exactly the slot `find` returned and throws no NullPointerException |
| OpenAddressing.Remove | hashMap-spring24/src/main/hashing/OpenAddressingHashMap.java:136-147 | `remove` fails with IllegalArgument exactly when `find` fails. Otherwise it returns the value, tombstones the slot, decrements `size` and leaves `filledCells` alone |
| OpenAddressing.Put | hashMap-spring24/src/main/hashing/OpenAddressingHashMap.java:171-178 | `put` fails exactly when `find` fails; otherwise only the found slot changes, to the key with the new value |
| OpenAddressing.Get | hashMap-spring24/src/main/hashing/OpenAddressingHashMap.java:180-187 | `get` fails with IllegalArgument exactly when `find` fails |
| OpenAddressing.TombstoneFrom | hashMap-spring24/src/main/hashing/OpenAddressingHashMap.java:154-169 | the private `remove(Entry)` fails only by a null dereference; otherwise it leaves the table as it was or tombstones exactly the target slot. `TombstoneFromReachesFound` and `RemoveOverloadsAgree` state that it tombstones the slot `find` returned |
| OpenAddressing.Has | hashMap-spring24/src/main/hashing/OpenAddressingHashMap.java:189-192 | `has` is false on a null key; `OpenAddressingValid.HasCorrect` states that it holds exactly for the bound keys |
| OpenAddressing.Size | hashMap-spring24/src/main/hashing/OpenAddressingHashMap.java:194-197 | `size()` returns the counter; `OpenAddressingValid.SizeCorrect` states that it is the number of bound keys |
| OpenAddressingValid.FirstFreeReachable | hashMap-spring24/src/main/hashing/OpenAddressingHashMap.java:76-86 | an entry placed at the first free probe can be found again by `find` |
| OpenAddressingValid.FindCorrect | hashMap-spring24/src/main/hashing/OpenAddressingHashMap.java:226-245 | under the invariant, `find` succeeds exactly on the bound keys and the slot holds the bound value |
| OpenAddressingValid.ReinsertReachable | hashMap-spring24/src/main/hashing/OpenAddressingHashMap.java:105-116 | every entry copied by the rehash loop can be found in the new table |
| OpenAddressingValid.RehashValid | hashMap-spring24/src/main/hashing/OpenAddressingHashMap.java:99-120 | a successful rehash keeps the invariant and the key-to-value map |
| OpenAddressingValid.ReinsertSucceeds | hashMap-spring24/src/main/hashing/OpenAddressingHashMap.java:105-116 | the copy loop cannot fail while the entries already in the new table plus those still to copy number at most r+1, for an r with r^2 below the new capacity |
| OpenAddressingValid.RehashSucceeds | hashMap-spring24/src/main/hashing/OpenAddressingHashMap.java:99-120 | `rehash` succeeds when (live entries - 1)^2 is below the grown capacity |
| OpenAddressingValid.PlaceGrowingKeeps | hashMap-spring24/src/main/hashing/OpenAddressingHashMap.java:47-58 | after placement every entry can still be found, and `filledCells` still counts the non-empty slots |
| OpenAddressingValid.GrowAndPlaceKeeps | hashMap-spring24/src/main/hashing/OpenAddressingHashMap.java:89-93 | the same after the grow-and-retry fallback |
| OpenAddressingValid.InsertValid | hashMap-spring24/src/main/hashing/OpenAddressingHashMap.java:42-63 | for the corrected `insert` (see ## Findings), under the invariant: it throws IllegalArgument exactly when the key is bound. On success it binds the key to the value and keeps the invariant |
| OpenAddressingValid.InsertRehashesAtLoad | hashMap-spring24/src/main/hashing/OpenAddressingHashMap.java:59-62 | when the probe finds room, the table grows exactly when the new `filledCells / capacity >= 0.75`. Without growth the result is that slot filled with `size` and `filledCells` counted; with growth, `filledCells == size` |
| OpenAddressingValid.CountAndCheckShape | hashMap-spring24/src/main/hashing/OpenAddressingHashMap.java:59-62 | the tail of `insert` grows the table exactly when the load test holds; otherwise it only adds one to `size`; after growth `filledCells == size` |
| OpenAddressingValid.InsertIntoRoom | hashMap-spring24/src/main/hashing/OpenAddressingHashMap.java:49-62 | into a sparse table below the load threshold, `insert` succeeds without growing and adds one live entry |
| OpenAddressingValid.PlacedBelowLoad | hashMap-spring24/src/main/hashing/OpenAddressingHashMap.java:49-62 | below the load threshold, `insert` of a new key is the placement at the first free probe with `size` counted once |
| OpenAddressingValid.InsertNewKeyIntoRoom | hashMap-spring24/src/main/hashing/OpenAddressingHashMap.java:49-62 | into a valid sparse table below the threshold, a new key is bound, the capacity is kept and the invariant holds |
| OpenAddressingValid.CrowdPlaced | hashMap-spring24/src/main/hashing/OpenAddressingHashMap.java:55-62 | when the probe finds room but the load threshold is reached, `insert` succeeds and the table grows once |
| OpenAddressingValid.CrowdFallback | hashMap-spring24/src/main/hashing/OpenAddressingHashMap.java:89-93 | when every probe is full, the corrected fallback succeeds and the table grows once |
| OpenAddressingValid.InsertIntoCrowd | hashMap-spring24/src/main/hashing/OpenAddressingHashMap.java:55-62 | at the load threshold, whether or not the probe finds room, `insert` succeeds and grows the table once |
| OpenAddressingValid.FourthInsertGrows | hashMap-spring24/src/main/hashing/OpenAddressingHashMap.java:59-62 | from a new map with any hash function, four distinct keys all insert; the capacity stays 5, 5, 5, then becomes 11 |
| OpenAddressingValid.TombstoneValid | hashMap-spring24/src/main/hashing/OpenAddressingHashMap.java:154-169 | tombstoning a full slot and decrementing `size` unbinds its key and keeps the invariant |
| OpenAddressingValid.RemoveValid | hashMap-spring24/src/main/hashing/OpenAddressingHashMap.java:136-147 | `remove` succeeds exactly on a bound key and returns its value. It unbinds the key, keeps the invariant, the capacity and `filledCells` |
| OpenAddressingValid.RebindValid | hashMap-spring24/src/main/hashing/OpenAddressingHashMap.java:177 | changing the value in a full slot rebinds its key and keeps the invariant |
| OpenAddressingValid.PutValid | hashMap-spring24/src/main/hashing/OpenAddressingHashMap.java:171-178 | `put` succeeds exactly on a bound key and rebinds it. `size`, `filledCells`, the capacity and the key set are unchanged |
| OpenAddressingValid.GetCorrect | hashMap-spring24/src/main/hashing/OpenAddressingHashMap.java:180-187 | `get` returns the bound value, and throws IllegalArgument on a null or unbound key |
| OpenAddressingValid.HasCorrect | hashMap-spring24/src/main/hashing/OpenAddressingHashMap.java:189-192 | `has` holds exactly for a non-null bound key |
| OpenAddressingValid.SizeCorrect | hashMap-spring24/src/main/hashing/OpenAddressingHashMap.java:194-197 | `size()` is the number of bound keys |
| OpenAddressingValid.NewMapValid | hashMap-spring24/src/main/hashing/OpenAddressingHashMap.java:30-39 | a new map satisfies the invariant and binds nothing |
| OpenAddressingIterator.Start | hashMap-spring24/src/main/hashing/OpenAddressingHashMap.java:257-260 | a new iterator starts at slot 0 having produced nothing |
| OpenAddressingIterator.HasNext | hashMap-spring24/src/main/hashing/OpenAddressingHashMap.java:262-265 | `hasNext` compares the keys produced with `size`; `OpenAddressingIterator.Next` states that `next` throws NoSuchElement exactly when it is false |
| OpenAddressingIterator.SkipDead | hashMap-spring24/src/main/hashing/OpenAddressingHashMap.java:273-275 | the skip loop stops at the first full slot from the cursor on, or runs off the array when there is none |
| OpenAddressingIterator.Next | hashMap-spring24/src/main/hashing/OpenAddressingHashMap.java:268-280 | `next` throws NoSuchElement exactly when `hasNext` is false. Otherwise it counts one more key and moves past the slot it read |
| OpenAddressingIterator.NextYields | hashMap-spring24/src/main/hashing/OpenAddressingHashMap.java:268-280 | while keys remain, `next` yields the key of the next live entry in slot order, skipping empty slots and tombstones |
| OpenAddressingIterator.CollectKeys | hashMap-spring24/src/main/hashing/OpenAddressingHashMap.java:250-281 | a full iteration yields the keys of the live entries in slot order, then `next` throws NoSuchElement |
| OpenAddressingIterator.CollectKeysCoversMap | hashMap-spring24/src/main/hashing/OpenAddressingHashMap.java:250-281 | under the invariant, the iteration yields each bound key exactly once and yields `size` keys |
| OpenAddressing.CountAndCheck | hashMap-spring24/src/main/hashing/OpenAddressingHashMap.java:59-62 | the tail of `insert` adds one to `size`, keeps the entries and never shrinks the table |
| OpenAddressingFindings.InsertAsWritten | hashMap-spring24/src/main/hashing/OpenAddressingHashMap.java:42-94 | `insert` as written, with the `handleCollision` fallback, adds exactly the new entry; when every probe is full, `size` grows by at least two |
| OpenAddressingFindings.InsertAsWrittenAddsOne | hashMap-spring24/src/main/hashing/OpenAddressingHashMap.java:42-94 | a successful written `insert` stores exactly one more live entry |
| OpenAddressingFindings.FallbackOvercounts | hashMap-spring24/src/main/hashing/OpenAddressingHashMap.java:89-93 | on the fallback path, a map whose `size` was right ends with `size` above its number of live entries |
| OpenAddressingFindings.PlainInsert | hashMap-spring24/src/main/hashing/OpenAddressingHashMap.java:49-62 | with an empty first free slot and below the threshold, the written `insert` fills that slot and increments `size` and `filledCells` |
| OpenAddressingFindings.FiveFindsNoRoom | hashMap-spring24/src/main/hashing/OpenAddressingHashMap.java:76-87 | with slots 0, 1 and 4 of five full, every probe for key 5 under the identity hash lands on a full slot |
| OpenAddressingFindings.FallbackSucceeds | hashMap-spring24/src/main/hashing/OpenAddressingHashMap.java:89-93 | on that map the written `insert` of key 5 succeeds with `size` 5 while 4 entries are stored |
| OpenAddressingFindings.FallbackFromFreshMap | hashMap-spring24/src/main/hashing/OpenAddressingHashMap.java:89-93 | from a new map under the identity hash, inserting keys 0, 1, 4 and 5 ends with `size` 5 and four entries |
| OpenAddressingFindings.CorrectedInsertCountsOnce | hashMap-spring24/src/main/hashing/OpenAddressingHashMap.java:89-93 | on the same map the corrected `insert` of key 5 ends with `size` 4, four entries and capacity 11 |
| Chaining.Bucket | src/main/hashing/ChainingHashMap.java:141-143 | the bucket of a key is a valid index |
| Chaining.FlattenUpdate | src/main/hashing/ChainingHashMap.java:57-61 | replacing one bucket trades its entries for the new bucket's and leaves every other entry in place |
| Chaining.EmptyBuckets | src/main/hashing/ChainingHashMap.java:70 | a new array of `null` buckets has the requested length and only empty buckets |
| Chaining.NewMap | src/main/hashing/ChainingHashMap.java:26-33 | the constructor gives five empty buckets, prime counter 0 and `size` 0 |
| Chaining.AddLast | src/main/hashing/ChainingHashMap.java:55-62 | the entry is appended at the tail of the bucket at its index (a missing bucket counts as empty); every other bucket is unchanged |
| Chaining.AddLastEntries | src/main/hashing/ChainingHashMap.java:55-62 | appending adds exactly the new entry and keeps every entry in its key's bucket |
| Chaining.Reinsert | src/main/hashing/ChainingHashMap.java:72-83 | draining the buckets into the new array adds exactly the drained entries, each in its key's bucket under the new capacity |
| Chaining.ReinsertKeepsOrder | src/main/hashing/ChainingHashMap.java:72-83 | after the drain, each new bucket holds the entries that hash to it in their old bucket-then-position order |
| Chaining.Rehash | src/main/hashing/ChainingHashMap.java:67-85 | `rehash` grows the capacity as `growCapacity` does, keeps the multiset of entries and `size`, and puts each entry in its bucket under the new capacity |
| Chaining.FindIn | src/main/hashing/ChainingHashMap.java:161-165 | the loop over a bucket returns the first position whose key matches; there is none exactly when no entry matches |
| Chaining.Find | src/main/hashing/ChainingHashMap.java:150-169 | `find` returns nothing for a null key or a missing or empty bucket. Otherwise it returns the position of an entry with the key in bucket `getIndex(k)`, with no earlier entry carrying the key, and nothing only when that bucket has no such entry |
| Chaining.Insert | src/main/hashing/ChainingHashMap.java:36-48 | `insert` fails, always with IllegalArgument, exactly on a null or present key. On success it adds exactly the new entry and `size` grows by one; the table grows exactly when the new `size / capacity >= 0.75` |
| Chaining.Remove | src/main/hashing/ChainingHashMap.java:100-111 | `remove` fails with IllegalArgument exactly when `find` fails. Otherwise it returns the value of an entry with the key that was stored, and the entries lose exactly that one. `size` drops by one; the capacity and every other bucket are unchanged; the key's bucket keeps its order with the position `find` returned deleted |
| Chaining.Put | src/main/hashing/ChainingHashMap.java:114-120 | `put` fails exactly when `find` fails; otherwise only the found entry changes, to the new value |
| Chaining.Get | src/main/hashing/ChainingHashMap.java:123-129 | `get` fails with IllegalArgument exactly when `find` fails |
| Chaining.Has | src/main/hashing/ChainingHashMap.java:131-134 | `has` is false on a null key; `ChainingValid.HasCorrect` states that it holds exactly for the bound keys |
| Chaining.Size | src/main/hashing/ChainingHashMap.java:179-182 | `size()` returns the counter; `ChainingValid.SizeCorrect` states that it is the number of bound keys |
| ChainingValid.NewMapValid | src/main/hashing/ChainingHashMap.java:26-33 | a new map satisfies the invariant and binds nothing |
| ChainingValid.InOwnBucket | src/main/hashing/ChainingHashMap.java:154-165 | under the invariant, a key is bound exactly when its own bucket holds an entry with it |
| ChainingValid.FindCorrect | src/main/hashing/ChainingHashMap.java:150-169 | under the invariant, `find` succeeds exactly on the bound keys and the entry holds the bound value |
| ChainingValid.RehashValid | src/main/hashing/ChainingHashMap.java:67-85 | `rehash` keeps the invariant and the key-to-value map |
| ChainingValid.InsertValid | src/main/hashing/ChainingHashMap.java:36-48 | under the invariant, `insert` fails exactly when the key is bound. On success it binds the key to the value and keeps the invariant |
| ChainingValid.FourthInsertGrows | src/main/hashing/ChainingHashMap.java:42-47 | from a new map with any hash function, four distinct keys all insert; the capacity stays 5, 5, 5, then becomes 11 |
| ChainingValid.DropValid | src/main/hashing/ChainingHashMap.java:108 | unlinking an entry keeps the keys unique and each entry in its bucket, unbinds its key and removes one entry |
| ChainingValid.RemoveValid | src/main/hashing/ChainingHashMap.java:100-111 | `remove` succeeds exactly on a bound key and returns its value; it unbinds the key and keeps the invariant |
| ChainingValid.SetValid | src/main/hashing/ChainingHashMap.java:119 | changing an entry's value rebinds its key, keeps the invariant and keeps the number of entries |
| ChainingValid.PutValid | src/main/hashing/ChainingHashMap.java:114-120 | `put` succeeds exactly on a bound key, rebinds it and keeps the invariant (and so `size` and the key set) |
| ChainingValid.GetCorrect | src/main/hashing/ChainingHashMap.java:123-129 | `get` returns the bound value, and throws IllegalArgument on a null or unbound key |
| ChainingValid.HasCorrect | src/main/hashing/ChainingHashMap.java:132-134 | `has` holds exactly for a non-null bound key |
| ChainingValid.SizeCorrect | src/main/hashing/ChainingHashMap.java:180-182 | `size()` is the number of bound keys |
| ChainingIterator.Start | src/main/hashing/ChainingHashMap.java:200-204 | a new iterator starts at bucket 0, position 0, having produced nothing |
| ChainingIterator.HasNext | src/main/hashing/ChainingHashMap.java:206-209 | `hasNext` compares the keys produced with `size`; `ChainingIterator.Next` states that `next` throws NoSuchElement exactly when it is false |
| ChainingIterator.SkipEmpty | src/main/hashing/ChainingHashMap.java:217-219 | the skip loop stops at the first non-empty bucket from the cursor on, or runs off the array when there is none |
| ChainingIterator.Next | src/main/hashing/ChainingHashMap.java:212-230 | `next` throws NoSuchElement exactly when `hasNext` is false; any other failure is an out-of-bounds error. On success it counts one more key and advances to the next position or the next bucket |
| ChainingIterator.NextYields | src/main/hashing/ChainingHashMap.java:212-230 | while keys remain, `next` yields the key of the next entry, by bucket and then by position, skipping empty buckets |
| ChainingIterator.CollectKeys | src/main/hashing/ChainingHashMap.java:185-230 | a full iteration yields the keys of all entries bucket by bucket, then `next` throws NoSuchElement |
| ChainingIterator.CollectKeysCoversMap | src/main/hashing/ChainingHashMap.java:185-230 | under the invariant, the iteration yields each bound key exactly once and yields `size` keys |

## Left out

- Java `int` overflow is not modelled; integers are unbounded. This covers `i*i` in the probes (OpenAddressingHashMap.java:77, 162, 240) and `capacity * 2` once the primes run out (both files).
- The `double` load factor is the integer test `4*count >= 3*capacity`. `TableMath.LoadReachedIsRatio` shows it is the same comparison over the reals. Floating-point rounding is not modelled.
- `hashCode` and `equals` of keys are a parameter `hash` and Dafny equality.
- `Entry.equals` is reference equality. On the open-addressing side, the tombstone is the `Tomb` slot. `remove(Entry)` compares slot positions: the slot `find` returned is the only one holding that object.
- On the chaining side, `LinkedList.remove(target)` deletes the position `find` returned. `Entry` does not override `equals`, so the match is by object identity, and the object `find` returned sits only at that position.
- `Put` replaces the found entry by one with the new value, rather than mutating the shared entry object. No other reference to it is visible.
- A `null` bucket is the empty sequence. `find`, `insert` and the iterator treat the two alike.
- State mutated before an exception is not modelled. A `Failure` carries no map, and a caller keeps the map it had. A nested-rehash failure would leave Java's fields half-updated.
- Iterating while the map is changed is not modelled. The cursor reads the map it is given.
- OpenAddressing.Rehash: when `handleCollision` on the new table fails during a rehash, a nested `rehash()` runs. It reads `oldCapacity` from the capacity the outer rehash already grew, while `data` is still the old, smaller array (`data = newHashTable` only runs at OpenAddressingHashMap.java:117). Its loop therefore runs up to the grown capacity over the old array and indexes past its end. The model reports this as an `IndexOutOfBounds` failure. No input producing it is exhibited, and the model does not prove it never happens. `OpenAddressingValid.RehashSucceeds` proves the weaker bound that the rehash succeeds when (live entries - 1)^2 is below the grown capacity.
- OpenAddressing.Insert: models the fallback of `handleCollision` (OpenAddressingHashMap.java:89-93) corrected, so the new key is counted once. The code as written counts it twice and is `OpenAddressingFindings.InsertAsWritten` (see "## Findings"). Success is proved only under the conditions of `InsertIntoRoom`, `CrowdPlaced`, `CrowdFallback` and `InsertIntoCrowd`, not for every valid map. This is because `Rehash` may report the nested-rehash failure above.
- OpenAddressingValid.InsertValid: the invariant it keeps (`size` equals the number of live entries) holds for the corrected `insert` only. On the fallback path the code as written breaks it (`OpenAddressingFindings.FallbackOvercounts`).

## Findings

| source | as written | input that shows it | evidently intended | confidence | as-written member | corrected member |
|---|---|---|---|---|---|---|
| hashMap-spring24/src/main/hashing/OpenAddressingHashMap.java:89-93 | when every probe lands on a full slot, `handleCollision` rehashes and calls the public `insert`. That call increments `size`, and the outer `insert` increments it again at line 59, so `size` counts the new key twice | identity hash; insert keys 0, 1, 4 into a new map (slots 0, 1, 4 of five), then key 5: its probes 0, 1, 4, 4, 1 all land on full slots, and the map ends with `size` 5 and four entries | grow the table and place the entry once, so `size` grows by one and still equals the number of live entries | not executed | OpenAddressingFindings.FallbackFromFreshMap | OpenAddressingFindings.CorrectedInsertCountsOnce |
