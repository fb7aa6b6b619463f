# LongMapImpl in Dafny

A model of `LongMapImpl<V>`. It is a hash table from Java `long` keys to
values, with separate chaining in an array of bucket slots. The model covers:

- the fields `table`, `capacity`, `loadFactor` and `size`;
- the bucket-index function `getKey`;
- `put` with its resize (`expandTable`, `rehashTable`);
- `get` and `findValueByEqualKey`;
- `remove`, `isEmpty`, `containsKey`, `containsValue`, `keys`, `values`,
  `size` and `clear`;
- both constructors.

Files:

- `long_hash.dfy` (module `LongHash`): Java `int` bounds, keys as 64-bit
  patterns, `Long.hashCode`, Java's truncating `%`, and `getKey`.
- `chains.dfy` (module `Chains`): entries, collision chains (head first,
  `[]` for a `null` slot), `findValueByEqualKey`, and the scan order of the
  four scans.
- `table_spec.dfy` (module `TableSpec`): every operation as a function on a
  value `Snapshot` of the fields (`Put`, `Expand`, `Get`, `Remove`, `Clear`,
  `Keys`, …), and the step lemmas the class proofs use.
- `long_map.dfy` (module `LongMap`): class `LongMapImpl`. Its `table` is an
  `array` updated in place. Each method's `ensures` ties the new state and
  the result to the `TableSpec` function or lemma named in its row below
  (`Put` to `Put`, `LinkEntry` to `Link`, `ExpandTable` and `RehashTable`
  to `Expand`, `PutHeads` to `RehashPrefix` and `DoubleAll`, …). `rehashTable`
  keeps its loops, including the re-read of `table.length` and the inner
  loop over `Arrays.asList(table)`.
- `table_properties.dfy` (module `TableProperties`): what each operation
  does to the table, as lemmas over `TableSpec`.
- `scenarios.dfy` (module `Scenarios`): concrete runs. Some are the ones
  the unit tests check; others exhibit the behaviour listed below.

Some intended behaviour of the map differs from what the code does:
updating a present key in place, `size` counting entries, `remove` taking out
one entry, and a resize relocating every entry. In each case the model
follows the code as written:

- `put` prepends a new entry even when the key is present.
- `size` counts the slots `put` found null, not the entries.
- `put` computes the slot index before a resize and writes there afterwards.
  It links the new entry in front of the old head, whose tail the rehash has
  cut.
- `rehashTable` keeps only the head of each chain.
- Once `table` is the new array, `rehashTable` goes on looping over it. When
  it meets a non-null slot there, it reruns the inner loop over the new
  array, and every non-null slot ends up holding its head twice.
- A resize over an all-null table doubles `capacity` but keeps the old array.
  Later indices can then fall past its end.
- `findValueByEqualKey` returns the value of the chain's last entry when no
  key matches.
- `remove` nulls the whole slot and never decrements `size`.

## Model

| member | source | states |
|---|---|---|
| LongHash.TruncRem | src/main/java/de/comparus/opensource/longmap/LongMapImpl.java:119 | Java's `int` remainder: it has the sign of the dividend, its magnitude is `abs(a) mod m`, and it lies strictly between `-m` and `m` |
| LongHash.GetKey | src/main/java/de/comparus/opensource/longmap/LongMapImpl.java:117-121 | the index is always in `0 .. capacity-1` |
| LongHash.GetKeyIsAbsMod | src/main/java/de/comparus/opensource/longmap/LongMapImpl.java:117-121 | `getKey` is `abs(Long.hashCode(key)) mod capacity` |
| LongHash.GetKeyAfterDoubling | src/main/java/de/comparus/opensource/longmap/LongMapImpl.java:125-128 | after capacity doubles, a key's index is its old index or the old index plus the old capacity, so the index `put` computed before a resize can be stale |
| TableProperties.SameHashSameSlot | src/main/java/de/comparus/opensource/longmap/LongMapImpl.java:117-121 | keys with equal `Long.hashCode` share a slot at every capacity |
| TableProperties.HashFolding | src/main/java/de/comparus/opensource/longmap/LongMapImpl.java:119 | `Long.hashCode` xors the high word into the low one: 2^32+1 and -1 both hash to 0, and 111 hashes to 111 |
| TableProperties.NegativeHashSlot | src/main/java/de/comparus/opensource/longmap/LongMapImpl.java:119-120 | a negative hash takes the truncating remainder and then its magnitude: key 0x8000_0005 goes to slot 11 of 16, where a flooring remainder would give 5 |
| Chains.FindValueByEqualKey | src/main/java/de/comparus/opensource/longmap/LongMapImpl.java:181-188 | if the chain has `key`, the result is the value of its first entry with `key`; otherwise it is the value of the chain's last entry |
| Chains.EntriesMembership | src/main/java/de/comparus/opensource/longmap/LongMapImpl.java:208-209 | the scan order visits an entry exactly when it sits in some slot's chain |
| Chains.EntriesLength | src/main/java/de/comparus/opensource/longmap/LongMapImpl.java:242-245 | the scan visits as many entries as the chains hold in total |
| TableSpec.Empty | src/main/java/de/comparus/opensource/longmap/LongMapImpl.java:104-108 | a new table has `capacity` null slots, `size` 0 and no entries |
| TableSpec.NullsHaveNoEntries | src/main/java/de/comparus/opensource/longmap/LongMapImpl.java:107 | a freshly allocated array has no entries to scan |
| TableSpec.RehashPrefix | src/main/java/de/comparus/opensource/longmap/LongMapImpl.java:146-159 | the first pass builds a table of the new capacity and counts at most one slot per old slot it has handled |
| TableSpec.FirstNonNull | src/main/java/de/comparus/opensource/longmap/LongMapImpl.java:148-154 | the slot where the loop first switches `table` to the new array: non-null, with only null slots before it |
| TableSpec.Expand | src/main/java/de/comparus/opensource/longmap/LongMapImpl.java:139-163 | a resize doubles `capacity`; the array keeps its length when every slot was null and has the new capacity otherwise |
| TableSpec.InsertWellPlaced | src/main/java/de/comparus/opensource/longmap/LongMapImpl.java:125-133 | a `put` without a resize keeps every entry in the slot `getKey` gives it |
| TableSpec.RehashPrefixWellPlaced | src/main/java/de/comparus/opensource/longmap/LongMapImpl.java:155-159 | the first pass places every head in its slot for the new capacity |
| TableSpec.DoubleAllWellPlaced | src/main/java/de/comparus/opensource/longmap/LongMapImpl.java:155-159 | the rescan keeps every entry in its slot |
| TableSpec.DoubleAllIdempotent | src/main/java/de/comparus/opensource/longmap/LongMapImpl.java:148-161 | rescanning an already rescanned array changes nothing, so later rescans are no-ops |
| TableSpec.NoResizeWhileRehashing | src/main/java/de/comparus/opensource/longmap/LongMapImpl.java:158 | with `loadFactor > 1/2`, the `put`s inside the rehash never reach the threshold, so they never resize again |
| TableSpec.FirstPassStep | src/main/java/de/comparus/opensource/longmap/LongMapImpl.java:155-159 | one turn of the first pass: a null slot is skipped; a non-null slot is cut to its head, which is `put` into its new slot |
| TableSpec.RescanStep | src/main/java/de/comparus/opensource/longmap/LongMapImpl.java:155-159 | one turn of the rescan: a non-null slot is cut to its head, and `put` links that head in front of itself with `size` unchanged |
| TableSpec.RescannedStep | src/main/java/de/comparus/opensource/longmap/LongMapImpl.java:148-154 | the rescan starts exactly at the first non-null slot of the new array past the switch point |
| TableSpec.PutOutOfRange | src/main/java/de/comparus/opensource/longmap/LongMapImpl.java:125-126 | an index past the end of the array fails before any change |
| TableSpec.PutWithResize | src/main/java/de/comparus/opensource/longmap/LongMapImpl.java:125-133 | with a resize due, the new entry goes in front of the cut old head, at the index computed before the resize, in the resized table |
| TableSpec.PutWithoutResize | src/main/java/de/comparus/opensource/longmap/LongMapImpl.java:125-133 | with no resize due, `put` links the new entry in front of its slot's chain |
| LongMap.LongMapImpl.constructor | src/main/java/de/comparus/opensource/longmap/LongMapImpl.java:104-108 | the new map's fields are `Empty(capacity)` and the given load factor |
| LongMap.LongMapImpl.Default | src/main/java/de/comparus/opensource/longmap/LongMapImpl.java:113-115 | the new map has 16 null slots and load factor 0.75 |
| LongMap.LongMapImpl.Put | src/main/java/de/comparus/opensource/longmap/LongMapImpl.java:124-136 | result and new fields are `TableSpec.Put` of the old fields; the array is the same one when no resize was due |
| LongMap.LongMapImpl.LinkEntry | src/main/java/de/comparus/opensource/longmap/LongMapImpl.java:129-133 | the slot becomes the new entry in front of the chain `put` read; `size` grows only if that chain was null |
| LongMap.LongMapImpl.ExpandTable | src/main/java/de/comparus/opensource/longmap/LongMapImpl.java:139-142 | the new fields are `Expand` of the old ones; `table` is the old array or a fresh one; the old array is left with its chains cut to their heads |
| LongMap.LongMapImpl.RehashTable | src/main/java/de/comparus/opensource/longmap/LongMapImpl.java:144-163 | the same as `ExpandTable`, for the loop over the array `table` currently is |
| LongMap.LongMapImpl.RehashingStarts | src/main/java/de/comparus/opensource/longmap/LongMapImpl.java:146-148 | after `size = 0` and `capacity *= 2`, the loop invariant holds at slot 0 |
| LongMap.LongMapImpl.RehashingEnds | src/main/java/de/comparus/opensource/longmap/LongMapImpl.java:148-163 | when the loop ends, the fields are `Expand` of the fields before the resize |
| LongMap.LongMapImpl.RehashSlot | src/main/java/de/comparus/opensource/longmap/LongMapImpl.java:149-161 | one turn of the outer loop keeps the loop invariant `RehashScan` |
| LongMap.LongMapImpl.PutHeads | src/main/java/de/comparus/opensource/longmap/LongMapImpl.java:155-160 | over the old array, the inner loop builds `RehashPrefix` and cuts the old chains to their heads; over the new array, it doubles every non-null slot |
| LongMap.LongMapImpl.PutHead | src/main/java/de/comparus/opensource/longmap/LongMapImpl.java:156-159 | one turn of the inner loop follows `FirstPassStep` or `RescanStep` |
| LongMap.LongMapImpl.Get | src/main/java/de/comparus/opensource/longmap/LongMapImpl.java:166-172 | the result is `TableSpec.Get` of the fields |
| LongMap.LongMapImpl.Remove | src/main/java/de/comparus/opensource/longmap/LongMapImpl.java:191-197 | result and new fields are `TableSpec.Remove` of the old fields |
| LongMap.LongMapImpl.IsEmpty | src/main/java/de/comparus/opensource/longmap/LongMapImpl.java:200-202 | true exactly when `size` is 0 |
| LongMap.LongMapImpl.ContainsKey | src/main/java/de/comparus/opensource/longmap/LongMapImpl.java:205-218 | true exactly when `size > 0` and some entry of some chain has the key |
| LongMap.LongMapImpl.ContainsValue | src/main/java/de/comparus/opensource/longmap/LongMapImpl.java:220-234 | true exactly when `size > 0` and some entry of some chain holds the value, null matching null |
| LongMap.LongMapImpl.Keys | src/main/java/de/comparus/opensource/longmap/LongMapImpl.java:237-250 | the keys of all entries in slot-then-chain order, or none when `size` is 0 |
| LongMap.LongMapImpl.Values | src/main/java/de/comparus/opensource/longmap/LongMapImpl.java:252-266 | the values of all entries in slot-then-chain order, or none when `size` is 0 |
| LongMap.LongMapImpl.Size | src/main/java/de/comparus/opensource/longmap/LongMapImpl.java:268-271 | returns the `size` field |
| LongMap.LongMapImpl.Clear | src/main/java/de/comparus/opensource/longmap/LongMapImpl.java:275-278 | every slot becomes null and `size` becomes 0; `capacity` and the array are kept |
| TableProperties.PutWithoutResizeEffect | src/main/java/de/comparus/opensource/longmap/LongMapImpl.java:124-136 | with no resize due, `put` returns the value and prepends the entry to its slot even if the key is present; no other slot changes; `size` grows exactly when the slot was null; `get(key)` then returns the value |
| TableProperties.PutWithResizeEffect | src/main/java/de/comparus/opensource/longmap/LongMapImpl.java:124-136 | with a resize due, capacity doubles; the slot at the old index becomes the new entry in front of the old head alone; every other slot is as the resize left it; `size` grows exactly when the old slot was null |
| TableProperties.PutWithResizeHidesEntry | src/main/java/de/comparus/opensource/longmap/LongMapImpl.java:125-133 | when the resize moves the key's slot, the new index is the old one plus the old capacity, and `get(key)` answers as if the `put` had not linked the entry |
| TableProperties.PutCapacity | src/main/java/de/comparus/opensource/longmap/LongMapImpl.java:127-147 | `capacity` changes only in an in-range `put` with a resize due, and then it doubles |
| TableProperties.PutOutOfBounds | src/main/java/de/comparus/opensource/longmap/LongMapImpl.java:125-126 | `put` fails exactly when the index is past the end of the array; it then changes nothing; it never fails while the array length equals `capacity` |
| TableProperties.OccupiedZero | src/main/java/de/comparus/opensource/longmap/LongMapImpl.java:129-131 | the count of non-null slots is 0 exactly when every slot is null |
| TableProperties.OccupiedUpdate | src/main/java/de/comparus/opensource/longmap/LongMapImpl.java:129-133 | replacing one slot changes the count of non-null slots only through that slot |
| TableProperties.RehashPrefixCounts | src/main/java/de/comparus/opensource/longmap/LongMapImpl.java:146-159 | after the first pass, `size` is the number of non-null slots in the new array |
| TableProperties.RehashPrefixKeeps | src/main/java/de/comparus/opensource/longmap/LongMapImpl.java:155-159 | every old head the first pass has handled is in its new slot |
| TableProperties.RehashPrefixOnlyHeads | src/main/java/de/comparus/opensource/longmap/LongMapImpl.java:157-158 | the first pass holds nothing but heads of old slots, so chain tails are lost |
| TableProperties.ExpandOnlyHeads | src/main/java/de/comparus/opensource/longmap/LongMapImpl.java:139-163 | a resize of a table with a non-null slot gives an array of the doubled capacity. Every entry sits in its `getKey` slot, every entry is an old head, and `size` is the positive number of non-null slots |
| TableProperties.ExpandKeepsOrDoubles | src/main/java/de/comparus/opensource/longmap/LongMapImpl.java:148-161 | either every old head is found in its new slot, or every non-null slot holds its head twice |
| TableProperties.ExpandAllNull | src/main/java/de/comparus/opensource/longmap/LongMapImpl.java:146-154 | resizing an all-null table doubles `capacity` and zeroes `size` but keeps the array, which is then shorter than `capacity` |
| TableProperties.GetCases | src/main/java/de/comparus/opensource/longmap/LongMapImpl.java:166-188 | `get` fails exactly when the index is out of range; it is null for a null slot; otherwise it is the first matching entry's value, or the last entry's value when no key matches |
| TableProperties.RemoveEffect | src/main/java/de/comparus/opensource/longmap/LongMapImpl.java:191-197 | `remove` returns what `get` did, and nulls the whole slot when in range: every key of that slot then gets null. No other slot, `size` or `capacity` changes |
| TableProperties.ClearEffect | src/main/java/de/comparus/opensource/longmap/LongMapImpl.java:275-278 | after `clear` every slot is null and the map is empty; scans report nothing and `get` finds nothing; `capacity` and the length are kept |
| TableProperties.ScansWhenSizeZero | src/main/java/de/comparus/opensource/longmap/LongMapImpl.java:205-266 | with `size` 0 all four scans report nothing, whatever the slots hold |
| TableProperties.ContainsKeyIffListed | src/main/java/de/comparus/opensource/longmap/LongMapImpl.java:205-250 | `containsKey(k)` holds exactly when `keys()` lists `k` |
| TableProperties.ContainsValueIffListed | src/main/java/de/comparus/opensource/longmap/LongMapImpl.java:220-266 | `containsValue(v)` holds exactly when `values()` lists `v` |
| TableProperties.KeysValuesAligned | src/main/java/de/comparus/opensource/longmap/LongMapImpl.java:237-266 | `keys()` and `values()` have equal length, with one item per entry; the t-th key and t-th value are one entry of the table |
| TableProperties.EmptyGuardSound | src/main/java/de/comparus/opensource/longmap/LongMapImpl.java:104-108 | a new table has `size` 0 only with every slot null |
| TableProperties.PutKeepsGuard | src/main/java/de/comparus/opensource/longmap/LongMapImpl.java:124-163 | `put` keeps `size == 0 ==> all slots null`, with or without a resize |
| TableProperties.RemoveKeepsGuard | src/main/java/de/comparus/opensource/longmap/LongMapImpl.java:191-197 | `remove` keeps `size == 0 ==> all slots null` |
| TableProperties.ClearKeepsGuard | src/main/java/de/comparus/opensource/longmap/LongMapImpl.java:275-278 | `clear` establishes `size == 0 ==> all slots null` |
| TableProperties.ScansSeeEverything | src/main/java/de/comparus/opensource/longmap/LongMapImpl.java:205-234 | where that guard holds, `containsKey` and `containsValue` answer for every entry of the table |
| Scenarios.OneKey | src/test/java/de/comparus/opensource/longmap/LongMapImplTest.java:25-181 | before a `put`, every query reports nothing. After `put(123, v)` into a default map: `get`, both `contains`, `keys`, `values` and `size` see the entry; `remove` returns `v`; `get` is null afterwards; `clear` empties the map |
| Scenarios.ThreeKeysThreeSlots | src/test/java/de/comparus/opensource/longmap/LongMapImplTest.java:158-169 | keys 111, 222 and 333 land in three slots; `size` reads 1, 2, 3; each `get` returns its value |
| Scenarios.PutFresh | src/main/java/de/comparus/opensource/longmap/LongMapImpl.java:129-131 | a `put` below the threshold into a null slot makes that slot the new entry alone and adds one to `size` |
| Scenarios.SharedSlot | src/main/java/de/comparus/opensource/longmap/LongMapImpl.java:181-197 | keys 1 and 17 share slot 1 of 16. `get(33)` returns key 1's value; `remove(1)` makes `get(17)` null |
| Scenarios.StaleIndex | src/main/java/de/comparus/opensource/longmap/LongMapImpl.java:124-136 | at capacity 1, `put(1)` resizes to 2 but links key 1 into slot 0; `get(1)` looks in slot 1 and returns null |
| Scenarios.Rescan | src/main/java/de/comparus/opensource/longmap/LongMapImpl.java:144-163 | at capacity 2 with two keys, the third `put` leaves key 1 listed twice by `keys()`, and key 2 listed but not found by `get` |
| Scenarios.RescanExpand | src/main/java/de/comparus/opensource/longmap/LongMapImpl.java:144-163 | the resize in that run fills two new slots, rescans them, and doubles both |
| Scenarios.RescanPut | src/main/java/de/comparus/opensource/longmap/LongMapImpl.java:124-136 | the third `put` of that run links key 2 at its stale index 0, in front of key 0 |
| Scenarios.CapacityOutgrowsTable | src/main/java/de/comparus/opensource/longmap/LongMapImpl.java:146-197 | after two `remove`s null both slots with `size` still 2, `put` doubles `capacity` but keeps the 2-slot array, and `get(3)` then fails |

## Left out

- Exceptions: a Java array access past the end is the result `IndexOutOfBounds`, raised before any field changes. No other exception is modelled.
- `LongMap.LongMapImpl.constructor`: requires `0 < capacity` and `1/2 < loadFactor <= 1`. The source accepts any values; a non-positive capacity fails at allocation or at the first `%`. The load factor is kept above 1/2 so that the `put`s inside `rehashTable` never resize again. At exactly 1/2 they can (capacity 1, two `put`s), and that nested resize is not modelled.
- `LongMap.LongMapImpl.Put`: requires `2 * capacity` to fit a Java `int` when a resize is due. The `int` overflow of `capacity` and `size` is not modelled.
- `loadFactor` is a `real`, not an IEEE `double`. `capacity * loadFactor` is computed exactly, so rounding at the threshold is not modelled. The default `0.75f` is exactly 3/4.
- Keys are 64-bit patterns (`bv64`). The model only hashes them, compares them and returns them, and none of this depends on the sign.
- Values are `Option<V>`, with `None` for Java `null`. `containsValue` compares by value equality; the identity test `==` before `equals` is not modelled separately.
- Entry objects and their `next` links are sequences, head first. Two slots never share an entry object, so the sequences carry the same information.
- The `(entries = table) != null` tests of the scans: `table` is never null in the model.
- Concurrent use, `EntryImpl.toString` and the `LongMap` interface declarations.
- The conversions at the end of `keys` and `values` (`ArrayList`, streams, `toArray`): the results are sequences.
- The 1000-key insertion test is not modelled as a scenario.
