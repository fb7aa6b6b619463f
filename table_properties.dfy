/** What LongMapImpl promises, and what it does not, stated over the
    value-level operations of module TableSpec that the class methods are
    proved to follow. */
module TableProperties {
  import opened LongHash
  import opened Chains
  import opened TableSpec

  // ---------------------------------------------------------------- getKey

  /** Keys whose hash codes agree share a slot, in a table of any capacity:
      `getKey` sees a key only through `Long.hashCode`. */
  lemma SameHashSameSlot(k1: Long, k2: Long, capacity: int)
    requires capacity > 0 && HashCode(k1) == HashCode(k2)
    ensures GetKey(k1, capacity) == GetKey(k2, capacity)
  {
  }

  /** `Long.hashCode` folds the high word onto the low one: 2^32 + 1 hashes
      like 0, and -1 (all bits set) hashes to 0 as well. */
  lemma HashFolding()
    ensures HashCode(0x1_0000_0001) == 0 && HashCode(0xFFFF_FFFF_FFFF_FFFF) == 0
    ensures HashCode(111) == 111
  {
  }

  /** The remainder of `getKey` truncates toward zero: the hash of
      0x8000_0005 is -2147483643, whose Java remainder by 16 is -11, so the
      slot is 11 (a flooring remainder would give 5). */
  lemma NegativeHashSlot()
    ensures HashCode(0x8000_0005) == -2147483643
    ensures GetKey(0x8000_0005, 16) == 11
  {
    assert 2147483643 % 16 == 11;
  }

  // ---------------------------------------------------------------- put

  /** A `put` that finds no resize due returns `value` and makes the new
      entry the head of slot `getKey(key)` in front of the old chain, even
      when `key` is already there; no other slot changes, `capacity` stays,
      `size` grows by one exactly when the slot was null, and an immediate
      `get(key)` returns `value`. */
  lemma PutWithoutResizeEffect<V>(s: Snapshot<V>, loadFactor: real, key: Long, value: Option<V>)
    requires Valid(s) && !ResizeDue(s, loadFactor) && GetKey(key, s.capacity) < |s.slots|
    ensures var (r, t) := Put(s, loadFactor, key, value);
            var i := GetKey(key, s.capacity);
            r == Value(value) && t.capacity == s.capacity && |t.slots| == |s.slots| &&
            t.slots[i] == [Entry(key, value)] + s.slots[i] &&
            (forall k :: 0 <= k < |s.slots| && k != i ==> t.slots[k] == s.slots[k]) &&
            t.size == (if s.slots[i] == [] then s.size + 1 else s.size) &&
            Get(t, key) == Value(value)
  {
    PutWithoutResize(s, loadFactor, key, value);
  }

  /** A `put` that finds a resize due still returns `value` and doubles
      `capacity`, but links the new entry at the index computed before the
      resize, in front of the old head alone (the rehash cut its tail),
      replacing what the rehash left in that slot; `size` is the rehashed
      count, plus one exactly when the slot read before the resize was null. */
  lemma PutWithResizeEffect<V>(s: Snapshot<V>, loadFactor: real, key: Long, value: Option<V>)
    requires Valid(s) && 2 * s.capacity <= MAX_INT && ResizeDue(s, loadFactor)
    requires GetKey(key, s.capacity) < |s.slots|
    ensures var (r, t) := Put(s, loadFactor, key, value);
            var i := GetKey(key, s.capacity);
            var x := Expand(s);
            r == Value(value) && t.capacity == 2 * s.capacity && |t.slots| == |x.slots| &&
            t.slots[i] == [Entry(key, value)] + HeadOnly(s.slots[i]) &&
            (forall k :: 0 <= k < |x.slots| && k != i ==> t.slots[k] == x.slots[k]) &&
            t.size == (if s.slots[i] == [] then x.size + 1 else x.size)
  {
    PutWithResize(s, loadFactor, key, value);
  }

  /** The stale index: when a resize moves `key`'s slot, the entry `put` has
      just linked is invisible to `get(key)`, which answers as the rehashed
      table alone would. */
  lemma PutWithResizeHidesEntry<V>(s: Snapshot<V>, loadFactor: real, key: Long, value: Option<V>)
    requires Valid(s) && 2 * s.capacity <= MAX_INT && ResizeDue(s, loadFactor)
    requires GetKey(key, s.capacity) < |s.slots|
    requires GetKey(key, 2 * s.capacity) != GetKey(key, s.capacity)
    ensures GetKey(key, 2 * s.capacity) == GetKey(key, s.capacity) + s.capacity
    ensures Get(Put(s, loadFactor, key, value).1, key) == Get(Expand(s), key)
  {
    GetKeyAfterDoubling(key, s.capacity);
    PutWithResize(s, loadFactor, key, value);
  }

  /** Only a `put` that is in range and finds a resize due changes
      `capacity`, and then it doubles it. */
  lemma PutCapacity<V>(s: Snapshot<V>, loadFactor: real, key: Long, value: Option<V>)
    requires Valid(s) && (ResizeDue(s, loadFactor) ==> 2 * s.capacity <= MAX_INT)
    ensures Put(s, loadFactor, key, value).1.capacity ==
              if ResizeDue(s, loadFactor) && GetKey(key, s.capacity) < |s.slots|
              then 2 * s.capacity else s.capacity
  {
    if GetKey(key, s.capacity) >= |s.slots| {
      PutOutOfRange(s, loadFactor, key, value);
    } else if ResizeDue(s, loadFactor) {
      PutWithResize(s, loadFactor, key, value);
    } else {
      PutWithoutResize(s, loadFactor, key, value);
    }
  }

  /** A `put` fails exactly when its index is past the end of the array,
      which can happen only once `capacity` has outgrown `table.length`, and
      a failed `put` changes nothing. */
  lemma PutOutOfBounds<V>(s: Snapshot<V>, loadFactor: real, key: Long, value: Option<V>)
    requires Valid(s) && (ResizeDue(s, loadFactor) ==> 2 * s.capacity <= MAX_INT)
    ensures Put(s, loadFactor, key, value).0 == IndexOutOfBounds <==> GetKey(key, s.capacity) >= |s.slots|
    ensures Put(s, loadFactor, key, value).0 == IndexOutOfBounds ==> Put(s, loadFactor, key, value).1 == s
    ensures |s.slots| == s.capacity ==> Put(s, loadFactor, key, value).0 != IndexOutOfBounds
  {
  }

  // ---------------------------------------------------------------- resize

  /** The number of non-null slots. */
  function Occupied<V>(slots: seq<Slot<V>>): nat {
    if slots == [] then 0
    else Occupied(slots[..|slots| - 1]) + (if slots[|slots| - 1] == [] then 0 else 1)
  }

  lemma {:induction false} OccupiedZero<V>(slots: seq<Slot<V>>)
    ensures Occupied(slots) == 0 <==> AllNull(slots)
  {
    if slots != [] {
      var n := |slots| - 1;
      OccupiedZero(slots[..n]);
      assert forall k :: 0 <= k < n ==> slots[..n][k] == slots[k];
    }
  }

  /** Replacing one slot changes the count only through that slot's nullness. */
  lemma {:induction false} OccupiedUpdate<V>(slots: seq<Slot<V>>, i: int, c: Slot<V>)
    requires 0 <= i < |slots|
    ensures Occupied(slots[i := c]) + (if slots[i] == [] then 0 else 1)
         == Occupied(slots) + (if c == [] then 0 else 1)
  {
    var n := |slots| - 1;
    if i < n {
      OccupiedUpdate(slots[..n], i, c);
      assert slots[i := c][..n] == slots[..n][i := c];
    } else {
      assert slots[i := c][..n] == slots[..n];
    }
  }

  /** Two tables whose slots are null at the same places count the same. */
  lemma {:induction false} OccupiedSameNulls<V>(a: seq<Slot<V>>, b: seq<Slot<V>>)
    requires |a| == |b| && forall k :: 0 <= k < |a| ==> (a[k] == []) == (b[k] == [])
    ensures Occupied(a) == Occupied(b)
  {
    if a != [] {
      var n := |a| - 1;
      OccupiedSameNulls(a[..n], b[..n]);
    }
  }

  /** The heads of the non-null slots among the first `n` of `from`, in order. */
  function HeadsUpTo<V>(from: seq<Slot<V>>, n: nat): seq<Entry<V>>
    requires n <= |from|
  {
    if n == 0 then [] else HeadsUpTo(from, n - 1) + (if from[n - 1] == [] then [] else [from[n - 1][0]])
  }

  /** The first pass of a rehash counts in `size` exactly its non-null slots. */
  lemma {:induction false} RehashPrefixCounts<V>(from: seq<Slot<V>>, n: nat, capacity: int)
    requires 0 < capacity && n <= |from|
    ensures RehashPrefix(from, n, capacity).size == Occupied(RehashPrefix(from, n, capacity).slots)
  {
    if n == 0 {
      OccupiedZero(RehashPrefix(from, n, capacity).slots);
    } else {
      RehashPrefixCounts(from, n - 1, capacity);
      var prev := RehashPrefix(from, n - 1, capacity);
      if from[n - 1] != [] {
        var h := from[n - 1][0];
        var i := GetKey(h.key, capacity);
        OccupiedUpdate(prev.slots, i, [h] + prev.slots[i]);
      }
    }
  }

  /** Every old head the first pass has handled sits in its new slot. */
  lemma {:induction false} RehashPrefixKeeps<V>(from: seq<Slot<V>>, n: nat, capacity: int)
    requires 0 < capacity && n <= |from|
    ensures forall m :: 0 <= m < n && from[m] != [] ==>
              from[m][0] in RehashPrefix(from, n, capacity).slots[GetKey(from[m][0].key, capacity)]
  {
    if n > 0 {
      RehashPrefixKeeps(from, n - 1, capacity);
      var prev := RehashPrefix(from, n - 1, capacity);
      var r := RehashPrefix(from, n, capacity);
      if from[n - 1] != [] {
        var h := from[n - 1][0];
        var i := GetKey(h.key, capacity);
        assert r.slots == prev.slots[i := [h] + prev.slots[i]];
        forall m | 0 <= m < n && from[m] != []
          ensures from[m][0] in r.slots[GetKey(from[m][0].key, capacity)]
        {
          if m < n - 1 && GetKey(from[m][0].key, capacity) == i {
            assert from[m][0] in prev.slots[i];
          }
        }
      }
    }
  }

  /** Every entry of `slots` is one of `hs`. */
  ghost predicate AllIn<V>(slots: seq<Slot<V>>, hs: seq<Entry<V>>) {
    forall k, j :: 0 <= k < |slots| && 0 <= j < |slots[k]| ==> slots[k][j] in hs
  }

  lemma InsertAllIn<V>(s: Snapshot<V>, h: Entry<V>, hs: seq<Entry<V>>)
    requires 0 < s.capacity && GetKey(h.key, s.capacity) < |s.slots| && AllIn(s.slots, hs)
    ensures AllIn(Insert(s, h).slots, hs + [h])
  {
    var i := GetKey(h.key, s.capacity);
    var t := Insert(s, h).slots;
    assert t == s.slots[i := [h] + s.slots[i]];
    forall k, j | 0 <= k < |t| && 0 <= j < |t[k]|
      ensures t[k][j] in hs + [h]
    {
      if k == i && j > 0 {
        assert t[k][j] == s.slots[k][j - 1];
      } else if k != i {
        assert t[k][j] == s.slots[k][j];
      }
    }
  }

  /** The first pass holds nothing but heads of old slots. */
  lemma {:induction false} RehashPrefixOnlyHeads<V>(from: seq<Slot<V>>, n: nat, capacity: int)
    requires 0 < capacity && n <= |from|
    ensures AllIn(RehashPrefix(from, n, capacity).slots, HeadsUpTo(from, n))
  {
    if n > 0 {
      RehashPrefixOnlyHeads(from, n - 1, capacity);
      if from[n - 1] != [] {
        InsertAllIn(RehashPrefix(from, n - 1, capacity), from[n - 1][0], HeadsUpTo(from, n - 1));
      }
    }
  }

  /** Doubling slots keeps their nullness and brings in no new entry. */
  lemma DoubleAllKeeps<V>(slots: seq<Slot<V>>, hs: seq<Entry<V>>)
    requires AllIn(slots, hs)
    ensures AllIn(DoubleAll(slots), hs) && Occupied(DoubleAll(slots)) == Occupied(slots)
  {
    var d := DoubleAll(slots);
    OccupiedSameNulls(slots, d);
    forall k, j | 0 <= k < |d| && 0 <= j < |d[k]|
      ensures d[k][j] in hs
    {
      assert d[k][j] == slots[k][0];
    }
  }

  /** The first pass over a table with a non-null slot counts at least one slot. */
  lemma RehashPrefixNonEmpty<V>(s: Snapshot<V>)
    requires Valid(s) && 2 * s.capacity <= MAX_INT && !AllNull(s.slots)
    ensures var r := RehashPrefix(s.slots, |s.slots|, 2 * s.capacity);
            r.size == Occupied(r.slots) > 0
  {
    var c := 2 * s.capacity;
    var r := RehashPrefix(s.slots, |s.slots|, c);
    RehashPrefixCounts(s.slots, |s.slots|, c);
    RehashPrefixKeeps(s.slots, |s.slots|, c);
    var f := FirstNonNull(s.slots);
    assert s.slots[f][0] in r.slots[GetKey(s.slots[f][0].key, c)];
    OccupiedZero(r.slots);
  }

  /** What a resize of a table with some non-null slot leaves: a fresh array
      of the doubled capacity, every entry in the slot `getKey` gives it there,
      every entry the head of some old slot (chain tails are gone), and `size`
      the number of non-null slots, at least one. */
  lemma ExpandOnlyHeads<V>(s: Snapshot<V>)
    requires Valid(s) && 2 * s.capacity <= MAX_INT && !AllNull(s.slots)
    ensures var x := Expand(s);
            x.capacity == 2 * s.capacity && |x.slots| == x.capacity &&
            WellPlaced(x.slots, x.capacity) &&
            AllIn(x.slots, HeadsUpTo(s.slots, |s.slots|)) &&
            x.size == Occupied(x.slots) > 0
  {
    var c := 2 * s.capacity;
    var r := RehashPrefix(s.slots, |s.slots|, c);
    RehashPrefixNonEmpty(s);
    RehashPrefixOnlyHeads(s.slots, |s.slots|, c);
    RehashPrefixWellPlaced(s.slots, |s.slots|, c);
    DoubleAllWellPlaced(r.slots, c);
    DoubleAllKeeps(r.slots, HeadsUpTo(s.slots, |s.slots|));
  }

  /** A resize either keeps every old head in its new slot or, when the loop
      rescans the new array, leaves every non-null slot holding its head twice. */
  lemma ExpandKeepsOrDoubles<V>(s: Snapshot<V>)
    requires Valid(s) && 2 * s.capacity <= MAX_INT && !AllNull(s.slots)
    ensures var x := Expand(s);
            (forall m :: 0 <= m < |s.slots| && s.slots[m] != [] ==>
               s.slots[m][0] in x.slots[GetKey(s.slots[m][0].key, x.capacity)]) ||
            (forall k :: 0 <= k < |x.slots| && x.slots[k] != [] ==>
               x.slots[k] == [x.slots[k][0], x.slots[k][0]])
  {
    RehashPrefixKeeps(s.slots, |s.slots|, 2 * s.capacity);
  }

  /** A resize over an all-null table doubles `capacity` but keeps the array:
      from then on `capacity` exceeds `table.length`. */
  lemma ExpandAllNull<V>(s: Snapshot<V>)
    requires Valid(s) && 2 * s.capacity <= MAX_INT && AllNull(s.slots)
    ensures Expand(s) == Snapshot(s.slots, 2 * s.capacity, 0)
    ensures |Expand(s).slots| < Expand(s).capacity
  {
  }

  // ---------------------------------------------------------------- get

  /** `get` fails exactly when the index is past the end of the array; it is
      null for a null slot; otherwise it is the value of the first entry of
      the chain with `key`, or, when there is none, of the chain's last entry. */
  lemma GetCases<V>(s: Snapshot<V>, key: Long)
    requires s.capacity > 0
    ensures var i := GetKey(key, s.capacity);
            (Get(s, key) == IndexOutOfBounds <==> i >= |s.slots|) &&
            (i < |s.slots| && s.slots[i] == [] ==> Get(s, key) == Value(None)) &&
            (i < |s.slots| && HasKey(s.slots[i], key) ==>
               exists j :: IsFirstMatch(s.slots[i], key, j) && Get(s, key) == Value(s.slots[i][j].value)) &&
            (i < |s.slots| && s.slots[i] != [] && !HasKey(s.slots[i], key) ==>
               Get(s, key) == Value(s.slots[i][|s.slots[i]| - 1].value))
  {
  }

  // ---------------------------------------------------------------- remove

  /** `remove(key)` returns what `get(key)` returned just before. When the
      index is in range it nulls that whole slot, so `get` of `key` and of
      every other key of the same slot is then null; no other slot changes,
      and neither `size` nor `capacity` does. */
  lemma RemoveEffect<V>(s: Snapshot<V>, key: Long)
    requires Valid(s)
    ensures var (r, t) := Remove(s, key);
            var i := GetKey(key, s.capacity);
            r == Get(s, key) && t.capacity == s.capacity && t.size == s.size &&
            |t.slots| == |s.slots| &&
            (i >= |s.slots| ==> t == s) &&
            (i < |s.slots| ==>
               t.slots[i] == [] && Get(t, key) == Value(None) &&
               (forall k :: 0 <= k < |s.slots| && k != i ==> t.slots[k] == s.slots[k]) &&
               (forall other: Long :: GetKey(other, s.capacity) == i ==> Get(t, other) == Value(None)))
  {
  }

  // ---------------------------------------------------------------- clear

  /** `clear` nulls every slot and zeroes `size`, keeping `capacity` and the
      array's length; the table is then empty, `get` finds nothing wherever
      it does not fail, and the scans report nothing. */
  lemma ClearEffect<V>(s: Snapshot<V>)
    requires Valid(s)
    ensures var t := Clear(s);
            AllNull(t.slots) && |t.slots| == |s.slots| && t.capacity == s.capacity &&
            IsEmpty(t) && Keys(t) == [] && Values(t) == [] &&
            (forall key :: !ContainsKey(t, key)) && (forall v :: !ContainsValue(t, v)) &&
            (forall key :: GetKey(key, t.capacity) < |t.slots| ==> Get(t, key) == Value(None))
  {
  }

  // ---------------------------------------------------------------- scans

  /** With `size` 0 the scans skip the table, whatever its slots hold. */
  lemma ScansWhenSizeZero<V>(s: Snapshot<V>)
    requires s.size == 0
    ensures Keys(s) == [] && Values(s) == []
    ensures forall key :: !ContainsKey(s, key)
    ensures forall v :: !ContainsValue(s, v)
  {
  }

  /** `containsKey(key)` holds exactly when `keys()` lists `key`. */
  lemma ContainsKeyIffListed<V>(s: Snapshot<V>, key: Long)
    ensures ContainsKey(s, key) <==> key in Keys(s)
  {
    if s.size > 0 {
      var es := Entries(s.slots);
      if ContainsKey(s, key) {
        var k, j :| 0 <= k < |s.slots| && 0 <= j < |s.slots[k]| && s.slots[k][j].key == key;
        EntriesMembership(s.slots, s.slots[k][j]);
        var t :| 0 <= t < |es| && es[t] == s.slots[k][j];
        assert KeysOf(es)[t] == key;
      }
      if key in Keys(s) {
        var t :| 0 <= t < |es| && KeysOf(es)[t] == key;
        EntriesMembership(s.slots, es[t]);
        var k :| 0 <= k < |s.slots| && es[t] in s.slots[k];
        var j :| 0 <= j < |s.slots[k]| && s.slots[k][j] == es[t];
      }
    }
  }

  /** `containsValue(v)` holds exactly when `values()` lists `v`. */
  lemma ContainsValueIffListed<V>(s: Snapshot<V>, v: Option<V>)
    ensures ContainsValue(s, v) <==> v in Values(s)
  {
    if s.size > 0 {
      var es := Entries(s.slots);
      if ContainsValue(s, v) {
        var k, j :| 0 <= k < |s.slots| && 0 <= j < |s.slots[k]| && s.slots[k][j].value == v;
        EntriesMembership(s.slots, s.slots[k][j]);
        var t :| 0 <= t < |es| && es[t] == s.slots[k][j];
        assert ValuesOf(es)[t] == v;
      }
      if v in Values(s) {
        var t :| 0 <= t < |es| && ValuesOf(es)[t] == v;
        EntriesMembership(s.slots, es[t]);
        var k :| 0 <= k < |s.slots| && es[t] in s.slots[k];
        var j :| 0 <= j < |s.slots[k]| && s.slots[k][j] == es[t];
      }
    }
  }

  /** `keys()` and `values()` walk the same entries: equally long, one item
      per entry of every chain, and the `t`-th key and `t`-th value are those
      of one entry, which sits in some slot. */
  lemma KeysValuesAligned<V>(s: Snapshot<V>)
    ensures |Keys(s)| == |Values(s)|
    ensures s.size > 0 ==> |Keys(s)| == ChainLengths(s.slots)
    ensures forall t :: 0 <= t < |Keys(s)| ==>
              exists k :: 0 <= k < |s.slots| && Entry(Keys(s)[t], Values(s)[t]) in s.slots[k]
  {
    if s.size > 0 {
      var es := Entries(s.slots);
      EntriesLength(s.slots);
      forall t | 0 <= t < |Keys(s)|
        ensures exists k :: 0 <= k < |s.slots| && Entry(Keys(s)[t], Values(s)[t]) in s.slots[k]
      {
        assert Entry(Keys(s)[t], Values(s)[t]) == es[t];
        EntriesMembership(s.slots, es[t]);
      }
    }
  }

  // ---------------------------------------------------------------- the size guard of the scans

  /** The scans skip the table when `size` is 0. That short-cut loses nothing
      as long as `size` is 0 only while every slot is null. */
  predicate SizeGuardSound<V>(s: Snapshot<V>) {
    s.size == 0 ==> AllNull(s.slots)
  }

  lemma EmptyGuardSound<V>(capacity: int)
    requires 0 < capacity <= MAX_INT
    ensures SizeGuardSound(Empty<V>(capacity))
  {
  }

  /** `put` keeps the guard sound, with or without a resize: a `put` into a
      non-null slot finds `size` already positive, and a resize of a table
      with a non-null slot counts at least one slot. */
  lemma PutKeepsGuard<V>(s: Snapshot<V>, loadFactor: real, key: Long, value: Option<V>)
    requires Valid(s) && (ResizeDue(s, loadFactor) ==> 2 * s.capacity <= MAX_INT)
    requires SizeGuardSound(s)
    ensures SizeGuardSound(Put(s, loadFactor, key, value).1)
  {
    var i := GetKey(key, s.capacity);
    if i >= |s.slots| {
      PutOutOfRange(s, loadFactor, key, value);
    } else if ResizeDue(s, loadFactor) {
      PutWithResize(s, loadFactor, key, value);
      if !AllNull(s.slots) {
        ExpandOnlyHeads(s);
      }
    } else {
      PutWithoutResize(s, loadFactor, key, value);
    }
  }

  /** `remove` keeps the guard sound: it only nulls a slot and keeps `size`. */
  lemma RemoveKeepsGuard<V>(s: Snapshot<V>, key: Long)
    requires Valid(s) && SizeGuardSound(s)
    ensures SizeGuardSound(Remove(s, key).1)
  {
  }

  lemma ClearKeepsGuard<V>(s: Snapshot<V>)
    ensures SizeGuardSound(Clear(s))
  {
  }

  /** Where the guard is sound, `containsKey` and `containsValue` answer for
      every entry of the table, `size` or not. */
  lemma ScansSeeEverything<V>(s: Snapshot<V>, key: Long, v: Option<V>)
    requires SizeGuardSound(s) && 0 <= s.size
    ensures ContainsKey(s, key) <==>
              exists k, j :: 0 <= k < |s.slots| && 0 <= j < |s.slots[k]| && s.slots[k][j].key == key
    ensures ContainsValue(s, v) <==>
              exists k, j :: 0 <= k < |s.slots| && 0 <= j < |s.slots[k]| && s.slots[k][j].value == v
  {
  }
}
