/** The state transitions of LongMapImpl as functions on values
    (LongMapImpl.java:117-278), written as the code behaves, and the lemmas
    that say what each operation does to the table.

    The class in long_map.dfy is proved to follow these functions step by
    step. Behaviour worth knowing when reading the lemmas:
    - `size` counts the slots that `put` found empty, not the entries;
    - `put` prepends even when the key is already present;
    - `put` computes the slot index before a resize and writes to that
      (possibly stale) index afterwards;
    - the resize keeps only the head of each chain;
    - `remove` empties the whole slot and leaves `size` alone. */
module TableSpec {
  import opened LongHash
  import opened Chains

  /** What `table`, `capacity` and `size` hold; `loadFactor` never changes. */
  datatype Snapshot<V> = Snapshot(slots: seq<Slot<V>>, capacity: int, size: int)

  /** A call either returns a value or fails with
      `ArrayIndexOutOfBoundsException`, which happens when `capacity` has
      outgrown `table.length` (see `Expand`). */
  datatype Outcome<T> = Value(value: T) | IndexOutOfBounds

  /** The facts every reachable state keeps. They do not include
      `|slots| == capacity`: the code breaks that one. */
  predicate Valid<V>(s: Snapshot<V>) {
    0 < |s.slots| <= s.capacity <= MAX_INT && 0 <= s.size
  }

  predicate ValidLoadFactor(loadFactor: real) {
    1.0 / 2.0 < loadFactor <= 1.0
  }

  function Nulls<V>(n: nat): seq<Slot<V>>
  {
    seq(n, _ => [])
  }

  /** A freshly constructed table. */
  function Empty<V>(capacity: int): (s: Snapshot<V>)
    requires 0 < capacity <= MAX_INT
    ensures Valid(s) && |s.slots| == s.capacity == capacity && s.size == 0
    ensures Entries(s.slots) == []
  {
    var s := Snapshot(Nulls(capacity), capacity, 0);
    NullsHaveNoEntries<V>(capacity);
    s
  }

  lemma {:induction false} NullsHaveNoEntries<V>(n: nat)
    ensures Entries(Nulls<V>(n)) == []
  {
    if n > 0 {
      assert Nulls<V>(n)[..n - 1] == Nulls<V>(n - 1);
      NullsHaveNoEntries<V>(n - 1);
    }
  }

  /** What every method of LongMapImpl keeps: a non-empty table no longer
      than `capacity`, which fits a Java `int`, and a load factor in range.
      It is `Valid` stated over the loose fields plus the load factor, which
      `Snapshot` does not hold; the class states it over `table.Length` so
      that its invariant does not read the array's contents. */
  predicate ValidFields(length: int, capacity: int, size: int, loadFactor: real) {
    0 < length <= capacity <= MAX_INT && 0 <= size && ValidLoadFactor(loadFactor)
  }

  /** The resize test of `put` (L127): `size >= capacity * loadFactor`. */
  predicate AtThreshold(size: int, capacity: int, loadFactor: real) {
    size as real >= capacity as real * loadFactor
  }

  predicate ResizeDue<V>(s: Snapshot<V>, loadFactor: real) {
    AtThreshold(s.size, s.capacity, loadFactor)
  }

  // ---------------------------------------------------------------- put

  /** The write of `put` (L129-133): slot `i` becomes a new entry linked in
      front of `chain`, the slot as `put` read it; `size` grows when `chain`
      was null. */
  function Link<V>(s: Snapshot<V>, i: int, e: Entry<V>, chain: Slot<V>): Snapshot<V>
    requires 0 <= i < |s.slots|
  {
    s.(slots := s.slots[i := [e] + chain],
       size := if chain == [] then s.size + 1 else s.size)
  }

  /** A `put` that does not resize (L125-126, L129-133): link a new entry in
      front of the chain of its slot. */
  function Insert<V>(s: Snapshot<V>, e: Entry<V>): Snapshot<V>
    requires 0 < s.capacity && GetKey(e.key, s.capacity) < |s.slots|
  {
    var i := GetKey(e.key, s.capacity);
    Link(s, i, e, s.slots[i])
  }

  /** The state after the first pass of `rehashTable` has handled old slots
      `0 .. n-1`: the head of every non-null one is `put` into a table of
      `capacity` empty slots (L154-159); `size` was reset to 0 (L146). */
  function RehashPrefix<V>(from: seq<Slot<V>>, n: nat, capacity: int): (r: Snapshot<V>)
    requires 0 < capacity && n <= |from|
    ensures |r.slots| == capacity && r.capacity == capacity
    ensures 0 <= r.size <= n
  {
    if n == 0 then Snapshot(Nulls(capacity), capacity, 0)
    else
      var prev := RehashPrefix(from, n - 1, capacity);
      if from[n - 1] == [] then prev else Insert(prev, from[n - 1][0])
  }

  predicate AllNull<V>(slots: seq<Slot<V>>) {
    forall k :: 0 <= k < |slots| ==> slots[k] == []
  }

  /** Index of the first non-null slot: where the loop of `rehashTable` switches
      to the new array. */
  function FirstNonNull<V>(slots: seq<Slot<V>>): (i: nat)
    requires !AllNull(slots)
    ensures i < |slots| && slots[i] != []
    ensures forall k :: 0 <= k < i ==> slots[k] == []
  {
    if slots[0] != [] then 0
    else
      assert !AllNull(slots[1..]) by {
        var k :| 0 <= k < |slots| && slots[k] != [];
        assert slots[1..][k - 1] == slots[k];
      }
      1 + FirstNonNull(slots[1..])
  }

  /** After the first pass, the loop of `rehashTable` keeps running over the
      NEW array (L148 re-reads `table.length`); if it meets a non-null slot
      past `from`, it reruns the inner loop over the new array. */
  predicate Rescanned<V>(slots: seq<Slot<V>>, from: nat) {
    exists j :: from < j < |slots| && slots[j] != []
  }

  /** A rerun of the inner loop on a slot: `next = null` on its head, then
      `put` the head again at the same index, so the slot holds the head twice. */
  function Doubled<V>(chain: Slot<V>): Slot<V> {
    if chain == [] then [] else [chain[0], chain[0]]
  }

  function DoubleAll<V>(slots: seq<Slot<V>>): seq<Slot<V>>
  {
    seq(|slots|, k requires 0 <= k < |slots| => Doubled(slots[k]))
  }

  /** `expandTable` and `rehashTable` (L139-163). `capacity` always doubles.
      When every slot is null the loop never replaces `table`, so the array
      keeps its old length. Otherwise the new array holds the first pass's
      result, with every non-null slot doubled if the loop rescanned it. */
  function Expand<V>(s: Snapshot<V>): (r: Snapshot<V>)
    requires Valid(s) && 2 * s.capacity <= MAX_INT
    ensures r.capacity == 2 * s.capacity
    ensures |r.slots| == if AllNull(s.slots) then |s.slots| else r.capacity
  {
    var capacity := 2 * s.capacity;
    if AllNull(s.slots) then Snapshot(s.slots, capacity, 0)
    else
      var r := RehashPrefix(s.slots, |s.slots|, capacity);
      if Rescanned(r.slots, FirstNonNull(s.slots)) then r.(slots := DoubleAll(r.slots)) else r
  }

  /** `put` (L124-136). The index is computed against the capacity before any
      resize; the slot is read before the resize too (L126). After a resize
      that slot object has lost its tail (L157), and the new entry, linked in
      front of it, overwrites whatever the rehash put at that index. */
  function Put<V>(s: Snapshot<V>, loadFactor: real, key: Long, value: Option<V>)
    : (Outcome<Option<V>>, Snapshot<V>)
    requires Valid(s) && (ResizeDue(s, loadFactor) ==> 2 * s.capacity <= MAX_INT)
  {
    var i := GetKey(key, s.capacity);
    if i >= |s.slots| then (IndexOutOfBounds, s)
    else
      var e := Entry(key, value);
      if ResizeDue(s, loadFactor) then (Value(value), Link(Expand(s), i, e, HeadOnly(s.slots[i])))
      else (Value(value), Insert(s, e))
  }

  /** Every entry sits in the slot that `getKey` gives for its key. */
  predicate WellPlaced<V>(slots: seq<Slot<V>>, capacity: int)
    requires capacity > 0
  {
    forall k, j :: 0 <= k < |slots| && 0 <= j < |slots[k]| ==> GetKey(slots[k][j].key, capacity) == k
  }

  lemma InsertWellPlaced<V>(s: Snapshot<V>, e: Entry<V>)
    requires 0 < s.capacity && GetKey(e.key, s.capacity) < |s.slots|
    requires WellPlaced(s.slots, s.capacity)
    ensures WellPlaced(Insert(s, e).slots, s.capacity)
  {
    var t := Insert(s, e);
    var i := GetKey(e.key, s.capacity);
    forall k, j | 0 <= k < |t.slots| && 0 <= j < |t.slots[k]|
      ensures GetKey(t.slots[k][j].key, s.capacity) == k
    {
      if k == i && j > 0 {
        assert t.slots[k][j] == s.slots[k][j - 1];
      }
    }
  }

  lemma {:induction false} RehashPrefixWellPlaced<V>(from: seq<Slot<V>>, n: nat, capacity: int)
    requires 0 < capacity && n <= |from|
    ensures WellPlaced(RehashPrefix(from, n, capacity).slots, capacity)
  {
    if n > 0 {
      RehashPrefixWellPlaced(from, n - 1, capacity);
      if from[n - 1] != [] {
        InsertWellPlaced(RehashPrefix(from, n - 1, capacity), from[n - 1][0]);
      }
    }
  }

  lemma DoubleAllWellPlaced<V>(slots: seq<Slot<V>>, capacity: int)
    requires capacity > 0 && WellPlaced(slots, capacity)
    ensures WellPlaced(DoubleAll(slots), capacity)
  {
    forall k, j | 0 <= k < |slots| && 0 <= j < |DoubleAll(slots)[k]|
      ensures GetKey(DoubleAll(slots)[k][j].key, capacity) == k
    {
      assert DoubleAll(slots)[k][j] == slots[k][0];
    }
  }

  lemma DoubleAllIdempotent<V>(slots: seq<Slot<V>>)
    ensures DoubleAll(DoubleAll(slots)) == DoubleAll(slots)
  {
  }

  /** The rehash loop's `put`s never trigger another resize: at most one entry
      per old slot is counted, and `2 * capacity * loadFactor` exceeds the old
      capacity when `loadFactor > 1/2`. */
  lemma NoResizeWhileRehashing<V>(s: Snapshot<V>, loadFactor: real)
    requires 0 <= 2 * s.size <= s.capacity && 0 < s.capacity && ValidLoadFactor(loadFactor)
    ensures !ResizeDue(s, loadFactor)
  {
    var c := s.capacity as real;
    var d := 2.0 * loadFactor - 1.0;
    assert 2.0 * c * loadFactor == c + c * d;
    PositiveProduct(c, d);
    assert 2.0 * (s.size as real) <= c;
  }

  lemma PositiveProduct(a: real, b: real)
    requires a > 0.0 && b > 0.0
    ensures a * b > 0.0
  {
  }

  /** What the loop of `rehashTable` keeps, `i` slots in, over the old array
      (`from` before the loop, `oldSlots` now) and the new one (`newSlots`),
      with `r` the table the first pass builds. Until `table` switches to the
      new array, at the first non-null slot of `from`, nothing has changed;
      from there on the new array holds `r`, with every slot doubled once a
      non-null slot past `first` has been reached again. */
  ghost predicate RehashScan<V>(i: int, switched: bool, oldSlots: seq<Slot<V>>, newSlots: seq<Slot<V>>,
                          size: int, capacity: int, from: seq<Slot<V>>, r: Snapshot<V>, first: nat)
  {
    0 < |from| && 2 * |from| <= capacity <= MAX_INT && r == RehashPrefix(from, |from|, capacity) &&
    i <= capacity &&
    (!switched ==>
       i <= |from| && (forall k :: 0 <= k < i ==> from[k] == []) &&
       oldSlots == from && size == 0 && newSlots == Nulls(capacity)) &&
    (switched ==>
       !AllNull(from) && first == FirstNonNull(from) && first < i &&
       oldSlots == Heads(from) && size == r.size &&
       newSlots == (if Rescanned(r.slots[..i], first) then DoubleAll(r.slots) else r.slots))
  }

  /** The first pass of `rehashTable`'s inner loop, `j` slots into the old
      array `from`: the table `s` is the one built from the heads of
      `from[..j]`, and those slots of the old array (`list`) are cut to their
      heads. */
  ghost predicate FirstPassAt<V>(j: int, list: seq<Slot<V>>, s: Snapshot<V>, from: seq<Slot<V>>)
  {
    0 <= j <= |from| == |list| && 0 < s.capacity && 2 * |from| <= s.capacity &&
    s == RehashPrefix(from, j, s.capacity) &&
    (forall k :: 0 <= k < j ==> list[k] == HeadOnly(from[k])) &&
    (forall k :: j <= k < |from| ==> list[k] == from[k])
  }

  /** One slot of the first pass: a null slot is skipped; a non-null one is
      cut to its head, which is `put` without a resize into its own slot. */
  lemma FirstPassStep<V>(j: int, list: seq<Slot<V>>, s: Snapshot<V>, from: seq<Slot<V>>)
    requires FirstPassAt(j, list, s, from) && j < |from|
    ensures list[j] == from[j] && 0 <= 2 * s.size <= s.capacity && |s.slots| == s.capacity
    ensures list[j] == [] ==> FirstPassAt(j + 1, list, s, from)
    ensures list[j] != [] ==>
              FirstPassAt(j + 1, list[j := [list[j][0]]], Insert(s, list[j][0]), from)
  {
    if list[j] != [] {
      var list' := list[j := [list[j][0]]];
      assert forall k :: 0 <= k < j + 1 ==> list'[k] == HeadOnly(from[k]);
    }
  }

  /** The rescan of the new array `x` by the inner loop, `j` slots in: the
      slots before `j` are doubled, the others untouched. */
  ghost predicate RescanAt<V>(j: int, slots: seq<Slot<V>>, x: seq<Slot<V>>)
  {
    0 <= j <= |x| == |slots| &&
    (forall k :: 0 <= k < j ==> slots[k] == Doubled(x[k])) &&
    (forall k :: j <= k < |x| ==> slots[k] == x[k])
  }

  /** One slot of the rescan: a non-null slot is cut to its head, and `put`
      links that head in front of itself, in the same slot, without changing
      `size`. */
  lemma RescanStep<V>(j: int, slots: seq<Slot<V>>, x: seq<Slot<V>>, capacity: int, size: int)
    requires RescanAt(j, slots, x) && j < |x| && 0 < capacity && WellPlaced(x, capacity)
    ensures slots[j] == x[j]
    ensures slots[j] == [] ==> RescanAt(j + 1, slots, x)
    ensures slots[j] != [] ==>
              var h := slots[j][0];
              var s := Snapshot(slots[j := [h]], capacity, size);
              GetKey(h.key, capacity) == j &&
              Insert(s, h).size == size && RescanAt(j + 1, Insert(s, h).slots, x)
  {
    if slots[j] != [] {
      var h := slots[j][0];
      assert GetKey(x[j][0].key, capacity) == j;
      assert h == x[j][0] && GetKey(h.key, capacity) == j;
      var s := Snapshot(slots[j := [h]], capacity, size);
      assert Insert(s, h) == Link(s, j, h, [h]);
      assert [h] + [h] == [h, h];
    }
  }

  /** A `put` whose index is out of range changes nothing. */
  lemma PutOutOfRange<V>(s: Snapshot<V>, loadFactor: real, key: Long, value: Option<V>)
    requires Valid(s) && (ResizeDue(s, loadFactor) ==> 2 * s.capacity <= MAX_INT)
    requires GetKey(key, s.capacity) >= |s.slots|
    ensures Put(s, loadFactor, key, value) == (IndexOutOfBounds, s)
  {
  }

  /** A `put` that finds a resize due links the new entry, in front of the old
      head alone, into the slot of the index computed before the resize. */
  lemma PutWithResize<V>(s: Snapshot<V>, loadFactor: real, key: Long, value: Option<V>)
    requires Valid(s) && 2 * s.capacity <= MAX_INT && ResizeDue(s, loadFactor)
    requires GetKey(key, s.capacity) < |s.slots|
    ensures GetKey(key, s.capacity) < |Expand(s).slots|
    ensures Put(s, loadFactor, key, value) ==
              (Value(value), Link(Expand(s), GetKey(key, s.capacity), Entry(key, value),
                                  HeadOnly(s.slots[GetKey(key, s.capacity)])))
  {
  }

  /** A `put` that is in range and finds no resize due is `Insert`. */
  lemma PutWithoutResize<V>(s: Snapshot<V>, loadFactor: real, key: Long, value: Option<V>)
    requires Valid(s) && GetKey(key, s.capacity) < |s.slots| && !ResizeDue(s, loadFactor)
    ensures Put(s, loadFactor, key, value) == (Value(value), Insert(s, Entry(key, value)))
  {
  }

  lemma RescannedStep<V>(slots: seq<Slot<V>>, from: nat, i: nat)
    requires i < |slots|
    ensures Rescanned(slots[..i + 1], from) <==> Rescanned(slots[..i], from) || (from < i && slots[i] != [])
  {
    if Rescanned(slots[..i + 1], from) {
      var j :| from < j < i + 1 && slots[..i + 1][j] != [];
      if j < i {
        assert slots[..i][j] != [];
      }
    }
    if Rescanned(slots[..i], from) {
      var j :| from < j < i && slots[..i][j] != [];
      assert slots[..i + 1][j] != [];
    }
    if from < i && slots[i] != [] {
      assert slots[..i + 1][i] != [];
    }
  }

  // ---------------------------------------------------------------- get, remove, clear

  /** `get` (L166-172). */
  function Get<V>(s: Snapshot<V>, key: Long): Outcome<Option<V>>
    requires s.capacity > 0
  {
    var i := GetKey(key, s.capacity);
    if i >= |s.slots| then IndexOutOfBounds
    else if s.slots[i] == [] then Value(None)
    else Value(FindValueByEqualKey(key, s.slots[i]))
  }

  /** `remove` (L191-197): the value `get` returns, and the whole slot set to null. */
  function Remove<V>(s: Snapshot<V>, key: Long): (Outcome<Option<V>>, Snapshot<V>)
    requires s.capacity > 0
  {
    var r := Get(s, key);
    if r.IndexOutOfBounds? then (r, s)
    else (r, s.(slots := s.slots[GetKey(key, s.capacity) := []]))
  }

  /** `clear` (L275-278). */
  function Clear<V>(s: Snapshot<V>): Snapshot<V> {
    s.(slots := Nulls(|s.slots|), size := 0)
  }

  /** `isEmpty` (L200-202): `size` is 0, whatever the slots hold. */
  predicate IsEmpty<V>(s: Snapshot<V>) {
    s.size == 0
  }

  // ---------------------------------------------------------------- scans

  /** `containsKey` (L205-218): when `size > 0`, whether some entry of some
      chain has `key`. */
  predicate ContainsKey<V>(s: Snapshot<V>, key: Long) {
    s.size > 0 &&
    exists k, j :: 0 <= k < |s.slots| && 0 <= j < |s.slots[k]| && s.slots[k][j].key == key
  }

  /** `containsValue` (L220-234): when `size > 0`, whether some entry of some
      chain holds `value`; a `null` value matches a `null` entry value. */
  predicate ContainsValue<V(==)>(s: Snapshot<V>, value: Option<V>) {
    s.size > 0 &&
    exists k, j :: 0 <= k < |s.slots| && 0 <= j < |s.slots[k]| && s.slots[k][j].value == value
  }

  /** `keys` (L236-250): the keys of all entries in scan order, none when `size` is 0. */
  function Keys<V>(s: Snapshot<V>): seq<Long> {
    if s.size > 0 then KeysOf(Entries(s.slots)) else []
  }

  /** `values` (L252-266): the values of all entries in scan order, none when `size` is 0. */
  function Values<V>(s: Snapshot<V>): seq<Option<V>> {
    if s.size > 0 then ValuesOf(Entries(s.slots)) else []
  }
}
