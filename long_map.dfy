/** `LongMapImpl<V>` (LongMapImpl.java:12-288): a separately chained hash table
    from Java `long` keys to values, as the class updates it in place.

    `table` is the slot array; a slot holds its chain head first, `[]` for
    `null`. Every method is proved to follow the function of the same name in
    module TableSpec, on the `Snapshot` of the fields. */
module LongMap {
  import opened LongHash
  import opened Chains
  import opened TableSpec

  const DEFAULT_INITIAL_CAPACITY: int := 16
  /** The `float` 0.75f of the source, which is exactly 3/4. */
  const DEFAULT_LOAD_FACTOR: real := 0.75

  class LongMapImpl<V(==)> {
    var table: array<Slot<V>>
    var capacity: int
    var loadFactor: real
    var size: int

    ghost predicate Valid()
      reads this
    {
      ValidFields(table.Length, capacity, size, loadFactor)
    }

    ghost function Snapshot(): TableSpec.Snapshot<V>
      reads this, table
    {
      TableSpec.Snapshot(table[..], capacity, size)
    }

    /** `LongMapImpl(int capacity, double loadFactor)` (L104-108). */
    constructor (capacity: int, loadFactor: real)
      requires 0 < capacity <= MAX_INT && ValidLoadFactor(loadFactor)
      ensures Valid() && fresh(table)
      ensures Snapshot() == Empty(capacity) && this.loadFactor == loadFactor
    {
      this.capacity := capacity;
      this.loadFactor := loadFactor;
      table := new Slot<V>[capacity](_ => []);
      size := 0;
    }

    /** `LongMapImpl()` (L113-115). */
    constructor Default()
      ensures Valid() && fresh(table)
      ensures Snapshot() == Empty(DEFAULT_INITIAL_CAPACITY) && loadFactor == DEFAULT_LOAD_FACTOR
    {
      capacity := DEFAULT_INITIAL_CAPACITY;
      loadFactor := DEFAULT_LOAD_FACTOR;
      table := new Slot<V>[DEFAULT_INITIAL_CAPACITY](_ => []);
      size := 0;
    }

    /** `put` (L124-136). A failing array access is reported as
        `IndexOutOfBounds`, before anything has changed. */
    method Put(key: Long, value: Option<V>) returns (r: Outcome<Option<V>>)
      requires Valid()
      requires ResizeDue(Snapshot(), loadFactor) ==> 2 * capacity <= MAX_INT
      modifies this, table
      decreases if ResizeDue(Snapshot(), loadFactor) then 6 else 0
      ensures Valid() && loadFactor == old(loadFactor)
      ensures (r, Snapshot()) == TableSpec.Put(old(Snapshot()), loadFactor, key, value)
      ensures !old(ResizeDue(Snapshot(), loadFactor)) ==> table == old(table)
    {
      ghost var s0 := Snapshot();
      var index := GetKey(key, capacity);
      if index >= table.Length {
        PutOutOfRange(s0, loadFactor, key, value);
        return IndexOutOfBounds;
      }
      var entry := table[index];
      var oldTable := table;
      if AtThreshold(size, capacity, loadFactor) {
        PutWithResize(s0, loadFactor, key, value);
        ExpandTable();
        // `entry` is the old head object, whose `next` the rehash has cut
        entry := oldTable[index];
      } else {
        PutWithoutResize(s0, loadFactor, key, value);
      }
      LinkEntry(index, Entry(key, value), entry);
      r := Value(table[index][0].value);
    }

    /** The end of `put` (L129-133): the slot at `index` becomes a new entry
        linked in front of `chain`; `size` counts it only when `chain` is null. */
    method LinkEntry(index: int, e: Entry<V>, chain: Slot<V>)
      requires Valid() && 0 <= index < table.Length
      modifies table, `size
      ensures Valid() && Snapshot() == Link(old(Snapshot()), index, e, chain)
    {
      if chain == [] {
        table[index] := [e];
        size := size + 1;
        assert [e] + chain == [e];
      } else {
        table[index] := [e] + chain;
      }
    }

    /** `expandTable` (L139-142). */
    method ExpandTable()
      requires Valid() && 2 * capacity <= MAX_INT
      modifies this, table
      decreases 5
      ensures Valid() && loadFactor == old(loadFactor)
      ensures Snapshot() == Expand(old(Snapshot()))
      ensures table == old(table) || fresh(table)
      ensures old(table)[..] == Heads(old(table[..]))
    {
      var newTable := new Slot<V>[2 * capacity](_ => []);
      RehashTable(newTable);
    }

    /** `rehashTable` (L144-163). The loop bound re-reads `table.length`, so once
        `table` is the new array the loop goes on over it, and a non-null slot
        there makes it run the inner loop again, over the new array. */
    method RehashTable(newTable: array<Slot<V>>)
      requires Valid() && newTable != table
      requires newTable.Length == 2 * capacity <= MAX_INT
      requires forall k :: 0 <= k < newTable.Length ==> newTable[k] == []
      modifies this, table, newTable
      decreases 4
      ensures Valid() && loadFactor == old(loadFactor)
      ensures Snapshot() == Expand(old(Snapshot()))
      ensures table == old(table) || table == newTable
      ensures old(table)[..] == Heads(old(table[..]))
    {
      ghost var s0 := Snapshot();
      ghost var from := table[..];
      ghost var oldTable := table;
      size := 0;
      capacity := 2 * capacity;
      ghost var r := RehashPrefix(from, |from|, capacity);
      ghost var first: nat := 0;
      RehashingStarts(oldTable, newTable, from, r);
      var i := 0;
      while i < table.Length
        invariant Rehashing(i, oldTable, newTable, from, r, first)
        invariant loadFactor == old(loadFactor)
        decreases capacity - i
      {
        first := RehashSlot(i, oldTable, newTable, from, r, first);
        i := i + 1;
      }
      RehashingEnds(i, oldTable, newTable, s0, r, first);
    }

    lemma RehashingStarts(oldTable: array<Slot<V>>, newTable: array<Slot<V>>,
                          from: seq<Slot<V>>, r: TableSpec.Snapshot<V>)
      requires table == oldTable && oldTable != newTable && from == oldTable[..] && 0 < |from|
      requires 2 * |from| <= capacity == newTable.Length <= MAX_INT && ValidLoadFactor(loadFactor)
      requires forall k :: 0 <= k < newTable.Length ==> newTable[k] == []
      requires size == 0 && r == RehashPrefix(from, |from|, capacity)
      ensures Rehashing(0, oldTable, newTable, from, r, 0)
    {
      assert newTable[..] == Nulls(capacity);
    }

    lemma RehashingEnds(i: int, oldTable: array<Slot<V>>, newTable: array<Slot<V>>,
                        s0: TableSpec.Snapshot<V>, r: TableSpec.Snapshot<V>, first: nat)
      requires TableSpec.Valid(s0) && 2 * s0.capacity <= MAX_INT && capacity == 2 * s0.capacity
      requires Rehashing(i, oldTable, newTable, s0.slots, r, first) && i >= table.Length
      ensures Valid() && Snapshot() == Expand(s0)
      ensures table == oldTable || table == newTable
      ensures oldTable[..] == Heads(s0.slots)
    {
      if table == oldTable {
        assert Heads(s0.slots) == s0.slots;
      } else {
        assert r.slots[..i] == r.slots;
      }
    }

    /** What `rehashTable`'s loop keeps, `i` slots in: see `RehashScan`. */
    ghost predicate Rehashing(i: int, oldTable: array<Slot<V>>, newTable: array<Slot<V>>,
                              from: seq<Slot<V>>, r: TableSpec.Snapshot<V>, first: nat)
      reads this, oldTable, newTable
    {
      oldTable != newTable && (table == oldTable || table == newTable) &&
      0 <= i <= table.Length && ValidLoadFactor(loadFactor) &&
      RehashScan(i, table == newTable, oldTable[..], newTable[..], size, capacity, from, r, first)
    }

    /** One turn of `rehashTable`'s loop (L149-161), at slot `i`: when `table[i]`
        is not null, switch `table` to the new array and put the heads of the
        array `table` was before. */
    method RehashSlot(i: int, ghost oldTable: array<Slot<V>>, newTable: array<Slot<V>>,
                      ghost from: seq<Slot<V>>, ghost r: TableSpec.Snapshot<V>, ghost first: nat)
      returns (ghost first': nat)
      requires Rehashing(i, oldTable, newTable, from, r, first) && i < table.Length
      modifies this, oldTable, newTable
      decreases 3
      ensures Rehashing(i + 1, oldTable, newTable, from, r, first')
      ensures loadFactor == old(loadFactor)
    {
      RehashPrefixWellPlaced(from, |from|, capacity);
      RescannedStep(r.slots, first, i);
      first' := first;
      if table[i] != [] {
        var list := table;
        if list.Length != 0 {
          if list == oldTable {
            first' := i;
          } else {
            DoubleAllWellPlaced(r.slots, capacity);
            DoubleAllIdempotent(r.slots);
          }
          table := newTable;
          PutHeads(list);
        }
      }
      RescannedStep(r.slots, first', i);
    }

    /** The inner loop of `rehashTable` (L155-160), run over `list`, which is
        either the old array or the current `table` itself. */
    method PutHeads(list: array<Slot<V>>)
      requires Valid()
      requires list != table ==>
                 table.Length == capacity && 2 * list.Length <= capacity &&
                 size == 0 && AllNull(table[..])
      requires list == table ==> 2 * size <= capacity && WellPlaced(table[..], capacity)
      modifies this, table, list
      decreases 2
      ensures Valid() && table == old(table)
      ensures loadFactor == old(loadFactor) && capacity == old(capacity)
      ensures list != table ==>
                Snapshot() == RehashPrefix(old(list[..]), list.Length, capacity) &&
                list[..] == Heads(old(list[..]))
      ensures list == table ==> Snapshot() == old(Snapshot()).(slots := DoubleAll(old(table[..])))
    {
      ghost var from := list[..];
      ghost var x := table[..];
      if list != table {
        assert Snapshot() == RehashPrefix(from, 0, capacity);
      }
      var j := 0;
      while j < list.Length
        invariant Valid() && table == old(table)
        invariant loadFactor == old(loadFactor) && capacity == old(capacity)
        invariant list != table ==> FirstPassAt(j, list[..], Snapshot(), from)
        invariant list == table ==> size == old(size) && RescanAt(j, table[..], x)
      {
        PutHead(list, j, from, x, old(size));
        j := j + 1;
      }
      if list != table {
        assert list[..] == Heads(from);
      } else {
        assert table[..] == DoubleAll(x);
      }
    }

    /** One turn of the inner loop (L156-159): a non-null `list[j]` is cut to
        its head (`next = null`) and the head is `put` again. */
    method PutHead(list: array<Slot<V>>, j: int, ghost from: seq<Slot<V>>,
                   ghost x: seq<Slot<V>>, ghost size0: int)
      requires Valid() && 0 <= j < list.Length
      requires list != table ==> FirstPassAt(j, list[..], Snapshot(), from)
      requires list == table ==>
                 size == size0 && 2 * size0 <= capacity && WellPlaced(x, capacity) &&
                 RescanAt(j, table[..], x)
      modifies this, table, list
      decreases 1
      ensures Valid() && table == old(table)
      ensures loadFactor == old(loadFactor) && capacity == old(capacity)
      ensures list != table ==> FirstPassAt(j + 1, list[..], Snapshot(), from)
      ensures list == table ==> size == size0 && RescanAt(j + 1, table[..], x)
    {
      ghost var before := Snapshot();
      if list != table {
        FirstPassStep(j, list[..], before, from);
      } else {
        RescanStep(j, table[..], x, capacity, size);
      }
      if list[j] != [] {
        var head := list[j][0];
        list[j] := [head];
        before := Snapshot();
        NoResizeWhileRehashing(before, loadFactor);
        PutWithoutResize(before, loadFactor, head.key, head.value);
        var _ := Put(head.key, head.value);
      }
    }
  
    /** `get` (L166-172); `findValueByEqualKey` is the function of that name
        in module Chains. */
    method Get(key: Long) returns (r: Outcome<Option<V>>)
      requires Valid()
      ensures r == TableSpec.Get(Snapshot(), key)
    {
      var index := GetKey(key, capacity);
      if index >= table.Length {
        return IndexOutOfBounds;
      }
      if table[index] == [] {
        return Value(None);
      }
      r := Value(FindValueByEqualKey(key, table[index]));
    }

    /** `remove` (L191-197): `get` fails first when the index is out of range. */
    method Remove(key: Long) returns (r: Outcome<Option<V>>)
      requires Valid()
      modifies table
      ensures Valid()
      ensures (r, Snapshot()) == TableSpec.Remove(old(Snapshot()), key)
    {
      r := Get(key);
      if r.IndexOutOfBounds? {
        return;
      }
      var index := GetKey(key, capacity);
      table[index] := [];
    }

    /** `isEmpty` (L200-202). */
    method IsEmpty() returns (b: bool)
      requires Valid()
      ensures b == TableSpec.IsEmpty(Snapshot())
    {
      b := size == 0;
    }

    /** `containsKey` (L205-218): scan the slots in order, each chain from its
        head, and stop at the first entry with `key`. */
    method ContainsKey(key: Long) returns (b: bool)
      requires Valid()
      ensures b == TableSpec.ContainsKey(Snapshot(), key)
    {
      if size > 0 {
        var i := 0;
        while i < table.Length
          invariant 0 <= i <= table.Length
          invariant forall k, j :: 0 <= k < i && 0 <= j < |table[k]| ==> table[k][j].key != key
        {
          var chain := table[i];
          var j := 0;
          while j < |chain|
            invariant 0 <= j <= |chain|
            invariant forall t :: 0 <= t < j ==> chain[t].key != key
          {
            if chain[j].key == key {
              return true;
            }
            j := j + 1;
          }
          i := i + 1;
        }
      }
      return false;
    }

    /** `containsValue` (L220-234): the same scan, matching values. */
    method ContainsValue(value: Option<V>) returns (b: bool)
      requires Valid()
      ensures b == TableSpec.ContainsValue(Snapshot(), value)
    {
      if size > 0 {
        var i := 0;
        while i < table.Length
          invariant 0 <= i <= table.Length
          invariant forall k, j :: 0 <= k < i && 0 <= j < |table[k]| ==> table[k][j].value != value
        {
          var chain := table[i];
          var j := 0;
          while j < |chain|
            invariant 0 <= j <= |chain|
            invariant forall t :: 0 <= t < j ==> chain[t].value != value
          {
            if chain[j].value == value {
              return true;
            }
            j := j + 1;
          }
          i := i + 1;
        }
      }
      return false;
    }

    /** `keys` (L236-250): collect the key of every entry the scan visits. */
    method Keys() returns (ks: seq<Long>)
      requires Valid()
      ensures ks == TableSpec.Keys(Snapshot())
    {
      ks := [];
      if size > 0 {
        var i := 0;
        while i < table.Length
          invariant 0 <= i <= table.Length
          invariant ks == KeysOf(Entries(table[..i]))
        {
          var chain := table[i];
          var j := 0;
          while j < |chain|
            invariant 0 <= j <= |chain|
            invariant ks == KeysOf(Entries(table[..i]) + chain[..j])
          {
            ks := ks + [chain[j].key];
            j := j + 1;
          }
          assert chain[..j] == chain;
          EntriesStep(table[..], i);
          assert table[..][..i + 1] == table[..i + 1];
          i := i + 1;
        }
        assert table[..i] == table[..];
      }
    }

    /** `values` (L252-266): collect the value of every entry the scan visits. */
    method Values() returns (vs: seq<Option<V>>)
      requires Valid()
      ensures vs == TableSpec.Values(Snapshot())
    {
      vs := [];
      if size > 0 {
        var i := 0;
        while i < table.Length
          invariant 0 <= i <= table.Length
          invariant vs == ValuesOf(Entries(table[..i]))
        {
          var chain := table[i];
          var j := 0;
          while j < |chain|
            invariant 0 <= j <= |chain|
            invariant vs == ValuesOf(Entries(table[..i]) + chain[..j])
          {
            vs := vs + [chain[j].value];
            j := j + 1;
          }
          assert chain[..j] == chain;
          EntriesStep(table[..], i);
          assert table[..][..i + 1] == table[..i + 1];
          i := i + 1;
        }
        assert table[..i] == table[..];
      }
    }

    /** `size` (L268-271): the number of occupied slots `put` has counted. */
    method Size() returns (n: int)
      requires Valid()
      ensures n == Snapshot().size
    {
      n := size;
    }

    /** `clear` (L275-278): `Arrays.fill` nulls every slot of the array. */
    method Clear()
      requires Valid()
      modifies table, `size
      ensures Valid() && Snapshot() == TableSpec.Clear(old(Snapshot()))
    {
      var i := 0;
      while i < table.Length
        invariant 0 <= i <= table.Length
        invariant table[..i] == Nulls(i)
      {
        table[i] := [];
        assert table[..i + 1] == table[..i] + [[]];
        i := i + 1;
      }
      assert table[..] == table[..i];
      size := 0;
    }
  }
}
