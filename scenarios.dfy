/** Concrete runs of LongMapImpl, stated over the value-level operations of
    module TableSpec: the behaviour its tests expect, and the consequences
    of the defects the code has as written. */
module Scenarios {
  import opened LongHash
  import opened Chains
  import opened TableSpec

  /** Keys 111, 222 and 333 go to slots 15, 14 and 13 of a default table, so
      `size` reads 1, 2 and 3 and each `get` returns its own value
      (LongMapImplTest.java:159-169). */
  lemma ThreeKeysThreeSlots()
    ensures var s0 := Empty<int>(16);
            var s1 := Put(s0, 0.75, 111, Some(1)).1;
            var s2 := Put(s1, 0.75, 222, Some(2)).1;
            var s3 := Put(s2, 0.75, 333, Some(3)).1;
            s1.size == 1 && s2.size == 2 && s3.size == 3 &&
            Get(s3, 111) == Value(Some(1)) && Get(s3, 222) == Value(Some(2)) &&
            Get(s3, 333) == Value(Some(3))
  {
    var s0 := Empty<int>(16);
    assert GetKey(111, 16) == 15 && GetKey(222, 16) == 14 && GetKey(333, 16) == 13;
    var s1 := PutFresh(s0, 0.75, 111, Some(1));
    var s2 := PutFresh(s1, 0.75, 222, Some(2));
    var s3 := PutFresh(s2, 0.75, 333, Some(3));
  }

  /** One key, 123, in a default table, as the single-key tests use it
      (LongMapImplTest.java:25-181): before the `put` every query reports
      nothing; after it `get`, the two `contains` scans, `keys`, `values` and
      `size` all see the one entry in slot 11 and `get` of another key is null;
      `remove` returns the value and `get` is null afterwards; `clear` makes
      the map empty again. */
  lemma OneKey()
    ensures var s0 := Empty<int>(16);
            var (r, s1) := Put(s0, 0.75, 123, Some(12345789));
            IsEmpty(s0) && Get(s0, 11111) == Value(None) && !ContainsKey(s0, 123) &&
            !ContainsValue(s0, Some(12345789)) && Keys(s0) == [] && Values(s0) == [] &&
            r == Value(Some(12345789)) && s1.size == 1 && !IsEmpty(s1) &&
            Get(s1, 123) == Value(Some(12345789)) && Get(s1, 11111) == Value(None) &&
            ContainsKey(s1, 123) && ContainsValue(s1, Some(12345789)) &&
            Keys(s1) == [123] && Values(s1) == [Some(12345789)] &&
            Remove(s1, 123).0 == Value(Some(12345789)) && Get(Remove(s1, 123).1, 123) == Value(None) &&
            IsEmpty(Clear(s1))
  {
    var s0 := Empty<int>(16);
    assert GetKey(123, 16) == 11 && GetKey(11111, 16) == 7;
    var s1 := PutFresh(s0, 0.75, 123, Some(12345789));
    var e := Entry(123, Some(12345789));
    assert s1.slots[11] == [e] && s1.slots[11][0].key == 123 && s1.slots[11][0].value == Some(12345789);
    EntriesOneSlot(s1.slots, 11);
  }

  /** A table whose only non-null slot is `i` lists just that slot's chain. */
  lemma {:induction false} EntriesOneSlot<V>(slots: seq<Slot<V>>, i: int)
    requires 0 <= i < |slots| && forall k :: 0 <= k < |slots| && k != i ==> slots[k] == []
    ensures Entries(slots) == slots[i]
  {
    var n := |slots| - 1;
    if n == i {
      assert AllNull(slots[..n]);
      EntriesAllNull(slots[..n]);
    } else {
      EntriesOneSlot(slots[..n], i);
    }
  }

  lemma {:induction false} EntriesAllNull<V>(slots: seq<Slot<V>>)
    requires AllNull(slots)
    ensures Entries(slots) == []
  {
    if slots != [] {
      EntriesAllNull(slots[..|slots| - 1]);
    }
  }

  /** A `put` into a null slot of a table below its threshold: the slot
      becomes the new entry alone and `size` grows by one. */
  lemma PutFresh<V>(s: Snapshot<V>, loadFactor: real, key: Long, value: Option<V>) returns (t: Snapshot<V>)
    requires Valid(s) && !ResizeDue(s, loadFactor)
    requires GetKey(key, s.capacity) < |s.slots| && s.slots[GetKey(key, s.capacity)] == []
    ensures t == Put(s, loadFactor, key, value).1
    ensures t == Snapshot(s.slots[GetKey(key, s.capacity) := [Entry(key, value)]], s.capacity, s.size + 1)
  {
    PutWithoutResize(s, loadFactor, key, value);
    t := Insert(s, Entry(key, value));
    assert [Entry(key, value)] + [] == [Entry(key, value)];
  }

  /** Two keys of one slot: `get` of a third key of that slot, absent from
      the map, returns the value of the chain's last entry instead of null
      (LongMapImpl.java:181-188), and `remove` of one key drops the other
      too (LongMapImpl.java:191-197). */
  lemma SharedSlot()
    ensures var s0 := Empty<int>(16);
            var s1 := Put(s0, 0.75, 1, Some(10)).1;
            var s2 := Put(s1, 0.75, 17, Some(20)).1;
            s2.slots[1] == [Entry(17, Some(20)), Entry(1, Some(10))] && s2.size == 1 &&
            Get(s2, 33) == Value(Some(10)) &&
            Remove(s2, 1).0 == Value(Some(10)) && Get(Remove(s2, 1).1, 17) == Value(None)
  {
    var s0 := Empty<int>(16);
    assert GetKey(1, 16) == 1 && GetKey(17, 16) == 1 && GetKey(33, 16) == 1;
    var s1 := PutFresh(s0, 0.75, 1, Some(10));
    PutWithoutResize(s1, 0.75, 17, Some(20));
    var s2 := Put(s1, 0.75, 17, Some(20)).1;
    assert s2.slots[1] == [Entry(17, Some(20)), Entry(1, Some(10))];
  }

  /** The stale index (LongMapImpl.java:125-128): in a table of capacity 1,
      the second `put` resizes to capacity 2 but still links key 1 into slot
      0, while `get(1)` looks in slot 1 and finds null. */
  lemma StaleIndex()
    ensures var s0 := Empty<int>(1);
            var s1 := Put(s0, 0.75, 0, Some(10)).1;
            var (r, s2) := Put(s1, 0.75, 1, Some(20));
            r == Value(Some(20)) && s2.capacity == 2 &&
            s2.slots == [[Entry(1, Some(20)), Entry(0, Some(10))], []] &&
            Get(s2, 1) == Value(None) && Get(s2, 0) == Value(Some(10))
  {
    var s0 := Empty<int>(1);
    assert GetKey(0, 1) == 0 && GetKey(1, 1) == 0 && GetKey(0, 2) == 0 && GetKey(1, 2) == 1;
    var s1 := PutFresh(s0, 0.75, 0, Some(10));
    assert s1.slots == [[Entry(0, Some(10))]];
    PutWithResize(s1, 0.75, 1, Some(20));
    var from := s1.slots;
    var r := RehashPrefix(from, 1, 2);
    assert RehashPrefix(from, 0, 2).slots == [[], []];
    assert r.slots == [[Entry(0, Some(10))], []] && r.size == 1;
    assert FirstNonNull(from) == 0;
    assert !Rescanned(r.slots, 0);
    assert Expand(s1) == r;
    var s2 := Link(r, 0, Entry(1, Some(20)), [Entry(0, Some(10))]);
    assert [Entry(1, Some(20))] + [Entry(0, Some(10))] == [Entry(1, Some(20)), Entry(0, Some(10))];
    assert Put(s1, 0.75, 1, Some(20)) == (Value(Some(20)), s2);
    assert s2.slots == [[Entry(1, Some(20)), Entry(0, Some(10))], []];
    assert FindValueByEqualKey(0, s2.slots[0]) == Some(10) by {
      assert s2.slots[0][1..] == [Entry(0, Some(10))];
    }
  }

  /** The rescan (LongMapImpl.java:148-161): keys 0 and 1 fill both slots of a
      table of capacity 2; `put(2)` resizes, the loop goes on over the new
      array, and every non-null slot ends up holding its head twice, so
      `keys()` lists key 1 twice, while key 2, linked at the stale index 0,
      is listed but not found by `get`. */
  lemma Rescan()
    ensures var s0 := Empty<int>(2);
            var s1 := Put(s0, 0.75, 0, Some(10)).1;
            var s2 := Put(s1, 0.75, 1, Some(20)).1;
            var s3 := Put(s2, 0.75, 2, Some(30)).1;
            s3.capacity == 4 && s3.size == 2 &&
            s3.slots == [[Entry(2, Some(30)), Entry(0, Some(10))],
                         [Entry(1, Some(20)), Entry(1, Some(20))], [], []] &&
            Keys(s3) == [2, 0, 1, 1] && Values(s3) == [Some(30), Some(10), Some(20), Some(20)] &&
            Get(s3, 2) == Value(None)
  {
    var s0 := Empty<int>(2);
    var e0, e1, e2 := Entry(0, Some(10)), Entry(1, Some(20)), Entry(2, Some(30));
    FillTwoSlots(e0, e1);
    RescanPut(e0, e1, e2);
    RescanEntries(e2, e0, e1);
    assert GetKey(2, 4) == 2;
  }

  /** Keys 0 and 1 put into a fresh table of capacity 2 take one slot each. */
  lemma FillTwoSlots(e0: Entry<int>, e1: Entry<int>)
    requires e0 == Entry(0, Some(10)) && e1 == Entry(1, Some(20))
    ensures var s0 := Empty<int>(2);
            var s1 := Put(s0, 0.75, 0, Some(10)).1;
            Put(s1, 0.75, 1, Some(20)).1 == Snapshot([[e0], [e1]], 2, 2)
  {
    var s0 := Empty<int>(2);
    assert GetKey(0, 2) == 0 && GetKey(1, 2) == 1;
    var s1 := PutFresh(s0, 0.75, 0, Some(10));
    var s2 := PutFresh(s1, 0.75, 1, Some(20));
  }

  /** The third `put` of `Rescan`: a resize is due, and key 2 is linked at
      its old index 0 in front of the head of old slot 0. */
  lemma RescanPut(e0: Entry<int>, e1: Entry<int>, e2: Entry<int>)
    requires e0 == Entry(0, Some(10)) && e1 == Entry(1, Some(20)) && e2 == Entry(2, Some(30))
    ensures Put(Snapshot([[e0], [e1]], 2, 2), 0.75, 2, Some(30)).1 ==
            Snapshot([[e2, e0], [e1, e1], [], []], 4, 2)
  {
    var s2 := Snapshot([[e0], [e1]], 2, 2);
    assert GetKey(2, 2) == 0;
    RescanExpand(e0, e1);
    PutWithResize(s2, 0.75, 2, Some(30));
    assert HeadOnly(s2.slots[0]) == [e0];
    assert [e2] + [e0] == [e2, e0];
  }

  /** The resize inside `Rescan`: the first pass fills slots 0 and 1 of the new
      array, and since slot 1 lies past the first non-null slot, the loop
      rescans and doubles both. */
  lemma RescanExpand(e0: Entry<int>, e1: Entry<int>)
    requires e0 == Entry(0, Some(10)) && e1 == Entry(1, Some(20))
    ensures Expand(Snapshot([[e0], [e1]], 2, 2)) == Snapshot([[e0, e0], [e1, e1], [], []], 4, 2)
  {
    assert GetKey(0, 4) == 0 && GetKey(1, 4) == 1;
    var from := [[e0], [e1]];
    var r0 := RehashPrefix(from, 0, 4);
    assert r0.slots == [[], [], [], []];
    var r1 := RehashPrefix(from, 1, 4);
    assert r1 == Link(r0, 0, e0, []);
    assert [e0] + [] == [e0];
    assert r1.slots == [[e0], [], [], []] && r1.size == 1;
    var r := RehashPrefix(from, 2, 4);
    assert r == Link(r1, 1, e1, []);
    assert [e1] + [] == [e1];
    assert r.slots == [[e0], [e1], [], []] && r.size == 2;
    assert FirstNonNull(from) == 0;
    assert r.slots[1] != [];
    assert Rescanned(r.slots, 0);
    assert DoubleAll(r.slots) == [[e0, e0], [e1, e1], [], []];
  }

  /** The scan order of the table `Rescan` ends with. */
  lemma RescanEntries(e2: Entry<int>, e0: Entry<int>, e1: Entry<int>)
    ensures Entries([[e2, e0], [e1, e1], [], []]) == [e2, e0, e1, e1]
  {
    var sl := [[e2, e0], [e1, e1], [], []];
    EntriesStep(sl, 0);
    EntriesStep(sl, 1);
    EntriesStep(sl, 2);
    EntriesStep(sl, 3);
    assert sl[..0] == [] && sl[..4] == sl;
    assert [] + [e2, e0] + [e1, e1] + [] + [] == [e2, e0, e1, e1];
  }

  /** A resize over an all-null table (LongMapImpl.java:147-161): after two
      `remove`s null both slots of a table of capacity 2 while `size` stays 2,
      `put(2)` doubles `capacity` to 4 but keeps the array of length 2, and
      `get(3)` then indexes past its end. */
  lemma CapacityOutgrowsTable()
    ensures var s0 := Empty<int>(2);
            var s1 := Put(s0, 0.75, 0, Some(10)).1;
            var s2 := Put(s1, 0.75, 1, Some(20)).1;
            var s3 := Remove(Remove(s2, 0).1, 1).1;
            var s4 := Put(s3, 0.75, 2, Some(30)).1;
            s3.size == 2 && AllNull(s3.slots) &&
            s4.capacity == 4 && |s4.slots| == 2 && s4.size == 1 &&
            Get(s4, 3) == IndexOutOfBounds
  {
    var s0 := Empty<int>(2);
    assert GetKey(0, 2) == 0 && GetKey(1, 2) == 1 && GetKey(2, 2) == 0 && GetKey(3, 4) == 3;
    var s1 := PutFresh(s0, 0.75, 0, Some(10));
    var s2 := PutFresh(s1, 0.75, 1, Some(20));
    var s3 := Remove(Remove(s2, 0).1, 1).1;
    assert s3.slots == [[], []] && s3.size == 2;
    PutWithResize(s3, 0.75, 2, Some(30));
  }
}
