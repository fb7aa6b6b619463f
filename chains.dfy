/** The entries of LongMapImpl and the collision chains they form
    (LongMapImpl.java:42-88, 174-188).

    A chain is modelled head first as a sequence of entries, and a slot of the
    table is one chain: the empty sequence stands for a `null` slot. No entry
    object is ever shared between two slots, so the `next` links carry no
    information beyond the order of the sequence. */
module Chains {
  import opened LongHash

  /** A nullable Java reference to a value: `None` is `null`. */
  datatype Option<T> = None | Some(value: T)

  /** `EntryImpl<Long, V>` without its `next` link. */
  datatype Entry<V> = Entry(key: Long, value: Option<V>)

  /** A bucket slot: its chain, head first; `[]` is a `null` slot. */
  type Slot<V> = seq<Entry<V>>

  /** Index of the first entry of `chain` whose key is `key`, if there is one. */
  predicate IsFirstMatch<V>(chain: Slot<V>, key: Long, i: int) {
    0 <= i < |chain| && chain[i].key == key &&
    forall j :: 0 <= j < i ==> chain[j].key != key
  }

  predicate HasKey<V>(chain: Slot<V>, key: Long) {
    exists i :: 0 <= i < |chain| && chain[i].key == key
  }

  /** `findValueByEqualKey`: walk the chain from `entry`; return the value of the
      first entry whose key equals `key`, and when none does, the value of the
      chain's last entry (it never reports "not found"). */
  function FindValueByEqualKey<V>(key: Long, chain: Slot<V>): (r: Option<V>)
    requires |chain| > 0
    ensures HasKey(chain, key) ==>
              exists i :: IsFirstMatch(chain, key, i) && r == chain[i].value
    ensures !HasKey(chain, key) ==> r == chain[|chain| - 1].value
  {
    if key == chain[0].key then chain[0].value
    else if |chain| > 1 then
      var r := FindValueByEqualKey(key, chain[1..]);
      assert HasKey(chain, key) ==> HasKey(chain[1..], key);
      assert HasKey(chain[1..], key) ==> HasKey(chain, key);
      r
    else chain[0].value
  }

  /** The head of a chain with its tail dropped (`entry.next = null`). */
  function HeadOnly<V>(chain: Slot<V>): Slot<V>
  {
    if chain == [] then [] else [chain[0]]
  }

  /** Every slot cut to its head. */
  function Heads<V>(slots: seq<Slot<V>>): seq<Slot<V>>
  {
    seq(|slots|, k requires 0 <= k < |slots| => HeadOnly(slots[k]))
  }

  /** All entries of a table, in the order the scans of LongMapImpl visit them:
      slots by increasing index, each chain from head to tail. */
  function Entries<V>(slots: seq<Slot<V>>): seq<Entry<V>>
  {
    if slots == [] then [] else Entries(slots[..|slots| - 1]) + slots[|slots| - 1]
  }

  /** An entry is visited by the scans exactly when it sits in some slot. */
  lemma {:induction false} EntriesMembership<V>(slots: seq<Slot<V>>, e: Entry<V>)
    ensures e in Entries(slots) <==> exists k :: 0 <= k < |slots| && e in slots[k]
  {
    if slots != [] {
      var n := |slots| - 1;
      EntriesMembership(slots[..n], e);
      assert forall k :: 0 <= k < n ==> slots[..n][k] == slots[k];
      if e in Entries(slots) && e !in slots[n] {
        assert e in Entries(slots[..n]);
      }
    }
  }

  /** The traversal of the first `i + 1` slots is that of the first `i` slots
      followed by the chain of slot `i`. */
  lemma EntriesStep<V>(slots: seq<Slot<V>>, i: int)
    requires 0 <= i < |slots|
    ensures Entries(slots[..i + 1]) == Entries(slots[..i]) + slots[i]
  {
    assert slots[..i + 1][..i] == slots[..i];
  }

  /** The number of entries visited is the total length of the chains. */
  function ChainLengths<V>(slots: seq<Slot<V>>): nat {
    if slots == [] then 0 else ChainLengths(slots[..|slots| - 1]) + |slots[|slots| - 1]|
  }

  lemma {:induction false} EntriesLength<V>(slots: seq<Slot<V>>)
    ensures |Entries(slots)| == ChainLengths(slots)
  {
    if slots != [] {
      EntriesLength(slots[..|slots| - 1]);
    }
  }

  function KeysOf<V>(entries: seq<Entry<V>>): seq<Long>
  {
    seq(|entries|, i requires 0 <= i < |entries| => entries[i].key)
  }

  function ValuesOf<V>(entries: seq<Entry<V>>): seq<Option<V>>
  {
    seq(|entries|, i requires 0 <= i < |entries| => entries[i].value)
  }
}
