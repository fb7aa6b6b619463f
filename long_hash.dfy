/** Java integer widths, `Long.hashCode` and the bucket-index function `getKey`
    of LongMapImpl (LongMapImpl.java:117-121). */
module LongHash {

  const TWO_31: int := 0x8000_0000
  const TWO_32: int := 0x1_0000_0000

  /** Largest Java `int`; capacities and sizes are Java `int`s. */
  const MAX_INT: int := TWO_31 - 1

  /** A Java `long`, as its 64-bit two's-complement pattern: keys are only
      hashed, compared for equality and handed back, and none of these depends
      on reading the pattern as a signed number. */
  type Long = bv64

  /** A Java `int`. */
  type Int32 = x: int | -TWO_31 <= x < TWO_31

  /** A 32-bit pattern read as a signed Java `int`. */
  function Signed(x: bv32): Int32 {
    var w := x as int;
    if w < TWO_31 then w else w - TWO_32
  }

  /** `java.lang.Long.hashCode`: `(int)(key ^ (key >>> 32))`. The cast keeps
      the low 32 bits of the xor, which are the low word of `key` xor its high
      word (`>>>` shifts zeros in). */
  function HashCode(k: Long): Int32 {
    Signed(((k & 0xFFFF_FFFF) as bv32) ^ ((k >> 32) as bv32))
  }

  /** Java's `%` on `int`: the remainder truncates toward zero, so it takes the
      sign of the dividend (Dafny's `%` never returns a negative number). */
  function TruncRem(a: int, m: int): (r: int)
    requires m > 0
    ensures -m < r < m
    ensures a >= 0 ==> r >= 0
    ensures a < 0 ==> r <= 0
    ensures Abs(r) == Abs(a) % m
  {
    if a >= 0 then a % m else -((-a) % m)
  }

  /** `getKey`: the bucket index of `key` for a table of `capacity` slots,
      `|hashCode(key) % capacity|` with Java's truncating remainder. */
  function GetKey(key: Long, capacity: int): (index: int)
    requires capacity > 0
    ensures 0 <= index < capacity
  {
    var r := TruncRem(HashCode(key), capacity);
    if r >= 0 then r else -r
  }

  function Abs(x: int): nat {
    if x < 0 then -x else x
  }

  /** `getKey` is the ordinary remainder of the hash's magnitude: it depends
      only on `Long.hashCode(key)` and `capacity`. */
  lemma GetKeyIsAbsMod(key: Long, capacity: int)
    requires capacity > 0
    ensures GetKey(key, capacity) == Abs(HashCode(key)) % capacity
  {
  }

  lemma MulAtLeast(m: int, d: int)
    requires m > 0 && d >= 1
    ensures m * d >= m
  {
    assert m * d == m * (d - 1) + m;
  }

  /** If `x == m * q + s` with `0 <= s < m`, then `x % m == s`. */
  lemma ModUnique(x: int, m: int, q: int, s: int)
    requires m > 0 && 0 <= s < m && x == m * q + s
    ensures x % m == s
  {
    var q' := x / m;
    var s' := x % m;
    assert m * q' + s' == m * q + s;
    if q' < q {
      assert m * (q - q') == m * q - m * q';
      MulAtLeast(m, q - q');
    } else if q' > q {
      assert m * (q' - q) == m * q' - m * q;
      MulAtLeast(m, q' - q);
    }
  }

  /** Halving the modulus: `a % (2c)` is `a % c` or `a % c + c`. */
  lemma ModDoubling(a: nat, c: int)
    requires c > 0
    ensures a % (2 * c) == a % c || a % (2 * c) == a % c + c
  {
    var q := a / (2 * c);
    var r := a % (2 * c);
    assert a == (2 * c) * q + r;
    assert (2 * c) * q == c * (2 * q);
    if r < c {
      ModUnique(a, c, 2 * q, r);
    } else {
      assert c * (2 * q) + c == c * (2 * q + 1);
      ModUnique(a, c, 2 * q + 1, r - c);
    }
  }

  /** After a table doubles, a key's index is its old index or the old index
      plus the old capacity: the index `put` computes before a resize is
      stale for half of the keys. */
  lemma GetKeyAfterDoubling(key: Long, capacity: int)
    requires capacity > 0
    ensures GetKey(key, 2 * capacity) == GetKey(key, capacity)
         || GetKey(key, 2 * capacity) == GetKey(key, capacity) + capacity
  {
    GetKeyIsAbsMod(key, capacity);
    GetKeyIsAbsMod(key, 2 * capacity);
    ModDoubling(Abs(HashCode(key)), capacity);
  }
}
