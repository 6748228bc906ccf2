/**
 * A separate-chaining hash table (MyHashMap.java).
 *
 * The bucket array is an `array<seq<Entry<V>>>`: bucket `b` holds its chain
 * head to tail, so a chain's `next` links are the order of the sequence.
 * Keys are Java `Integer`s, whose hash code is the value itself; a stored
 * value may be Java `null` (`None`).
 */
module HashMaps {
  import opened MapCommon

  const DEFAULT_INITIAL_CAPACITY: int := 16
  const MAXIMUM_CAPACITY: int := 0x4000_0000  // 1 << 30
  const INT_MAX: int := 0x7fff_ffff

  /**
   * A load factor as the fraction `num / den`. With `den == 0` it is an
   * infinity of the sign of `num`, and `0 / 0` is NaN, so the constructor's
   * test "load factor <= 0 or NaN" is `num <= 0`.
   */
  datatype LoadFactor = LoadFactor(num: int, den: nat)

  const DEFAULT_LOAD_FACTOR: LoadFactor := LoadFactor(3, 4)

  /** `lf == 0.75f`, the test that picks the doubling growth rule. */
  predicate IsDefault(lf: LoadFactor) {
    lf.den > 0 && lf.num * 4 == lf.den * 3
  }

  /** `size > length * lf`, the growth trigger. */
  predicate Exceeds(size: int, length: int, lf: LoadFactor) {
    size * lf.den > length * lf.num
  }

  /** `(int) Math.ceil(size / lf)` for a finite positive `lf`, saturating as Java's cast does. */
  function CeilDiv(size: int, lf: LoadFactor): (r: int)
    requires lf.num > 0 && size >= 0
    ensures r <= INT_MAX
    ensures r < INT_MAX ==> r * lf.num >= size * lf.den
  {
    var q := (size * lf.den + lf.num - 1) / lf.num;
    if q > INT_MAX then INT_MAX else q
  }

  predicate IsPow2(n: int)
    decreases if n < 0 then 0 else n
  {
    n == 1 || (n > 1 && n % 2 == 0 && IsPow2(n / 2))
  }

  function Pow2(e: nat): nat {
    if e == 0 then 1 else 2 * Pow2(e - 1)
  }

  lemma {:induction false} Pow2IsPow2(e: nat)
    ensures IsPow2(Pow2(e)) && Pow2(e) >= 1
  {
    if e > 0 { Pow2IsPow2(e - 1); }
  }

  lemma {:induction false} Pow2Add(a: nat, b: nat)
    ensures Pow2(a + b) == Pow2(a) * Pow2(b)
  {
    if a > 0 {
      Pow2Add(a - 1, b);
      var p, q := Pow2(a - 1), Pow2(b);
      assert Pow2(a + b) == 2 * Pow2(a - 1 + b) == 2 * (p * q);
      assert 2 * (p * q) == (2 * p) * q;
    }
  }

  lemma MaximumCapacityIsPow2()
    ensures Pow2(30) == MAXIMUM_CAPACITY && IsPow2(MAXIMUM_CAPACITY)
  {
    assert Pow2(10) == 1024;
    Pow2Add(10, 10);
    Pow2Add(20, 10);
    Pow2IsPow2(30);
  }

  /** A power of two below another is at most half of it. */
  lemma {:induction false} Pow2Below(a: int, b: int)
    requires IsPow2(a) && IsPow2(b) && a < b
    ensures 2 * a <= b
    decreases a
  {
    if a > 1 {
      Pow2Below(a / 2, b / 2);
    }
  }

  /** Two powers of two within a factor of two of each other are equal. */
  lemma {:induction false} Pow2Between(a: int, b: int)
    requires IsPow2(a) && IsPow2(b) && a <= b < 2 * a
    ensures a == b
    decreases a
  {
    if a > 1 && b > 1 {
      Pow2Between(a / 2, b / 2);
    }
  }

  lemma Pow2Double(n: int)
    requires IsPow2(n)
    ensures IsPow2(2 * n)
  {
    assert (2 * n) / 2 == n;
  }

  /** The table built for twice a smaller power-of-two length is exactly twice as long. */
  lemma DoubledCapacity(length: int, grown: int)
    requires IsPow2(length) && length < MAXIMUM_CAPACITY && CapacityFor(2 * length, grown)
    ensures grown == 2 * length
  {
    MaximumCapacityIsPow2();
    Pow2Below(length, MAXIMUM_CAPACITY);
    Pow2Double(length);
    Pow2Between(2 * length, grown);
  }

  /** `(mask & c) > 0` for a power-of-two `mask`; below twice `mask` the bit is set exactly when `c >= mask`. */
  function BitSet(c: int, mask: int): (set_: bool)
    requires 0 <= c < 2 * mask
    ensures set_ <==> c >= mask
  {
    assert c >= mask ==> c / mask == 1;
    assert c < mask ==> c / mask == 0;
    (c / mask) % 2 == 1
  }

  /**
   * MyHashMap.tableSizeFor: the smallest power of two not below `cap` (1 when
   * `cap <= 1`), but at most 2^30. The source tests bit `mask` of `cap - 1`
   * from bit 30 down.
   */
  method TableSizeFor(cap: int) returns (r: int)
    requires cap <= INT_MAX
    ensures IsPow2(r) && 1 <= r <= MAXIMUM_CAPACITY
    ensures cap <= MAXIMUM_CAPACITY ==> cap <= r && (r == 1 || r < 2 * cap)
    ensures cap > MAXIMUM_CAPACITY ==> r == MAXIMUM_CAPACITY
  {
    MaximumCapacityIsPow2();
    var c := cap - 1;
    if c > 0 {
      var mask := MAXIMUM_CAPACITY;
      while mask > 0
        invariant IsPow2(mask) && mask <= MAXIMUM_CAPACITY
        invariant 0 < c < 2 * mask
      {
        if BitSet(c, mask) {
          if mask >= MAXIMUM_CAPACITY {
            return MAXIMUM_CAPACITY;
          }
          Pow2Below(mask, MAXIMUM_CAPACITY);
          return mask * 2;
        }
        if mask == 1 {
          assert false;
        }
        mask := mask / 2;
      }
    }
    return 1;
  }

  /** A chain entry: the cached hash code, the key and the (nullable) value. */
  datatype Entry<V> = Entry(hash: int, key: int, value: Option<V>)

  /** `Integer.hashCode`: an integer key is its own hash code. */
  function Hash(key: int): int { key }

  /**
   * `hash & (length - 1)`. For a power-of-two length this two's-complement
   * mask is the Euclidean remainder, which is what Dafny's `%` computes.
   */
  function IndexFor(hash: int, length: int): (b: int)
    requires length > 0
    ensures 0 <= b < length
  {
    hash % length
  }

  /** The iteration order: buckets in ascending index, each chain head to tail. */
  function Flatten<V>(t: seq<seq<Entry<V>>>): seq<Entry<V>> {
    if t == [] then [] else Flatten(t[..|t| - 1]) + t[|t| - 1]
  }

  /** The mapping a sequence of entries denotes when inserted in order. */
  function MapOf<V>(es: seq<Entry<V>>): map<int, Option<V>> {
    if es == [] then map[] else MapOf(es[..|es| - 1])[es[|es| - 1].key := es[|es| - 1].value]
  }

  /** Folding one more entry of a sequence into its map. */
  lemma MapOfPrefix<V>(es: seq<Entry<V>>, c: int)
    requires 0 <= c < |es|
    ensures MapOf(es[..c + 1]) == MapOf(es[..c])[es[c].key := es[c].value]
  {
    assert es[..c + 1][..c] == es[..c];
  }

  /** Every entry of `chain` caches its key's hash and belongs in bucket `b`. */
  ghost predicate ChainIn<V>(chain: seq<Entry<V>>, b: int, length: int)
    requires length > 0
  {
    forall i :: 0 <= i < |chain| ==> chain[i].hash == Hash(chain[i].key) && IndexFor(chain[i].hash, length) == b
  }

  ghost predicate UniqueKeys<V>(chain: seq<Entry<V>>) {
    forall i, j :: 0 <= i < j < |chain| ==> chain[i].key != chain[j].key
  }

  /** Every bucket of `t` holds only entries that hash to it, each key once. */
  ghost predicate WellFormed<V>(t: seq<seq<Entry<V>>>) {
    |t| > 0 && forall b :: 0 <= b < |t| ==> BucketOk(t, b)
  }

  /** Bucket `b` of `t` holds only entries that hash to it, each key once. */
  ghost predicate BucketOk<V>(t: seq<seq<Entry<V>>>, b: int)
    requires 0 < |t| && 0 <= b < |t|
  {
    ChainIn(t[b], b, |t|) && UniqueKeys(t[b])
  }

  lemma BucketAt<V>(t: seq<seq<Entry<V>>>, b: int)
    requires WellFormed(t) && 0 <= b < |t|
    ensures ChainIn(t[b], b, |t|) && UniqueKeys(t[b])
  {
    assert BucketOk(t, b);
  }

  lemma {:induction false} MapOfKeys<V>(es: seq<Entry<V>>, k: int)
    ensures k in MapOf(es) <==> exists i :: 0 <= i < |es| && es[i].key == k
  {
    if es != [] {
      var n := |es| - 1;
      MapOfKeys(es[..n], k);
      if k in MapOf(es[..n]) {
        var i :| 0 <= i < n && es[..n][i].key == k;
        assert es[i].key == k;
      }
      if exists i :: 0 <= i < |es| && es[i].key == k {
        var i :| 0 <= i < |es| && es[i].key == k;
        if i < n {
          assert es[..n][i].key == k;
        }
      }
    }
  }

  lemma {:induction false} MapOfConcat<V>(a: seq<Entry<V>>, b: seq<Entry<V>>)
    ensures MapOf(a + b) == MapOf(a) + MapOf(b)
  {
    if b == [] {
      assert a + b == a;
    } else {
      var n := |b| - 1;
      var e := b[n];
      assert (a + b)[..|a + b| - 1] == a + b[..n];
      assert (a + b)[|a + b| - 1] == e;
      MapOfConcat(a, b[..n]);
      calc {
        MapOf(a + b);
        MapOf(a + b[..n])[e.key := e.value];
        (MapOf(a) + MapOf(b[..n]))[e.key := e.value];
        MapOf(a) + MapOf(b[..n])[e.key := e.value];
        MapOf(a) + MapOf(b);
      }
    }
  }

  /** In a chain with unique keys, entry `i` gives its key's value. */
  lemma {:induction false} MapOfAt<V>(chain: seq<Entry<V>>, i: int)
    requires UniqueKeys(chain) && 0 <= i < |chain|
    ensures chain[i].key in MapOf(chain) && MapOf(chain)[chain[i].key] == chain[i].value
  {
    var n := |chain| - 1;
    if i < n {
      MapOfAt(chain[..n], i);
    }
  }

  lemma {:induction false} MapOfSetValue<V>(chain: seq<Entry<V>>, i: int, v: Option<V>)
    requires UniqueKeys(chain) && 0 <= i < |chain|
    ensures MapOf(chain[i := chain[i].(value := v)]) == MapOf(chain)[chain[i].key := v]
  {
    var n := |chain| - 1;
    var c' := chain[i := chain[i].(value := v)];
    if i < n {
      assert c'[..n] == chain[..n][i := chain[i].(value := v)];
      MapOfSetValue(chain[..n], i, v);
    } else {
      assert c'[..n] == chain[..n];
      MapOfKeys(chain[..n], chain[i].key);
    }
  }

  lemma {:induction false} MapOfRemoveAt<V>(chain: seq<Entry<V>>, i: int)
    requires UniqueKeys(chain) && 0 <= i < |chain|
    ensures MapOf(chain[..i] + chain[i + 1..]) == MapOf(chain) - {chain[i].key}
  {
    var n := |chain| - 1;
    var k := chain[i].key;
    var init := chain[..n];
    var c := chain[..i] + chain[i + 1..];
    if i == n {
      assert c == init;
      MapOfKeys(init, k);
      assert forall j :: 0 <= j < |init| ==> init[j].key != k;
      MapDropLast(MapOf(init), k, chain[n].value);
    } else {
      assert UniqueKeys(init);
      assert init[i] == chain[i];
      MapOfRemoveAt(init, i);
      assert c[..|c| - 1] == init[..i] + init[i + 1..];
      assert c[|c| - 1] == chain[n];
      MapSwap(MapOf(init), k, chain[n].key, chain[n].value);
    }
  }

  lemma MapDropLast<V>(m: map<int, Option<V>>, k: int, v: Option<V>)
    requires k !in m
    ensures m[k := v] - {k} == m
  {
  }

  lemma MapSwap<V>(m: map<int, Option<V>>, k: int, k': int, v: Option<V>)
    requires k != k'
    ensures (m - {k})[k' := v] == m[k' := v] - {k}
  {
  }

  /** `m1` and `m2` say the same about key `k`. */
  ghost predicate SameOnKey<V>(m1: map<int, Option<V>>, m2: map<int, Option<V>>, k: int) {
    (k in m1 <==> k in m2) && (k in m1 ==> m1[k] == m2[k])
  }

  lemma {:induction false} FlattenSplit<V>(t: seq<seq<Entry<V>>>, j: int)
    requires 0 <= j <= |t|
    ensures Flatten(t) == Flatten(t[..j]) + Flatten(t[j..])
    decreases |t|
  {
    if j == |t| {
      assert t[..j] == t;
      assert t[j..] == [];
    } else {
      var n := |t| - 1;
      FlattenSplit(t[..n], j);
      assert t[..n][..j] == t[..j];
      assert t[j..][..|t[j..]| - 1] == t[..n][j..];
      assert t[j..][|t[j..]| - 1] == t[n];
    }
  }

  /** Entry `p` of bucket `b` sits at index `|Flatten(t[..b])| + p` of the iteration order. */
  lemma FlattenAt<V>(t: seq<seq<Entry<V>>>, b: int, p: int)
    requires 0 <= b < |t| && 0 <= p < |t[b]|
    ensures |Flatten(t[..b])| + p < |Flatten(t)|
    ensures Flatten(t)[|Flatten(t[..b])| + p] == t[b][p]
    ensures Flatten(t[..b + 1]) == Flatten(t[..b]) + t[b]
  {
    FlattenSplit(t, b + 1);
    assert t[..b + 1][..b] == t[..b];
  }

  /** Empty buckets add nothing to the iteration order. */
  lemma {:induction false} FlattenSkipEmpty<V>(t: seq<seq<Entry<V>>>, b: int, i: int)
    requires 0 <= b <= i <= |t|
    requires forall j :: b <= j < i ==> t[j] == []
    ensures Flatten(t[..i]) == Flatten(t[..b])
    decreases i
  {
    if i > b {
      FlattenSkipEmpty(t, b, i - 1);
      assert t[..i][..i - 1] == t[..i - 1];
    }
  }

  lemma FlattenReplace<V>(t: seq<seq<Entry<V>>>, b: int, c: seq<Entry<V>>)
    requires 0 <= b < |t|
    ensures Flatten(t[b := c]) == Flatten(t[..b]) + c + Flatten(t[b + 1..])
    ensures Flatten(t) == Flatten(t[..b]) + t[b] + Flatten(t[b + 1..])
    ensures |Flatten(t[b := c])| == |Flatten(t)| - |t[b]| + |c|
  {
    var t' := t[b := c];
    FlattenSplit(t', b + 1);
    FlattenSplit(t, b + 1);
    assert t'[..b + 1][..b] == t[..b];
    assert t[..b + 1][..b] == t[..b];
    assert t'[b + 1..] == t[b + 1..];
  }

  /**
   * Only bucket `IndexFor(Hash(k), |t|)` can hold key `k`, so the table's
   * mapping says about `k` what that one chain says.
   */
  lemma TableLookup<V>(t: seq<seq<Entry<V>>>, k: int)
    requires WellFormed(t)
    ensures SameOnKey(MapOf(Flatten(t)), MapOf(t[IndexFor(Hash(k), |t|)]), k)
  {
    PrefixLookup(t, |t|, k);
    assert t[..|t|] == t;
  }

  lemma {:induction false} PrefixLookup<V>(t: seq<seq<Entry<V>>>, j: int, k: int)
    requires WellFormed(t) && 0 <= j <= |t|
    ensures var b := IndexFor(Hash(k), |t|);
      SameOnKey(MapOf(Flatten(t[..j])), if b < j then MapOf(t[b]) else map[], k)
  {
    if j > 0 {
      var c := t[j - 1];
      PrefixLookup(t, j - 1, k);
      assert t[..j][..j - 1] == t[..j - 1];
      assert Flatten(t[..j]) == Flatten(t[..j - 1]) + c;
      MapOfConcat(Flatten(t[..j - 1]), c);
      if IndexFor(Hash(k), |t|) != j - 1 {
        assert forall i :: 0 <= i < |c| ==> c[i].key != k by {
          BucketAt(t, j - 1);
        }
        MapOfKeys(c, k);
      }
    }
  }

  lemma MapsAgree<V>(m1: map<int, Option<V>>, m2: map<int, Option<V>>)
    requires forall k :: SameOnKey(m1, m2, k)
    ensures m1 == m2
  {
    forall k ensures (k in m1 <==> k in m2) && (k in m1 ==> m1[k] == m2[k]) {
      assert SameOnKey(m1, m2, k);
    }
    assert m1.Keys == m2.Keys;
  }

  /** Replacing bucket `b` by a chain that also belongs there changes the mapping only on that bucket's keys. */
  lemma TableReplaceLookup<V>(t: seq<seq<Entry<V>>>, b: int, c: seq<Entry<V>>, k: int)
    requires WellFormed(t) && 0 <= b < |t| && ChainIn(c, b, |t|) && UniqueKeys(c)
    ensures WellFormed(t[b := c])
    ensures SameOnKey(MapOf(Flatten(t[b := c])),
                      if IndexFor(Hash(k), |t|) == b then MapOf(c) else MapOf(Flatten(t)), k)
  {
    var t' := t[b := c];
    assert WellFormed(t') by {
      forall j | 0 <= j < |t'| ensures BucketOk(t', j) {
        if j != b {
          assert t'[j] == t[j];
          BucketAt(t, j);
        }
      }
    }
    TableLookup(t', k);
    TableLookup(t, k);
  }

  /** The table-level effect of `put`: the bucket of `k` now maps `k` to `v`. */
  lemma TableUpdate<V>(t: seq<seq<Entry<V>>>, b: int, c: seq<Entry<V>>, k: int, v: Option<V>)
    requires WellFormed(t) && b == IndexFor(Hash(k), |t|)
    requires ChainIn(c, b, |t|) && UniqueKeys(c) && MapOf(c) == MapOf(t[b])[k := v]
    ensures WellFormed(t[b := c])
    ensures MapOf(Flatten(t[b := c])) == MapOf(Flatten(t))[k := v]
  {
    var after, expected := MapOf(Flatten(t[b := c])), MapOf(Flatten(t))[k := v];
    forall j ensures SameOnKey(after, expected, j) {
      TableReplaceLookup(t, b, c, j);
      TableLookup(t, j);
    }
    TableReplaceLookup(t, b, c, k);
    MapsAgree(after, expected);
  }

  /** The table-level effect of `remove`: key `k` is gone and nothing else changed. */
  lemma TableDelete<V>(t: seq<seq<Entry<V>>>, b: int, c: seq<Entry<V>>, k: int)
    requires WellFormed(t) && b == IndexFor(Hash(k), |t|)
    requires ChainIn(c, b, |t|) && UniqueKeys(c) && MapOf(c) == MapOf(t[b]) - {k}
    ensures WellFormed(t[b := c])
    ensures MapOf(Flatten(t[b := c])) == MapOf(Flatten(t)) - {k}
  {
    var after, expected := MapOf(Flatten(t[b := c])), MapOf(Flatten(t)) - {k};
    forall j ensures SameOnKey(after, expected, j) {
      TableReplaceLookup(t, b, c, j);
      TableLookup(t, j);
    }
    TableReplaceLookup(t, b, c, k);
    MapsAgree(after, expected);
  }

  lemma {:induction false} ChainCardinality<V>(c: seq<Entry<V>>)
    requires UniqueKeys(c)
    ensures |MapOf(c)| == |c|
  {
    if c != [] {
      var n := |c| - 1;
      ChainCardinality(c[..n]);
      MapOfKeys(c[..n], c[n].key);
      assert forall i :: 0 <= i < n ==> c[..n][i].key != c[n].key;
    }
  }

  /** Keys are unique across the whole table: it maps exactly as many keys as it holds entries. */
  lemma TableCardinality<V>(t: seq<seq<Entry<V>>>)
    requires WellFormed(t)
    ensures |MapOf(Flatten(t))| == |Flatten(t)|
  {
    PrefixCardinality(t, |t|);
    assert t[..|t|] == t;
  }

  lemma {:induction false} PrefixCardinality<V>(t: seq<seq<Entry<V>>>, j: int)
    requires WellFormed(t) && 0 <= j <= |t|
    ensures |MapOf(Flatten(t[..j]))| == |Flatten(t[..j])|
  {
    if j > 0 {
      var c := t[j - 1];
      var before := MapOf(Flatten(t[..j - 1]));
      PrefixCardinality(t, j - 1);
      assert t[..j][..j - 1] == t[..j - 1];
      assert Flatten(t[..j]) == Flatten(t[..j - 1]) + c;
      MapOfConcat(Flatten(t[..j - 1]), c);
      BucketAt(t, j - 1);
      ChainCardinality(c);
      forall k | k in MapOf(c) ensures k !in before {
        MapOfKeys(c, k);
        BucketAt(t, j - 1);
        PrefixLookup(t, j - 1, k);
      }
      assert (before + MapOf(c)).Keys == before.Keys + MapOf(c).Keys;
    }
  }

  /** Every bucket of `t` is empty. */
  ghost predicate AllEmpty<V>(t: seq<seq<Entry<V>>>) {
    forall b :: 0 <= b < |t| ==> t[b] == []
  }

  lemma EmptyTable<V>(t: seq<seq<Entry<V>>>)
    requires AllEmpty(t)
    ensures Flatten(t) == [] && MapOf(Flatten(t)) == map[]
  {
    FlattenSkipEmpty(t, 0, |t|);
    assert t[..|t|] == t;
  }

  /** A table of empty chains is well formed. */
  lemma EmptyWellFormed<V>(t: seq<seq<Entry<V>>>)
    requires |t| > 0 && AllEmpty(t)
    ensures WellFormed(t)
  {
    forall b | 0 <= b < |t|
      ensures BucketOk(t, b)
    {
      assert t[b] == [];
    }
  }

  /** A load factor equal to 0.75 triggers growth exactly when the default one does: when `4 * size > 3 * length`. */
  lemma DefaultExceeds(size: int, length: int, lf: LoadFactor)
    requires IsDefault(lf)
    ensures Exceeds(size, length, lf) <==> 4 * size > 3 * length
    ensures Exceeds(size, length, DEFAULT_LOAD_FACTOR) <==> 4 * size > 3 * length
  {
    assert 4 * (length * lf.num) == lf.den * (3 * length);
    assert 4 * (size * lf.den) == lf.den * (4 * size);
    if size * 4 > length * 3 {
      assert lf.den * (4 * size) > lf.den * (3 * length);
    } else {
      assert lf.den * (4 * size) <= lf.den * (3 * length);
    }
  }

  lemma MulMono(a: int, b: int, n: int)
    requires a <= b && n >= 0
    ensures a * n <= b * n
  {
  }

  /** Fewer entries never trigger growth where more did not: what keeps `remove` within the load factor. */
  lemma ShrinkKeepsBalance(size: int, smaller: int, length: int, lf: LoadFactor)
    requires smaller <= size && !Exceeds(size, length, lf)
    ensures !Exceeds(smaller, length, lf)
  {
    MulMono(smaller, size, lf.den);
  }

  /** `table.length < 2^30 && size > table.length * loadFactor`: the condition under which `put` grows the table. */
  predicate Grows(size: int, length: int, lf: LoadFactor) {
    length < MAXIMUM_CAPACITY && Exceeds(size, length, lf)
  }

  /** `length` is the bucket count the constructor derives from `cap`. */
  ghost predicate CapacityFor(cap: int, length: int) {
    && IsPow2(length) && 1 <= length <= MAXIMUM_CAPACITY
    && (cap <= MAXIMUM_CAPACITY ==> cap <= length && (length == 1 || length < 2 * cap))
    && (cap > MAXIMUM_CAPACITY ==> length == MAXIMUM_CAPACITY)
  }

  /**
   * MyHashMap. The ghost `Contents()` is the map the table denotes; `size`
   * is the source's counter, which `remove` leaves too high when the
   * removed value was null, so `Valid()` only bounds it from below.
   */
  class HashMap<V> {
    var table: array<seq<Entry<V>>>
    var loadFactor: LoadFactor
    var size: int
    var modCount: int

    ghost predicate Valid()
      reads this, table
    {
      && IsPow2(table.Length) && table.Length <= MAXIMUM_CAPACITY
      && loadFactor.num > 0
      && WellFormed(table[..])
      && |Flatten(table[..])| <= size
    }

    /** The (key, value) pairs the table holds. */
    ghost function Contents(): map<int, Option<V>>
      reads this, table
    {
      MapOf(Flatten(table[..]))
    }

    /** The number of entries in the chains. */
    ghost function Count(): nat
      reads this, table
    {
      |Flatten(table[..])|
    }

    /** The load-factor bound every completed `put` leaves behind. */
    ghost predicate Balanced()
      reads this, table
    {
      table.Length >= MAXIMUM_CAPACITY || !Exceeds(size, table.Length, loadFactor)
    }

    /** Keys are unique across the table, so `size` never undercounts the map. */
    lemma CountIsCardinality()
      requires Valid()
      ensures |Contents()| == Count() <= size
    {
      TableCardinality(table[..]);
    }

    /** MyHashMap(): sixteen empty buckets and load factor 0.75. */
    constructor ()
      ensures Valid() && Balanced() && fresh(table)
      ensures table.Length == DEFAULT_INITIAL_CAPACITY && loadFactor == DEFAULT_LOAD_FACTOR
      ensures Contents() == map[] && size == 0 && modCount == 0
    {
      table := new seq<Entry<V>>[DEFAULT_INITIAL_CAPACITY](_ => []);
      loadFactor := DEFAULT_LOAD_FACTOR;
      size, modCount := 0, 0;
      new;
      assert IsPow2(16);
      EmptyTable(table[..]);
    }

    /** MyHashMap(int, float) once its argument checks have passed. */
    constructor Sized(initialCapacity: int, lf: LoadFactor)
      requires 0 <= initialCapacity <= INT_MAX && lf.num > 0
      ensures Valid() && Balanced() && fresh(table)
      ensures CapacityFor(initialCapacity, table.Length) && loadFactor == lf
      ensures Contents() == map[] && size == 0 && modCount == 0
    {
      var length := MAXIMUM_CAPACITY;
      if initialCapacity <= MAXIMUM_CAPACITY {
        length := TableSizeFor(initialCapacity);
      } else {
        MaximumCapacityIsPow2();
      }
      table := new seq<Entry<V>>[length](_ => []);
      loadFactor := lf;
      size, modCount := 0, 0;
      new;
      EmptyTable(table[..]);
      EmptyWellFormed(table[..]);
      MulMono(0, table.Length, lf.num);
    }

    /**
     * MyHashMap(int) and MyHashMap(int, float): IllegalArgumentException for
     * a negative capacity or a load factor that is not positive (NaN included).
     */
    static method New(initialCapacity: int, lf: LoadFactor) returns (r: Result<HashMap<V>>)
      requires initialCapacity <= INT_MAX
      ensures r.Err? <==> initialCapacity < 0 || lf.num <= 0
      ensures r.Err? ==> r.fault == IllegalArgument
      ensures r.Ok? ==> fresh(r.value) && fresh(r.value.table) && r.value.Valid() && r.value.Balanced()
      ensures r.Ok? ==> CapacityFor(initialCapacity, r.value.table.Length) && r.value.loadFactor == lf
      ensures r.Ok? ==> r.value.Contents() == map[] && r.value.size == 0 && r.value.modCount == 0
    {
      if initialCapacity < 0 || lf.num <= 0 {
        return Err(IllegalArgument);
      }
      var m := new HashMap<V>.Sized(initialCapacity, lf);
      return Ok(m);
    }

    /** clear(): a fresh table of the same length, size 0, one more modification. */
    method Clear()
      requires Valid()
      modifies this
      ensures Valid() && Balanced() && fresh(table) && table.Length == old(table.Length)
      ensures Contents() == map[] && size == 0 && modCount == old(modCount) + 1
      ensures loadFactor == old(loadFactor)
    {
      table := new seq<Entry<V>>[table.Length](_ => []);
      size := 0;
      modCount := modCount + 1;
      EmptyTable(table[..]);
    }

    /** containsKey(key): scans the key's bucket only. */
    method ContainsKey(key: int) returns (found: bool)
      requires Valid()
      ensures found <==> key in Contents()
    {
      var b := IndexFor(Hash(key), table.Length);
      var chain := table[b];
      TableLookup(table[..], key);
      BucketAt(table[..], b);
      var i := 0;
      while i < |chain|
        invariant 0 <= i <= |chain|
        invariant forall j :: 0 <= j < i ==> chain[j].key != key
      {
        if chain[i].key == key {
          MapOfAt(chain, i);
          return true;
        }
        i := i + 1;
      }
      MapOfKeys(chain, key);
      return false;
    }

    /** get(key): the stored value, or null when the key is absent (or maps to null). */
    method Get(key: int) returns (r: Option<V>)
      requires Valid()
      ensures key in Contents() ==> r == Contents()[key]
      ensures key !in Contents() ==> r == None
    {
      var b := IndexFor(Hash(key), table.Length);
      var chain := table[b];
      TableLookup(table[..], key);
      BucketAt(table[..], b);
      var i := 0;
      while i < |chain|
        invariant 0 <= i <= |chain|
        invariant forall j :: 0 <= j < i ==> chain[j].key != key
      {
        if chain[i].key == key {
          MapOfAt(chain, i);
          return chain[i].value;
        }
        i := i + 1;
      }
      MapOfKeys(chain, key);
      return None;
    }

    /**
     * put(key, value): a thin wrapper that hashes the key for the private
     * overload below.
     */
    method Put(key: int, value: Option<V>) returns (r: Result<Option<V>>)
      requires Valid()
      modifies this, table
      ensures Valid() && loadFactor == old(loadFactor)
      ensures Contents() == old(Contents())[key := value]
      ensures key in old(Contents()) ==>
        r == Ok(old(Contents())[key]) && size == old(size) && modCount == old(modCount)
      ensures key !in old(Contents()) ==> size == old(size) + 1
      ensures key !in old(Contents()) ==>
        (r.Ok? <==> !Grows(size, old(table.Length), loadFactor) || old(size) == old(Count()))
      ensures key !in old(Contents()) && r.Ok? ==> r.value == None && modCount == old(modCount) + 1
      ensures r.Err? ==> r.fault == NoSuchElement && modCount == old(modCount)
      ensures old(Balanced()) && r.Ok? ==> Balanced()
    {
      r := PutHashed(Hash(key), key, value);
    }

    /**
     * put(int hashCode, key, value): overwrite the entry for `key` in its
     * bucket, or append a new entry at the chain's tail, count it, and grow
     * the table when the load factor is exceeded. The growth re-reads the
     * table through an iterator bounded by `size`; when `size` overcounts the
     * entries (after removing a null value) that iterator throws
     * NoSuchElementException out of `put`, after the entry was appended and
     * counted and before `modCount` moves.
     */
    method PutHashed(hash: int, key: int, value: Option<V>) returns (r: Result<Option<V>>)
      requires Valid() && hash == Hash(key)
      modifies this, table
      decreases MAXIMUM_CAPACITY - table.Length, 4
      ensures Valid() && loadFactor == old(loadFactor)
      ensures Contents() == old(Contents())[key := value]
      ensures table == old(table) || (fresh(table) && table.Length > old(table.Length))
      ensures key in old(Contents()) ==>
        && r == Ok(old(Contents())[key]) && size == old(size) && modCount == old(modCount)
        && table == old(table) && Count() == old(Count())
        && table[..] == PutInTable(old(table[..]), hash, key, value)
      ensures key !in old(Contents()) ==> size == old(size) + 1 && Count() == old(Count()) + 1
      ensures key !in old(Contents()) && !Grows(size, old(table.Length), loadFactor) ==>
        && r == Ok(None) && modCount == old(modCount) + 1
        && table == old(table) && table[..] == PutInTable(old(table[..]), hash, key, value)
      ensures key !in old(Contents()) && Grows(size, old(table.Length), loadFactor) ==>
        && (r.Ok? <==> old(size) == old(Count()))
        && (r.Ok? ==> r.value == None && modCount == old(modCount) + 1 && fresh(table))
        && (r.Ok? && IsDefault(loadFactor) && 2 * size <= 3 * old(table.Length) ==>
              table.Length == 2 * old(table.Length))
        && (r.Err? ==> r.fault == NoSuchElement && modCount == old(modCount) && table == old(table)
                       && table[..] == PutInTable(old(table[..]), hash, key, value))
      ensures old(Balanced()) && r.Ok? ==> Balanced()
    {
      var b := IndexFor(hash, table.Length);
      var chain := table[b];
      TablePut(table[..], hash, key, value);
      var i := FindKey(chain, key);
      if i < |chain| {
        var previous := chain[i].value;
        table[b] := chain[i := chain[i].(value := value)];
        assert table[..] == PutInTable(old(table[..]), hash, key, value);
        return Ok(previous);
      }
      table[b] := chain + [Entry(hash, key, value)];
      assert table[..] == PutInTable(old(table[..]), hash, key, value);
      size := size + 1;
      if Grows(size, table.Length, loadFactor) {
        var ok := Resize();
        if !ok {
          return Err(NoSuchElement);
        }
      }
      modCount := modCount + 1;
      return Ok(None);
    }

    /**
     * The capacity resize() asks for: twice the table for load factor 0.75,
     * otherwise tableSizeFor of the smallest count that `size` does not
     * overload. Every table at least that long and below the maximum is
     * large enough for `size`.
     */
    static method GrownCapacity(size: int, length: int, lf: LoadFactor) returns (newCap: int)
      requires IsPow2(length) && lf.num > 0 && size >= 0 && Grows(size, length, lf)
      ensures length < newCap <= INT_MAX
      ensures IsDefault(lf) ==> newCap == 2 * length
      ensures !IsDefault(lf) ==> forall l :: newCap <= l < MAXIMUM_CAPACITY ==> !Exceeds(size, l, lf)
    {
      if IsDefault(lf) {
        MaximumCapacityIsPow2();
        Pow2Below(length, MAXIMUM_CAPACITY);
        newCap := length * 2;
      } else {
        var ceil := CeilDiv(size, lf);
        if ceil < INT_MAX && ceil <= length {
          MulMono(ceil, length, lf.num);
        }
        newCap := TableSizeFor(ceil);
        forall l | newCap <= l < MAXIMUM_CAPACITY ensures !Exceeds(size, l, lf) {
          MulMono(ceil, l, lf.num);
        }
      }
    }

    /**
     * resize(): a new map of the grown capacity (doubled for load factor
     * 0.75, else the power of two that fits `size / loadFactor`) with the
     * default load factor, filled with `put` of every entry the iterator
     * yields, keeping each cached hash; its table then replaces this one.
     */
    method Resize() returns (ok: bool)
      requires Valid() && Grows(size, table.Length, loadFactor)
      modifies this
      decreases MAXIMUM_CAPACITY - table.Length, 3
      ensures Valid() && Contents() == old(Contents()) && Count() == old(Count())
      ensures size == old(size) && modCount == old(modCount) && loadFactor == old(loadFactor)
      ensures ok <==> old(Count()) == size
      ensures !ok ==> table == old(table)
      ensures ok ==> fresh(table)
      ensures ok ==> table.Length > old(table.Length)
      ensures ok ==> Balanced()
      ensures ok && IsDefault(loadFactor) && 2 * size <= 3 * old(table.Length) ==>
        table.Length == 2 * old(table.Length)
    {
      var grown;
      ok, grown := Rehash();
      if ok {
        table := grown;
      }
    }

    /**
     * The new table resize() builds: a map of the grown capacity with the
     * default load factor, filled by re-putting every entry of this one.
     */
    method Rehash() returns (ok: bool, grown: array<seq<Entry<V>>>)
      requires Valid() && Grows(size, table.Length, loadFactor)
      decreases MAXIMUM_CAPACITY - table.Length, 2
      ensures ok <==> Count() == size
      ensures ok ==> fresh(grown) && IsPow2(grown.Length) && table.Length < grown.Length <= MAXIMUM_CAPACITY
      ensures ok ==> WellFormed(grown[..]) && MapOf(Flatten(grown[..])) == Contents() && |Flatten(grown[..])| == size
      ensures ok ==> grown.Length >= MAXIMUM_CAPACITY || !Exceeds(size, grown.Length, loadFactor)
      ensures ok && IsDefault(loadFactor) && 2 * size <= 3 * table.Length ==> grown.Length == 2 * table.Length
    {
      var newCap := GrownCapacity(size, table.Length, loadFactor);
      var temp := new HashMap<V>.Sized(newCap, DEFAULT_LOAD_FACTOR);
      if IsDefault(loadFactor) {
        DoubledCapacity(table.Length, temp.table.Length);
      }
      ok := CopyInto(temp);
      grown := temp.table;
      if ok {
        if IsDefault(loadFactor) {
          DefaultExceeds(size, grown.Length, loadFactor);
          DefaultExceeds(size, grown.Length, DEFAULT_LOAD_FACTOR);
        } else if grown.Length < MAXIMUM_CAPACITY {
          assert newCap <= grown.Length;
          assert !Exceeds(size, grown.Length, loadFactor);
        }
      }
    }

    /**
     * The loop of resize(): walk this map with its iterator and `put` every
     * entry, with its cached hash, into the empty map `temp`. It stops with
     * `false` where the iterator throws NoSuchElementException, which happens
     * exactly when `size` counts more entries than the table holds.
     */
    method CopyInto(temp: HashMap<V>) returns (ok: bool)
      requires Valid() && temp.Valid() && temp.Balanced() && temp != this && temp.table != table
      requires temp.loadFactor == DEFAULT_LOAD_FACTOR && temp.size == 0 && temp.Count() == 0
      requires temp.table.Length > table.Length
      modifies temp, temp.table
      decreases MAXIMUM_CAPACITY - table.Length, 1
      ensures ok <==> Count() == size
      ensures ok ==> temp.Valid() && temp.Balanced() && temp.loadFactor == DEFAULT_LOAD_FACTOR
      ensures ok ==> temp.table.Length >= old(temp.table.Length)
      ensures temp.table == old(temp.table) || fresh(temp.table)
      ensures ok ==> temp.Contents() == Contents() && temp.size == temp.Count() == size
      ensures ok && 4 * size <= 3 * old(temp.table.Length) ==> temp.table.Length == old(temp.table.Length)
    {
      ghost var es := Flatten(table[..]);
      BucketsHashed(table[..]);
      FlattenHashes(table[..]);
      CountIsCardinality();
      var it := new HashIterator(this);
      assert es[..0] == [];
      while it.HasNext()
        invariant Walking(it, es)
        invariant temp.Filled(es[..it.count], it.count, table.Length, old(temp.table.Length), 4 * size <= 3 * old(temp.table.Length))
        invariant temp != this && (temp.table == old(temp.table) || fresh(temp.table))
        decreases size - it.count
      {
        ok := CopyNext(it, temp, es, old(temp.table.Length), 4 * size <= 3 * old(temp.table.Length));
        if !ok {
          CountIsCardinality();
          return false;
        }
      }
      CopyComplete(it, temp, es, old(temp.table.Length), 4 * size <= 3 * old(temp.table.Length));
      return true;
    }

    /** When the iterator stops of its own accord, every entry of this map has been copied into `temp`. */
    lemma CopyComplete(it: HashIterator<V>, temp: HashMap<V>, es: seq<Entry<V>>, length: int, exact: bool)
      requires Walking(it, es) && it.count >= size
      requires temp.Filled(es[..it.count], it.count, table.Length, length, exact)
      ensures Count() == size && temp.size == temp.Count() == size
      ensures temp.Contents() == Contents()
    {
      assert es[..it.count] == es;
      temp.CountIsCardinality();
      CountIsCardinality();
    }

    /** The iterator side of the resize loop: `it` walks this unchanged map, whose iteration order is `es`. */
    ghost predicate Walking(it: HashIterator<V>, es: seq<Entry<V>>)
      reads this, table, it
    {
      && Valid() && es == Flatten(table[..])
      && (forall x :: 0 <= x < |es| ==> es[x].hash == Hash(es[x].key))
      && it.owner == this && it.InSync() && it.expectedModCount == modCount && it.curBasket >= -1
    }

    /**
     * The receiving side of the resize loop: this map holds exactly the entries
     * `copied`, at most `count` of them, in a table longer than `shorter` and
     * at least `length` long, which is exactly `length` when `exact`.
     */
    ghost predicate Filled(copied: seq<Entry<V>>, count: int, shorter: int, length: int, exact: bool)
      reads this, table
    {
      && Valid() && Balanced() && loadFactor == DEFAULT_LOAD_FACTOR
      && table.Length >= length > shorter
      && size == Count() <= count && Contents() == MapOf(copied)
      && (exact ==> table.Length == length)
    }

    /** One round of the resize loop: the iterator's next entry, put into `temp` with its cached hash. */
    method CopyNext(it: HashIterator<V>, temp: HashMap<V>, ghost es: seq<Entry<V>>, ghost length: int, ghost exact: bool)
      returns (ok: bool)
      requires Walking(it, es) && it.count < size && temp != this
      requires temp.Filled(es[..it.count], it.count, table.Length, length, exact)
      requires exact ==> 4 * size <= 3 * length
      modifies it, temp, temp.table
      decreases MAXIMUM_CAPACITY - table.Length, 0
      ensures ok <==> old(it.count) < |es|
      ensures ok ==> Walking(it, es) && it.count == old(it.count) + 1
      ensures ok ==> temp.Filled(es[..it.count], it.count, table.Length, length, exact)
      ensures temp.table == old(temp.table) || fresh(temp.table)
    {
      ghost var count := it.count;
      var e := it.Next();
      if e.Err? {
        return false;
      }
      assert e.value == es[count] && it.count == count + 1;
      MapOfPrefix(es, count);
      DefaultExceeds(temp.size + 1, temp.table.Length, DEFAULT_LOAD_FACTOR);
      var previous := temp.PutHashed(e.value.hash, e.value.key, e.value.value);
      return true;
    }

    /**
     * remove(key): unlink the first entry for `key` from its bucket's chain.
     * `size` and `modCount` move only when the removed value was not null,
     * as in the source; a key mapped to null is unlinked but still counted.
     */
    method Remove(key: int) returns (r: Option<V>)
      requires Valid()
      modifies this, table
      ensures Valid() && table == old(table) && loadFactor == old(loadFactor)
      ensures table[..] == RemoveFromTable(old(table[..]), key)
      ensures Contents() == old(Contents()) - {key}
      ensures key in old(Contents()) ==> r == old(Contents())[key] && Count() == old(Count()) - 1
      ensures key !in old(Contents()) ==> r == None
      ensures size == old(size) - (if r.Some? then 1 else 0)
      ensures modCount == old(modCount) + (if r.Some? then 1 else 0)
      ensures old(Balanced()) ==> Balanced()
    {
      ghost var t0 := table[..];
      ghost var balanced := Balanced();
      TableRemove(t0, key);
      var b := IndexFor(Hash(key), table.Length);
      var chain := table[b];
      assert chain == t0[b];
      var i := FindKey(chain, key);
      if i == |chain| {
        return None;
      }
      r := chain[i].value;
      table[b] := chain[..i] + chain[i + 1..];
      assert table[..] == RemoveFromTable(t0, key);
      if r.Some? {
        size := size - 1;
        modCount := modCount + 1;
        if balanced && table.Length < MAXIMUM_CAPACITY {
          ShrinkKeepsBalance(size + 1, size, table.Length, loadFactor);
        }
      }
    }

    /** The scan `put` and `remove` make along a chain: the index of the entry for `key`, or the chain's length. */
    static method FindKey(chain: seq<Entry<V>>, key: int) returns (i: int)
      ensures i == KeyIndex(chain, key)
    {
      i := 0;
      while i < |chain| && chain[i].key != key
        invariant 0 <= i <= |chain|
        invariant forall j :: 0 <= j < i ==> chain[j].key != key
      {
        i := i + 1;
      }
    }
  }

  /** Position of the first entry for `key` in `chain`, or `|chain|` when there is none. */
  function KeyIndex<V>(chain: seq<Entry<V>>, key: int): (i: int)
    ensures 0 <= i <= |chain|
    ensures i < |chain| ==> chain[i].key == key
    ensures forall j :: 0 <= j < i ==> chain[j].key != key
  {
    if chain == [] then 0
    else if chain[0].key == key then 0
    else 1 + KeyIndex(chain[1..], key)
  }

  /** A chain after `put`: the value of the entry for `key` replaced in place, or a new entry at the tail. */
  function PutInChain<V>(chain: seq<Entry<V>>, hash: int, key: int, value: Option<V>): seq<Entry<V>> {
    var i := KeyIndex(chain, key);
    if i < |chain| then chain[i := chain[i].(value := value)] else chain + [Entry(hash, key, value)]
  }

  /** A chain after `remove`: the entry for `key` unlinked, the others in their order. */
  function Unlinked<V>(chain: seq<Entry<V>>, key: int): seq<Entry<V>> {
    var i := KeyIndex(chain, key);
    if i < |chain| then chain[..i] + chain[i + 1..] else chain
  }

  /** The table after `put` without growth: only the bucket `hash` selects changes. */
  function PutInTable<V>(t: seq<seq<Entry<V>>>, hash: int, key: int, value: Option<V>): seq<seq<Entry<V>>>
    requires |t| > 0
  {
    var b := IndexFor(hash, |t|);
    t[b := PutInChain(t[b], hash, key, value)]
  }

  /** The table after `remove`: only the bucket of `key` changes. */
  function RemoveFromTable<V>(t: seq<seq<Entry<V>>>, key: int): seq<seq<Entry<V>>>
    requires |t| > 0
  {
    var b := IndexFor(Hash(key), |t|);
    t[b := Unlinked(t[b], key)]
  }

  /** Every entry of the iteration order caches its key's hash. */
  lemma BucketsHashed<V>(t: seq<seq<Entry<V>>>)
    requires WellFormed(t)
    ensures forall b :: 0 <= b < |t| ==> forall i :: 0 <= i < |t[b]| ==> t[b][i].hash == Hash(t[b][i].key)
  {
    forall b | 0 <= b < |t| ensures forall i :: 0 <= i < |t[b]| ==> t[b][i].hash == Hash(t[b][i].key) {
      BucketAt(t, b);
    }
  }

  lemma {:induction false} FlattenHashes<V>(t: seq<seq<Entry<V>>>)
    requires forall b :: 0 <= b < |t| ==> forall i :: 0 <= i < |t[b]| ==> t[b][i].hash == Hash(t[b][i].key)
    ensures forall x :: 0 <= x < |Flatten(t)| ==> Flatten(t)[x].hash == Hash(Flatten(t)[x].key)
  {
    if t != [] {
      var n := |t| - 1;
      FlattenHashes(t[..n]);
      var f := Flatten(t[..n]);
      assert Flatten(t) == f + t[n];
      forall x | 0 <= x < |Flatten(t)| ensures Flatten(t)[x].hash == Hash(Flatten(t)[x].key) {
        if x >= |f| {
          assert Flatten(t)[x] == t[n][x - |f|];
        }
      }
    }
  }

  /** Appending a new key at the tail of its bucket, as a missing `put` does. */
  lemma AppendEntry<V>(t: seq<seq<Entry<V>>>, hash: int, key: int, value: Option<V>)
    requires WellFormed(t) && hash == Hash(key)
    requires forall j :: 0 <= j < |t[IndexFor(hash, |t|)]| ==> t[IndexFor(hash, |t|)][j].key != key
    ensures var b := IndexFor(hash, |t|);
      var t' := t[b := t[b] + [Entry(hash, key, value)]];
      && WellFormed(t')
      && MapOf(Flatten(t')) == MapOf(Flatten(t))[key := value]
      && |Flatten(t')| == |Flatten(t)| + 1
      && key !in MapOf(Flatten(t))
  {
    var b := IndexFor(hash, |t|);
    var c := t[b] + [Entry(hash, key, value)];
    assert c[..|c| - 1] == t[b];
    BucketAt(t, b);
    TableUpdate(t, b, c, key, value);
    FlattenReplace(t, b, c);
    TableLookup(t, key);
    MapOfKeys(t[b], key);
  }

  /** Overwriting the value of the entry at index `i` of the key's bucket, as a hitting `put` does. */
  lemma OverwriteEntry<V>(t: seq<seq<Entry<V>>>, b: int, i: int, value: Option<V>)
    requires WellFormed(t) && 0 <= b < |t| && 0 <= i < |t[b]|
    ensures var e := t[b][i];
      var t' := t[b := t[b][i := e.(value := value)]];
      && WellFormed(t')
      && e.key in MapOf(Flatten(t)) && MapOf(Flatten(t))[e.key] == e.value
      && MapOf(Flatten(t')) == MapOf(Flatten(t))[e.key := value]
      && |Flatten(t')| == |Flatten(t)|
  {
    var e := t[b][i];
    var c := t[b][i := e.(value := value)];
    BucketAt(t, b);
    MapOfSetValue(t[b], i, value);
    MapOfAt(t[b], i);
    TableLookup(t, e.key);
    TableUpdate(t, b, c, e.key, value);
    FlattenReplace(t, b, c);
  }

  /** Unlinking the entry at index `i` of the key's bucket, as `remove` does. */
  lemma UnlinkEntry<V>(t: seq<seq<Entry<V>>>, b: int, i: int)
    requires WellFormed(t) && 0 <= b < |t| && 0 <= i < |t[b]|
    ensures var e := t[b][i];
      var t' := t[b := t[b][..i] + t[b][i + 1..]];
      && WellFormed(t')
      && e.key in MapOf(Flatten(t)) && MapOf(Flatten(t))[e.key] == e.value
      && MapOf(Flatten(t')) == MapOf(Flatten(t)) - {e.key}
      && |Flatten(t')| == |Flatten(t)| - 1
  {
    var e := t[b][i];
    var c := t[b][..i] + t[b][i + 1..];
    BucketAt(t, b);
    assert UniqueKeys(c) by {
      forall x, y | 0 <= x < y < |c| ensures c[x].key != c[y].key {
        var x' := if x < i then x else x + 1;
        var y' := if y < i then y else y + 1;
        assert c[x] == t[b][x'] && c[y] == t[b][y'];
      }
    }
    assert ChainIn(c, b, |t|) by {
      forall x | 0 <= x < |c| ensures c[x].hash == Hash(c[x].key) && IndexFor(c[x].hash, |t|) == b {
        assert c[x] == t[b][if x < i then x else x + 1];
      }
    }
    MapOfRemoveAt(t[b], i);
    MapOfAt(t[b], i);
    TableLookup(t, e.key);
    TableDelete(t, b, c, e.key);
    FlattenReplace(t, b, c);
  }

  /** A key whose bucket holds no entry with that key is absent from the table. */
  lemma MissingKey<V>(t: seq<seq<Entry<V>>>, key: int)
    requires WellFormed(t)
    requires forall j :: 0 <= j < |t[IndexFor(Hash(key), |t|)]| ==> t[IndexFor(Hash(key), |t|)][j].key != key
    ensures key !in MapOf(Flatten(t))
  {
    TableLookup(t, key);
    MapOfKeys(t[IndexFor(Hash(key), |t|)], key);
  }

  /** What `put` without growth does to the table: the map gains `key := value`; a new key adds one entry. */
  lemma TablePut<V>(t: seq<seq<Entry<V>>>, hash: int, key: int, value: Option<V>)
    requires WellFormed(t) && hash == Hash(key)
    ensures var t' := PutInTable(t, hash, key, value);
      var m := MapOf(Flatten(t));
      var c := t[IndexFor(hash, |t|)];
      && WellFormed(t')
      && MapOf(Flatten(t')) == m[key := value]
      && (key in m <==> KeyIndex(c, key) < |c|)
      && (key in m ==> m[key] == c[KeyIndex(c, key)].value && |Flatten(t')| == |Flatten(t)|)
      && (key !in m ==> |Flatten(t')| == |Flatten(t)| + 1)
  {
    var b := IndexFor(hash, |t|);
    var i := KeyIndex(t[b], key);
    if i < |t[b]| {
      OverwriteEntry(t, b, i, value);
    } else {
      AppendEntry(t, hash, key, value);
    }
  }

  /** What `remove` does to the table: the key leaves the map; a present key takes one entry with it. */
  lemma TableRemove<V>(t: seq<seq<Entry<V>>>, key: int)
    requires WellFormed(t)
    ensures var t' := RemoveFromTable(t, key);
      var m := MapOf(Flatten(t));
      var c := t[IndexFor(Hash(key), |t|)];
      && WellFormed(t')
      && MapOf(Flatten(t')) == m - {key}
      && (key in m <==> KeyIndex(c, key) < |c|)
      && (key in m ==> m[key] == c[KeyIndex(c, key)].value && |Flatten(t')| == |Flatten(t)| - 1)
      && (key !in m ==> t' == t)
  {
    var b := IndexFor(Hash(key), |t|);
    var i := KeyIndex(t[b], key);
    if i < |t[b]| {
      UnlinkEntry(t, b, i);
    } else {
      MissingKey(t, key);
      assert t[b := t[b]] == t;
    }
  }

  /**
   * An iterator that has returned `count` entries of `t` stands at entry `p`
   * of bucket `b`, the entry at index `count - 1` of the iteration order.
   */
  ghost predicate Located<V>(t: seq<seq<Entry<V>>>, count: int, b: int, p: int) {
    && 0 <= count <= |Flatten(t)|
    && (count == 0 ==> b == -1 && p == -1)
    && (count > 0 ==> 0 <= b < |t| && 0 <= p < |t[b]| && |Flatten(t[..b])| + p == count - 1)
  }

  /** Stepping along the current chain reaches the next entry of the iteration order. */
  lemma StepInChain<V>(t: seq<seq<Entry<V>>>, count: int, b: int, p: int)
    requires Located(t, count, b, p) && 0 <= b < |t| && 0 <= p && p + 1 < |t[b]|
    ensures count < |Flatten(t)| && Flatten(t)[count] == t[b][p + 1]
    ensures Located(t, count + 1, b, p + 1)
  {
    FlattenAt(t, b, p + 1);
  }

  /** After the current chain, the head of the next non-empty bucket is the next entry. */
  lemma StepToBucket<V>(t: seq<seq<Entry<V>>>, count: int, b: int, p: int, nb: int)
    requires Located(t, count, b, p) && !(0 <= b < |t| && 0 <= p && p + 1 < |t[b]|)
    requires b < nb < |t| && t[nb] != [] && forall j :: b < j < nb ==> t[j] == []
    ensures count < |Flatten(t)| && Flatten(t)[count] == t[nb][0]
    ensures Located(t, count + 1, nb, 0)
  {
    if count > 0 {
      FlattenAt(t, b, p);
    }
    FlattenSkipEmpty(t, b + 1, nb);
    FlattenAt(t, nb, 0);
  }

  /** When every later bucket is empty, the iterator has returned every entry. */
  lemma StepPastEnd<V>(t: seq<seq<Entry<V>>>, count: int, b: int, p: int)
    requires Located(t, count, b, p) && !(0 <= b < |t| && 0 <= p && p + 1 < |t[b]|)
    requires forall j :: b < j < |t| ==> t[j] == []
    ensures count == |Flatten(t)|
  {
    if count > 0 {
      FlattenAt(t, b, p);
    }
    FlattenSkipEmpty(t, b + 1, |t|);
    assert t[..|t|] == t;
  }

  /** Overwriting the value of the entry an iterator stands at, as `setValue` does. */
  lemma SetValueAt<V>(t: seq<seq<Entry<V>>>, count: int, b: int, p: int, v: Option<V>)
    requires WellFormed(t) && Located(t, count, b, p) && count > 0
    ensures var e := t[b][p];
      var t' := t[b := t[b][p := e.(value := v)]];
      && Flatten(t)[count - 1] == e
      && WellFormed(t') && Located(t', count, b, p)
      && MapOf(Flatten(t')) == MapOf(Flatten(t))[e.key := v]
      && |Flatten(t')| == |Flatten(t)|
  {
    var e := t[b][p];
    var c' := t[b][p := e.(value := v)];
    var t' := t[b := c'];
    FlattenAt(t, b, p);
    BucketAt(t, b);
    MapOfSetValue(t[b], p, v);
    BucketAt(t, b);
    TableUpdate(t, b, c', e.key, v);
    FlattenReplace(t, b, c');
    assert t'[..b] == t[..b];
  }

  /**
   * MyHashMap.EntryIterator. `curBasket` and `curPos` locate the entry last
   * returned (`curPos == -1` while there is none); the source keeps a
   * reference to that entry instead, whose `next` still leads on after a
   * `remove` that leaves `modCount` alone, where a position can skip one.
   */
  class HashIterator<V> {
    const owner: HashMap<V>
    var count: int
    var curBasket: int
    var curPos: int
    var expectedModCount: int

    /** The iterator has returned exactly the first `count` entries of the iteration order. */
    ghost predicate InSync()
      reads this, owner, owner.table
    {
      Located(owner.table[..], count, curBasket, curPos)
    }

    constructor (m: HashMap<V>)
      requires m.Valid()
      ensures owner == m && count == 0 && curBasket == -1 && curPos == -1
      ensures expectedModCount == m.modCount && InSync()
    {
      owner := m;
      count, curBasket, curPos := 0, -1, -1;
      expectedModCount := m.modCount;
    }

    /** hasNext(): compares with the map's `size` field, not with the entries actually present. */
    predicate HasNext(): (b: bool)
      reads this, owner, owner.table
      ensures owner.Valid() && owner.size == owner.Count() ==> (b <==> count < owner.Count())
      ensures owner.Valid() && !b ==> count >= owner.Count()
    {
      count < owner.size
    }

    /** nextBasketHead(): the first non-empty bucket after `curBasket`, else NoSuchElementException. */
    method NextBasketHead() returns (found: bool)
      requires owner.Valid() && curBasket >= -1
      modifies this`curBasket
      ensures old(curBasket) < curBasket
      ensures forall j :: old(curBasket) < j < curBasket && j < owner.table.Length ==> owner.table[j] == []
      ensures found ==> curBasket < owner.table.Length && owner.table[curBasket] != []
      ensures !found ==> curBasket == old(curBasket) + 1
      ensures !found ==> forall j :: old(curBasket) < j < owner.table.Length ==> owner.table[j] == []
    {
      curBasket := curBasket + 1;
      var i := curBasket;
      while i < owner.table.Length
        invariant curBasket == old(curBasket) + 1 && curBasket <= i
        invariant i <= owner.table.Length || i == curBasket
        invariant forall j :: old(curBasket) < j < i && j < owner.table.Length ==> owner.table[j] == []
      {
        if owner.table[i] != [] {
          curBasket := i;
          return true;
        }
        i := i + 1;
      }
      return false;
    }

    /**
     * next(): NoSuchElementException once `count >= size`,
     * ConcurrentModificationException after a structural change, otherwise
     * the next entry of the iteration order (or NoSuchElementException when
     * `size` overcounts and the buckets run out first).
     */
    method Next() returns (r: Result<Entry<V>>)
      requires owner.Valid() && curBasket >= -1
      modifies this
      ensures expectedModCount == old(expectedModCount) && curBasket >= -1
      ensures old(count) >= owner.size ==> r == Err(NoSuchElement) && count == old(count)
      ensures old(count) < owner.size && expectedModCount != owner.modCount ==> r == Err(ConcurrentModification)
      ensures old(count) < owner.size && expectedModCount == owner.modCount && old(InSync()) ==>
        if old(count) < |Flatten(owner.table[..])|
        then r == Ok(Flatten(owner.table[..])[old(count)]) && count == old(count) + 1 && InSync()
        else r == Err(NoSuchElement) && count == old(count)
    {
      if count >= owner.size {
        return Err(NoSuchElement);
      }
      if expectedModCount != owner.modCount {
        return Err(ConcurrentModification);
      }
      ghost var t := owner.table[..];
      if 0 <= curBasket < owner.table.Length && 0 <= curPos && curPos + 1 < |owner.table[curBasket]| {
        if old(InSync()) {
          StepInChain(t, count, curBasket, curPos);
        }
        curPos := curPos + 1;
      } else {
        ghost var prev := curBasket;
        var found := NextBasketHead();
        if !found {
          if old(InSync()) {
            StepPastEnd(t, count, prev, curPos);
          }
          return Err(NoSuchElement);
        }
        if old(InSync()) {
          StepToBucket(t, count, prev, curPos, curBasket);
        }
        curPos := 0;
      }
      count := count + 1;
      r := Ok(owner.table[curBasket][curPos]);
    }

    /**
     * SimpleEntry.setValue on the entry `next()` returned last: the entry is
     * shared with the table, so the map's value for that key changes.
     */
    method SetValue(v: Option<V>) returns (previous: Option<V>)
      requires owner.Valid() && InSync() && count > 0
      modifies owner.table
      ensures owner.Valid() && InSync()
      ensures var e := old(Flatten(owner.table[..])[count - 1]);
        previous == e.value && owner.Contents() == old(owner.Contents())[e.key := v]
      ensures |Flatten(owner.table[..])| == old(|Flatten(owner.table[..])|)
    {
      ghost var t := owner.table[..];
      SetValueAt(t, count, curBasket, curPos, v);
      var chain := owner.table[curBasket];
      previous := chain[curPos].value;
      owner.table[curBasket] := chain[curPos := chain[curPos].(value := v)];
      assert owner.table[..] == t[curBasket := chain[curPos := chain[curPos].(value := v)]];
      assert IsPow2(owner.table.Length) && |Flatten(owner.table[..])| <= owner.size;
    }
  }
}
