/** The conformance scenarios that drive the radix tree, one method per
    scenario. Each scenario builds trees of every supported width, each
    over a pool of its own that is large enough for the scenario's sets,
    and returns what its reads observed; the contracts state the values the
    scenario expects to read. */
module RTreeTest {
  import opened Bits
  import opened RadixTree

  /** A pool-allocated tree of `bits` significant bits with nothing set and
      room left in its pool for `sets` calls of Set. */
  method Fresh(bits: nat, sets: nat) returns (t: RTree)
    requires 1 <= bits <= WordBits
    ensures fresh(t) && fresh(t.pool)
    ensures t.Valid() && t.bits == bits && t.levels == Partition(bits) && t.Contents == map[]
    ensures t.pool.available == sets * PathBytes(t.levels)
  {
    var pool := new Pool(RootBytes(bits) + sets * PathBytes(Partition(bits)));
    var made := RTree.New(bits, pool);
    t := made;
  }

  /** After `Set` whose pool had room for r >= 1 sets, the pool has room for r - 1. */
  lemma {:induction false} RoomAfterSet(before: nat, after: nat, r: nat, b: nat)
    requires r >= 1 && before >= r * b && after >= before - b
    ensures after >= (r - 1) * b
  {
    assert r * b == (r - 1) * b + b;
  }

  /** test_rtree_get_empty: a new tree of every width reads 0 at key 0. */
  method GetEmpty() returns (seen: seq<Word>)
    ensures |seen| == WordBits
    ensures forall n :: 0 <= n < |seen| ==> seen[n] == 0
  {
    seen := [];
    var bits := 1;
    while bits <= WordBits
      invariant 1 <= bits <= WordBits + 1 && |seen| == bits - 1
      invariant forall n :: 0 <= n < |seen| ==> seen[n] == 0
    {
      var t := Fresh(bits, 0);
      var v := t.Get(0);
      seen := seen + [v];
      bits := bits + 1;
    }
  }

  /** One width of test_rtree_extrema: key 0 and key ~0 each read back the
      value just stored under it. */
  method ExtremaRound(bits: nat) returns (low: Word, high: Word)
    requires 1 <= bits <= WordBits
    ensures low == 1 && high == 1
  {
    var t := Fresh(bits, 2);
    var before := t.pool.available;
    var ok := t.Set(0, 1);
    low := t.Get(0);
    RoomAfterSet(before, t.pool.available, 2, PathBytes(t.levels));
    ok := t.Set(MaxWord, 1);
    high := t.Get(MaxWord);
  }

  /** test_rtree_extrema over every width: the reads at 0 and at ~0. */
  method Extrema() returns (seen: seq<Word>)
    ensures |seen| == 2 * WordBits
    ensures forall n :: 0 <= n < |seen| ==> seen[n] == 1
  {
    seen := [];
    var bits := 1;
    while bits <= WordBits
      invariant 1 <= bits <= WordBits + 1 && |seen| == 2 * (bits - 1)
      invariant forall n :: 0 <= n < |seen| ==> seen[n] == 1
    {
      var low, high := ExtremaRound(bits);
      seen := seen + [low, high];
      bits := bits + 1;
    }
  }

  lemma {:induction false} NextMultiple(k: nat, b: nat)
    ensures (k + 1) * b == k * b + b
  {
  }

  /** A pool with room for n sets, after k < n of them, still has room for one. */
  lemma {:induction false} RoomLeft(start: nat, n: nat, k: nat, b: nat)
    requires k < n && start >= n * b
    ensures start - k * b >= b && (k + 1) * b == k * b + b
  {
    MulLe(b, k + 1, n);
    assert b * (k + 1) == b * k + b;
    assert n * b == b * n && k * b == b * k && (k + 1) * b == b * (k + 1);
  }

  lemma {:induction false} HalfRoom(n: nat, b: nat)
    ensures (2 * n) * b == n * b + n * b
  {
  }

  /** The window of each key, in order. */
  function Windows(keys: seq<Word>, bits: nat): (ws: seq<nat>)
    requires bits <= WordBits
    ensures |ws| == |keys| && forall k :: 0 <= k < |keys| ==> ws[k] == Prefix(keys[k], bits)
  {
    seq(|keys|, k requires 0 <= k < |keys| => Prefix(keys[k], bits))
  }

  /** The windows of one more key are one more window. */
  lemma {:induction false} WindowsSnoc(keys: seq<Word>, j: nat, bits: nat)
    requires j < |keys| && bits <= WordBits
    ensures Windows(keys[..j + 1], bits) == Windows(keys[..j], bits) + [Prefix(keys[j], bits)]
  {
    var a, b := Windows(keys[..j + 1], bits), Windows(keys[..j], bits) + [Prefix(keys[j], bits)];
    assert |a| == |b|;
    forall k | 0 <= k < |a|
      ensures a[k] == b[k]
    {
      if k < j {
        assert keys[..j + 1][k] == keys[..j][k];
      }
    }
  }

  /** One set that the pool has room for, and the read right after it. */
  method SetOne(t: RTree, key: Word, v: Word) returns (r: Word)
    requires t.Valid() && t.pool.available >= PathBytes(t.levels)
    modifies t, t.pool
    ensures t.Valid() && t.Contents == Store(old(t.Contents), Prefix(key, t.bits), v) && r == v
    ensures t.pool.available + PathBytes(t.levels) >= old(t.pool.available)
  {
    var ok := t.Set(key, v);
    r := t.Get(key);
  }

  /** Sets every key to v in turn, reading each back right after its set;
      uses at most one path of nodes per key. */
  method SetEach(t: RTree, keys: seq<Word>, v: Word) returns (seen: seq<Word>)
    requires t.Valid() && t.pool.available >= |keys| * PathBytes(t.levels)
    modifies t, t.pool
    ensures t.Valid() && t.Contents == StoreEach(old(t.Contents), Windows(keys, t.bits), v)
    ensures forall k :: 0 <= k < |keys| ==> ValueAt(t.Contents, Prefix(keys[k], t.bits)) == v
    ensures |seen| == |keys| && forall n :: 0 <= n < |seen| ==> seen[n] == v
    ensures t.pool.available + |keys| * PathBytes(t.levels) >= old(t.pool.available)
  {
    ghost var room := PathBytes(t.levels);
    seen := [];
    var j := 0;
    while j < |keys|
      invariant 0 <= j <= |keys| && t.Valid()
      invariant t.pool.available + j * room >= old(t.pool.available)
      invariant t.Contents == StoreEach(old(t.Contents), Windows(keys[..j], t.bits), v)
      invariant |seen| == j && forall n :: 0 <= n < |seen| ==> seen[n] == v
    {
      RoomLeft(old(t.pool.available), |keys|, j, room);
      var r := SetOne(t, keys[j], v);
      WindowsSnoc(keys, j, t.bits);
      StoreEachSnoc(old(t.Contents), Windows(keys[..j], t.bits), Prefix(keys[j], t.bits), v);
      seen := seen + [r];
      j := j + 1;
    }
    assert keys[..j] == keys;
  }

  /** Reads every key. */
  method GetEach(t: RTree, keys: seq<Word>) returns (seen: seq<Word>)
    requires t.Valid()
    ensures |seen| == |keys|
    ensures forall n :: 0 <= n < |keys| ==> seen[n] == ValueAt(t.Contents, Prefix(keys[n], t.bits))
  {
    seen := [];
    var j := 0;
    while j < |keys|
      invariant 0 <= j <= |keys| && |seen| == j
      invariant forall n :: 0 <= n < j ==> seen[n] == ValueAt(t.Contents, Prefix(keys[n], t.bits))
    {
      var r := t.Get(keys[j]);
      seen := seen + [r];
      j := j + 1;
    }
  }

  /** One key of test_rtree_bits: after setting `key` to 1, each of `keys`
      (all in key's window) reads 1 and `edge` (in the next window) reads 0;
      the key is then set back to 0, leaving the tree empty again. The reset
      hits a window that holds a value, so it needs no room in the pool. */
  method ProbeWindow(t: RTree, keys: seq<Word>, key: Word, edge: Word) returns (hits: seq<Word>, boundary: Word)
    requires t.Valid() && t.Contents == map[] && t.pool.available >= PathBytes(t.levels)
    requires Prefix(key, t.bits) == 0 && Prefix(edge, t.bits) == 1
    requires forall n :: 0 <= n < |keys| ==> Prefix(keys[n], t.bits) == 0
    modifies t, t.pool
    ensures t.Valid() && t.Contents == map[]
    ensures |hits| == |keys| && forall n :: 0 <= n < |hits| ==> hits[n] == 1
    ensures boundary == 0
    ensures t.pool.available + PathBytes(t.levels) >= old(t.pool.available)
  {
    var ok := t.Set(key, 1);
    hits := GetEach(t, keys);
    boundary := t.Get(edge);
    ghost var room := t.pool.available;
    ok := t.Set(key, 0);
    assert t.pool.available == room;
  }

  /** ProbeWindow for each of `keys` in turn, on a tree that starts empty. */
  method ProbeEach(t: RTree, keys: seq<Word>, edge: Word) returns (hits: seq<Word>, boundary: seq<Word>)
    requires t.Valid() && t.Contents == map[] && t.pool.available >= |keys| * PathBytes(t.levels)
    requires Prefix(edge, t.bits) == 1
    requires forall n :: 0 <= n < |keys| ==> Prefix(keys[n], t.bits) == 0
    modifies t, t.pool
    ensures t.Valid() && t.Contents == map[]
    ensures |hits| == |keys| * |keys| && forall n :: 0 <= n < |hits| ==> hits[n] == 1
    ensures |boundary| == |keys| && forall n :: 0 <= n < |boundary| ==> boundary[n] == 0
  {
    ghost var room := PathBytes(t.levels);
    hits, boundary := [], [];
    var j := 0;
    while j < |keys|
      invariant 0 <= j <= |keys|
      invariant t.Valid() && t.Contents == map[]
      invariant t.pool.available + j * room >= old(t.pool.available)
      invariant |hits| == j * |keys| && forall n :: 0 <= n < |hits| ==> hits[n] == 1
      invariant |boundary| == j && forall n :: 0 <= n < |boundary| ==> boundary[n] == 0
    {
      RoomLeft(old(t.pool.available), |keys|, j, room);
      NextMultiple(j, |keys|);
      var h, b := ProbeWindow(t, keys, keys[j], edge);
      hits, boundary := hits + h, boundary + [b];
      j := j + 1;
    }
  }

  /** One width of test_rtree_bits. The keys 0, 1 and (1 << (64 - bits)) - 1
      differ only in insignificant bits: setting any of them to 1 makes all
      three read 1, while the first key of the next window,
      1 << (64 - bits), still reads 0; each key is then set back to 0. */
  method BitsRound(bits: nat) returns (hits: seq<Word>, boundary: seq<Word>)
    requires 1 <= bits < WordBits
    ensures |hits| == 9 && forall n :: 0 <= n < |hits| ==> hits[n] == 1
    ensures |boundary| == 3 && forall n :: 0 <= n < |boundary| ==> boundary[n] == 0
  {
    BoundaryIsWindowOne(bits);
    var edge: Word := Pow2(WordBits - bits);
    var keys: seq<Word> := [0, 1, edge - 1];
    forall n | 0 <= n < |keys|
      ensures Prefix(keys[n], bits) == 0
    {
      BelowBoundaryIsWindowZero(bits, keys[n]);
    }
    var t := Fresh(bits, 3);
    assert |keys| == 3 && t.pool.available == |keys| * PathBytes(t.levels);
    hits, boundary := ProbeEach(t, keys, edge);
  }

  /** test_rtree_bits over widths 1..63: every read of a set key, and every
      read of the next window's first key. */
  method BitsTest() returns (hits: seq<Word>, boundary: seq<Word>)
    ensures |hits| == 9 * (WordBits - 1) && forall n :: 0 <= n < |hits| ==> hits[n] == 1
    ensures |boundary| == 3 * (WordBits - 1) && forall n :: 0 <= n < |boundary| ==> boundary[n] == 0
  {
    hits, boundary := [], [];
    var bits := 1;
    while bits < WordBits
      invariant 1 <= bits <= WordBits
      invariant |hits| == 9 * (bits - 1) && forall n :: 0 <= n < |hits| ==> hits[n] == 1
      invariant |boundary| == 3 * (bits - 1) && forall n :: 0 <= n < |boundary| ==> boundary[n] == 0
    {
      var h, b := BitsRound(bits);
      hits, boundary := hits + h, boundary + b;
      bits := bits + 1;
    }
  }

  /** The first half of a width of test_rtree_random: each key reads 1
      right after it is set, and all still read 1 once every key is set;
      the tree then holds only the keys' windows. */
  method Fill(t: RTree, keys: seq<Word>) returns (ones: seq<Word>)
    requires t.Valid() && t.Contents == map[] && t.pool.available >= |keys| * PathBytes(t.levels)
    modifies t, t.pool
    ensures t.Valid() && forall q :: q in t.Contents ==> q in Windows(keys, t.bits)
    ensures |ones| == 2 * |keys| && forall n :: 0 <= n < |ones| ==> ones[n] == 1
    ensures t.pool.available + |keys| * PathBytes(t.levels) >= old(t.pool.available)
  {
    var set1 := SetEach(t, keys, 1);
    var got1 := GetEach(t, keys);
    StoreEachKeys(map[], Windows(keys, t.bits), 1);
    ones := set1 + got1;
  }

  /** The second half: each key reads 0 right after it is set to 0, and all
      read 0 at the end, when the tree is empty again. */
  method Clear(t: RTree, keys: seq<Word>) returns (zeros: seq<Word>)
    requires t.Valid() && t.pool.available >= |keys| * PathBytes(t.levels)
    requires forall q :: q in t.Contents ==> q in Windows(keys, t.bits)
    modifies t, t.pool
    ensures t.Valid() && t.Contents == map[]
    ensures |zeros| == 2 * |keys| && forall n :: 0 <= n < |zeros| ==> zeros[n] == 0
  {
    StoreEachZeroErases(t.Contents, Windows(keys, t.bits));
    var set0 := SetEach(t, keys, 0);
    var got0 := GetEach(t, keys);
    zeros := set0 + got0;
  }

  /** One width of test_rtree_random over arbitrary keys. */
  method RandomRound(bits: nat, keys: seq<Word>) returns (ones: seq<Word>, zeros: seq<Word>)
    requires 1 <= bits <= WordBits
    ensures |ones| == 2 * |keys| && forall n :: 0 <= n < |ones| ==> ones[n] == 1
    ensures |zeros| == 2 * |keys| && forall n :: 0 <= n < |zeros| ==> zeros[n] == 0
  {
    var t := Fresh(bits, 2 * |keys|);
    HalfRoom(|keys|, PathBytes(t.levels));
    ones := Fill(t, keys);
    zeros := Clear(t, keys);
  }

  /** Keys drawn per width by test_rtree_random. */
  const NSet: nat := 100

  /** test_rtree_random over every width. The keys come from a seeded
      generator whose state carries over from one width to the next, so
      each width gets a batch of its own: draws[i] holds the NSet keys of
      width i + 1. */
  method Random(draws: seq<seq<Word>>) returns (ones: seq<Word>, zeros: seq<Word>)
    requires |draws| == WordBits && forall i :: 0 <= i < |draws| ==> |draws[i]| == NSet
    ensures |ones| == 2 * NSet * WordBits && forall n :: 0 <= n < |ones| ==> ones[n] == 1
    ensures |zeros| == 2 * NSet * WordBits && forall n :: 0 <= n < |zeros| ==> zeros[n] == 0
  {
    ones, zeros := [], [];
    var bits := 1;
    while bits <= WordBits
      invariant 1 <= bits <= WordBits + 1
      invariant |ones| == 2 * NSet * (bits - 1) && forall n :: 0 <= n < |ones| ==> ones[n] == 1
      invariant |zeros| == 2 * NSet * (bits - 1) && forall n :: 0 <= n < |zeros| ==> zeros[n] == 0
    {
      var o, z := RandomRound(bits, draws[bits - 1]);
      ones, zeros := ones + o, zeros + z;
      bits := bits + 1;
    }
  }
}
