/** The radix tree engine: a map from 64-bit keys to word values in which
    only the top `bits` bits of a key matter. Interior nodes hold one child
    slot per index value, leaves one value slot; a node is allocated from
    the pool the first time a `Set` walks through its absent slot, and 0 is
    the value of every key nobody set. The nodes live in a slab (an arena
    indexed by node number) owned by the tree, and a child slot holds the
    child's slab index. */
module RadixTree {
  import opened Bits

  /** Bytes of one slot: a child reference or a stored value is one word. */
  const SlotBytes: nat := 8

  /** Bytes of a node at level l. */
  function NodeBytes(levels: seq<nat>, l: nat): nat
    requires l < |levels|
  {
    SlotBytes * Pow2(levels[l])
  }

  /** Bytes of the nodes at levels 1..l, the most a walk down to level l allocates. */
  function GrowthBytes(levels: seq<nat>, l: nat): nat
    requires l < |levels|
  {
    if l == 0 then 0 else GrowthBytes(levels, l - 1) + NodeBytes(levels, l)
  }

  /** The most one `Set` can ask of the pool: one node per level below the root. */
  function PathBytes(levels: seq<nat>): nat
    requires |levels| >= 1
  {
    GrowthBytes(levels, |levels| - 1)
  }

  /** What construction asks of the pool: the root node. */
  function RootBytes(bits: nat): nat
    requires 1 <= bits
  {
    NodeBytes(Partition(bits), 0)
  }

  /** Bytes of the nodes of levels l + 1 .. |levels| - 1 on the index path
      idx that `nodeAt` lacks: what a set's walk from level l allocates. */
  function MissingBytes(levels: seq<nat>, nodeAt: map<seq<nat>, nat>, idx: seq<nat>, l: nat): nat
    requires l < |levels| == |idx|
    decreases |levels| - l
  {
    if l + 1 == |levels| then 0
    else (if idx[..l + 1] in nodeAt then 0 else NodeBytes(levels, l + 1)) + MissingBytes(levels, nodeAt, idx, l + 1)
  }

  /** The nodes missing below level l cost at most the nodes of levels
      l + 1 .. |levels| - 1 of one full path. */
  lemma {:induction false} MissingAtMost(levels: seq<nat>, nodeAt: map<seq<nat>, nat>, idx: seq<nat>, l: nat)
    requires l < |levels| == |idx|
    ensures GrowthBytes(levels, l) + MissingBytes(levels, nodeAt, idx, l) <= PathBytes(levels)
    decreases |levels| - l
  {
    if l + 1 < |levels| {
      MissingAtMost(levels, nodeAt, idx, l + 1);
    }
  }

  // ---------------------------------------------------------------------
  // The abstract map: absent keys read 0

  function ValueAt<K(==)>(m: map<K, Word>, p: K): Word
  {
    if p in m then m[p] else 0
  }

  /** The map after `set(p, v)`: only nonzero values are kept, so storing 0
      removes the key. */
  function Store<K(==,!new)>(m: map<K, Word>, p: K, v: Word): (r: map<K, Word>)
    ensures ValueAt(r, p) == v
    ensures forall q :: q != p ==> ValueAt(r, q) == ValueAt(m, q)
    ensures r.Keys <= m.Keys + {p}
    ensures p in r <==> v != 0
  {
    if v == 0 then m - {p} else m[p := v]
  }

  /** The map after storing v under each of ps in turn, first to last. */
  function StoreEach(m: map<nat, Word>, ps: seq<nat>, v: Word): (r: map<nat, Word>)
    ensures forall k :: 0 <= k < |ps| ==> ValueAt(r, ps[k]) == v
    ensures forall q :: q !in ps ==> ValueAt(r, q) == ValueAt(m, q)
    decreases |ps|
  {
    if ps == [] then m else StoreEach(Store(m, ps[0], v), ps[1..], v)
  }

  /** Storing under one more window extends the run of stores by one. */
  lemma {:induction false} StoreEachSnoc(m: map<nat, Word>, ps: seq<nat>, p: nat, v: Word)
    ensures StoreEach(m, ps + [p], v) == Store(StoreEach(m, ps, v), p, v)
    decreases |ps|
  {
    if ps != [] {
      assert (ps + [p])[1..] == ps[1..] + [p];
      StoreEachSnoc(Store(m, ps[0], v), ps[1..], p, v);
    }
  }

  /** Storing 0 under every window a map holds leaves it empty: afterwards
      every window, not just the stored ones, reads 0. */
  lemma {:induction false} StoreEachZeroErases(m: map<nat, Word>, ps: seq<nat>)
    requires forall q :: q in m ==> q in ps
    ensures StoreEach(m, ps, 0) == map[]
    decreases |ps|
  {
    if ps != [] {
      var m' := Store(m, ps[0], 0);
      forall q | q in m'
        ensures q in ps[1..]
      {
        assert q in ps && q != ps[0];
      }
      StoreEachZeroErases(m', ps[1..]);
    }
  }

  /** A run of stores adds no window outside the run. */
  lemma {:induction false} StoreEachKeys(m: map<nat, Word>, ps: seq<nat>, v: Word)
    ensures forall q :: q in StoreEach(m, ps, v) ==> q in m || q in ps
    decreases |ps|
  {
    if ps != [] {
      StoreEachKeys(Store(m, ps[0], v), ps[1..], v);
    }
  }

  /** `contents` (window -> value) is the abstract map of a tree whose leaf
      slots, addressed by index path, are `slots`: every key is a window of
      `bits` bits with a nonzero value, and each window reads the same in
      both maps through its index path. */
  ghost predicate Mirrors(levels: seq<nat>, bits: nat, slots: map<seq<nat>, Word>, contents: map<nat, Word>)
  {
    && (forall p :: p in contents ==> p < Pow2(bits) && contents[p] != 0)
    && (forall p: nat :: p < Pow2(bits) ==> ValueAt(slots, Indices(levels, p)) == ValueAt(contents, p))
  }

  /** Storing a window's value in both maps keeps them mirrored: distinct
      windows have distinct index paths. */
  lemma {:induction false} MirrorsStore(levels: seq<nat>, bits: nat, slots: map<seq<nat>, Word>,
                                        contents: map<nat, Word>, p: nat, v: Word)
    requires ValidLevels(levels, bits) && Mirrors(levels, bits, slots, contents) && p < Pow2(bits)
    ensures Mirrors(levels, bits, Store(slots, Indices(levels, p), v), Store(contents, p, v))
  {
    var slots', contents' := Store(slots, Indices(levels, p), v), Store(contents, p, v);
    forall q: nat | q < Pow2(bits)
      ensures ValueAt(slots', Indices(levels, q)) == ValueAt(contents', q)
    {
      if q != p {
        IndicesInjective(levels, p, q);
      }
    }
  }

  /** Every node of `before` is still in `after`, at the same slab index. */
  ghost predicate Kept(before: map<seq<nat>, nat>, after: map<seq<nat>, nat>)
  {
    forall P :: P in before ==> P in after && after[P] == before[P]
  }

  /** Every index path in `after` but not in `before` is a prefix of `idx`
      of length at most l: the nodes added between the two lie on idx's own
      path, at levels 1..l, so there is at most one of them per level. */
  ghost predicate GrowsAlong(before: map<seq<nat>, nat>, after: map<seq<nat>, nat>, idx: seq<nat>, l: nat)
  {
    forall P :: P in after && P !in before ==> P <= idx && |P| <= l
  }

  /** Growth along a path in two steps is growth along it in one. */
  lemma {:induction false} GrowsAlongTrans(a: map<seq<nat>, nat>, b: map<seq<nat>, nat>, c: map<seq<nat>, nat>, idx: seq<nat>, l: nat, m: nat)
    requires l <= m && GrowsAlong(a, b, idx, l) && GrowsAlong(b, c, idx, m)
    ensures GrowsAlong(a, c, idx, m)
  {
    forall P | P in c && P !in a
      ensures P <= idx && |P| <= m
    {
      if P !in b {
        assert P in c && P !in b;
      }
    }
  }

  /** A prefix of a prefix of an index path is a prefix of the path. */
  lemma PrefixOfPrefix(s: seq<nat>, a: nat, b: nat)
    requires b <= a <= |s|
    ensures s[..a][..b] == s[..b]
  {
  }

  // ---------------------------------------------------------------------
  // The pool allocator binding

  /** The memory source the tree allocates its nodes from. It is borrowed:
      the tree keeps a reference but never owns it. `available` is the
      number of bytes it can still hand out. */
  class Pool {
    var available: nat

    constructor (bytes: nat)
      ensures available == bytes
    {
      available := bytes;
    }

    /** allocate(size): succeeds exactly when the pool still has `size` bytes. */
    method Allocate(size: nat) returns (ok: bool)
      modifies this
      ensures ok == (size <= old(available))
      ensures available == if ok then old(available) - size else old(available)
    {
      ok := size <= available;
      if ok {
        available := available - size;
      }
    }
  }

  // ---------------------------------------------------------------------
  // Nodes and the slab that holds them

  /** A node: an interior node has one slot per child, holding the slab index
      of that child or 0 when it is absent (index 0 is the root, which is no
      node's child); a leaf has one stored value per slot. */
  datatype Node = Interior(children: seq<nat>) | Leaf(values: seq<Word>)

  /** `node` has the kind and the fan-out of level l. */
  ghost predicate Fits(levels: seq<nat>, l: nat, node: Node)
  {
    && l < |levels|
    && if l < |levels| - 1 then node.Interior? && |node.children| == Pow2(levels[l])
       else node.Leaf? && |node.values| == Pow2(levels[l])
  }

  /** A freshly allocated, zeroed node of level l: every slot absent. */
  function Blank(levels: seq<nat>, l: nat): (node: Node)
    requires l < |levels|
    ensures Fits(levels, l, node)
    ensures node.Interior? ==> forall j :: 0 <= j < |node.children| ==> node.children[j] == 0
    ensures node.Leaf? ==> forall j :: 0 <= j < |node.values| ==> node.values[j] == 0
  {
    if l < |levels| - 1 then Interior(seq(Pow2(levels[l]), _ => 0)) else Leaf(seq(Pow2(levels[l]), _ => 0))
  }

  /** The slab after appending `child` and linking it into slot j of node n. */
  function Attach(slab: seq<Node>, n: nat, j: nat, child: Node): (r: seq<Node>)
    requires n < |slab| && slab[n].Interior? && j < |slab[n].children|
    ensures |r| == |slab| + 1 && r[|slab|] == child
    ensures r[n] == Interior(slab[n].children[j := |slab|])
    ensures forall k :: 0 <= k < |slab| && k != n ==> r[k] == slab[k]
  {
    (slab + [child])[n := Interior(slab[n].children[j := |slab|])]
  }

  // ---------------------------------------------------------------------
  // The tree invariant, on values

  /** The allocated nodes: nodeAt (index path -> slab index) and pathOf
      (slab index -> index path) are inverse bijections, the root is node 0
      at the empty path, every node fits its level, and every ancestor of an
      allocated node is allocated. */
  ghost predicate Shaped(levels: seq<nat>, slab: seq<Node>, nodeAt: map<seq<nat>, nat>, pathOf: seq<seq<nat>>)
  {
    && |slab| == |pathOf| >= 1
    && [] in nodeAt && nodeAt[[]] == 0
    && (forall P :: P in nodeAt ==> nodeAt[P] < |pathOf| && pathOf[nodeAt[P]] == P)
    && (forall n :: 0 <= n < |pathOf| ==> pathOf[n] in nodeAt && nodeAt[pathOf[n]] == n)
    && (forall n :: 0 <= n < |slab| && n < |pathOf| ==> Fits(levels, |pathOf[n]|, slab[n]))
    && (forall P, k {:trigger P[..k] in nodeAt} :: P in nodeAt && 0 <= k <= |P| ==> P[..k] in nodeAt)
  }

  /** A child slot is absent exactly when the extended path is not
      allocated, and otherwise holds that path's node. */
  ghost predicate Linked(slab: seq<Node>, nodeAt: map<seq<nat>, nat>, pathOf: seq<seq<nat>>)
  {
    forall n, j {:trigger slab[n].children[j]} ::
      0 <= n < |slab| && n < |pathOf| && slab[n].Interior? && 0 <= j < |slab[n].children| ==>
        if slab[n].children[j] == 0 then pathOf[n] + [j] !in nodeAt
        else pathOf[n] + [j] in nodeAt && nodeAt[pathOf[n] + [j]] == slab[n].children[j]
  }

  /** Every leaf slot holds the value recorded for its full path. */
  ghost predicate Stored(slab: seq<Node>, pathOf: seq<seq<nat>>, slots: map<seq<nat>, Word>)
  {
    forall n, j {:trigger slab[n].values[j]} ::
      0 <= n < |slab| && n < |pathOf| && slab[n].Leaf? && 0 <= j < |slab[n].values| ==>
        slab[n].values[j] == ValueAt(slots, pathOf[n] + [j])
  }

  /** Every recorded slot holds a nonzero value at a full path whose leaf is allocated. */
  ghost predicate Reached(levels: seq<nat>, nodeAt: map<seq<nat>, nat>, slots: map<seq<nat>, Word>)
  {
    forall Q {:trigger Q in slots} :: Q in slots ==> slots[Q] != 0 && |Q| == |levels| >= 1 && Q[..|levels| - 1] in nodeAt
  }

  ghost predicate Tree(bits: nat, levels: seq<nat>, slab: seq<Node>, nodeAt: map<seq<nat>, nat>,
                       pathOf: seq<seq<nat>>, slots: map<seq<nat>, Word>)
  {
    && 1 <= bits <= WordBits && ValidLevels(levels, bits)
    && Shaped(levels, slab, nodeAt, pathOf) && Linked(slab, nodeAt, pathOf)
    && Stored(slab, pathOf, slots) && Reached(levels, nodeAt, slots)
  }

  // ---------------------------------------------------------------------
  // Growing a child and writing a leaf keep the tree invariant

  lemma {:induction false} GrowShaped(levels: seq<nat>, slab: seq<Node>, nodeAt: map<seq<nat>, nat>, pathOf: seq<seq<nat>>, n: nat, j: nat)
    requires Shaped(levels, slab, nodeAt, pathOf) && Linked(slab, nodeAt, pathOf)
    requires n < |slab| && slab[n].Interior? && j < |slab[n].children| && slab[n].children[j] == 0
    ensures |pathOf[n]| + 1 < |levels|
    ensures Shaped(levels, Attach(slab, n, j, Blank(levels, |pathOf[n]| + 1)),
                   nodeAt[pathOf[n] + [j] := |slab|], pathOf + [pathOf[n] + [j]])
  {
    var Q: seq<nat> := pathOf[n] + [j];
    var slab', nodeAt', pathOf' := Attach(slab, n, j, Blank(levels, |Q|)), nodeAt[Q := |slab|], pathOf + [Q];
    assert Q !in nodeAt;
    forall m | 0 <= m < |slab'| && m < |pathOf'|
      ensures Fits(levels, |pathOf'[m]|, slab'[m])
    {
      if m < |slab| {
        assert Fits(levels, |pathOf[m]|, slab[m]);
      }
    }
    forall P, k | P in nodeAt' && 0 <= k <= |P|
      ensures P[..k] in nodeAt'
    {
      if P == Q {
        if k <= |pathOf[n]| {
          assert P[..k] == pathOf[n][..k];
        } else {
          assert P[..k] == Q;
        }
      }
    }
  }

  lemma {:induction false} GrowLinked(levels: seq<nat>, slab: seq<Node>, nodeAt: map<seq<nat>, nat>, pathOf: seq<seq<nat>>, n: nat, j: nat)
    requires Shaped(levels, slab, nodeAt, pathOf) && Linked(slab, nodeAt, pathOf)
    requires n < |slab| && slab[n].Interior? && j < |slab[n].children| && slab[n].children[j] == 0
    requires |pathOf[n]| + 1 < |levels|
    ensures Linked(Attach(slab, n, j, Blank(levels, |pathOf[n]| + 1)),
                   nodeAt[pathOf[n] + [j] := |slab|], pathOf + [pathOf[n] + [j]])
  {
    var Q: seq<nat> := pathOf[n] + [j];
    var slab', nodeAt', pathOf' := Attach(slab, n, j, Blank(levels, |Q|)), nodeAt[Q := |slab|], pathOf + [Q];
    forall m, i | 0 <= m < |slab'| && m < |pathOf'| && slab'[m].Interior? && 0 <= i < |slab'[m].children|
      ensures if slab'[m].children[i] == 0 then pathOf'[m] + [i] !in nodeAt'
              else pathOf'[m] + [i] in nodeAt' && nodeAt'[pathOf'[m] + [i]] == slab'[m].children[i]
    {
      if m == |slab| {
        assert (Q + [i])[..|Q|] == Q;
      } else if m == n {
        if i != j {
          assert slab'[m].children[i] == slab[n].children[i];
        }
      } else {
        assert slab'[m].children[i] == slab[m].children[i];
        assert (pathOf[m] + [i])[..|pathOf[m]|] == pathOf[m] && Q[..|pathOf[n]|] == pathOf[n];
      }
    }
  }

  lemma {:induction false} GrowStored(levels: seq<nat>, slab: seq<Node>, nodeAt: map<seq<nat>, nat>, pathOf: seq<seq<nat>>,
                   slots: map<seq<nat>, Word>, n: nat, j: nat)
    requires Shaped(levels, slab, nodeAt, pathOf) && Linked(slab, nodeAt, pathOf)
    requires Stored(slab, pathOf, slots) && Reached(levels, nodeAt, slots)
    requires n < |slab| && slab[n].Interior? && j < |slab[n].children| && slab[n].children[j] == 0
    requires |pathOf[n]| + 1 < |levels|
    ensures Stored(Attach(slab, n, j, Blank(levels, |pathOf[n]| + 1)), pathOf + [pathOf[n] + [j]], slots)
  {
    var Q: seq<nat> := pathOf[n] + [j];
    var slab', pathOf' := Attach(slab, n, j, Blank(levels, |Q|)), pathOf + [Q];
    forall m, i | 0 <= m < |slab'| && m < |pathOf'| && slab'[m].Leaf? && 0 <= i < |slab'[m].values|
      ensures slab'[m].values[i] == ValueAt(slots, pathOf'[m] + [i])
    {
      if m == |slab| {
        assert (Q + [i])[..|levels| - 1] == Q;
      } else {
        assert slab'[m] == slab[m];
      }
    }
  }

  /** Linking a zeroed node into an absent child slot of node n keeps the
      tree: the new node is reached through that slot alone and reads 0. */
  lemma {:induction false} GrowTree(bits: nat, levels: seq<nat>, slab: seq<Node>, nodeAt: map<seq<nat>, nat>,
                                    pathOf: seq<seq<nat>>, slots: map<seq<nat>, Word>,
                                    n: nat, l: nat, j: nat, Q: seq<nat>)
    requires Tree(bits, levels, slab, nodeAt, pathOf, slots)
    requires n < |slab| && slab[n].Interior? && j < |slab[n].children| && slab[n].children[j] == 0
    requires l == |pathOf[n]| && Q == pathOf[n] + [j]
    ensures l + 1 < |levels|
    ensures Tree(bits, levels, Attach(slab, n, j, Blank(levels, l + 1)), nodeAt[Q := |slab|], pathOf + [Q], slots)
  {
    GrowShaped(levels, slab, nodeAt, pathOf, n, j);
    GrowLinked(levels, slab, nodeAt, pathOf, n, j);
    GrowStored(levels, slab, nodeAt, pathOf, slots, n, j);
  }

  lemma {:induction false} WriteShapedLinked(levels: seq<nat>, slab: seq<Node>, nodeAt: map<seq<nat>, nat>,
                          pathOf: seq<seq<nat>>, n: nat, j: nat, v: Word)
    requires Shaped(levels, slab, nodeAt, pathOf) && Linked(slab, nodeAt, pathOf)
    requires n < |slab| && slab[n].Leaf? && j < |slab[n].values|
    ensures Shaped(levels, slab[n := Leaf(slab[n].values[j := v])], nodeAt, pathOf)
    ensures Linked(slab[n := Leaf(slab[n].values[j := v])], nodeAt, pathOf)
  {
    var slab' := slab[n := Leaf(slab[n].values[j := v])];
    forall m | 0 <= m < |slab'| && m < |pathOf|
      ensures Fits(levels, |pathOf[m]|, slab'[m])
    {
      assert Fits(levels, |pathOf[m]|, slab[m]);
    }
    forall m, i | 0 <= m < |slab'| && m < |pathOf| && slab'[m].Interior? && 0 <= i < |slab'[m].children|
      ensures if slab'[m].children[i] == 0 then pathOf[m] + [i] !in nodeAt
              else pathOf[m] + [i] in nodeAt && nodeAt[pathOf[m] + [i]] == slab'[m].children[i]
    {
      assert slab'[m] == slab[m];
    }
  }

  lemma {:induction false} WriteStored(levels: seq<nat>, slab: seq<Node>, nodeAt: map<seq<nat>, nat>, pathOf: seq<seq<nat>>,
                    slots: map<seq<nat>, Word>, n: nat, j: nat, v: Word)
    requires Shaped(levels, slab, nodeAt, pathOf) && Stored(slab, pathOf, slots)
    requires n < |slab| && slab[n].Leaf? && j < |slab[n].values|
    ensures Stored(slab[n := Leaf(slab[n].values[j := v])], pathOf, Store(slots, pathOf[n] + [j], v))
  {
    var Q: seq<nat> := pathOf[n] + [j];
    var slab', slots' := slab[n := Leaf(slab[n].values[j := v])], Store(slots, Q, v);
    forall m, i | 0 <= m < |slab'| && m < |pathOf| && slab'[m].Leaf? && 0 <= i < |slab'[m].values|
      ensures slab'[m].values[i] == ValueAt(slots', pathOf[m] + [i])
    {
      if m != n {
        assert (pathOf[m] + [i])[..|pathOf[m]|] == pathOf[m] && Q[..|pathOf[n]|] == pathOf[n];
        assert slab'[m] == slab[m];
      }
    }
  }

  lemma {:induction false} WriteReached(levels: seq<nat>, slab: seq<Node>, nodeAt: map<seq<nat>, nat>, pathOf: seq<seq<nat>>,
                     slots: map<seq<nat>, Word>, n: nat, j: nat, v: Word)
    requires Shaped(levels, slab, nodeAt, pathOf) && Reached(levels, nodeAt, slots)
    requires n < |slab| && slab[n].Leaf? && j < |slab[n].values|
    ensures |pathOf[n]| + 1 == |levels|
    ensures Reached(levels, nodeAt, Store(slots, pathOf[n] + [j], v))
  {
    var Q: seq<nat> := pathOf[n] + [j];
    assert Fits(levels, |pathOf[n]|, slab[n]);
    assert Q[..|levels| - 1] == pathOf[n];
  }

  /** Writing slot j of leaf n and recording the same value for its path keeps the tree. */
  lemma {:induction false} WriteTree(bits: nat, levels: seq<nat>, slab: seq<Node>, nodeAt: map<seq<nat>, nat>,
                  pathOf: seq<seq<nat>>, slots: map<seq<nat>, Word>, n: nat, j: nat, v: Word)
    requires Tree(bits, levels, slab, nodeAt, pathOf, slots)
    requires n < |slab| && slab[n].Leaf? && j < |slab[n].values|
    ensures |pathOf[n]| + 1 == |levels|
    ensures Tree(bits, levels, slab[n := Leaf(slab[n].values[j := v])], nodeAt, pathOf,
                 Store(slots, pathOf[n] + [j], v))
  {
    WriteShapedLinked(levels, slab, nodeAt, pathOf, n, j, v);
    WriteStored(levels, slab, nodeAt, pathOf, slots, n, j, v);
    WriteReached(levels, slab, nodeAt, pathOf, slots, n, j, v);
  }

  /** A window whose path leaves the allocated nodes before its leaf reads 0. */
  lemma {:induction false} AbsentPathReadsZero(bits: nat, levels: seq<nat>, slab: seq<Node>, nodeAt: map<seq<nat>, nat>,
                            pathOf: seq<seq<nat>>, slots: map<seq<nat>, Word>, contents: map<nat, Word>, p: nat, l: nat)
    requires Tree(bits, levels, slab, nodeAt, pathOf, slots) && Mirrors(levels, bits, slots, contents)
    requires p < Pow2(bits) && l < |levels| && Indices(levels, p)[..l] !in nodeAt
    ensures ValueAt(contents, p) == 0
  {
    var idx := Indices(levels, p);
    PrefixOfPrefix(idx, |levels| - 1, l);
  }

  // ---------------------------------------------------------------------
  // The tree

  class RTree {
    /** Significant key bits, from the top of the key. */
    const bits: nat
    /** Bits resolved per level, root first. */
    const levels: seq<nat>
    /** The borrowed allocator nodes come from. */
    const pool: Pool
    /** Every allocated node; node 0 is the root. */
    var slab: seq<Node>
    /** Index path -> slab index of each allocated node, and its inverse. */
    ghost var nodeAt: map<seq<nat>, nat>
    ghost var pathOf: seq<seq<nat>>
    /** Full index path -> nonzero value held in its leaf slot. */
    ghost var Slots: map<seq<nat>, Word>
    /** The abstract map: window -> nonzero value; every other window reads 0. */
    ghost var Contents: map<nat, Word>

    ghost predicate Valid()
      reads this
    {
      Tree(bits, levels, slab, nodeAt, pathOf, Slots) && Mirrors(levels, bits, Slots, Contents)
    }

    /** A tree with only its (already paid for) root, mapping every key to 0. */
    constructor Init(bits: nat, pool: Pool)
      requires 1 <= bits <= WordBits
      ensures Valid() && this.bits == bits && levels == Partition(bits) && this.pool == pool
      ensures nodeAt == map[[] := 0] && slab == [Blank(levels, 0)] && Contents == map[]
    {
      this.bits := bits;
      levels := Partition(bits);
      this.pool := pool;
      slab := [Blank(Partition(bits), 0)];
      nodeAt := map[[] := 0];
      pathOf := [[]];
      Slots := map[];
      Contents := map[];
    }

    /** rtree_new(bits, alloc, dalloc, pool): a tree over `bits` significant
        bits, or null when `bits` is out of 1..64 or the pool cannot supply
        the root. */
    static method New(bits: nat, pool: Pool) returns (t: RTree?)
      modifies pool
      ensures t == null <==> !(1 <= bits <= WordBits) || old(pool.available) < RootBytes(bits)
      ensures t != null ==> fresh(t) && t.Valid() && t.bits == bits && t.levels == Partition(bits)
      ensures t != null ==> t.pool == pool && t.Contents == map[]
      ensures t != null ==> t.nodeAt == map[[] := 0] && t.slab == [Blank(t.levels, 0)]
      ensures pool.available == if t != null then old(pool.available) - RootBytes(bits) else old(pool.available)
    {
      if !(1 <= bits <= WordBits) {
        return null;
      }
      var ok := pool.Allocate(RootBytes(bits));
      if !ok {
        return null;
      }
      t := new RTree.Init(bits, pool);
    }

    /** rtree_get(tree, key): the value last set for any key in the same
        window, 0 when there is none. */
    method Get(key: Word) returns (v: Word)
      requires Valid()
      ensures v == ValueAt(Contents, Prefix(key, bits))
    {
      var p := Prefix(key, bits);
      ghost var idx := Indices(levels, p);
      var n, l := 0, 0;
      while l < |levels| - 1
        invariant l < |levels| && idx[..l] in nodeAt && nodeAt[idx[..l]] == n
      {
        var j := LevelIndex(levels, p, l);
        IndicesAt(levels, p, l);
        assert idx[..l + 1] == idx[..l] + [j];
        assert Fits(levels, |pathOf[n]|, slab[n]);
        var c := slab[n].children[j];
        if c == 0 {
          AbsentPathReadsZero(bits, levels, slab, nodeAt, pathOf, Slots, Contents, p, l + 1);
          return 0;
        }
        n, l := c, l + 1;
      }
      var j := LevelIndex(levels, p, l);
      IndicesAt(levels, p, l);
      assert idx == idx[..l] + [j];
      assert Fits(levels, |pathOf[n]|, slab[n]);
      v := slab[n].values[j];
    }

    /** One step of a set's walk from node n, reached through the first l
        indices of window p: the child at level l + 1, allocated from the
        pool and linked in when absent, or 0 when that allocation fails. */
    method Descend(n: nat, p: nat, l: nat) returns (c: nat)
      requires Valid() && p < Pow2(bits) && l + 1 < |levels|
      requires Indices(levels, p)[..l] in nodeAt && nodeAt[Indices(levels, p)[..l]] == n
      modifies this, pool
      ensures Valid() && Slots == old(Slots) && Contents == old(Contents)
      ensures c != 0 ==> Indices(levels, p)[..l + 1] in nodeAt && nodeAt[Indices(levels, p)[..l + 1]] == c
      ensures c == 0 ==> Indices(levels, p)[..l + 1] !in nodeAt
      ensures Kept(old(nodeAt), nodeAt) && GrowsAlong(old(nodeAt), nodeAt, Indices(levels, p), l + 1)
      ensures c == 0 ==> old(pool.available) < NodeBytes(levels, l + 1) && pool.available == old(pool.available)
      ensures var Q := Indices(levels, p)[..l + 1];
        if Q in old(nodeAt) then
          c != 0 && nodeAt == old(nodeAt) && pool.available == old(pool.available)
        else if old(pool.available) < NodeBytes(levels, l + 1) then
          c == 0 && nodeAt == old(nodeAt) && pool.available == old(pool.available)
        else
          c != 0 && nodeAt == old(nodeAt)[Q := c] && pool.available == old(pool.available) - NodeBytes(levels, l + 1)
    {
      ghost var idx := Indices(levels, p);
      var j := LevelIndex(levels, p, l);
      IndicesAt(levels, p, l);
      ghost var Q := idx[..l + 1];
      assert Q == idx[..l] + [j];
      assert pathOf[n] == idx[..l];
      assert Fits(levels, l, slab[n]);
      c := slab[n].children[j];
      if c == 0 {
        var ok := pool.Allocate(NodeBytes(levels, l + 1));
        if !ok {
          return 0;
        }
        GrowTree(bits, levels, slab, nodeAt, pathOf, Slots, n, l, j, Q);
        c := |slab|;
        slab, nodeAt, pathOf := Attach(slab, n, j, Blank(levels, l + 1)), nodeAt[Q := |slab|], pathOf + [Q];
      }
    }

    /** Stores v in slot j of the leaf n that window p reaches. */
    method WriteLeaf(n: nat, p: nat, l: nat, v: Word)
      requires Valid() && p < Pow2(bits) && l + 1 == |levels|
      requires Indices(levels, p)[..l] in nodeAt && nodeAt[Indices(levels, p)[..l]] == n
      modifies this
      ensures Valid() && nodeAt == old(nodeAt) && pathOf == old(pathOf)
      ensures Slots == Store(old(Slots), Indices(levels, p), v) && Contents == Store(old(Contents), p, v)
    {
      ghost var idx := Indices(levels, p);
      var j := LevelIndex(levels, p, l);
      IndicesAt(levels, p, l);
      assert idx == idx[..l] + [j];
      assert Fits(levels, |pathOf[n]|, slab[n]);
      WriteTree(bits, levels, slab, nodeAt, pathOf, Slots, n, j, v);
      MirrorsStore(levels, bits, Slots, Contents, p, v);
      slab := slab[n := Leaf(slab[n].values[j := v])];
      Slots := Store(Slots, idx, v);
      Contents := Store(Contents, p, v);
    }

    /** One step of Walk from node n at level l, for a walk that started
        from the nodes `start` with `budget` bytes in the pool: Descend,
        together with what the walk keeps from step to step. */
    method Step(n: nat, p: nat, l: nat, ghost start: map<seq<nat>, nat>, ghost budget: int, ghost untouched: bool)
      returns (c: nat)
      requires Valid() && p < Pow2(bits) && l + 1 < |levels|
      requires Indices(levels, p)[..l] in nodeAt && nodeAt[Indices(levels, p)[..l]] == n
      requires MissingBytes(levels, start, Indices(levels, p), l) <= MissingBytes(levels, start, Indices(levels, p), 0)
      requires pool.available + MissingBytes(levels, start, Indices(levels, p), 0)
        == budget + MissingBytes(levels, start, Indices(levels, p), l)
      requires Kept(start, nodeAt) && GrowsAlong(start, nodeAt, Indices(levels, p), l)
      requires untouched ==> Indices(levels, p)[..|levels| - 1] in start && nodeAt == start && pool.available == budget
      modifies this, pool
      ensures Valid() && Slots == old(Slots) && Contents == old(Contents) && Kept(start, nodeAt)
      ensures untouched ==> c != 0 && nodeAt == start && pool.available == budget
      ensures c != 0 ==> Indices(levels, p)[..l + 1] in nodeAt && nodeAt[Indices(levels, p)[..l + 1]] == c
      ensures c != 0 ==> GrowsAlong(start, nodeAt, Indices(levels, p), l + 1)
      ensures c != 0 ==> MissingBytes(levels, start, Indices(levels, p), l + 1) <= MissingBytes(levels, start, Indices(levels, p), 0)
      ensures c != 0 ==> (pool.available + MissingBytes(levels, start, Indices(levels, p), 0)
                          == budget + MissingBytes(levels, start, Indices(levels, p), l + 1))
      ensures c == 0 ==> nodeAt == old(nodeAt) && pool.available == old(pool.available)
      ensures c == 0 ==> budget < MissingBytes(levels, start, Indices(levels, p), 0)
    {
      ghost var mid := nodeAt;
      PrefixOfPrefix(Indices(levels, p), |levels| - 1, l + 1);
      c := Descend(n, p, l);
      GrowsAlongTrans(start, mid, nodeAt, Indices(levels, p), l, l + 1);
    }

    /** The walk of a set down to the leaf of window p, allocating each
        absent node on the way: it reaches the leaf exactly when the pool
        holds the bytes of the nodes missing on p's path, and then it has
        taken exactly those bytes. It never drops or moves a node, every
        node it adds lies on p's own path, and on a path already allocated
        it allocates nothing. */
    method Walk(p: nat) returns (ok: bool, n: nat)
      requires Valid() && p < Pow2(bits)
      modifies this, pool
      ensures Valid() && Slots == old(Slots) && Contents == old(Contents)
      ensures ok <==> old(pool.available) >= MissingBytes(levels, old(nodeAt), Indices(levels, p), 0)
      ensures ok ==> Indices(levels, p)[..|levels| - 1] in nodeAt && nodeAt[Indices(levels, p)[..|levels| - 1]] == n
      ensures ok ==> pool.available == old(pool.available) - MissingBytes(levels, old(nodeAt), Indices(levels, p), 0)
      ensures !ok ==> old(pool.available) < PathBytes(levels)
      ensures old(pool.available) - PathBytes(levels) <= pool.available <= old(pool.available)
      ensures Kept(old(nodeAt), nodeAt) && GrowsAlong(old(nodeAt), nodeAt, Indices(levels, p), |levels| - 1)
      ensures Indices(levels, p)[..|levels| - 1] in old(nodeAt) ==>
        ok && nodeAt == old(nodeAt) && pool.available == old(pool.available)
    {
      ghost var start, budget, slots, contents := nodeAt, pool.available, Slots, Contents;
      ghost var untouched := Indices(levels, p)[..|levels| - 1] in start;
      MissingAtMost(levels, start, Indices(levels, p), 0);
      n := 0;
      var l := 0;
      while l < |levels| - 1
        invariant Valid() && Slots == slots && Contents == contents && l < |levels|
        invariant Indices(levels, p)[..l] in nodeAt && nodeAt[Indices(levels, p)[..l]] == n
        invariant MissingBytes(levels, start, Indices(levels, p), l) <= MissingBytes(levels, start, Indices(levels, p), 0)
        invariant pool.available + MissingBytes(levels, start, Indices(levels, p), 0)
          == budget + MissingBytes(levels, start, Indices(levels, p), l)
        invariant Kept(start, nodeAt) && GrowsAlong(start, nodeAt, Indices(levels, p), l)
        invariant untouched ==> nodeAt == start && pool.available == budget
      {
        var c := Step(n, p, l, start, budget, untouched);
        if c == 0 {
          return false, 0;
        }
        n, l := c, l + 1;
      }
      ok := true;
    }

    /** rtree_set(tree, key, v): afterwards every key of key's window reads
        v (0 removes it). Nodes are allocated lazily and never freed, so a
        set over a path already allocated, in particular one whose window
        holds a value, takes nothing from the pool and adds no node. Fails,
        changing nothing a read can see, only when the pool cannot supply a
        missing node on the way down; it cannot fail while the pool holds
        one node per level below the root. */
    method Set(key: Word, v: Word) returns (ok: bool)
      requires Valid()
      modifies this, pool
      ensures Valid()
      ensures Contents == if ok then Store(old(Contents), Prefix(key, bits), v) else old(Contents)
      ensures !ok ==> ValueAt(old(Contents), Prefix(key, bits)) == 0
      ensures ok <==> old(pool.available) >= MissingBytes(levels, old(nodeAt), Indices(levels, Prefix(key, bits)), 0)
      ensures ok ==> Indices(levels, Prefix(key, bits))[..|levels| - 1] in nodeAt
      ensures ok ==> pool.available == old(pool.available) - MissingBytes(levels, old(nodeAt), Indices(levels, Prefix(key, bits)), 0)
      ensures old(pool.available) >= PathBytes(levels) ==> ok
      ensures old(pool.available) - PathBytes(levels) <= pool.available <= old(pool.available)
      ensures Kept(old(nodeAt), nodeAt) && GrowsAlong(old(nodeAt), nodeAt, Indices(levels, Prefix(key, bits)), |levels| - 1)
      ensures Indices(levels, Prefix(key, bits))[..|levels| - 1] in old(nodeAt) ==>
        ok && nodeAt == old(nodeAt) && pool.available == old(pool.available)
      ensures ValueAt(old(Contents), Prefix(key, bits)) != 0 ==>
        ok && nodeAt == old(nodeAt) && pool.available == old(pool.available)
    {
      var p := Prefix(key, bits);
      if Indices(levels, p)[..|levels| - 1] !in nodeAt {
        AbsentPathReadsZero(bits, levels, slab, nodeAt, pathOf, Slots, Contents, p, |levels| - 1);
      }
      var n;
      ok, n := Walk(p);
      if ok {
        WriteLeaf(n, p, |levels| - 1, v);
      }
    }
  }
}
