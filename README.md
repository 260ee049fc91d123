# A verified model of the jemalloc bitwise radix tree

jemalloc's `rtree` maps machine-word keys (addresses) to word values. A
tree is configured with a number of significant bits `bits` between 1 and
64. Only the top `bits` bits of a key matter, so every key that agrees on
them reads and writes the same slot. The tree is a trie:

- The window of a key is its top `bits` bits, right-aligned: `key >> (64 - bits)`.
- The window is cut into levels, root first.
- Each level's index selects a slot in a node of that level's fan-out.
- Interior nodes hold child references; the last level's nodes hold the stored values.

`rtree_new` builds the level partition and allocates a zero-filled root
from a pool allocator. `rtree_get` walks down from the root and returns 0
as soon as a child is absent, so a tree nobody wrote to reads 0
everywhere. `rtree_set` walks the same path and allocates each absent node
on the way, then overwrites the leaf slot. Storing 0 is how a caller
deletes a key's mapping: no node is freed.

The project has three modules.

- **`Bits`** (`Bits.dfy`) holds the key arithmetic:
  - `Prefix` is the window of a key.
  - `Partition` is the level plan. The root takes the remainder and every deeper level is 8 bits wide.
  - `Indices` is the per-level decomposition and `Compose` its inverse.
  - Lemmas characterise these, including the window facts the conformance scenarios rely on.
- **`RadixTree`** (`RadixTree.dfy`) holds the engine:
  - `Pool` is the borrowed allocator: a byte budget that `Allocate` draws from.
  - `RTree` is a class whose nodes live in a slab owned by the tree. A slab is an arena indexed by node number. Node 0 is the root, and an interior slot holds its child's slab index, or 0 when the child is absent.
  - Ghost state records which index path each node sits at, the nonzero leaf slots, and the abstract map `Contents` that the tree represents (window to nonzero value).
  - `Valid()` ties the three together. `New`, `Get` and `Set` are proved against `Contents`.
- **`RTreeTest`** (`RTreeTest.dfy`) has one method per scenario of the conformance test `test/unit/rtree.c`. Each method returns the values its reads observe, and its contract states the values the test asserts. The section "Model" of this file lists the scenario methods.

## Model

| member | source | states |
|---|---|---|
| Bits.Partition | src/jemalloc/test/unit/rtree.c:19-20 | the level plan built for any width 1..64 has at least one level, no empty level, levels of at most 8 bits, and widths summing to the width |
| Bits.Indices | src/jemalloc/test/unit/rtree.c:21 | the per-level indices of a window, root level first, one per level; it is a function of the level plan and the window alone, so keys with the same window get the same indices |
| Bits.LowBits | src/jemalloc/test/unit/rtree.c:21 | the mask p & (2^s - 1) is below 2^s |
| Bits.ShiftRightDiv | src/jemalloc/test/unit/rtree.c:21 | the right shift p >> s is division by 2^s |
| Bits.LowBitsMod | src/jemalloc/test/unit/rtree.c:21 | the mask p & (2^s - 1) is the remainder modulo 2^s |
| Bits.SplitLow | src/jemalloc/test/unit/rtree.c:21 | a value is its shifted-out high part times 2^s plus its masked low s bits |
| Bits.SplitUnique | src/jemalloc/test/unit/rtree.c:21 | that split is unique: any high part and low part below 2^s that recompose the value are the shift and the mask |
| Bits.ShiftRightAdd | src/jemalloc/test/unit/rtree.c:21 | shifting right by a and then by b is shifting right by a + b |
| Bits.LevelIndex | src/jemalloc/test/unit/rtree.c:21 | the index extracted at level i (shift past the deeper levels, mask to the level) is below that level's fan-out |
| Bits.IndicesAt | src/jemalloc/test/unit/rtree.c:21 | the decomposition of a window, root first, agrees at every level with the per-level shift-and-mask |
| Bits.IndicesValid | src/jemalloc/test/unit/rtree.c:21 | every index of a decomposition fits its level's fan-out, so a walk never leaves a node |
| Bits.ComposeIndices | src/jemalloc/test/unit/rtree.c:94-96 | recomposing a window's indices gives the window back |
| Bits.IndicesCompose | src/jemalloc/test/unit/rtree.c:94-96 | every in-range index path is the decomposition of exactly one window, which is below 2^bits |
| Bits.IndicesInjective | src/jemalloc/test/unit/rtree.c:98-101 | distinct windows have distinct index paths, so setting one key never overwrites another window's slot |
| Bits.Prefix | src/jemalloc/test/unit/rtree.c:53-54 | the window of a key, key >> (64 - bits), lies below 2^bits |
| Bits.LowBitsIgnored | src/jemalloc/test/unit/rtree.c:59-66 | changing any of the 64 - bits insignificant low bits of a key leaves its window unchanged |
| Bits.BelowBoundaryIsWindowZero | src/jemalloc/test/unit/rtree.c:53-54 | every key below 1 << (64 - bits) (in particular 0, 1 and (1 << (64 - bits)) - 1) lies in window 0 |
| Bits.BoundaryIsWindowOne | src/jemalloc/test/unit/rtree.c:67-68 | for widths 1..64, 1 << (64 - bits) is a 64-bit key and lies in window 1 |
| Bits.ExtremaWindows | src/jemalloc/test/unit/rtree.c:35-40 | key 0 lies in window 0 and key ~0 in the last window 2^bits - 1, so the two are distinct |
| RadixTree.Store | src/jemalloc/test/unit/rtree.c:71 | after a set of v at p, p reads v and every other key reads as before; p stays in the map exactly when v is nonzero, so setting 0 deletes |
| RadixTree.StoreEach | src/jemalloc/test/unit/rtree.c:92-97 | after setting each of a sequence of keys to v, each of them reads v and every other key is unchanged |
| RadixTree.StoreEachSnoc | src/jemalloc/test/unit/rtree.c:92-94 | setting one more key is one more Store on the map so far |
| RadixTree.StoreEachKeys | src/jemalloc/test/unit/rtree.c:92-101 | after setting a sequence of keys, every key held is one held before or one of the sequence |
| RadixTree.StoreEachZeroErases | src/jemalloc/test/unit/rtree.c:103-111 | setting 0 at every held key (and any others) leaves the empty map |
| RadixTree.MirrorsStore | src/jemalloc/test/unit/rtree.c:94-96 | writing a value into a window's leaf slot and storing it in the abstract map keep the two in agreement for every window |
| RadixTree.Pool.Allocate | src/jemalloc/test/unit/rtree.c:3-7 | an allocation of size bytes succeeds exactly when the pool still has them, and then takes exactly them |
| RadixTree.Blank | src/jemalloc/test/unit/rtree.c:20-22 | a freshly allocated node has its level's kind and fan-out and every slot absent (0) |
| RadixTree.GrowTree | src/jemalloc/test/unit/rtree.c:94 | linking a new blank node under an absent interior slot keeps the trie invariant, with the node recorded at the slot's index path |
| RadixTree.WriteTree | src/jemalloc/test/unit/rtree.c:94 | overwriting a leaf slot keeps the trie invariant and changes exactly that path's value |
| RadixTree.AbsentPathReadsZero | src/jemalloc/test/unit/rtree.c:21-22 | when a node on a window's path is absent, the window reads 0 |
| RadixTree.RTree.Init | src/jemalloc/test/unit/rtree.c:20 | a new tree has the width's level plan and maps every key to 0; its only node is a blank root (every slot 0) at the empty index path, slab index 0 |
| RadixTree.RTree.New | src/jemalloc/test/unit/rtree.c:20 | returns null exactly when the width is outside 1..64 or the pool cannot supply the root; otherwise a fresh, valid, empty tree whose only node is a blank root, and exactly the root's bytes are taken from the pool |
| RadixTree.RTree.Get | src/jemalloc/test/unit/rtree.c:21-22 | returns the value held for the key's window, 0 when there is none; it changes nothing |
| RadixTree.RTree.Descend | src/jemalloc/test/unit/rtree.c:94 | one step down a set's walk: this is the present child, or a new one allocated from the pool and linked in, or 0 (nothing changed) when the pool is short of that node; every earlier node stays at its slab index |
| RadixTree.RTree.WriteLeaf | src/jemalloc/test/unit/rtree.c:71 | stores v in the window's leaf slot; the abstract map becomes Store(old map, window, v) and the structure is unchanged |
| RadixTree.RTree.Step | src/jemalloc/test/unit/rtree.c:94 | one step of a set's walk: Descend, keeping the walk's invariants (every earlier node kept at its slab index; nodes added only on the window's own path and only down to the level reached; the bytes taken so far equal to the bytes of the nodes that were missing at the levels walked; nothing allocated on a path that was already allocated); a failing step means the pool held less than the bytes of all the nodes missing on the path |
| RadixTree.RTree.Walk | src/jemalloc/test/unit/rtree.c:94 | reaches the leaf of the window exactly when the pool holds at least MissingBytes, the bytes of the nodes missing on the window's index path, and then takes exactly those bytes; in any case it takes at most one path's worth of bytes, so it falls short only if the pool had less than that; every earlier node stays in place at the same slab index, and every node it adds has an index path that is a prefix of the window's own (so at most one per level); on a path already allocated it succeeds and takes nothing from the pool |
| RadixTree.RTree.Set | src/jemalloc/test/unit/rtree.c:35-41 | on success the abstract map becomes Store(old map, window, v); a set succeeds exactly when the pool holds the bytes of the nodes missing on the key's index path, and then it takes exactly those bytes and the key's leaf is allocated; a failure leaves the map unchanged, can only happen for a window that read 0, and cannot happen while the pool holds one node per level below the root; no node is ever freed or moved (setting 0 included), and every node it adds lies on the key's own index path, i.e. only missing nodes of that path are allocated; a set over an already allocated path, in particular on a window holding a value, succeeds, adds no node and takes nothing from the pool; the tree stays valid |
| RTreeTest.Fresh | src/jemalloc/test/unit/rtree.c:88 | a valid, empty tree of the given width over a fresh pool with room for the given number of sets |
| RTreeTest.GetEmpty | src/jemalloc/test/unit/rtree.c:15-25 | for every width 1..64 a new tree reads 0 at key 0 (64 reads, all 0) |
| RTreeTest.ExtremaRound | src/jemalloc/test/unit/rtree.c:33-41 | after setting key 0 to 1 and then key ~0 to 1, each reads 1 |
| RTreeTest.Extrema | src/jemalloc/test/unit/rtree.c:28-45 | over every width 1..64 all 128 extrema reads are 1 |
| RTreeTest.ProbeWindow | src/jemalloc/test/unit/rtree.c:58-71 | after setting one window-0 key to 1, all window-0 keys read 1 and the window-1 key reads 0; setting the key back to 0 leaves the tree empty, and that reset takes nothing from the pool, so one path of room per key suffices |
| RTreeTest.ProbeEach | src/jemalloc/test/unit/rtree.c:57-72 | over each of the keys in turn, all keys×keys reads are 1 and every boundary read is 0, and the tree ends empty |
| RTreeTest.BitsRound | src/jemalloc/test/unit/rtree.c:52-74 | for one width below 64, the 9 reads of keys 0, 1 and (1 << (64 - bits)) - 1 are 1 and the 3 reads of 1 << (64 - bits) are 0 |
| RTreeTest.BitsTest | src/jemalloc/test/unit/rtree.c:48-76 | over widths 1..63, all 9·63 reads of set keys are 1 and all 3·63 boundary reads are 0 |
| RTreeTest.WindowsSnoc | src/jemalloc/test/unit/rtree.c:92-93 | the windows of one more key extend the windows so far by that key's window |
| RTreeTest.SetOne | src/jemalloc/test/unit/rtree.c:94-96 | a set the pool has room for succeeds, the map becomes Store(old map, window, v), and the read right after returns v |
| RTreeTest.SetEach | src/jemalloc/test/unit/rtree.c:92-97 | setting each key to v in turn makes the map StoreEach(old map, windows, v); every read right after a set returns v and every key reads v at the end |
| RTreeTest.GetEach | src/jemalloc/test/unit/rtree.c:98-101 | each read returns the value the abstract map holds for that key's window |
| RTreeTest.Fill | src/jemalloc/test/unit/rtree.c:92-101 | on an empty tree, setting each key to 1 gives 2·n reads of 1, and afterwards the tree holds only the keys' windows |
| RTreeTest.Clear | src/jemalloc/test/unit/rtree.c:103-111 | on a tree holding only the keys' windows, setting each key to 0 gives 2·n reads of 0 and leaves the tree empty |
| RTreeTest.RandomRound | src/jemalloc/test/unit/rtree.c:88-113 | for one width and any batch of keys (duplicates included), all first-half reads are 1 and all second-half reads are 0 |
| RTreeTest.Random | src/jemalloc/test/unit/rtree.c:79-118 | over every width 1..64 with 100 keys each, all 2·100·64 reads after setting 1 are 1 and all 2·100·64 reads after setting 0 are 0 |

## Left out

- The engine's C source (`rtree.h` / `rtree.c` under `src/jemalloc/`) is not part of this model. The engine is modelled from its documented behaviour and from what the conformance test demands of it.
- Only the key width `sizeof(uintptr_t) * 8 = 64` is modelled; a 32-bit `uintptr_t` is not.
- The historical per-jemalloc-version fan-outs are not modelled. `Partition` is one fixed plan: a remainder at the root, 8 bits per deeper level. Any plan whose widths sum to `bits` would be conformant. The decomposition lemmas in `Bits` and the trie lemmas in `RadixTree` are stated for any such plan; only construction picks `Partition`.
- Nodes live in a slab (a sequence of node values owned by the tree), not in separately allocated C arrays. Aliasing between nodes is therefore not modelled; the trie invariant rules out sharing anyway.
- `rtree_malloc` / `rtree_free` (lines 3-13) and `imalloc` / `idalloc` are modelled as the `Pool` byte budget. A node of fan-out f costs 8·f bytes. Deallocation is not modelled, since only teardown frees.
- `rtree_delete` (lines 23, 43, 74, 113) is not modelled. Teardown is a sweep that frees every node and has no observable result the test checks.
- The SFMT generator (`init_gen_rand`, `gen_rand64` and `fini_gen_rand`, lines 86, 93 and 115) is not modelled. `RTreeTest.Random` takes the keys as a parameter instead: one batch of 100 per width, because the generator's state carries over between widths. Its contract holds for every batch, so it covers the seed-42 sequence as well.
- `pools[0]` is not modelled. Each scenario builds its own pool with room for the sets its contracts allow for, one full path per budgeted set; that is more than the sets actually take, since a set over an allocated path takes nothing.
- The test harness (`TEST_BEGIN` / `TEST_END`, the `assert_u_eq` messages, `main` at lines 121-130) is not modelled. Each scenario method returns its observed reads instead of asserting them.
- Locking and concurrent callers are not modelled. The engine assumes a single writer per tree.
- RadixTree.RTree.Set: when a set fails, the bytes it has taken are bounded (at most one path's worth) rather than stated. They are the bytes of the missing nodes above the level where the pool ran short, and those nodes stay allocated. The same holds for `RadixTree.RTree.Walk`.

