/** Key arithmetic of the radix tree: the significant window of a 64-bit key,
    the partition of that window into levels, and the per-level indices a
    lookup follows from the root down to a leaf slot.

    Keys are unsigned machine words, modelled as integers below 2^64; a C
    right shift by s becomes a division by Pow2(s), a mask by 2^w - 1 a
    remainder modulo Pow2(w). */
module Bits {

  const WordBits: nat := 64
  const WordLimit: nat := 0x1_0000_0000_0000_0000

  /** An unsigned 64-bit machine word (uintptr_t). */
  type Word = x: int | 0 <= x < WordLimit

  /** The all-ones key, ~((uintptr_t)0). */
  const MaxWord: Word := WordLimit - 1

  /** The widest level the tree's own partition uses (fan-out 256). */
  const MaxLevelBits: nat := 8

  function Pow2(n: nat): (r: nat)
    ensures r >= 1
  {
    if n == 0 then 1 else 2 * Pow2(n - 1)
  }

  lemma {:induction false} Pow2Word()
    ensures Pow2(WordBits) == WordLimit
  {
    assert Pow2(8) == 256;
    Pow2Add(8, 8);
    Pow2Add(16, 16);
    Pow2Add(32, 32);
  }

  lemma {:induction false} Pow2Add(a: nat, b: nat)
    ensures Pow2(a + b) == Pow2(a) * Pow2(b)
  {
    if a > 0 {
      Pow2Add(a - 1, b);
    }
  }

  lemma {:induction false} Pow2Monotone(a: nat, b: nat)
    requires a < b
    ensures Pow2(a) < Pow2(b)
  {
    if a + 1 < b {
      Pow2Monotone(a, b - 1);
    }
  }

  // ---------------------------------------------------------------------
  // Division facts used by the decomposition proofs

  lemma {:induction false} MulAtLeast(k: int, d: int)
    requires k >= 1 && d > 0
    ensures k * d >= d
  {
  }

  lemma {:induction false} MulLe(b: nat, x: nat, y: nat)
    requires x <= y
    ensures b * x <= b * y
  {
  }

  lemma {:induction false} Distrib(q: int, q0: int, d: int)
    ensures q * d - q0 * d == (q - q0) * d
  {
  }

  lemma {:induction false} Regroup(b: int, c: int, q2: int, r2: int)
    ensures b * (c * q2 + r2) == (b * c) * q2 + b * r2
  {
  }

  /** Euclidean division is determined by quotient and remainder. */
  lemma {:induction false} DivModUnique(a: int, d: int, q: int, r: int)
    requires d > 0 && 0 <= r < d && a == q * d + r
    ensures a / d == q && a % d == r
  {
    var q0, r0 := a / d, a % d;
    assert a == q0 * d + r0;
    Distrib(q, q0, d);
    Distrib(q0, q, d);
    if q0 < q {
      MulAtLeast(q - q0, d);
    } else if q0 > q {
      MulAtLeast(q0 - q, d);
    }
  }

  /** Shifting right by b then by c is shifting right by both at once. */
  lemma {:induction false} DivDiv(a: nat, b: nat, c: nat)
    requires b > 0 && c > 0
    ensures a / (b * c) == a / b / c
  {
    var q, r := a / b, a % b;
    var q2, r2 := q / c, q % c;
    assert a == b * q + r;
    assert q == c * q2 + r2;
    Regroup(b, c, q2, r2);
    MulLe(b, r2, c - 1);
    Regroup(b, 1, c - 1, 1);
    DivModUnique(a, b * c, q2, b * r2 + r);
  }

  lemma {:induction false} DivBound(a: nat, b: nat, c: nat)
    requires b > 0 && a < b * c
    ensures a / b < c
  {
    DivModUnique(a, b, a / b, a % b);
    if a / b >= c {
      MulLe(b, c, a / b);
    }
  }

  lemma {:induction false} MulAddBound(x: nat, xBound: nat, y: nat, yBound: nat)
    requires x < xBound && y < yBound
    ensures x * yBound + y < xBound * yBound
  {
    MulLe(yBound, x, xBound - 1);
    Distrib(xBound, 1, yBound);
  }

  // ---------------------------------------------------------------------
  // Shifts and masks

  /** p >> s, one bit at a time. */
  function ShiftRight(p: nat, s: nat): nat
  {
    if s == 0 then p else ShiftRight(p / 2, s - 1)
  }

  /** p & (2^s - 1), one bit at a time. */
  function LowBits(p: nat, s: nat): (r: nat)
    ensures r < Pow2(s)
  {
    if s == 0 then 0 else 2 * LowBits(p / 2, s - 1) + p % 2
  }

  lemma {:induction false} Twice(q: int, d: int)
    ensures q * (2 * d) == 2 * (q * d)
  {
  }

  /** The shift is division by 2^s. */
  lemma {:induction false} ShiftRightDiv(p: nat, s: nat)
    ensures ShiftRight(p, s) == p / Pow2(s)
  {
    if s == 0 {
      DivModUnique(p, 1, p, 0);
    } else {
      ShiftRightDiv(p / 2, s - 1);
      DivDiv(p, 2, Pow2(s - 1));
    }
  }

  /** The mask is the remainder modulo 2^s. */
  lemma {:induction false} LowBitsMod(p: nat, s: nat)
    ensures LowBits(p, s) == p % Pow2(s)
  {
    if s == 0 {
      DivModUnique(p, 1, p, 0);
    } else {
      var h, b := p / 2, p % 2;
      var r := LowBits(h, s - 1);
      LowBitsMod(h, s - 1);
      var d := Pow2(s - 1);
      var q := h / d;
      assert h == q * d + r;
      Twice(q, d);
      assert p == 2 * h + b;
      DivModUnique(p, Pow2(s), q, 2 * r + b);
    }
  }

  /** A window splits into its high part and its low s bits. */
  lemma {:induction false} SplitLow(p: nat, s: nat)
    ensures p == ShiftRight(p, s) * Pow2(s) + LowBits(p, s)
  {
    ShiftRightDiv(p, s);
    LowBitsMod(p, s);
  }

  /** The split is unique: high part and low bits determine each other. */
  lemma {:induction false} SplitUnique(p: nat, s: nat, high: nat, low: nat)
    requires low < Pow2(s) && p == high * Pow2(s) + low
    ensures ShiftRight(p, s) == high && LowBits(p, s) == low
  {
    ShiftRightDiv(p, s);
    LowBitsMod(p, s);
    DivModUnique(p, Pow2(s), high, low);
  }

  /** Shifting right by a and then by b is shifting right by a + b. */
  lemma {:induction false} ShiftRightAdd(p: nat, a: nat, b: nat)
    ensures ShiftRight(ShiftRight(p, a), b) == ShiftRight(p, a + b)
  {
    ShiftRightDiv(p, a);
    ShiftRightDiv(ShiftRight(p, a), b);
    ShiftRightDiv(p, a + b);
    Pow2Add(a, b);
    DivDiv(p, Pow2(a), Pow2(b));
  }

  lemma {:induction false} ShiftRightBound(p: nat, s: nat, t: nat)
    requires p < Pow2(s + t)
    ensures ShiftRight(p, s) < Pow2(t)
  {
    ShiftRightDiv(p, s);
    Pow2Add(s, t);
    DivBound(p, Pow2(s), Pow2(t));
  }

  lemma {:induction false} ShiftRightZero(p: nat)
    ensures ShiftRight(p, 0) == p
  {
    assert Pow2(0) == 1;
  }

  // ---------------------------------------------------------------------
  // Level partition

  function Sum(ws: seq<nat>): nat
  {
    if ws == [] then 0 else Sum(ws[..|ws| - 1]) + ws[|ws| - 1]
  }

  /** A level partition of a `bits`-bit window: at least one level, every
      level at least one bit wide, the widths adding up to `bits`. */
  ghost predicate ValidLevels(ws: seq<nat>, bits: nat)
  {
    && |ws| >= 1
    && (forall i :: 0 <= i < |ws| ==> ws[i] >= 1)
    && Sum(ws) == bits
  }

  /** The partition the tree builds: the root takes the remainder, every
      deeper level is MaxLevelBits wide. */
  function Partition(bits: nat): (ws: seq<nat>)
    requires bits >= 1
    ensures ValidLevels(ws, bits)
    ensures forall i :: 0 <= i < |ws| ==> ws[i] <= MaxLevelBits
    decreases bits
  {
    if bits <= MaxLevelBits then [bits]
    else
      var front := Partition(bits - MaxLevelBits);
      assert (front + [MaxLevelBits])[..|front|] == front;
      front + [MaxLevelBits]
  }

  /** Number of bits taken by the levels below level i: the shift that
      brings level i's bits to the bottom of the window. */
  function Shift(ws: seq<nat>, i: nat): nat
    requires i < |ws|
  {
    Sum(ws[i + 1..])
  }

  /** Index into level i's node: shift the window right past the deeper
      levels, keep the level's own bits. */
  function LevelIndex(ws: seq<nat>, p: nat, i: nat): (j: nat)
    requires i < |ws|
    ensures j < Pow2(ws[i])
  {
    LowBits(ShiftRight(p, Shift(ws, i)), ws[i])
  }

  /** Each index fits its level's fan-out (a prefix of the path is allowed). */
  ghost predicate ValidPath(ws: seq<nat>, path: seq<nat>)
  {
    |path| <= |ws| && forall i :: 0 <= i < |path| ==> path[i] < Pow2(ws[i])
  }

  /** The per-level indices of window p, root level first: the last level
      takes the low bits, the levels above it decompose the rest. */
  function Indices(ws: seq<nat>, p: nat): (idx: seq<nat>)
    ensures |idx| == |ws|
  {
    if ws == [] then []
    else
      var w := ws[|ws| - 1];
      Indices(ws[..|ws| - 1], ShiftRight(p, w)) + [LowBits(p, w)]
  }

  /** Reassembles a window from its per-level indices. */
  function Compose(ws: seq<nat>, idx: seq<nat>): nat
    requires |idx| == |ws|
  {
    if ws == [] then 0
    else Compose(ws[..|ws| - 1], idx[..|idx| - 1]) * Pow2(ws[|ws| - 1]) + idx[|idx| - 1]
  }

  lemma {:induction false} ShiftInit(ws: seq<nat>, i: nat)
    requires i + 1 < |ws|
    ensures Shift(ws, i) == ws[|ws| - 1] + Shift(ws[..|ws| - 1], i)
  {
    var tail := ws[i + 1..];
    assert tail[..|tail| - 1] == ws[..|ws| - 1][i + 1..];
  }

  /** The decomposition agrees with the per-level shift-and-mask: index i is
      the window shifted right past the deeper levels, masked to level i. */
  lemma {:induction false} IndicesAt(ws: seq<nat>, p: nat, i: nat)
    requires i < |ws|
    ensures Indices(ws, p)[i] == LevelIndex(ws, p, i)
  {
    var n := |ws|;
    var init, w := ws[..n - 1], ws[n - 1];
    if i < n - 1 {
      IndicesAt(init, ShiftRight(p, w), i);
      ShiftInit(ws, i);
      ShiftRightAdd(p, w, Shift(init, i));
    } else {
      assert ws[n..] == [];
      ShiftRightZero(p);
    }
  }

  /** Each index of a decomposition fits its level's fan-out. */
  lemma {:induction false} IndicesValid(ws: seq<nat>, p: nat)
    ensures ValidPath(ws, Indices(ws, p))
  {
    forall i | 0 <= i < |ws|
      ensures Indices(ws, p)[i] < Pow2(ws[i])
    {
      IndicesAt(ws, p, i);
    }
  }

  /** Composing the indices of a window gives the window back. */
  lemma {:induction false} ComposeIndices(ws: seq<nat>, p: nat)
    requires p < Pow2(Sum(ws))
    ensures Compose(ws, Indices(ws, p)) == p
  {
    if ws != [] {
      var n := |ws|;
      var init, w := ws[..n - 1], ws[n - 1];
      var q := ShiftRight(p, w);
      var idx := Indices(ws, p);
      assert idx[..n - 1] == Indices(init, q);
      ShiftRightBound(p, w, Sum(init));
      ComposeIndices(init, q);
      SplitLow(p, w);
    }
  }

  /** Every valid index path is the decomposition of exactly one window. */
  lemma {:induction false} IndicesCompose(ws: seq<nat>, idx: seq<nat>)
    requires |idx| == |ws| && ValidPath(ws, idx)
    ensures Compose(ws, idx) < Pow2(Sum(ws))
    ensures Indices(ws, Compose(ws, idx)) == idx
  {
    if ws != [] {
      var n := |ws|;
      var init, w := ws[..n - 1], ws[n - 1];
      var front := idx[..n - 1];
      assert ValidPath(init, front);
      IndicesCompose(init, front);
      var c0 := Compose(init, front);
      var c := Compose(ws, idx);
      assert c == c0 * Pow2(w) + idx[n - 1];
      MulAddBound(c0, Pow2(Sum(init)), idx[n - 1], Pow2(w));
      Pow2Add(Sum(init), w);
      SplitUnique(c, w, c0, idx[n - 1]);
      assert idx == front + [idx[n - 1]];
    }
  }

  /** Distinct windows never share an index path: they reach distinct leaf slots. */
  lemma {:induction false} IndicesInjective(ws: seq<nat>, p: nat, q: nat)
    requires p < Pow2(Sum(ws)) && q < Pow2(Sum(ws)) && p != q
    ensures Indices(ws, p) != Indices(ws, q)
  {
    ComposeIndices(ws, p);
    ComposeIndices(ws, q);
  }

  // ---------------------------------------------------------------------
  // The significant window of a key

  /** The top `bits` bits of key, right-aligned: key >> (64 - bits). */
  function Prefix(key: Word, bits: nat): (r: nat)
    requires bits <= WordBits
    ensures r < Pow2(bits)
  {
    Pow2Word();
    ShiftRightBound(key, WordBits - bits, bits);
    ShiftRight(key, WordBits - bits)
  }

  /** Bits below the window never influence it: a key whose low 64 - bits
      bits are clear and the same key with any low bits set share a window. */
  lemma {:induction false} LowBitsIgnored(bits: nat, high: Word, low: nat)
    requires bits <= WordBits && LowBits(high, WordBits - bits) == 0
    requires low < Pow2(WordBits - bits) && high + low < WordLimit
    ensures Prefix(high + low, bits) == Prefix(high, bits)
  {
    var s := WordBits - bits;
    SplitLow(high, s);
    SplitUnique(high + low, s, ShiftRight(high, s), low);
  }

  /** Keys with all of their top `bits` bits clear lie in window 0. */
  lemma {:induction false} BelowBoundaryIsWindowZero(bits: nat, key: Word)
    requires bits <= WordBits && key < Pow2(WordBits - bits)
    ensures Prefix(key, bits) == 0
  {
    SplitUnique(key, WordBits - bits, 0, key);
  }

  /** 1 << (64 - bits) is the first key of window 1. */
  lemma {:induction false} BoundaryIsWindowOne(bits: nat)
    requires 1 <= bits <= WordBits
    ensures Pow2(WordBits - bits) < WordLimit
    ensures Prefix(Pow2(WordBits - bits), bits) == 1
  {
    Pow2Word();
    Pow2Monotone(WordBits - bits, WordBits);
    SplitUnique(Pow2(WordBits - bits), WordBits - bits, 1, 0);
  }

  /** The all-ones word, cut into hi blocks of d, ends d - 1 into the last block. */
  lemma {:induction false} LastBlock(hi: int, d: int)
    requires d * hi == WordLimit
    ensures MaxWord == (hi - 1) * d + (d - 1)
  {
    Distrib(hi, 1, d);
  }

  /** Key 0 and key ~0 lie in the first and the last window, which differ. */
  lemma {:induction false} ExtremaWindows(bits: nat)
    requires 1 <= bits <= WordBits
    ensures Prefix(0, bits) == 0
    ensures Prefix(MaxWord, bits) == Pow2(bits) - 1
    ensures Prefix(0, bits) != Prefix(MaxWord, bits)
  {
    var s := WordBits - bits;
    var d := Pow2(s);
    Pow2Word();
    Pow2Add(s, bits);
    Pow2Monotone(0, bits);
    LastBlock(Pow2(bits), d);
    SplitUnique(MaxWord, s, Pow2(bits) - 1, d - 1);
    SplitUnique(0, s, 0, 0);
  }
}
