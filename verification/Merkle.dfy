/** Block-root Merkle trees. `merkle` folds a list of digests level by level;
  * `incremental_merkle` keeps only the roots of completed subtrees. Both are
  * related to one definition of the tree itself. `hash(l, r)` stands for the
  * digest of the canonical pair of a left and a right node. */
module Merkle {
  import opened Bits

  // ---------------------------------------------------------------- the tree

  /** The node over the 2^d leaf positions from `lo`. A right child without
    * any leaf is implied to equal the left child. */
  function Node<D>(hash: (D, D) -> D, ids: seq<D>, lo: nat, d: nat): D
    requires lo < |ids|
    decreases d
  {
    if d == 0 then ids[lo]
    else
      var left := Node(hash, ids, lo, d - 1);
      var mid := lo + Pow2(d - 1);
      hash(left, if mid < |ids| then Node(hash, ids, mid, d - 1) else left)
  }

  /** The depth of the smallest balanced tree holding n leaves. */
  function Depth(n: nat): nat {
    if n <= 1 then 0 else 1 + Depth((n + 1) / 2)
  }

  lemma {:induction false} DepthBounds(n: nat)
    ensures n <= Pow2(Depth(n))
    ensures n > 1 ==> Depth(n) > 0 && Pow2(Depth(n) - 1) < n
  {
    if n > 1 {
      DepthBounds((n + 1) / 2);
    }
  }

  lemma DepthUnique(n: nat, d: nat)
    requires n <= Pow2(d)
    requires d > 0 ==> Pow2(d - 1) < n
    ensures Depth(n) == d
  {
    DepthBounds(n);
    if Depth(n) < d {
      if Depth(n) < d - 1 {
        Pow2Less(Depth(n), d - 1);
      }
    } else if d < Depth(n) {
      if d < Depth(n) - 1 {
        Pow2Less(d, Depth(n) - 1);
      }
    }
  }

  function TreeRoot<D>(hash: (D, D) -> D, ids: seq<D>): D
    requires |ids| > 0
  {
    Node(hash, ids, 0, Depth(|ids|))
  }

  // -------------------------------------------------------- level-by-level fold

  /** One level of the tree: neighbours hashed in pairs, a last odd node with itself. */
  ghost predicate IsLevelAbove<D>(hash: (D, D) -> D, level: seq<D>, up: seq<D>) {
    && |up| == (|level| + 1) / 2
    && forall j {:trigger up[j]} :: 0 <= j < |up| ==>
         up[j] == hash(level[2 * j], if 2 * j + 1 < |level| then level[2 * j + 1] else level[2 * j])
  }

  lemma {:induction false} NodeLevelAbove<D>(hash: (D, D) -> D, level: seq<D>, up: seq<D>, lo: nat, d: nat)
    requires IsLevelAbove(hash, level, up)
    requires lo < |up|
    ensures Node(hash, up, lo, d) == Node(hash, level, 2 * lo, d + 1)
    decreases d
  {
    if d == 0 {
      assert Pow2(0) == 1;
    } else {
      NodeLevelAbove(hash, level, up, lo, d - 1);
      var mid := lo + Pow2(d - 1);
      assert 2 * mid == 2 * lo + Pow2(d);
      if mid < |up| {
        NodeLevelAbove(hash, level, up, mid, d - 1);
      }
    }
  }

  /** The root by levels: on each level neighbours are hashed in pairs, the left one first, a
    * last one without a neighbour with itself, until one is left. */
  lemma {:induction false} RootByLevels<D>(hash: (D, D) -> D, ids: seq<D>) returns (levels: seq<seq<D>>)
    requires ids != []
    ensures levels != [] && levels[0] == ids && levels[|levels| - 1] == [TreeRoot(hash, ids)]
    ensures forall k :: 0 <= k < |levels| - 1 ==> |levels[k]| > 1 && Paired(hash, levels[k], levels[k + 1])
    decreases |ids|
  {
    if |ids| == 1 {
      levels := [ids];
    } else {
      var up := seq((|ids| + 1) / 2, j requires 0 <= j < (|ids| + 1) / 2 => hash(ids[2 * j], if 2 * j + 1 < |ids| then ids[2 * j + 1] else ids[2 * j]));
      assert IsLevelAbove(hash, ids, up);
      NodeLevelAbove(hash, ids, up, 0, Depth(|up|));
      var more := RootByLevels(hash, up);
      levels := [ids] + more;
    }
  }

  ghost predicate Paired<D>(hash: (D, D) -> D, level: seq<D>, up: seq<D>) {
    && |up| == (|level| + 1) / 2
    && (forall j :: 0 <= j < |level| / 2 ==> up[j] == hash(level[2 * j], level[2 * j + 1]))
    && (|level| % 2 == 1 ==> up[|level| / 2] == hash(level[|level| - 1], level[|level| - 1]))
  }

  method Fold<D>(hash: (D, D) -> D, empty: D, input: seq<D>) returns (root: D)
    ensures root == if |input| == 0 then empty else TreeRoot(hash, input)
  {
    if |input| == 0 {
      return empty;
    }
    var ids := input;
    while |ids| > 1
      invariant |ids| > 0
      invariant TreeRoot(hash, ids) == TreeRoot(hash, input)
      decreases |ids|
    {
      ghost var level := ids;
      if |ids| % 2 == 1 {
        ids := ids + [ids[|ids| - 1]];
      }
      ghost var padded := ids;
      var i := 0;
      while i < |ids| / 2
        invariant 0 <= i <= |ids| / 2 && |ids| == |padded|
        invariant forall j {:trigger ids[j]} :: 0 <= j < i ==> ids[j] == hash(padded[2 * j], padded[2 * j + 1])
        invariant forall j :: i <= j < |ids| ==> ids[j] == padded[j]
      {
        ids := ids[i := hash(ids[2 * i], ids[2 * i + 1])];
        i := i + 1;
      }
      ids := ids[..|ids| / 2];
      assert IsLevelAbove(hash, level, ids);
      NodeLevelAbove(hash, level, ids, 0, Depth(|ids|));
    }
    root := ids[0];
  }

  // ------------------------------------------------------------ depth by bits

  /** Node counts are 64-bit words, and arithmetic on them wraps. */
  const WORD: nat := 0x1_0000_0000_0000_0000

  /** The top `j` of the `t` bits of `v` are set. */
  ghost predicate Smeared(v: nat, t: nat, j: nat) {
    v < Pow2(t) && forall i :: 0 <= i < t && t - j <= i ==> Bit(v, i)
  }

  lemma Smear(v: nat, t: nat, j: nat)
    requires Smeared(v, t, j)
    ensures Smeared(Or(v, Shr(v, j)), t, 2 * j)
  {
    var w := Shr(v, j);
    ShrBelow(v, j);
    OrBelow(v, w, t);
    forall i | 0 <= i < t && t - 2 * j <= i
      ensures Bit(Or(v, w), i)
    {
      BitOr(v, w, i);
      BitShr(v, j, i);
      if i < t - j {
        assert Bit(v, i + j);
      }
    }
  }

  lemma {:induction false} ShrBelow(v: nat, j: nat)
    ensures Shr(v, j) <= v
    decreases j
  {
    if j > 0 {
      ShrBelow(v / 2, j - 1);
    }
  }

  lemma {:induction false} TopBit(v: nat, t: nat)
    requires t > 0 && Pow2(t - 1) <= v < Pow2(t)
    ensures Bit(v, t - 1)
    decreases t
  {
    if t > 1 {
      TopBit(v / 2, t - 1);
    }
  }

  lemma {:induction false} DepthAtMost(n: nat, w: nat)
    requires n <= Pow2(w)
    ensures Depth(n) <= w
  {
    if n > 1 {
      DepthAtMost((n + 1) / 2, w - 1);
    }
  }

  /** Depth 64 is reached by the counts above 2^63, whose next power of two is the first
    * number that is no word. */
  lemma DepthOfWord(n: nat)
    requires 0 < n < WORD
    ensures Depth(n) <= 64
    ensures Depth(n) == 64 <==> n > 0x8000_0000_0000_0000
    ensures Depth(n) < 64 ==> Pow2(Depth(n)) < WORD
  {
    Pow2Of64();
    DepthAtMost(n, 64);
    DepthBounds(n);
    if n <= 0x8000_0000_0000_0000 {
      DepthAtMost(n, 63);
      Pow2Less(Depth(n), 64);
    } else if Depth(n) < 63 {
      Pow2Less(Depth(n), 63);
    }
  }

  lemma SmearedBelow(n: nat)
    requires n > 0
    ensures Smeared(n - 1, Depth(n), 1)
  {
    DepthBounds(n);
    if n > 1 {
      TopBit(n - 1, Depth(n));
    }
  }

  lemma SmearedWord()
    ensures Smeared(WORD - 1, 64, 1)
  {
    Pow2Of64();
    LowOnes(64, 63);
  }

  /** Spreads the top one of t bits downwards, over twice as many each time. */
  method SetBelow(v: nat, ghost t: nat) returns (value: nat)
    requires t <= 64 && Smeared(v, t, 1)
    ensures value == Pow2(t) - 1
  {
    value := v;
    Smear(value, t, 1);
    value := Or(value, Shr(value, 1));
    Smear(value, t, 2);
    value := Or(value, Shr(value, 2));
    Smear(value, t, 4);
    value := Or(value, Shr(value, 4));
    Smear(value, t, 8);
    value := Or(value, Shr(value, 8));
    Smear(value, t, 16);
    value := Or(value, Shr(value, 16));
    Smear(value, t, 32);
    value := Or(value, Shr(value, 32));
    AllOnes(value, t);
  }

  /** The next power of two, or zero where that is no word or there is no node. */
  method NextPowerOf2(n: nat) returns (value: nat)
    requires n < WORD
    ensures value == if n == 0 || n > 0x8000_0000_0000_0000 then 0 else Pow2(Depth(n))
  {
    ghost var t := if n == 0 then 64 else Depth(n);
    Pow2Of64();
    if n == 0 {
      SmearedWord();
    } else {
      DepthOfWord(n);
      SmearedBelow(n);
    }
    value := (n - 1) % WORD;
    value := SetBelow(value, t);
    value := (value + 1) % WORD;
  }

  function Half(d: nat, k: nat): nat {
    if d < k then d else d - k
  }

  lemma Doubled(m: nat, k: nat, d: nat)
    requires m < Pow2(k) && d < 2 * k
    ensures Bit(m + Shl(m, k), d) == Bit(m, Half(d, k))
  {
    BitConcat(m, m, k, d);
  }

  lemma Twice32(m: nat, d: nat)
    requires m < 0x1_0000_0000 && d < 64
    ensures Bit(m + 0x1_0000_0000 * m, d) == Bit(m, Half(d, 32))
  {
    ShlBy32(m);
    Doubled(m, 32, d);
  }

  lemma Twice16(m: nat, d: nat)
    requires m < 0x1_0000 && d < 32
    ensures Bit(m + 0x1_0000 * m, d) == Bit(m, Half(d, 16))
  {
    ShlBy16(m);
    Doubled(m, 16, d);
  }

  lemma Twice8(m: nat, d: nat)
    requires m < 0x100 && d < 16
    ensures Bit(m + 0x100 * m, d) == Bit(m, Half(d, 8))
  {
    ShlBy8(m);
    Doubled(m, 8, d);
  }

  lemma Twice4(m: nat, d: nat)
    requires m < 0x10 && d < 8
    ensures Bit(m + 0x10 * m, d) == Bit(m, Half(d, 4))
  {
    ShlBy4(m);
    Doubled(m, 4, d);
  }

  lemma Twice2(m: nat, d: nat)
    requires m < 4 && d < 4
    ensures Bit(m + 4 * m, d) == Bit(m, Half(d, 2))
  {
    ShlMul(m, 2);
    assert Pow2(2) == 4;
    Doubled(m, 2, d);
  }

  /** The position of a bit in ever shorter halves of the word, and whether each
    * striped mask has that bit. */
  lemma Mask32(d: nat)
    requires d < 64
    ensures Bit(0x00000000FFFFFFFF, d) == (d < 32)
  {
    Pow2Of32();
    LowOnes(32, d);
  }

  lemma Mask16(d: nat, d5: nat)
    requires d < 64 && d5 == Half(d, 32)
    ensures Bit(0x0000FFFF0000FFFF, d) == (d5 < 16)
  {
    Twice32(0x0000FFFF, d);
    Pow2Of16();
    LowOnes(16, d5);
  }

  lemma Mask8(d: nat, d5: nat, d4: nat)
    requires d < 64 && d5 == Half(d, 32) && d4 == Half(d5, 16)
    ensures Bit(0x00FF00FF00FF00FF, d) == (d4 < 8)
  {
    Twice32(0x00FF00FF, d);
    Twice16(0x00FF, d5);
    Pow2Of8();
    LowOnes(8, d4);
  }

  lemma Mask4(d: nat, d5: nat, d4: nat, d3: nat)
    requires d < 64 && d5 == Half(d, 32) && d4 == Half(d5, 16) && d3 == Half(d4, 8)
    ensures Bit(0x0F0F0F0F0F0F0F0F, d) == (d3 < 4)
  {
    Twice32(0x0F0F0F0F, d);
    Twice16(0x0F0F, d5);
    Twice8(0x0F, d4);
    assert Pow2(4) == 0x10;
    LowOnes(4, d3);
  }

  lemma Mask2(d: nat, d5: nat, d4: nat, d3: nat, d2: nat)
    requires d < 64 && d5 == Half(d, 32) && d4 == Half(d5, 16) && d3 == Half(d4, 8) && d2 == Half(d3, 4)
    ensures Bit(0x3333333333333333, d) == (d2 < 2)
  {
    Twice32(0x33333333, d);
    Twice16(0x3333, d5);
    Twice8(0x33, d4);
    Twice4(0x3, d3);
    assert Pow2(2) == 4;
    LowOnes(2, d2);
  }

  lemma Mask1(d: nat, d5: nat, d4: nat, d3: nat, d2: nat, d1: nat)
    requires d < 64 && d5 == Half(d, 32) && d4 == Half(d5, 16) && d3 == Half(d4, 8) && d2 == Half(d3, 4) && d1 == Half(d2, 2)
    ensures Bit(0x5555555555555555, d) == (d1 < 1)
  {
    Twice32(0x55555555, d);
    Twice16(0x5555, d5);
    Twice8(0x55, d4);
    Twice4(0x5, d3);
    Twice2(0x1, d2);
    assert Pow2(1) == 2;
    LowOnes(1, d1);
  }

  lemma {:induction false} LowOnes(k: nat, i: nat)
    ensures Bit(Pow2(k) - 1, i) == (i < k)
    decreases k
  {
    if k == 0 {
      BitZero(i);
    } else if i > 0 {
      LowOnes(k - 1, i - 1);
    }
  }

  lemma MaskTests(d: nat, d5: nat, d4: nat, d3: nat, d2: nat, d1: nat)
    requires d < 64 && d5 == Half(d, 32) && d4 == Half(d5, 16) && d3 == Half(d4, 8) && d2 == Half(d3, 4) && d1 == Half(d2, 2)
    ensures And(Pow2(d), 0x00000000FFFFFFFF) != 0 <==> d < 32
    ensures And(Pow2(d), 0x0000FFFF0000FFFF) != 0 <==> d5 < 16
    ensures And(Pow2(d), 0x00FF00FF00FF00FF) != 0 <==> d4 < 8
    ensures And(Pow2(d), 0x0F0F0F0F0F0F0F0F) != 0 <==> d3 < 4
    ensures And(Pow2(d), 0x3333333333333333) != 0 <==> d2 < 2
    ensures And(Pow2(d), 0x5555555555555555) != 0 <==> d1 < 1
  {
    Mask32(d);
    AndPow2(d, 0x00000000FFFFFFFF);
    Mask16(d, d5);
    AndPow2(d, 0x0000FFFF0000FFFF);
    Mask8(d, d5, d4);
    AndPow2(d, 0x00FF00FF00FF00FF);
    Mask4(d, d5, d4, d3);
    AndPow2(d, 0x0F0F0F0F0F0F0F0F);
    Mask2(d, d5, d4, d3, d2);
    AndPow2(d, 0x3333333333333333);
    Mask1(d, d5, d4, d3, d2, d1);
    AndPow2(d, 0x5555555555555555);
  }

  lemma {:induction false} NoMask(mask: nat)
    ensures And(0, mask) == 0
  {
    if mask > 0 {
      NoMask(mask / 2);
    }
  }

  lemma MaskTestsOrZero(value: nat, d: nat, d5: nat, d4: nat, d3: nat, d2: nat, d1: nat)
    requires d < 64 && d5 == Half(d, 32) && d4 == Half(d5, 16) && d3 == Half(d4, 8) && d2 == Half(d3, 4) && d1 == Half(d2, 2)
    requires value == 0 || value == Pow2(d)
    ensures And(value, 0x00000000FFFFFFFF) != 0 <==> value != 0 && d < 32
    ensures And(value, 0x0000FFFF0000FFFF) != 0 <==> value != 0 && d5 < 16
    ensures And(value, 0x00FF00FF00FF00FF) != 0 <==> value != 0 && d4 < 8
    ensures And(value, 0x0F0F0F0F0F0F0F0F) != 0 <==> value != 0 && d3 < 4
    ensures And(value, 0x3333333333333333) != 0 <==> value != 0 && d2 < 2
    ensures And(value, 0x5555555555555555) != 0 <==> value != 0 && d1 < 1
  {
    if value == 0 {
      NoMask(0x00000000FFFFFFFF);
      NoMask(0x0000FFFF0000FFFF);
      NoMask(0x00FF00FF00FF00FF);
      NoMask(0x0F0F0F0F0F0F0F0F);
      NoMask(0x3333333333333333);
      NoMask(0x5555555555555555);
    } else {
      MaskTests(d, d5, d4, d3, d2, d1);
    }
  }

  /** Despite its name the bit count returns the exponent of a power of two, and 64 for
    * zero. */
  method ClzPower2(value: nat, ghost d: nat) returns (lz: int)
    requires d < 64 && (value == 0 || value == Pow2(d))
    ensures lz == if value == 0 then 64 else d
  {
    ghost var d5 := Half(d, 32);
    ghost var d4 := Half(d5, 16);
    ghost var d3 := Half(d4, 8);
    ghost var d2 := Half(d3, 4);
    ghost var d1 := Half(d2, 2);
    MaskTestsOrZero(value, d, d5, d4, d3, d2, d1);
    lz := 64;
    if value != 0 {
      lz := lz - 1;
    }
    if And(value, 0x00000000FFFFFFFF) != 0 {
      lz := lz - 32;
    }
    if And(value, 0x0000FFFF0000FFFF) != 0 {
      lz := lz - 16;
    }
    if And(value, 0x00FF00FF00FF00FF) != 0 {
      lz := lz - 8;
    }
    if And(value, 0x0F0F0F0F0F0F0F0F) != 0 {
      lz := lz - 4;
    }
    if And(value, 0x3333333333333333) != 0 {
      lz := lz - 2;
    }
    if And(value, 0x5555555555555555) != 0 {
      lz := lz - 1;
    }
  }

  method CalculateMaxDepth(nodeCount: nat) returns (depth: int)
    requires nodeCount < WORD
    ensures depth == if nodeCount == 0 then 0 else Depth(nodeCount) + 1
  {
    if nodeCount == 0 {
      return 0;
    }
    DepthOfWord(nodeCount);
    var impliedCount := NextPowerOf2(nodeCount);
    var log := ClzPower2(impliedCount, if Depth(nodeCount) == 64 then 0 else Depth(nodeCount));
    depth := log + 1;
  }

  // ------------------------------------------------------------- incremental

  /** Roots of the completed subtrees of the first m * 2^k leaves, smallest
    * subtree first: one for each set bit of m. */
  function Peaks<D>(hash: (D, D) -> D, ids: seq<D>, m: nat, k: nat): seq<D>
    requires Shl(m, k) <= |ids|
    decreases m
  {
    if m == 0 then []
    else
      HalfFits(m, k);
      var rest := Peaks(hash, ids, m / 2, k + 1);
      if m % 2 == 1 then [Node(hash, ids, Shl(m - 1, k), k)] + rest else rest
  }

  lemma HalfFits(m: nat, k: nat)
    requires m > 0
    ensures m % 2 == 0 ==> Shl(m / 2, k + 1) == Shl(m, k)
    ensures m % 2 == 1 ==> Shl(m / 2, k + 1) == Shl(m - 1, k) == Shl(m, k) - Pow2(k)
  {
    ShlShl(m / 2, 1, k);
    ShlAdd(m / 2 + m / 2, m % 2, k);
    ShlOne(k);
  }

  /** What `_active_nodes` holds: the peaks, and the root after them unless the
    * single peak is the root already. */
  function Active<D>(hash: (D, D) -> D, ids: seq<D>): seq<D> {
    if |ids| == 0 then []
    else if |ids| == Pow2(Depth(|ids|)) then [TreeRoot(hash, ids)]
    else AllPeaks(hash, ids) + [TreeRoot(hash, ids)]
  }

  function AllPeaks<D>(hash: (D, D) -> D, ids: seq<D>): seq<D> {
    Peaks(hash, ids, |ids|, 0)
  }

  lemma {:induction false} NodePrefix<D>(hash: (D, D) -> D, ids: seq<D>, x: D, lo: nat, d: nat)
    requires lo + Pow2(d) <= |ids|
    ensures Node(hash, ids + [x], lo, d) == Node(hash, ids, lo, d)
    decreases d
  {
    if d > 0 {
      NodePrefix(hash, ids, x, lo, d - 1);
      NodePrefix(hash, ids, x, lo + Pow2(d - 1), d - 1);
    }
  }

  lemma {:induction false} PeaksOfPow2<D>(hash: (D, D) -> D, ids: seq<D>, j: nat, k: nat)
    requires 0 < |ids| && Shl(Pow2(j), k) <= |ids|
    ensures Peaks(hash, ids, Pow2(j), k) == [Node(hash, ids, 0, k + j)]
    decreases j
  {
    if j > 0 {
      HalfFits(Pow2(j), k);
      PeaksOfPow2(hash, ids, j - 1, k + 1);
    } else {
      ShlZero(k);
    }
  }

  /** Trailing zero bits contribute no peak. */
  lemma {:induction false} PeaksSkip<D>(hash: (D, D) -> D, ids: seq<D>, m: nat, k: nat, j: nat, n: nat)
    requires n == Shl(m, k)
    requires Shl(m, k + j) <= |ids| && Shl(n, j) <= |ids|
    ensures Peaks(hash, ids, n, j) == Peaks(hash, ids, m, k + j)
    decreases k
  {
    if n == 0 {
      if m > 0 {
        ShlAtLeast(m, k);
      }
    } else if k > 0 {
      HalfFits(n, j);
      PeaksSkip(hash, ids, m, k - 1, j + 1, n / 2);
    }
  }

  /** State of one append after climbing k levels from the new leaf: `top` is
    * node number `index` of its level. */
  datatype Climb<D> = Climb(index: nat, top: D, partial: bool, updated: seq<D>)

  /** Node `index` of level k is the last one that covers a leaf; it starts at leaf `lo`. */
  ghost predicate LastNode(count: nat, index: nat, k: nat, lo: nat) {
    lo == Shl(index, k) && lo < count <= lo + Pow2(k)
  }

  /** With `ids` all the leaves including the new one: `top` is the node over
    * the new leaf, and the peaks collected so far with those still to be copied
    * make the new peaks. */
  ghost predicate Climbed<D>(hash: (D, D) -> D, ids: seq<D>, k: nat, lo: nat, c: Climb<D>) {
    && LastNode(|ids|, c.index, k, lo)
    && c.top == Node(hash, ids, lo, k)
    && (c.partial <==> |ids| < lo + Pow2(k))
    && (if c.partial then c.updated + Peaks(hash, ids, c.index, k) == AllPeaks(hash, ids) else c.updated == [])
  }

  /** When the last node is complete and a left child, it is the smallest peak. */
  lemma SmallestPeak<D>(hash: (D, D) -> D, ids: seq<D>, k: nat, lo: nat, index: nat)
    requires LastNode(|ids|, index, k, lo) && |ids| == lo + Pow2(k) && index % 2 == 0
    ensures Shl(index / 2, k + 1) == lo
    ensures AllPeaks(hash, ids) == [Node(hash, ids, lo, k)] + Peaks(hash, ids, index / 2, k + 1)
  {
    ShlAdd(index, 1, k);
    ShlOne(k);
    PeaksSkip(hash, ids, index + 1, k, 0, |ids|);
    HalfFits(index + 1, k);
  }

  /** A left node without a sibling: its right sibling is implied. */
  lemma ClimbLeft<D>(hash: (D, D) -> D, ids: seq<D>, k: nat, lo: nat, c: Climb<D>, c': Climb<D>)
    requires Climbed(hash, ids, k, lo, c) && c.index % 2 == 0
    requires c' == Climb(c.index / 2, hash(c.top, c.top), true, if c.partial then c.updated else c.updated + [c.top])
    ensures Climbed(hash, ids, k + 1, lo, c')
  {
    if c.index > 0 {
      HalfFits(c.index, k);
    } else {
      ShlZero(k);
    }
    if !c.partial {
      SmallestPeak(hash, ids, k, lo, c.index);
    }
  }

  /** A right node joins the completed left sibling kept from earlier appends. */
  lemma ClimbRight<D>(hash: (D, D) -> D, ids: seq<D>, k: nat, lo: nat, c: Climb<D>, c': Climb<D>)
    requires Climbed(hash, ids, k, lo, c) && c.index % 2 == 1 && Pow2(k) <= lo
    requires var left := Node(hash, ids, lo - Pow2(k), k);
             c' == Climb(c.index / 2, hash(left, c.top), c.partial, if c.partial then c.updated + [left] else c.updated)
    ensures Climbed(hash, ids, k + 1, lo - Pow2(k), c')
  {
    HalfFits(c.index, k);
    var left := Node(hash, ids, lo - Pow2(k), k);
    var rest := Peaks(hash, ids, c.index / 2, k + 1);
    assert Peaks(hash, ids, c.index, k) == [left] + rest;
    assert c.updated + ([left] + rest) == (c.updated + [left]) + rest;
  }

  /** The left sibling of node m comes first among the peaks of the earlier leaves. */
  lemma LeftSibling<D>(hash: (D, D) -> D, before: seq<D>, x: D, m: nat, k: nat, lo: nat)
    requires m % 2 == 1 && lo == Shl(m, k) && lo <= |before|
    ensures Pow2(k) <= lo && Shl(m / 2, k + 1) <= lo
    ensures Peaks(hash, before, m, k) ==
            [Node(hash, before + [x], lo - Pow2(k), k)] + Peaks(hash, before, m / 2, k + 1)
  {
    HalfFits(m, k);
    NodePrefix(hash, before, x, lo - Pow2(k), k);
  }

  /** A left node reads no earlier peak. */
  lemma NoSibling<D>(hash: (D, D) -> D, before: seq<D>, m: nat, k: nat, lo: nat)
    requires m % 2 == 0 && lo == Shl(m, k) && lo <= |before|
    ensures Shl(m / 2, k + 1) == lo && Peaks(hash, before, m, k) == Peaks(hash, before, m / 2, k + 1)
  {
    if m > 0 {
      HalfFits(m, k);
    } else {
      ShlZero(k);
      ShlZero(k + 1);
    }
  }

  lemma ClimbDone<D>(hash: (D, D) -> D, ids: seq<D>, lo: nat, c: Climb<D>)
    requires |ids| > 0 && Climbed(hash, ids, Depth(|ids|), lo, c)
    ensures c.top == TreeRoot(hash, ids)
    ensures c.updated + [c.top] == Active(hash, ids)
  {
    var d := Depth(|ids|);
    DepthBounds(|ids|);
    if c.index > 0 {
      ShlAtLeast(c.index, d);
    }
    ShlZero(d);
    if c.partial {
      assert c.updated + [] == c.updated;
    }
  }

  /** The climb from the new leaf to the root: the new active nodes. */
  method Collapse<D>(hash: (D, D) -> D, digest: D, nodeCount: nat, activeNodes: seq<D>, depth: int, ghost before: seq<D>, ghost tail: seq<D>)
    returns (updated: seq<D>)
    requires nodeCount == |before| && activeNodes == AllPeaks(hash, before) + tail && (depth < 0 || depth == Depth(nodeCount + 1))
    ensures depth < 0 ==> updated == [digest]
    ensures depth >= 0 ==> updated == Active(hash, before + [digest]) && updated[|updated| - 1] == TreeRoot(hash, before + [digest])
  {
    ghost var ids := before + [digest];
    var currentDepth := depth;
    var index, top, partial, active := nodeCount, digest, false, activeNodes;
    updated := [];
    ghost var k: nat, lo: nat := 0, nodeCount;
    StartClimb(hash, before, digest);
    ghost var c, peaks := Climb(index, top, partial, updated), AllPeaks(hash, before);
    while currentDepth > 0
      invariant depth < 0 ==> currentDepth < 0 && updated == [] && top == digest
      invariant depth >= 0 ==> 0 <= currentDepth == Depth(|ids|) - k
      invariant c == Climb(index, top, partial, updated) && Climbed(hash, ids, k, lo, c)
      invariant Shl(index, k) <= |before| && peaks == Peaks(hash, before, index, k) && active == peaks + tail
      decreases currentDepth
    {
      ghost var c' := c;
      if index % 2 == 0 {
        if !partial {
          updated := updated + [top];
        }
        top := hash(top, top);
        partial := true;
        c' := Climb(index / 2, top, partial, updated);
        ClimbLeft(hash, ids, k, lo, c, c');
        NoSibling(hash, before, index, k, lo);
        peaks := Peaks(hash, before, index / 2, k + 1);
      } else {
        LeftSibling(hash, before, digest, index, k, lo);
        peaks := Peaks(hash, before, index / 2, k + 1);
        var left := active[0];
        assert active == [left] + (peaks + tail);
        active := active[1..];
        if partial {
          updated := updated + [left];
        }
        top := hash(left, top);
        c' := Climb(index / 2, top, partial, updated);
        ClimbRight(hash, ids, k, lo, c, c');
        lo := lo - Pow2(k);
      }
      currentDepth := currentDepth - 1;
      index := index / 2;
      k := k + 1;
      c := c';
    }
    if depth >= 0 {
      ClimbDone(hash, ids, lo, c);
    }
    updated := updated + [top];
  }

  class IncrementalMerkle<D(0)> {
    const hash: (D, D) -> D
    const empty: D
    var nodeCount: nat
    var activeNodes: seq<D>
    ghost var leaves: seq<D>

    ghost predicate Valid()
      reads this
    {
      nodeCount == |leaves| < WORD && (leaves != [] ==> activeNodes == Active(hash, leaves))
    }

    constructor (hash: (D, D) -> D, empty: D)
      ensures Valid() && leaves == [] && this.hash == hash && this.empty == empty
    {
      this.hash := hash;
      this.empty := empty;
      nodeCount := 0;
      activeNodes := [];
      leaves := [];
    }

    /** The digest becomes the last leaf. When the count wraps, the tree starts over
      * without any. */
    method Append(digest: D) returns (root: D)
      requires Valid()
      modifies this
      ensures Valid()
      ensures |old(leaves)| + 1 < WORD ==> leaves == old(leaves) + [digest] && root == TreeRoot(hash, leaves)
      ensures |old(leaves)| + 1 == WORD ==> leaves == [] && root == digest
    {
      ghost var tail := ActiveBegins(hash, leaves, activeNodes);
      var count := if nodeCount + 1 == WORD then 0 else nodeCount + 1;
      var maxDepth := CalculateMaxDepth(count);
      activeNodes := Collapse(hash, digest, nodeCount, activeNodes, maxDepth - 1, leaves, tail);
      leaves := if nodeCount + 1 == WORD then [] else leaves + [digest];
      nodeCount := count;
      root := activeNodes[|activeNodes| - 1];
    }

    method GetRoot() returns (root: D)
      requires Valid()
      ensures root == if leaves == [] then empty else TreeRoot(hash, leaves)
    {
      if nodeCount > 0 {
        root := activeNodes[|activeNodes| - 1];
      } else {
        root := empty;
      }
    }
  }

  lemma StartClimb<D>(hash: (D, D) -> D, before: seq<D>, x: D)
    ensures Climbed(hash, before + [x], 0, |before|, Climb(|before|, x, false, []))
  {
    assert Pow2(0) == 1;
  }

  /** The nodes kept between appends begin with the peaks. */
  lemma ActiveBegins<D>(hash: (D, D) -> D, before: seq<D>, active: seq<D>) returns (tail: seq<D>)
    requires before != [] ==> active == Active(hash, before)
    ensures active == AllPeaks(hash, before) + tail
  {
    var n, d := |before|, Depth(|before|);
    if n == 0 {
      tail := active;
    } else if n == Pow2(d) {
      PeaksOfPow2(hash, before, d, 0);
      tail := [];
    } else {
      tail := [TreeRoot(hash, before)];
    }
  }
}
