/**
 The Merkle grid as a function of the leaf commitments: every row is the row
 below folded pairwise, an unpaired last node being promoted unchanged.  The
 tree class maintains this grid incrementally; here it is built from scratch,
 and tied to the recursive tree that splits n leaves at the largest power of
 two below n.
 */
module Grid {
  import opened Wrappers
  import opened Arith
  import opened Types

  // ----- shape: what the number of leaves alone determines -----

  /** The width of level k over n leaves. */
  function Width(n: nat, k: nat): nat {
    if k == 0 then n else (Width(n, k - 1) + 1) / 2
  }

  /** The number of levels above level 0. */
  function Depth(n: nat): nat {
    if n <= 1 then 0 else 1 + Depth((n + 1) / 2)
  }

  /** The source computes the depth as the bit length of n - 1. */
  lemma {:induction false} DepthIsBitsLen(n: nat)
    requires n > 0
    ensures Depth(n) == BitsLen(n - 1)
  {
    if n > 1 {
      DepthIsBitsLen((n + 1) / 2);
      assert (n + 1) / 2 - 1 == (n - 1) / 2;
    }
  }

  /** 2^(depth-1) < n <= 2^depth, and no other depth has that property. */
  lemma {:induction false} DepthBounds(n: nat)
    requires n > 0
    ensures n <= Pow2(Depth(n))
    ensures Depth(n) > 0 ==> Pow2(Depth(n) - 1) < n
  {
    if n > 1 {
      DepthBounds((n + 1) / 2);
      if Depth((n + 1) / 2) == 0 {
        assert (n + 1) / 2 <= 1;
      }
    }
  }

  lemma DepthUnique(n: nat, d: nat)
    requires Pow2(d) < n <= Pow2(d + 1)
    ensures Depth(n) == d + 1
  {
    DepthBounds(n);
    var e := Depth(n);
    if e <= d {
      Pow2Monotone(e, d);
    } else if e > d + 1 {
      Pow2Monotone(d + 1, e - 1);
    }
  }

  lemma DepthFits(n: nat, d: nat)
    requires n <= Pow2(d)
    ensures Depth(n) <= d
  {
    if n > 0 && Depth(n) > d {
      DepthBounds(n);
      Pow2Monotone(d, Depth(n) - 1);
    }
  }

  lemma {:induction false} DepthMonotone(a: nat, b: nat)
    requires a <= b
    ensures Depth(a) <= Depth(b)
    decreases b
  {
    if a > 1 {
      DepthMonotone((a + 1) / 2, (b + 1) / 2);
    }
  }

  /** Halving the width the way the rows do: level k of n is level k-1 of ceil(n/2). */
  lemma {:induction false} WidthFromBelow(n: nat, k: nat)
    requires k > 0
    ensures Width(n, k) == Width((n + 1) / 2, k - 1)
  {
    if k > 1 {
      WidthFromBelow(n, k - 1);
    }
  }

  /** Exactly the rows strictly below the top have two or more nodes; the top has one. */
  lemma {:induction false} TopRowIsSingle(n: nat)
    requires n > 0
    ensures Width(n, Depth(n)) == 1
  {
    if n > 1 {
      TopRowIsSingle((n + 1) / 2);
      WidthFromBelow(n, Depth(n));
    }
  }

  lemma {:induction false} WidthMonotone(a: nat, b: nat, k: nat)
    requires a <= b
    ensures Width(a, k) <= Width(b, k)
  {
    if k != 0 {
      WidthMonotone(a, b, k - 1);
    }
  }

  lemma {:induction false} AncInWidth(n: nat, i: nat, k: nat)
    requires i < n
    ensures Anc(i, k) < Width(n, k)
  {
    if k != 0 {
      AncInWidth(n, i, k - 1);
    }
  }

  // ----- rows -----

  /** The node above positions 2i and 2i+1 of a row. */
  function Parent(h: Hasher, row: seq<nat>, i: nat): nat
    requires 2 * i < |row|
  {
    if 2 * i + 1 < |row| then h(row[2 * i], row[2 * i + 1]) else row[2 * i]
  }

  /** The row above: neighbours hashed two by two, a last odd one kept. */
  function Up(h: Hasher, row: seq<nat>): (r: seq<nat>)
    ensures |r| == (|row| + 1) / 2
  {
    if |row| < 2 then row else [h(row[0], row[1])] + Up(h, row[2..])
  }

  lemma {:induction false} UpAt(h: Hasher, row: seq<nat>, i: nat)
    requires 2 * i < |row|
    ensures Up(h, row)[i] == (if 2 * i + 1 < |row| then h(row[2 * i], row[2 * i + 1]) else row[2 * i])
  {
    if i > 0 {
      UpAt(h, row[2..], i - 1);
    }
  }

  /** Level k over the commitments cs. */
  function Row(h: Hasher, cs: seq<nat>, k: nat): (r: seq<nat>)
    ensures |r| == Width(|cs|, k)
  {
    if k == 0 then cs else Up(h, Row(h, cs, k - 1))
  }

  /** The root of a non-empty list of commitments. */
  function RootOf(h: Hasher, cs: seq<nat>): nat
    requires cs != []
  {
    TopRowIsSingle(|cs|);
    Row(h, cs, Depth(|cs|))[0]
  }

  // ----- the recursive tree -----

  /** The largest power of two below n. */
  function Split(n: nat): (r: nat)
    requires n > 1
    ensures r < n <= 2 * r
  {
    if n == 2 then 1 else 2 * Split((n + 1) / 2)
  }

  lemma SplitStep(n: nat)
    requires n > 2
    ensures Split(n) == 2 * Split((n + 1) / 2)
    ensures Depth(n) == 1 + Depth((n + 1) / 2)
  {
  }

  lemma {:induction false} SplitIsPow2(n: nat)
    requires n > 1
    ensures Depth(n) > 0 && Split(n) == Pow2(Depth(n) - 1)
  {
    if n > 2 {
      SplitStep(n);
      SplitIsPow2((n + 1) / 2);
    }
  }

  /** The root by structural recursion on the list of leaves. */
  function RecursiveRoot(h: Hasher, cs: seq<nat>): nat
    requires cs != []
    decreases |cs|
  {
    if |cs| == 1 then cs[0]
    else
      var s := Split(|cs|);
      h(RecursiveRoot(h, cs[..s]), RecursiveRoot(h, cs[s..]))
  }

  function Min(a: nat, b: nat): nat { if a < b then a else b }

  /** The first leaf under node i of level k. */
  function First(k: nat, i: nat): nat {
    if k == 0 then i else First(k - 1, 2 * i)
  }

  lemma {:induction false} FirstIsShift(k: nat, i: nat)
    ensures First(k, i) == i * Pow2(k)
  {
    if k != 0 {
      FirstIsShift(k - 1, 2 * i);
      assert (2 * i) * Pow2(k - 1) == i * (2 * Pow2(k - 1));
    }
  }

  lemma {:induction false} FirstStep(k: nat, i: nat)
    ensures First(k, i + 1) == First(k, i) + Pow2(k)
  {
    if k != 0 {
      FirstStep(k - 1, 2 * i);
      FirstStep(k - 1, 2 * i + 1);
    }
  }

  lemma {:induction false} FirstCovers(n: nat, k: nat, i: nat)
    ensures i < Width(n, k) <==> First(k, i) < n
  {
    if k != 0 {
      FirstCovers(n, k - 1, 2 * i);
    }
  }

  /** The leaves under node i of level k: from i * 2^k on, at most 2^k of them. */
  function Block(cs: seq<nat>, k: nat, i: nat): (r: seq<nat>)
    requires i < Width(|cs|, k)
    ensures r != []
  {
    FirstCovers(|cs|, k, i);
    FirstStep(k, i);
    cs[First(k, i)..Min(First(k, i + 1), |cs|)]
  }

  /** A block of more than 2^k and at most 2^(k+1) leaves splits after its first 2^k. */
  lemma SplitOfBlock(m: nat, k: nat)
    requires Pow2(k) < m <= 2 * Pow2(k)
    ensures m > 1 && Split(m) == Pow2(k)
  {
    DepthUnique(m, k);
    SplitIsPow2(m);
  }

  lemma SliceSplits(cs: seq<nat>, lo: nat, mid: nat, hi: nat)
    requires lo <= mid <= hi <= |cs|
    ensures cs[lo..hi][..mid - lo] == cs[lo..mid] && cs[lo..hi][mid - lo..] == cs[mid..hi]
  {
  }

  lemma BlockBounds(n: nat, k: nat, i: nat)
    requires k > 0 && 2 * i + 1 < Width(n, k - 1)
    ensures var lo, mid, end := First(k, i), First(k - 1, 2 * i + 1), First(k, i + 1);
      lo == First(k - 1, 2 * i) && end == First(k - 1, 2 * i + 2) && mid == lo + Pow2(k - 1) && end == mid + Pow2(k - 1)
    ensures First(k - 1, 2 * i + 1) < n
  {
    FirstCovers(n, k - 1, 2 * i + 1);
    FirstStep(k - 1, 2 * i);
    FirstStep(k - 1, 2 * i + 1);
  }

  /** The block of a node with two children is their blocks, joined. */
  lemma BlockSplits(cs: seq<nat>, k: nat, i: nat)
    requires k > 0 && i < Width(|cs|, k) && 2 * i + 1 < Width(|cs|, k - 1)
    ensures var b, q := Block(cs, k, i), Pow2(k - 1);
      |b| > 1 && Split(|b|) == q && b[..q] == Block(cs, k - 1, 2 * i) && b[q..] == Block(cs, k - 1, 2 * i + 1)
  {
    var lo, mid := First(k, i), First(k - 1, 2 * i + 1);
    var hi := Min(First(k, i + 1), |cs|);
    BlockBounds(|cs|, k, i);
    SplitOfBlock(hi - lo, k - 1);
    SliceSplits(cs, lo, mid, hi);
  }

  /** The block of a node with one child is that child's. */
  lemma BlockPromotes(cs: seq<nat>, k: nat, i: nat)
    requires k > 0 && i < Width(|cs|, k) && 2 * i + 1 == Width(|cs|, k - 1)
    ensures Block(cs, k, i) == Block(cs, k - 1, 2 * i)
  {
    FirstCovers(|cs|, k - 1, 2 * i + 1);
    FirstStep(k - 1, 2 * i + 1);
  }

  lemma RecursiveRootSplits(h: Hasher, b: seq<nat>, s: nat, left: seq<nat>, right: seq<nat>)
    requires |b| > 1 && Split(|b|) == s && b[..s] == left && b[s..] == right
    ensures left != [] && right != []
    ensures RecursiveRoot(h, b) == h(RecursiveRoot(h, left), RecursiveRoot(h, right))
  {
  }

  /** The recursive root of a node's block, from its children's. */
  lemma BlockRoot(h: Hasher, cs: seq<nat>, k: nat, i: nat)
    requires k > 0 && i < Width(|cs|, k)
    ensures 2 * i < Width(|cs|, k - 1)
    ensures var left := RecursiveRoot(h, Block(cs, k - 1, 2 * i));
      RecursiveRoot(h, Block(cs, k, i)) ==
        if 2 * i + 1 < Width(|cs|, k - 1)
        then h(left, RecursiveRoot(h, Block(cs, k - 1, 2 * i + 1))) else left
  {
    if 2 * i + 1 < Width(|cs|, k - 1) {
      BlockSplits(cs, k, i);
      RecursiveRootSplits(h, Block(cs, k, i), Pow2(k - 1), Block(cs, k - 1, 2 * i), Block(cs, k - 1, 2 * i + 1));
    } else {
      BlockPromotes(cs, k, i);
    }
  }

  lemma RowCell(h: Hasher, cs: seq<nat>, k: nat, j: nat)
    requires k > 0 && j < Width(|cs|, k)
    ensures 2 * j < Width(|cs|, k - 1)
    ensures Row(h, cs, k)[j] == Parent(h, Row(h, cs, k - 1), j)
  {
    UpAt(h, Row(h, cs, k - 1), j);
  }

  /** Every grid cell is the recursive root of the leaves under it. */
  lemma {:induction false} CellIsRecursiveRoot(h: Hasher, cs: seq<nat>, k: nat, i: nat)
    requires i < Width(|cs|, k)
    ensures Row(h, cs, k)[i] == RecursiveRoot(h, Block(cs, k, i))
    decreases k
  {
    if k == 0 {
      assert Block(cs, k, i) == [cs[i]];
    } else {
      RowCell(h, cs, k, i);
      BlockRoot(h, cs, k, i);
      CellIsRecursiveRoot(h, cs, k - 1, 2 * i);
      if 2 * i + 1 < Width(|cs|, k - 1) {
        CellIsRecursiveRoot(h, cs, k - 1, 2 * i + 1);
      }
    }
  }

  /** The level-by-level root is the recursive root. */
  lemma {:induction false} RootIsRecursiveRoot(h: Hasher, cs: seq<nat>)
    requires cs != []
    ensures RootOf(h, cs) == RecursiveRoot(h, cs)
  {
    TopRowIsSingle(|cs|);
    DepthBounds(|cs|);
    CellIsRecursiveRoot(h, cs, Depth(|cs|), 0);
    FirstIsShift(Depth(|cs|), 0);
    FirstStep(Depth(|cs|), 0);
    assert Block(cs, Depth(|cs|), 0) == cs;
  }

  // ----- the grid as the tree stores it -----

  function Present(row: seq<nat>): (r: seq<Node>)
    ensures |r| == |row|
    ensures forall i :: 0 <= i < |row| ==> r[i] == Some(row[i])
  {
    seq(|row|, i requires 0 <= i < |row| => Some(row[i]))
  }

  /** The whole grid rebuilt from the commitments: no cell of any row is nil. */
  function GridOf(h: Hasher, cs: seq<nat>): (g: seq<seq<Node>>)
    ensures |g| == Depth(|cs|) + 1
    ensures forall k {:trigger g[k]} :: 0 <= k < |g| ==> g[k] == Present(Row(h, cs, k))
  {
    seq(Depth(|cs|) + 1, k requires 0 <= k < Depth(|cs|) + 1 => Present(Row(h, cs, k)))
  }

  /** rootLocked of tree.go on the two fields it reads. */
  function StoredRoot(nodes: seq<seq<Node>>, leafCount: nat): Node
    requires nodes != []
  {
    if leafCount == 0 then None
    else
      var top := nodes[|nodes| - 1];
      if |top| == 0 then None else top[0]
  }

  lemma GridRoot(h: Hasher, cs: seq<nat>)
    requires cs != []
    ensures StoredRoot(GridOf(h, cs), |cs|) == Some(RootOf(h, cs))
  {
    TopRowIsSingle(|cs|);
  }

  /** A level below the top has two nodes or more. */
  lemma InnerRowsAreWide(n: nat, k: nat)
    requires k < Depth(n)
    ensures Width(n, k) > 1
  {
    DepthBounds(n);
    Pow2Monotone(k, Depth(n) - 1);
    FirstIsShift(k, 1);
    FirstCovers(n, k, 1);
  }

  lemma WidthShape(n: nat, k: nat)
    requires n > 0 && k <= Depth(n)
    ensures Width(n, k) == 1 <==> k == Depth(n)
  {
    if k < Depth(n) {
      InnerRowsAreWide(n, k);
    } else {
      TopRowIsSingle(n);
    }
  }

  /** The depth of the stored grid over n leaves: 2^(depth-1) < n <= 2^depth. */
  lemma {:induction false} GridDepth(h: Hasher, cs: seq<nat>)
    requires cs != []
    ensures var depth, n := |GridOf(h, cs)| - 1, |cs|;
      depth == BitsLen(n - 1) && n <= Pow2(depth) && (depth > 0 ==> Pow2(depth - 1) < n)
  {
    DepthIsBitsLen(|cs|);
    DepthBounds(|cs|);
  }

  /** The width of each stored row, which halves, rounded up, from n at the bottom to 1 at the top and nowhere else. */
  lemma {:induction false} GridRows(h: Hasher, cs: seq<nat>, k: nat)
    requires cs != [] && k < |GridOf(h, cs)|
    ensures |GridOf(h, cs)[k]| == Width(|cs|, k)
    ensures Width(|cs|, k) == 1 <==> k == |GridOf(h, cs)| - 1
  {
    WidthShape(|cs|, k);
  }
}
