/**
 Proof paths: the siblings on the way from a leaf to the root with the direction
 bit of each, levels without a sibling left out; how the bits are packed; and the
 walk back up that the verifier makes.
 */
module Paths {
  import opened Wrappers
  import opened Arith
  import opened Types
  import opened Grid

  /** One level that has a sibling: is the node the right child, and what is beside it. */
  datatype Step = Step(right: bool, sibling: nat)

  function SiblingIndex(a: nat): nat {
    if a % 2 == 1 then a - 1 else a + 1
  }

  /** What level `row` adds to the path of its node a. */
  function StepAt(row: seq<nat>, a: nat): (r: seq<Step>)
    ensures |r| <= 1
  {
    if SiblingIndex(a) < |row| then [Step(a % 2 == 1, row[SiblingIndex(a)])] else []
  }

  /** The same on a stored row: an absent or a nil sibling contributes nothing. */
  function StoredStepAt(row: seq<Node>, a: nat): (r: seq<Step>)
    ensures |r| <= 1
  {
    var s := SiblingIndex(a);
    if s < |row| && row[s].Some? then [Step(a % 2 == 1, row[s].value)] else []
  }

  /** The path over a stored grid up to level k. */
  function StoredPath(nodes: seq<seq<Node>>, i: nat, k: nat): seq<Step>
    requires k <= |nodes|
  {
    if k == 0 then []
    else
      StoredPath(nodes, i, k - 1) + StoredStepAt(nodes[k - 1], Anc(i, k - 1))
  }

  /** The path over the grid built from scratch. */
  function Path(h: Hasher, cs: seq<nat>, i: nat, k: nat): seq<Step> {
    if k == 0 then []
    else
      Path(h, cs, i, k - 1) + StepAt(Row(h, cs, k - 1), Anc(i, k - 1))
  }

  lemma PresentStep(row: seq<nat>, a: nat)
    ensures StoredStepAt(Present(row), a) == StepAt(row, a)
  {
  }

  lemma {:induction false} StoredPathIsPath(h: Hasher, cs: seq<nat>, i: nat, k: nat)
    requires k <= Depth(|cs|) + 1
    ensures StoredPath(GridOf(h, cs), i, k) == Path(h, cs, i, k)
  {
    if k != 0 {
      StoredPathIsPath(h, cs, i, k - 1);
      PresentStep(Row(h, cs, k - 1), Anc(i, k - 1));
    }
  }

  lemma WholeStoredPath(h: Hasher, cs: seq<nat>, i: nat)
    ensures StoredPath(GridOf(h, cs), i, |GridOf(h, cs)| - 1) == Path(h, cs, i, Depth(|cs|))
  {
    StoredPathIsPath(h, cs, i, Depth(|cs|));
  }

  function Siblings(path: seq<Step>): (r: seq<nat>)
    ensures |r| == |path|
    ensures forall j :: 0 <= j < |path| ==> r[j] == path[j].sibling
  {
    seq(|path|, j requires 0 <= j < |path| => path[j].sibling)
  }

  /** Go's 1 << n on a 64-bit word. */
  function ShiftedOne(n: nat): nat {
    if n < 64 then Pow2(n) else 0
  }

  /**
   The direction bits packed from the least significant on.  Adding a shifted one
   sets a bit that was clear, which is what the source's `|=` does.
   */
  function Pack(path: seq<Step>): (r: nat)
    ensures r < Pow2(Min(|path|, 64))
  {
    if path == [] then 0
    else
      var n := |path| - 1;
      Pack(path[..n]) + if path[n].right then ShiftedOne(n) else 0
  }

  lemma PackGrows(below: seq<Step>, step: seq<Step>)
    requires |step| <= 1
    ensures Pack(below + step) == Pack(below) + if step != [] && step[0].right then ShiftedOne(|below|) else 0
  {
    var path := below + step;
    if step == [] {
      assert path == below;
    } else {
      assert path[..|below|] == below && path[|below|] == step[0];
    }
  }

  lemma SiblingsGrow(below: seq<Step>, step: seq<Step>)
    requires |step| <= 1
    ensures Siblings(below + step) == Siblings(below) + if step == [] then [] else [step[0].sibling]
  {
  }

  lemma {:induction false} PackFits(path: seq<Step>)
    ensures Pack(path) < TWO_64
  {
    WordSizes();
    Pow2Monotone(Min(|path|, 64), 64);
  }

  lemma {:induction false} AddTopBit(x: nat, n: nat, i: nat)
    requires x < Pow2(n)
    ensures Bit(x, n) == false && Bit(x + Pow2(n), n)
    ensures i < n ==> Bit(x + Pow2(n), i) == Bit(x, i)
    decreases n
  {
    if n == 0 {
    } else {
      assert (x + Pow2(n)) / 2 == x / 2 + Pow2(n - 1);
      if 0 < i {
        AddTopBit(x / 2, n - 1, i - 1);
      } else {
        AddTopBit(x / 2, n - 1, 0);
      }
    }
  }

  /** The packed number reads back bit by bit. */
  lemma {:induction false} PackBit(path: seq<Step>, j: nat)
    requires j < |path| <= 64
    ensures Bit(Pack(path), j) == path[j].right
  {
    var n := |path| - 1;
    AddTopBit(Pack(path[..n]), n, j);
    if j < n {
      PackBit(path[..n], j);
    }
  }

  /** walkPath of verify.go after m siblings. */
  function Walk(h: Hasher, leaf: nat, leafIndex: nat, siblings: seq<nat>, m: nat): nat
    requires m <= |siblings|
  {
    if m == 0 then leaf
    else
      var node := Walk(h, leaf, leafIndex, siblings, m - 1);
      if Bit(leafIndex, m - 1) then h(siblings[m - 1], node) else h(node, siblings[m - 1])
  }

  // ----- shape of paths -----

  lemma {:induction false} PathLength(h: Hasher, cs: seq<nat>, i: nat, k: nat)
    ensures |Path(h, cs, i, k)| <= k
  {
    if k != 0 {
      PathLength(h, cs, i, k - 1);
    }
  }

  /** Any list a Go program can index has paths whose bits fit in 64. */
  lemma PathFits(h: Hasher, cs: seq<nat>, i: nat)
    requires |cs| < TWO_63
    ensures |Path(h, cs, i, Depth(|cs|))| <= Depth(|cs|) <= 63
  {
    PathLength(h, cs, i, Depth(|cs|));
    WordSizes();
    DepthFits(|cs|, 63);
  }

  // ----- completeness: walking a path up leads to the cell above -----

  ghost predicate Follows(path: seq<Step>, leafIndex: nat, siblings: seq<nat>) {
    && |siblings| >= |path|
    && forall j: nat :: j < |path| ==> siblings[j] == path[j].sibling && Bit(leafIndex, j) == path[j].right
  }

  lemma FollowsParts(below: seq<Step>, step: seq<Step>, leafIndex: nat, siblings: seq<nat>)
    requires |step| <= 1
    ensures Follows(below + step, leafIndex, siblings) <==>
      && Follows(below, leafIndex, siblings)
      && (step != [] ==>
            |siblings| > |below| && step[0] == Step(Bit(leafIndex, |below|), siblings[|below|]))
  {
    var path := below + step;
    assert forall j: nat :: j < |below| ==> path[j] == below[j];
    if step != [] {
      assert path[|below|] == step[0];
    }
  }

  /** The node above, from a node and its step. */
  function Above(h: Hasher, node: nat, step: seq<Step>): nat {
    if step == [] then node
    else if step[0].right then h(step[0].sibling, node)
    else h(node, step[0].sibling)
  }

  lemma ClimbStep(h: Hasher, row: seq<nat>, a: nat)
    requires a < |row|
    ensures 2 * (a / 2) < |row|
    ensures Parent(h, row, a / 2) == Above(h, row[a], StepAt(row, a))
  {
  }

  lemma WalkStep(h: Hasher, leaf: nat, below: seq<Step>, step: seq<Step>, leafIndex: nat, siblings: seq<nat>)
    requires |step| <= 1 && Follows(below + step, leafIndex, siblings)
    ensures Follows(below, leafIndex, siblings)
    ensures Walk(h, leaf, leafIndex, siblings, |below + step|) ==
            Above(h, Walk(h, leaf, leafIndex, siblings, |below|), step)
  {
    FollowsParts(below, step, leafIndex, siblings);
  }

  lemma AncCell(h: Hasher, cs: seq<nat>, i: nat, k: nat)
    requires k > 0 && i < |cs|
    ensures Anc(i, k - 1) < Width(|cs|, k - 1) && Anc(i, k) < Width(|cs|, k)
    ensures Row(h, cs, k)[Anc(i, k)] ==
            Above(h, Row(h, cs, k - 1)[Anc(i, k - 1)], StepAt(Row(h, cs, k - 1), Anc(i, k - 1)))
  {
    AncInWidth(|cs|, i, k - 1);
    AncInWidth(|cs|, i, k);
    RowCell(h, cs, k, Anc(i, k));
    ClimbStep(h, Row(h, cs, k - 1), Anc(i, k - 1));
  }

  lemma {:induction false} WalkReachesCell(h: Hasher, cs: seq<nat>, i: nat, k: nat, leafIndex: nat, siblings: seq<nat>)
    requires i < |cs|
    requires Follows(Path(h, cs, i, k), leafIndex, siblings)
    ensures Anc(i, k) < Width(|cs|, k)
    ensures Walk(h, cs[i], leafIndex, siblings, |Path(h, cs, i, k)|) == Row(h, cs, k)[Anc(i, k)]
    decreases k
  {
    if k != 0 {
      WalkStep(h, cs[i], Path(h, cs, i, k - 1), StepAt(Row(h, cs, k - 1), Anc(i, k - 1)), leafIndex, siblings);
      WalkReachesCell(h, cs, i, k - 1, leafIndex, siblings);
      AncCell(h, cs, i, k);
    }
  }

  /** The packed bits and the siblings of a path follow it. */
  lemma PackedFollows(path: seq<Step>)
    requires |path| <= 64
    ensures Follows(path, Pack(path), Siblings(path))
  {
    forall j: nat | j < |path|
      ensures Bit(Pack(path), j) == path[j].right
    {
      PackBit(path, j);
    }
  }

  /** Whoever follows a leaf's whole path ends at the root. */
  lemma WalkReachesRoot(h: Hasher, cs: seq<nat>, i: nat, leafIndex: nat, siblings: seq<nat>)
    requires i < |cs|
    requires Follows(Path(h, cs, i, Depth(|cs|)), leafIndex, siblings)
    ensures Walk(h, cs[i], leafIndex, siblings, |Path(h, cs, i, Depth(|cs|))|) == RootOf(h, cs)
  {
    var d := Depth(|cs|);
    WalkReachesCell(h, cs, i, d, leafIndex, siblings);
    TopRowIsSingle(|cs|);
  }

  // ----- soundness: what a walk that ends at a cell can be -----

  /** The two numbers the verifier hashes last to get m steps up; before any step, the leaf record. */
  function WalkPair(h: Hasher, leaf: IndexedLeaf, leafIndex: nat, siblings: seq<nat>, m: nat): (nat, nat)
    requires m <= |siblings|
  {
    if m == 0 then (leaf.value, leaf.nextValue)
    else
      var node := Walk(h, h(leaf.value, leaf.nextValue), leafIndex, siblings, m - 1);
      if Bit(leafIndex, m - 1) then (siblings[m - 1], node) else (node, siblings[m - 1])
  }

  function HashPair(h: Hasher, pair: (nat, nat)): nat {
    h(pair.0, pair.1)
  }

  lemma WalkHashesPair(h: Hasher, leaf: IndexedLeaf, leafIndex: nat, siblings: seq<nat>, m: nat)
    requires m <= |siblings|
    ensures Walk(h, h(leaf.value, leaf.nextValue), leafIndex, siblings, m) ==
            HashPair(h, WalkPair(h, leaf, leafIndex, siblings, m))
  {
  }

  /** Cell i of level k over n leaves is a hash: of a leaf record, or of two children. */
  predicate Hashed(n: nat, k: nat, i: nat) {
    i < Width(n, k) && (k == 0 || 2 * i + 1 < Width(n, k - 1))
  }

  /** The two numbers hashed to make that cell. */
  function TreePair(h: Hasher, cs: seq<nat>, ls: seq<IndexedLeaf>, k: nat, i: nat): (nat, nat)
    requires |cs| == |ls| && Hashed(|cs|, k, i)
  {
    if k == 0 then (ls[i].value, ls[i].nextValue)
    else (Row(h, cs, k - 1)[2 * i], Row(h, cs, k - 1)[2 * i + 1])
  }

  /** cs commits to the leaves ls. */
  ghost predicate CommitsTo(h: Hasher, cs: seq<nat>, ls: seq<IndexedLeaf>) {
    && |cs| == |ls|
    && forall i :: 0 <= i < |ls| ==> cs[i] == h(ls[i].value, ls[i].nextValue)
  }

  lemma CellHashesPair(h: Hasher, cs: seq<nat>, ls: seq<IndexedLeaf>, k: nat, i: nat)
    requires CommitsTo(h, cs, ls) && Hashed(|cs|, k, i)
    ensures Row(h, cs, k)[i] == HashPair(h, TreePair(h, cs, ls, k, i))
  {
    if k != 0 {
      RowCell(h, cs, k, i);
    }
  }

  /** The rows above level k are the grid over row k. */
  lemma {:induction false} RowOfRow(h: Hasher, cs: seq<nat>, k: nat, t: nat)
    ensures Row(h, Row(h, cs, k), t) == Row(h, cs, k + t)
    decreases t
  {
    if t != 0 {
      RowOfRow(h, cs, k, t - 1);
    }
  }

  /** The path from cell i of level k up to level `top`. */
  function PathFrom(h: Hasher, cs: seq<nat>, k: nat, i: nat, top: nat): seq<Step>
    requires k <= top
  {
    Path(h, Row(h, cs, k), i, top - k)
  }

  lemma PathFromGrows(h: Hasher, cs: seq<nat>, k: nat, i: nat, top: nat)
    requires k < top
    ensures PathFrom(h, cs, k, i, top) ==
            PathFrom(h, cs, k, i, top - 1) + StepAt(Row(h, cs, top - 1), Anc(i, top - 1 - k))
  {
    RowOfRow(h, cs, k, top - 1 - k);
  }

  /**
   How a walk can end at a cell.  Either it hashed, after so many steps, the pair of a
   hashed cell and from there took that cell's path: at step 0 it showed the pair as its
   leaf record, later it made one of the two numbers itself, and the cell is a leaf.  Or
   the pair hashed at one of its steps collides with that of a cell.
   */
  datatype Meeting =
    | Entered(step: nat, level: nat, index: nat)
    | Collided(step: nat, level: nat, index: nat)

  ghost predicate TookPath(
    h: Hasher, cs: seq<nat>, k: nat, i: nat, top: nat, j: nat, leafIndex: nat, siblings: seq<nat>, m: nat)
  {
    && k <= top && Anc(i, top - k) == j
    && m == |PathFrom(h, cs, k, i, top)| && Follows(PathFrom(h, cs, k, i, top), leafIndex, siblings)
  }

  /** r says truly how the first m steps of a walk ended at cell j of level `top`. */
  ghost predicate Meets(
    h: Hasher, cs: seq<nat>, ls: seq<IndexedLeaf>, top: nat, j: nat,
    leaf: IndexedLeaf, leafIndex: nat, siblings: seq<nat>, m: nat, r: Meeting)
    requires |cs| == |ls| && m <= |siblings|
  {
    match r
    case Entered(step, k, i) =>
      && step <= m && (step > 0 ==> k == 0) && Hashed(|cs|, k, i)
      && WalkPair(h, leaf, leafIndex, siblings, step) == TreePair(h, cs, ls, k, i)
      && TookPath(h, cs, k, i, top, j, Shift(leafIndex, step), siblings[step..], m - step)
    case Collided(step, k, i) =>
      && step <= m && Hashed(|cs|, k, i)
      && var a, b := WalkPair(h, leaf, leafIndex, siblings, step), TreePair(h, cs, ls, k, i);
         a != b && HashPair(h, a) == HashPair(h, b)
  }

  lemma EnteredHere(
    h: Hasher, cs: seq<nat>, ls: seq<IndexedLeaf>, k: nat, j: nat,
    leaf: IndexedLeaf, leafIndex: nat, siblings: seq<nat>, m: nat)
    requires |cs| == |ls| && m <= |siblings| && (m > 0 ==> k == 0) && Hashed(|cs|, k, j)
    requires WalkPair(h, leaf, leafIndex, siblings, m) == TreePair(h, cs, ls, k, j)
    ensures Meets(h, cs, ls, k, j, leaf, leafIndex, siblings, m, Entered(m, k, j))
  {
  }

  lemma CollidedHere(
    h: Hasher, cs: seq<nat>, ls: seq<IndexedLeaf>, k: nat, j: nat,
    leaf: IndexedLeaf, leafIndex: nat, siblings: seq<nat>, m: nat)
    requires CommitsTo(h, cs, ls) && m <= |siblings| && Hashed(|cs|, k, j)
    requires Walk(h, h(leaf.value, leaf.nextValue), leafIndex, siblings, m) == Row(h, cs, k)[j]
    requires WalkPair(h, leaf, leafIndex, siblings, m) != TreePair(h, cs, ls, k, j)
    ensures Meets(h, cs, ls, k, j, leaf, leafIndex, siblings, m, Collided(m, k, j))
  {
    WalkHashesPair(h, leaf, leafIndex, siblings, m);
    CellHashesPair(h, cs, ls, k, j);
  }

  /** A path to a child, extended by the child's step, is a path to its parent. */
  lemma TookPathUp(
    h: Hasher, cs: seq<nat>, k: nat, i: nat, top: nat, c: nat,
    leafIndex: nat, siblings: seq<nat>, m: nat, step: seq<Step>)
    requires top > 0 && TookPath(h, cs, k, i, top - 1, c, leafIndex, siblings, m)
    requires step == StepAt(Row(h, cs, top - 1), c)
    requires step != [] ==> m < |siblings| && step[0] == Step(Bit(leafIndex, m), siblings[m])
    ensures TookPath(h, cs, k, i, top, c / 2, leafIndex, siblings, m + |step|)
  {
    PathFromGrows(h, cs, k, i, top);
    FollowsParts(PathFrom(h, cs, k, i, top - 1), step, leafIndex, siblings);
  }

  /** What met the tree at a child met it at its parent, one step later if that is a hash. */
  lemma MeetsUp(
    h: Hasher, cs: seq<nat>, ls: seq<IndexedLeaf>, top: nat, c: nat,
    leaf: IndexedLeaf, leafIndex: nat, siblings: seq<nat>, m: nat, r: Meeting, step: seq<Step>)
    requires |cs| == |ls| && top > 0 && m + |step| <= |siblings|
    requires Meets(h, cs, ls, top - 1, c, leaf, leafIndex, siblings, m, r)
    requires step == StepAt(Row(h, cs, top - 1), c)
    requires step != [] ==> step[0] == Step(Bit(leafIndex, m), siblings[m])
    ensures Meets(h, cs, ls, top, c / 2, leaf, leafIndex, siblings, m + |step|, r)
  {
    if r.Entered? {
      BitOfShift(leafIndex, r.step, m - r.step);
      TookPathUp(h, cs, r.level, r.index, top, c, Shift(leafIndex, r.step), siblings[r.step..], m - r.step, step);
    }
  }

  /** The child from which a paired cell was reached, when its pair is the one last hashed. */
  lemma PairedFromChild(
    h: Hasher, cs: seq<nat>, ls: seq<IndexedLeaf>, k: nat, j: nat,
    leaf: IndexedLeaf, leafIndex: nat, siblings: seq<nat>, m: nat) returns (c: nat)
    requires |cs| == |ls| && k > 0 && Hashed(|cs|, k, j) && 0 < m <= |siblings|
    requires WalkPair(h, leaf, leafIndex, siblings, m) == TreePair(h, cs, ls, k, j)
    ensures c < Width(|cs|, k - 1) && c / 2 == j
    ensures Walk(h, h(leaf.value, leaf.nextValue), leafIndex, siblings, m - 1) == Row(h, cs, k - 1)[c]
    ensures StepAt(Row(h, cs, k - 1), c) == [Step(Bit(leafIndex, m - 1), siblings[m - 1])]
  {
    c := if Bit(leafIndex, m - 1) then 2 * j + 1 else 2 * j;
  }

  /**
   Whatever the hash, a walk that ends at a cell of the grid entered the tree at a cell
   and took its path, or it comes with a named collision: two different pairs with the
   same hash, one of the tree and one of the walk.
   */
  lemma {:induction false} WalkMeetsTree(
    h: Hasher, cs: seq<nat>, ls: seq<IndexedLeaf>, k: nat, j: nat,
    leaf: IndexedLeaf, leafIndex: nat, siblings: seq<nat>, m: nat) returns (r: Meeting)
    requires CommitsTo(h, cs, ls) && m <= |siblings| && j < Width(|cs|, k)
    requires Walk(h, h(leaf.value, leaf.nextValue), leafIndex, siblings, m) == Row(h, cs, k)[j]
    ensures Meets(h, cs, ls, k, j, leaf, leafIndex, siblings, m, r)
    decreases k
  {
    if !Hashed(|cs|, k, j) {
      RowCell(h, cs, k, j);
      r := WalkMeetsTree(h, cs, ls, k - 1, 2 * j, leaf, leafIndex, siblings, m);
      MeetsUp(h, cs, ls, k, 2 * j, leaf, leafIndex, siblings, m, r, []);
    } else if WalkPair(h, leaf, leafIndex, siblings, m) != TreePair(h, cs, ls, k, j) {
      CollidedHere(h, cs, ls, k, j, leaf, leafIndex, siblings, m);
      r := Collided(m, k, j);
    } else if m == 0 || k == 0 {
      EnteredHere(h, cs, ls, k, j, leaf, leafIndex, siblings, m);
      r := Entered(m, k, j);
    } else {
      var c := PairedFromChild(h, cs, ls, k, j, leaf, leafIndex, siblings, m);
      r := WalkMeetsTree(h, cs, ls, k - 1, c, leaf, leafIndex, siblings, m - 1);
      MeetsUp(h, cs, ls, k, c, leaf, leafIndex, siblings, m - 1, r, StepAt(Row(h, cs, k - 1), c));
    }
  }

  // ----- the same under an injective hash -----

  /** No number in a leaf record is a hash. */
  ghost predicate HashFree(h: Hasher, ls: seq<IndexedLeaf>) {
    forall i :: 0 <= i < |ls| ==> !HoldsOutput(h, ls[i])
  }

  lemma WalkIsOutput(h: Hasher, x: nat, y: nat, leafIndex: nat, siblings: seq<nat>, m: nat)
    requires m <= |siblings|
    ensures IsOutput(h, Walk(h, h(x, y), leafIndex, siblings, m))
  {
  }

  lemma {:induction false} RowIsOutput(h: Hasher, cs: seq<nat>, ls: seq<IndexedLeaf>, k: nat, j: nat)
    requires CommitsTo(h, cs, ls) && j < Width(|cs|, k)
    ensures IsOutput(h, Row(h, cs, k)[j])
    decreases k
  {
    if k != 0 {
      RowIsOutput(h, cs, ls, k - 1, 2 * j);
      RowCell(h, cs, k, j);
    }
  }

  /** The children of a hashed cell above level 0 are hashes. */
  lemma BranchIsOutput(h: Hasher, cs: seq<nat>, ls: seq<IndexedLeaf>, k: nat, i: nat)
    requires CommitsTo(h, cs, ls) && k > 0 && Hashed(|cs|, k, i)
    ensures IsOutput(h, TreePair(h, cs, ls, k, i).0) && IsOutput(h, TreePair(h, cs, ls, k, i).1)
  {
    RowIsOutput(h, cs, ls, k - 1, 2 * i);
    RowIsOutput(h, cs, ls, k - 1, 2 * i + 1);
  }

  /** Entering at a leaf record after a step makes one of its numbers a hash. */
  lemma LateEntryHoldsOutput(
    h: Hasher, cs: seq<nat>, ls: seq<IndexedLeaf>, i: nat,
    leaf: IndexedLeaf, leafIndex: nat, siblings: seq<nat>, step: nat)
    requires |cs| == |ls| && i < |ls| && 0 < step <= |siblings|
    requires WalkPair(h, leaf, leafIndex, siblings, step) == TreePair(h, cs, ls, 0, i)
    ensures HoldsOutput(h, ls[i])
  {
    WalkIsOutput(h, leaf.value, leaf.nextValue, leafIndex, siblings, step - 1);
  }

  /**
   Whoever reaches a cell by any number of hashes entered the tree at a cell below it and
   took its path; if no stored number is a hash, it did so with its leaf record, and if
   that record's value is no hash either, at a stored leaf.
   */
  lemma {:induction false} OnlyPathsReachCells(
    h: Hasher, cs: seq<nat>, ls: seq<IndexedLeaf>, k: nat, j: nat,
    leaf: IndexedLeaf, leafIndex: nat, siblings: seq<nat>, m: nat) returns (r: Meeting)
    requires Injective(h) && CommitsTo(h, cs, ls) && m <= |siblings| && j < Width(|cs|, k)
    requires Walk(h, h(leaf.value, leaf.nextValue), leafIndex, siblings, m) == Row(h, cs, k)[j]
    ensures r.Entered? && Meets(h, cs, ls, k, j, leaf, leafIndex, siblings, m, r)
    ensures HashFree(h, ls) ==> r.step == 0
    ensures r.step == 0 && !IsOutput(h, leaf.value) ==> r.level == 0
  {
    r := WalkMeetsTree(h, cs, ls, k, j, leaf, leafIndex, siblings, m);
    if r.Collided? {
      var a, b := WalkPair(h, leaf, leafIndex, siblings, r.step), TreePair(h, cs, ls, r.level, r.index);
      NoCollision(h, a.0, a.1, b.0, b.1);
    } else if r.step > 0 {
      LateEntryHoldsOutput(h, cs, ls, r.index, leaf, leafIndex, siblings, r.step);
    } else if r.level > 0 {
      BranchIsOutput(h, cs, ls, r.level, r.index);
    }
  }

  // ----- every hashed cell has its path -----

  lemma {:induction false} DepthOfWidth(n: nat, k: nat)
    requires n > 0 && k <= Depth(n)
    ensures Width(n, k) > 0 && Depth(Width(n, k)) == Depth(n) - k
  {
    if k != 0 {
      DepthOfWidth((n + 1) / 2, k - 1);
      WidthFromBelow(n, k);
    }
  }

  lemma RootOfRow(h: Hasher, cs: seq<nat>, k: nat)
    requires cs != [] && k <= Depth(|cs|)
    ensures Row(h, cs, k) != [] && Depth(|Row(h, cs, k)|) == Depth(|cs|) - k
    ensures RootOf(h, Row(h, cs, k)) == RootOf(h, cs)
  {
    DepthOfWidth(|cs|, k);
    RowOfRow(h, cs, k, Depth(|cs|) - k);
  }

  lemma PathFromLength(h: Hasher, cs: seq<nat>, k: nat, i: nat, top: nat)
    requires k <= top
    ensures |PathFrom(h, cs, k, i, top)| <= top - k
  {
    PathLength(h, Row(h, cs, k), i, top - k);
  }

  /** Following the path of any cell from its own hash leads to the root. */
  lemma {:induction false} CellWalksToRoot(
    h: Hasher, cs: seq<nat>, k: nat, i: nat, leafIndex: nat, siblings: seq<nat>)
    requires cs != [] && k <= Depth(|cs|) && i < Width(|cs|, k)
    requires Follows(PathFrom(h, cs, k, i, Depth(|cs|)), leafIndex, siblings)
    ensures Walk(h, Row(h, cs, k)[i], leafIndex, siblings, |PathFrom(h, cs, k, i, Depth(|cs|))|) == RootOf(h, cs)
  {
    RootOfRow(h, cs, k);
    WalkReachesRoot(h, Row(h, cs, k), i, leafIndex, siblings);
  }

  /** A walk goes on from where it stands with the siblings and direction bits it has left. */
  lemma {:induction false} WalkGoesOn(h: Hasher, leaf: nat, leafIndex: nat, siblings: seq<nat>, step: nat, m: nat)
    requires step + m <= |siblings|
    ensures Walk(h, leaf, leafIndex, siblings, step + m) ==
            Walk(h, Walk(h, leaf, leafIndex, siblings, step), Shift(leafIndex, step), siblings[step..], m)
    decreases m
  {
    if m != 0 {
      WalkGoesOn(h, leaf, leafIndex, siblings, step, m - 1);
      BitOfShift(leafIndex, step, m - 1);
    }
  }

  /** Whoever entered the tree and took the path to the top ends at the root. */
  lemma {:induction false} EnteredWalksToRoot(
    h: Hasher, cs: seq<nat>, ls: seq<IndexedLeaf>, leaf: IndexedLeaf, leafIndex: nat, siblings: seq<nat>, r: Meeting)
    requires CommitsTo(h, cs, ls) && cs != [] && r.Entered?
    requires Meets(h, cs, ls, Depth(|cs|), 0, leaf, leafIndex, siblings, |siblings|, r)
    ensures Walk(h, h(leaf.value, leaf.nextValue), leafIndex, siblings, |siblings|) == RootOf(h, cs)
  {
    WalkHashesPair(h, leaf, leafIndex, siblings, r.step);
    CellHashesPair(h, cs, ls, r.level, r.index);
    WalkGoesOn(h, h(leaf.value, leaf.nextValue), leafIndex, siblings, r.step, |siblings| - r.step);
    CellWalksToRoot(h, cs, r.level, r.index, Shift(leafIndex, r.step), siblings[r.step..]);
  }

  // ----- the path code -----

  /** Does the node above leaf i at level k have a sibling? Hash-independent. */
  predicate HasSibling(n: nat, i: nat, k: nat) {
    SiblingIndex(Anc(i, k)) < Width(n, k)
  }

  /** The direction bits of leaf i among n, up to level k. */
  function PathBits(n: nat, i: nat, k: nat): seq<bool> {
    if k == 0 then []
    else if HasSibling(n, i, k - 1) then PathBits(n, i, k - 1) + [Anc(i, k - 1) % 2 == 1]
    else PathBits(n, i, k - 1)
  }

  lemma {:induction false} PathBitsOfPath(h: Hasher, cs: seq<nat>, i: nat, k: nat)
    ensures var p := Path(h, cs, i, k);
      PathBits(|cs|, i, k) == seq(|p|, j requires 0 <= j < |p| => p[j].right)
  {
    if k != 0 {
      PathBitsOfPath(h, cs, i, k - 1);
    }
  }

  /** Two leaves under the same node with the same bits up to it are the same leaf. */
  lemma {:induction false} BitsDetermineLeaf(n: nat, i: nat, i': nat, k: nat)
    requires i < n && i' < n
    requires Anc(i, k) == Anc(i', k)
    requires PathBits(n, i, k) == PathBits(n, i', k)
    ensures i == i'
    decreases k
  {
    if k != 0 {
      var a, a', w := Anc(i, k - 1), Anc(i', k - 1), Width(n, k - 1);
      AncInWidth(n, i, k - 1);
      AncInWidth(n, i', k - 1);
      assert HasSibling(n, i, k - 1) == HasSibling(n, i', k - 1) == (2 * (a / 2) + 1 < w);
      var b, b' := PathBits(n, i, k - 1), PathBits(n, i', k - 1);
      if HasSibling(n, i, k - 1) {
        var c, c' := b + [a % 2 == 1], b' + [a' % 2 == 1];
        assert c == c';
        assert c[|c| - 1] == c'[|c'| - 1];
        assert b == c[..|c| - 1] == c'[..|c'| - 1] == b';
      }
      assert a == a';
      BitsDetermineLeaf(n, i, i', k - 1);
    }
  }

  /** Distinct leaves have distinct (leaf index, sibling count) codes. */
  lemma {:induction false} CodesAreDistinct(h: Hasher, cs: seq<nat>, i: nat, i': nat)
    requires i < |cs| && i' < |cs| && |cs| < TWO_63
    requires var p, p' := Path(h, cs, i, Depth(|cs|)), Path(h, cs, i', Depth(|cs|));
      |p| == |p'| && Pack(p) == Pack(p')
    ensures i == i'
  {
    var n, d := |cs|, Depth(|cs|);
    var p, p' := Path(h, cs, i, d), Path(h, cs, i', d);
    PathFits(h, cs, i);
    PathBitsOfPath(h, cs, i, d);
    PathBitsOfPath(h, cs, i', d);
    forall j: nat | j < |p|
      ensures p[j].right == p'[j].right
    {
      PackBit(p, j);
      PackBit(p', j);
    }
    AncInWidth(n, i, d);
    AncInWidth(n, i', d);
    TopRowIsSingle(n);
    BitsDetermineLeaf(n, i, i', d);
  }

  /** i written in k binary digits with those at the levels outside `keep` deleted. */
  function Squeeze(n: nat, i: nat, k: nat): nat {
    if k == 0 then 0
    else if HasSibling(n, i, k - 1)
    then Squeeze(n, i, k - 1) + (if Bit(i, k - 1) then Pow2(Kept(n, i, k - 1)) else 0)
    else Squeeze(n, i, k - 1)
  }

  /** How many of the k lowest levels have a sibling. */
  function Kept(n: nat, i: nat, k: nat): nat {
    if k == 0 then 0 else Kept(n, i, k - 1) + if HasSibling(n, i, k - 1) then 1 else 0
  }

  lemma BitOfAnc(i: nat, k: nat)
    ensures Bit(i, k) == (Anc(i, k) % 2 == 1)
  {
    AncIsShift(i, k);
    BitIsShift(i, k);
  }

  /** A promoted level contributes a zero digit: only a last node on the left is promoted. */
  lemma PromotedDigitIsZero(n: nat, i: nat, k: nat)
    requires i < n && !HasSibling(n, i, k)
    ensures !Bit(i, k)
  {
    AncInWidth(n, i, k);
    BitOfAnc(i, k);
  }

  lemma StepIffSibling(h: Hasher, cs: seq<nat>, i: nat, k: nat)
    ensures var step := StepAt(Row(h, cs, k), Anc(i, k));
      if HasSibling(|cs|, i, k) then |step| == 1 && step[0].right == Bit(i, k) else step == []
  {
    BitOfAnc(i, k);
  }

  /** One step per level that has a sibling. */
  lemma {:induction false} PathLengthIsKept(h: Hasher, cs: seq<nat>, i: nat, k: nat)
    ensures |Path(h, cs, i, k)| == Kept(|cs|, i, k) <= k
  {
    if k != 0 {
      PathLengthIsKept(h, cs, i, k - 1);
      StepIffSibling(h, cs, i, k - 1);
    }
  }

  lemma SqueezeStep(h: Hasher, cs: seq<nat>, i: nat, k: nat)
    requires k < 64
    ensures Pack(Path(h, cs, i, k + 1)) == Pack(Path(h, cs, i, k)) +
              if HasSibling(|cs|, i, k) && Bit(i, k) then Pow2(Kept(|cs|, i, k)) else 0
  {
    PathLengthIsKept(h, cs, i, k);
    StepIffSibling(h, cs, i, k);
    PackGrows(Path(h, cs, i, k), StepAt(Row(h, cs, k), Anc(i, k)));
  }

  /**
   The leaf index is the physical index with the digits of the promoted levels
   deleted; those are zero, by PromotedDigitIsZero.
   */
  lemma {:induction false} LeafIndexIsSqueezed(h: Hasher, cs: seq<nat>, i: nat, k: nat)
    requires k <= 64
    ensures Pack(Path(h, cs, i, k)) == Squeeze(|cs|, i, k)
  {
    if k != 0 {
      LeafIndexIsSqueezed(h, cs, i, k - 1);
      SqueezeStep(h, cs, i, k - 1);
    }
  }

  lemma {:induction false} SqueezeNothing(n: nat, i: nat, k: nat)
    requires forall j: nat :: j < k ==> HasSibling(n, i, j)
    ensures Kept(n, i, k) == k && Squeeze(n, i, k) == i % Pow2(k)
  {
    if k != 0 {
      SqueezeNothing(n, i, k - 1);
      AddDigit(i, k - 1);
    }
  }

  /** Splitting off the top one of the low k+1 binary digits. */
  lemma AddDigit(i: nat, k: nat)
    ensures i % Pow2(k + 1) == i % Pow2(k) + if Bit(i, k) then Pow2(k) else 0
  {
    BitIsShift(i, k);
    HalveQuotient(i, Pow2(k));
  }

  /** With a sibling at every level the leaf index is the physical index. */
  lemma FullPathIndex(h: Hasher, cs: seq<nat>, i: nat)
    requires i < |cs| < TWO_63
    requires forall j: nat :: j < Depth(|cs|) ==> HasSibling(|cs|, i, j)
    ensures Pack(Path(h, cs, i, Depth(|cs|))) == i
  {
    PathFits(h, cs, i);
    LeafIndexIsSqueezed(h, cs, i, Depth(|cs|));
    SqueezeNothing(|cs|, i, Depth(|cs|));
    DepthBounds(|cs|);
    DivUnique(i, Pow2(Depth(|cs|)), 0, i);
  }
}
