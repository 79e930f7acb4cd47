/**
 What recomputeLocked relies on and what it costs: which cells can be stale after
 some leaves changed, and how many hashes rebuilding the cells above them takes.
 */
module Recompute {
  import opened Wrappers
  import opened Arith
  import opened Types
  import opened Grid

  /** The parents of a set of positions. */
  function Lift(ms: set<nat>): set<nat> {
    set i | i in ms :: i / 2
  }

  /** The ancestors at level k of a set of leaves. */
  function LiftTo(ms: set<nat>, k: nat): set<nat> {
    if k == 0 then ms else Lift(LiftTo(ms, k - 1))
  }

  lemma {:induction false} AncLifted(ms: set<nat>, i: nat, k: nat)
    requires i in ms
    ensures Anc(i, k) in LiftTo(ms, k)
  {
    if k != 0 {
      AncLifted(ms, i, k - 1);
    }
  }

  lemma {:induction false} LiftInWidth(ms: set<nat>, n: nat, k: nat)
    requires forall i :: i in ms ==> i < n
    ensures forall i :: i in LiftTo(ms, k) ==> i < Width(n, k)
  {
    if k != 0 {
      LiftInWidth(ms, n, k - 1);
    }
  }

  /** Outside `todo` the stored row holds the target; inside it may be missing or stale. */
  ghost predicate RightExcept(row: seq<Node>, target: seq<nat>, todo: set<nat>) {
    && |row| <= |target|
    && forall i: nat :: i < |target| && i !in todo ==> i < |row| && row[i] == Some(target[i])
  }

  lemma RightEverywhere(row: seq<Node>, target: seq<nat>, todo: set<nat>)
    requires RightExcept(row, target, todo) && todo == {}
    ensures row == Present(target)
  {
    assert |row| == |target| by {
      assert |row| < |target| ==> |row| !in todo;
    }
    forall i: nat | i < |target|
      ensures row[i] == Some(target[i])
    {
      assert i !in todo;
    }
  }

  function RowAt(nodes: seq<seq<Node>>, k: nat): seq<Node> {
    if k < |nodes| then nodes[k] else []
  }

  /** What is stored at a position, nil if there is none. */
  function CellAt(row: seq<Node>, i: nat): Node {
    if i < |row| then row[i] else None
  }

  // ----- one run of recomputeLocked, on any grid -----

  /**
   What becomes of the cell above positions 2i and 2i+1.  A grid left stale by a failed
   batch can pair a nil cell with a present one on its right; what the hash then yields
   is the external library's affair and left open.
   */
  ghost predicate IsRebuilt(h: Hasher, below: seq<Node>, i: nat, cell: Node) {
    var left, right := CellAt(below, 2 * i), CellAt(below, 2 * i + 1);
    if right.None? then cell == left
    else if left.Some? then cell == Some(h(left.value, right.value))
    else cell.Some?
  }

  /** row' is row with the cells in ms rebuilt, padded with nil as far as the last of them. */
  ghost predicate RowRebuilt(h: Hasher, below: seq<Node>, row: seq<Node>, row': seq<Node>, ms: set<nat>) {
    && |row| <= |row'| && (forall i :: i in ms ==> i < |row'|)
    && (|row| < |row'| ==> |row'| - 1 in ms)
    && forall i: nat :: i < |row'| ==> if i in ms then IsRebuilt(h, below, i, row'[i]) else row'[i] == CellAt(row, i)
  }

  lemma RowRebuiltStarts(h: Hasher, below: seq<Node>, row: seq<Node>)
    ensures RowRebuilt(h, below, row, row, {})
  {
  }

  lemma RowRebuiltGrows(
    h: Hasher, below: seq<Node>, row: seq<Node>, mid: seq<Node>, row': seq<Node>, done: set<nat>, idx: nat)
    requires RowRebuilt(h, below, row, mid, done) && RowRebuilt(h, below, mid, row', {idx}) && idx !in done
    ensures RowRebuilt(h, below, row, row', done + {idx})
  {
    forall i: nat | i < |row'|
      ensures if i in done + {idx} then IsRebuilt(h, below, i, row'[i]) else row'[i] == CellAt(row, i)
    {
      if i != idx {
        assert row'[i] == CellAt(mid, i);
      }
    }
  }

  /** Level k is rebuilt above ms if it lies below `level`, else as before; a missing row is as good as an empty one. */
  ghost predicate LevelRebuilt(
    h: Hasher, nodes: seq<seq<Node>>, nodes': seq<seq<Node>>, ms: set<nat>, level: nat, k: nat)
    requires k > 0
  {
    if k < level then RowRebuilt(h, RowAt(nodes', k - 1), RowAt(nodes, k), RowAt(nodes', k), LiftTo(ms, k))
    else RowAt(nodes', k) == RowAt(nodes, k)
  }

  ghost predicate LevelsRebuilt(h: Hasher, nodes: seq<seq<Node>>, nodes': seq<seq<Node>>, ms: set<nat>, level: nat) {
    && RowAt(nodes', 0) == RowAt(nodes, 0)
    && forall k: nat :: k > 0 ==> LevelRebuilt(h, nodes, nodes', ms, level, k)
  }

  /** What recomputeLocked turns the grid into: every level up to `depth`, each from the one below. */
  ghost predicate Rebuilt(h: Hasher, nodes: seq<seq<Node>>, nodes': seq<seq<Node>>, ms: set<nat>, depth: nat) {
    && |nodes'| == (if |nodes| > depth then |nodes| else depth + 1)
    && LevelsRebuilt(h, nodes, nodes', ms, depth + 1)
  }

  lemma LevelsRebuiltStart(h: Hasher, nodes: seq<seq<Node>>, nodes': seq<seq<Node>>, ms: set<nat>)
    requires forall k: nat :: RowAt(nodes', k) == RowAt(nodes, k)
    ensures LevelsRebuilt(h, nodes, nodes', ms, 1)
  {
  }

  lemma LevelsRebuiltAdvance(
    h: Hasher, nodes: seq<seq<Node>>, mid: seq<seq<Node>>, nodes': seq<seq<Node>>, ms: set<nat>, level: nat)
    requires 0 < level < |mid| && |nodes'| == |mid| && nodes' == mid[level := nodes'[level]]
    requires LevelsRebuilt(h, nodes, mid, ms, level)
    requires RowRebuilt(h, mid[level - 1], mid[level], nodes'[level], LiftTo(ms, level))
    ensures LevelsRebuilt(h, nodes, nodes', ms, level + 1)
  {
    var next := level + 1;
    assert LevelRebuilt(h, nodes, mid, ms, level, level);
    forall k: nat | k > 0
      ensures LevelRebuilt(h, nodes, nodes', ms, next, k)
    {
      assert LevelRebuilt(h, nodes, mid, ms, level, k);
      assert k != level ==> RowAt(nodes', k) == RowAt(mid, k);
      assert k - 1 != level ==> RowAt(nodes', k - 1) == RowAt(mid, k - 1);
    }
  }

  // ----- what it costs -----

  /** The positions of ms whose right child is present: one hash each. */
  function Joined(ms: set<nat>, below: seq<Node>): set<nat> {
    set i | i in ms && CellAt(below, 2 * i + 1).Some?
  }

  /** The hashes made when the levels 1 to k above ms are rebuilt and end as in `nodes`. */
  function RebuildHashes(nodes: seq<seq<Node>>, ms: set<nat>, k: nat): nat {
    if k == 0 then 0
    else RebuildHashes(nodes, ms, k - 1) + |Joined(LiftTo(ms, k), RowAt(nodes, k - 1))|
  }

  lemma {:induction false} HashesBelow(nodes: seq<seq<Node>>, nodes': seq<seq<Node>>, ms: set<nat>, k: nat)
    requires forall j: nat :: j < k ==> RowAt(nodes, j) == RowAt(nodes', j)
    ensures RebuildHashes(nodes, ms, k) == RebuildHashes(nodes', ms, k)
  {
    if k != 0 {
      HashesBelow(nodes, nodes', ms, k - 1);
    }
  }

  lemma JoinedGrows(done: set<nat>, idx: nat, below: seq<Node>)
    requires idx !in done
    ensures |Joined(done + {idx}, below)| == |Joined(done, below)| + if CellAt(below, 2 * idx + 1).Some? then 1 else 0
  {
    if CellAt(below, 2 * idx + 1).Some? {
      assert Joined(done + {idx}, below) == Joined(done, below) + {idx};
    } else {
      assert Joined(done + {idx}, below) == Joined(done, below);
    }
  }

  lemma LiftGrows(done: set<nat>, idx: nat)
    ensures Lift(done + {idx}) == Lift(done) + {idx / 2}
  {
    forall y | y in Lift(done + {idx})
      ensures y in Lift(done) + {idx / 2}
    {
      var i :| i in done + {idx} && y == i / 2;
      assert i in done || i == idx;
    }
    assert idx in done + {idx};
  }

  // ----- which cells a change of leaves leaves alone -----

  /** ms covers every leaf in which cs' differs from cs. */
  ghost predicate Covers(cs: seq<nat>, cs': seq<nat>, ms: set<nat>) {
    && |cs| <= |cs'|
    && (forall i :: i in ms ==> i < |cs'|)
    && forall i: nat :: i < |cs'| && i !in ms ==> i < |cs| && cs[i] == cs'[i]
  }

  lemma ChildrenOutside(below: set<nat>, i: nat)
    requires i !in Lift(below)
    ensures 2 * i !in below && 2 * i + 1 !in below
  {
    assert (2 * i) / 2 == i && (2 * i + 1) / 2 == i;
  }

  /** A cell above no changed leaf is the same cell of the old grid. */
  lemma {:induction false} CellUnchanged(h: Hasher, cs: seq<nat>, cs': seq<nat>, ms: set<nat>, k: nat, i: nat)
    requires Covers(cs, cs', ms)
    requires i < Width(|cs'|, k) && i !in LiftTo(ms, k)
    ensures i < Width(|cs|, k) && Row(h, cs, k)[i] == Row(h, cs', k)[i]
    decreases k
  {
    if k != 0 {
      var below := LiftTo(ms, k - 1);
      ChildrenOutside(below, i);
      RowCell(h, cs', k, i);
      CellUnchanged(h, cs, cs', ms, k - 1, 2 * i);
      WidthMonotone(|cs|, |cs'|, k - 1);
      if 2 * i + 1 < Width(|cs'|, k - 1) {
        CellUnchanged(h, cs, cs', ms, k - 1, 2 * i + 1);
      }
      RowCell(h, cs, k, i);
    }
  }

  /** At a level the old grid did not have, the first cell is above the first new leaf. */
  lemma NewLevelIsAllStale(cs: seq<nat>, cs': seq<nat>, ms: set<nat>, k: nat)
    requires Covers(cs, cs', ms) && Depth(|cs|) < k <= Depth(|cs'|)
    ensures forall i: nat :: i < Width(|cs|, k) ==> i in LiftTo(ms, k)
  {
    var n := |cs|;
    assert n < |cs'|;
    AncLifted(ms, n, k);
    AncIsShift(n, k);
    if n > 0 {
      DepthBounds(n);
      Pow2Monotone(Depth(n), k);
      DivUnique(n, Pow2(k), 0, n);
      WidthShrinks(n, Depth(n), k);
      TopRowIsSingle(n);
    } else {
      WidthMonotone(0, 0, k);
      ZeroWidth(k);
    }
  }

  lemma {:induction false} ZeroWidth(k: nat)
    ensures Width(0, k) == 0
  {
    if k != 0 {
      ZeroWidth(k - 1);
    }
  }

  lemma {:induction false} WidthShrinks(n: nat, j: nat, k: nat)
    requires j <= k
    ensures Width(n, k) <= Width(n, j)
    decreases k
  {
    if j < k {
      WidthShrinks(n, j, k - 1);
    }
  }

  // ----- where a grid can be stale -----

  /**
   The grid is that of cs, save that level 0 is nil at the positions z and that the
   cells above the leaves d may be missing or wrong.
   */
  ghost predicate Tracked(h: Hasher, nodes: seq<seq<Node>>, cs: seq<nat>, z: set<nat>, d: set<nat>) {
    && 1 <= |nodes| <= Depth(|cs|) + 1 && |nodes[0]| == |cs|
    && z <= d && (forall i :: i in d ==> i < |cs|)
    && RightExcept(nodes[0], cs, z) && (forall i :: i in z ==> nodes[0][i].None?)
    && forall k: nat {:trigger RowAt(nodes, k)} ::
         1 <= k <= Depth(|cs|) ==> RightExcept(RowAt(nodes, k), Row(h, cs, k), LiftTo(d, k))
  }

  lemma GridIsTracked(h: Hasher, cs: seq<nat>)
    ensures Tracked(h, GridOf(h, cs), cs, {}, {})
  {
    var nodes := GridOf(h, cs);
    assert nodes[0] == Present(Row(h, cs, 0));
    forall k: nat | 1 <= k <= Depth(|cs|)
      ensures RightExcept(RowAt(nodes, k), Row(h, cs, k), LiftTo({}, k))
    {
      assert RowAt(nodes, k) == nodes[k] == Present(Row(h, cs, k));
    }
  }

  lemma {:induction false} LiftNothing(k: nat)
    ensures LiftTo({}, k) == {}
  {
    if k != 0 {
      LiftNothing(k - 1);
    }
  }

  lemma SameRows(nodes: seq<seq<Node>>, g: seq<seq<Node>>)
    requires 1 <= |nodes| <= |g|
    requires forall k: nat :: k < |g| ==> RowAt(nodes, k) == g[k]
    requires |g| > 1 ==> g[|g| - 1] != []
    ensures nodes == g
  {
    if |g| > 1 {
      assert RowAt(nodes, |g| - 1) == g[|g| - 1];
    }
    forall k: nat | k < |nodes|
      ensures nodes[k] == g[k]
    {
      assert RowAt(nodes, k) == nodes[k];
    }
  }

  lemma GridRowAt(h: Hasher, cs: seq<nat>, k: nat)
    requires k <= Depth(|cs|)
    ensures RowAt(GridOf(h, cs), k) == GridOf(h, cs)[k] == Present(Row(h, cs, k))
    ensures k > 0 ==> Width(|cs|, k) > 0
  {
    if k > 0 {
      AncInWidth(|cs|, 0, k);
    }
  }

  /** A grid with nothing to mend is the one built from scratch. */
  lemma {:induction false} TrackedClean(h: Hasher, nodes: seq<seq<Node>>, cs: seq<nat>)
    requires Tracked(h, nodes, cs, {}, {})
    ensures nodes == GridOf(h, cs)
  {
    var g := GridOf(h, cs);
    RightEverywhere(nodes[0], cs, {});
    forall k: nat | k < |g|
      ensures RowAt(nodes, k) == g[k] && (k > 0 ==> g[k] != [])
    {
      GridRowAt(h, cs, k);
      LiftNothing(k);
      if k > 0 {
        RightEverywhere(RowAt(nodes, k), Row(h, cs, k), LiftTo({}, k));
      }
    }
    SameRows(nodes, g);
  }

  // ----- staleness after a failure and after a success -----

  /** An upper row of the old grid is right for the new commitments, save above changed and stale leaves. */
  lemma {:induction false} OldRow(
    h: Hasher, nodes: seq<seq<Node>>, cs: seq<nat>, cs': seq<nat>, m: set<nat>, z: set<nat>, d: set<nat>, k: nat)
    requires Tracked(h, nodes, cs, z, d) && Covers(cs, cs', m) && 1 <= k <= Depth(|cs'|)
    ensures |RowAt(nodes, k)| <= Width(|cs'|, k)
    ensures forall i: nat :: i < Width(|cs'|, k) && i !in LiftTo(m, k) && i !in LiftTo(d, k) ==>
      i < |RowAt(nodes, k)| && RowAt(nodes, k)[i] == Some(Row(h, cs', k)[i])
  {
    var row, target := RowAt(nodes, k), Row(h, cs', k);
    WidthMonotone(|cs|, |cs'|, k);
    DepthMonotone(|cs|, |cs'|);
    forall i: nat | i < |target| && i !in LiftTo(m, k) && i !in LiftTo(d, k)
      ensures i < |row| && row[i] == Some(target[i])
    {
      CellUnchanged(h, cs, cs', m, k, i);
      if k > Depth(|cs|) {
        NewLevelIsAllStale(cs, cs', m, k);
      }
    }
  }

  lemma {:induction false} LiftUnion(d: set<nat>, m: set<nat>, k: nat)
    ensures LiftTo(d + m, k) == LiftTo(d, k) + LiftTo(m, k)
  {
    if k != 0 {
      LiftUnion(d, m, k - 1);
      LiftBoth(LiftTo(d, k - 1), LiftTo(m, k - 1));
    }
  }

  lemma LiftBoth(a: set<nat>, b: set<nat>)
    ensures Lift(a + b) == Lift(a) + Lift(b)
  {
    forall y
      ensures y in Lift(a + b) <==> y in Lift(a) + Lift(b)
    {
      if y in Lift(a + b) {
        var i :| i in a + b && y == i / 2;
        assert i in a || i in b;
      }
      if y in Lift(a) {
        var i :| i in a && y == i / 2;
        assert i in a + b;
      }
      if y in Lift(b) {
        var i :| i in b && y == i / 2;
        assert i in a + b;
      }
    }
  }

  /** When level 0 alone was rewritten, at m, what was stale stays so and all above m is stale too. */
  lemma {:induction false} StaleAfterFailure(
    h: Hasher, nodes: seq<seq<Node>>, row: seq<Node>, cs: seq<nat>, cs': seq<nat>,
    m: set<nat>, z: set<nat>, d: set<nat>, z': set<nat>)
    requires Tracked(h, nodes, cs, z, d) && Covers(cs, cs', m)
    requires |row| == |cs'| && RightExcept(row, cs', z') && z' <= d + m && forall i :: i in z' ==> row[i].None?
    ensures Tracked(h, nodes[0 := row], cs', z', d + m)
  {
    var nodes' := nodes[0 := row];
    DepthMonotone(|cs|, |cs'|);
    forall k: nat | 1 <= k <= Depth(|cs'|)
      ensures RightExcept(RowAt(nodes', k), Row(h, cs', k), LiftTo(d + m, k))
    {
      assert RowAt(nodes', k) == RowAt(nodes, k);
      LiftUnion(d, m, k);
      OldRow(h, nodes, cs, cs', m, z, d, k);
    }
  }

  /** The stale leaves that share no pair with a changed one. */
  function Untouched(d: set<nat>, m: set<nat>): set<nat> {
    set i | i in d && i / 2 !in Lift(m)
  }

  lemma {:induction false} LiftedFrom(ms: set<nat>, k: nat, a: nat) returns (i: nat)
    requires a in LiftTo(ms, k)
    ensures i in ms && Anc(i, k) == a
  {
    if k == 0 {
      i := a;
    } else {
      var b :| b in LiftTo(ms, k - 1) && a == b / 2;
      i := LiftedFrom(ms, k - 1, b);
    }
  }

  lemma {:induction false} AncOfPair(i: nat, j: nat, k: nat)
    requires i / 2 == j / 2 && k > 0
    ensures Anc(i, k) == Anc(j, k)
  {
    if k > 1 {
      AncOfPair(i, j, k - 1);
    }
  }

  /** A stale cell above no changed leaf is above a stale leaf whose pair did not change. */
  lemma StaleCellUntouched(d: set<nat>, m: set<nat>, k: nat, a: nat)
    requires k > 0 && a in LiftTo(d, k) && a !in LiftTo(m, k)
    ensures a in LiftTo(Untouched(d, m), k)
  {
    var i := LiftedFrom(d, k, a);
    if i / 2 in Lift(m) {
      var j :| j in m && i / 2 == j / 2;
      AncOfPair(i, j, k);
      AncLifted(m, j, k);
    }
    AncLifted(Untouched(d, m), i, k);
  }

  lemma {:induction false} LiftMonotone(a: set<nat>, b: set<nat>, k: nat)
    requires a <= b
    ensures LiftTo(a, k) <= LiftTo(b, k)
  {
    if k != 0 {
      LiftMonotone(a, b, k - 1);
    }
  }

  /** A rebuilt row is right wherever the row below it is, and elsewhere as far as the old row was. */
  lemma RebuiltRow(
    h: Hasher, below: seq<Node>, row: seq<Node>, row': seq<Node>, cs: seq<nat>, k: nat,
    changed: set<nat>, staleBelow: set<nat>, stale: set<nat>)
    requires k > 0 && RowRebuilt(h, below, row, row', changed)
    requires RightExcept(below, Row(h, cs, k - 1), staleBelow) && Lift(staleBelow) <= stale
    requires |row| <= Width(|cs|, k) && forall i :: i in changed ==> i < Width(|cs|, k)
    requires forall i: nat :: i < Width(|cs|, k) && i !in changed && i !in stale ==>
      i < |row| && row[i] == Some(Row(h, cs, k)[i])
    ensures RightExcept(row', Row(h, cs, k), stale)
  {
    forall i: nat | i < Width(|cs|, k) && i !in stale
      ensures i < |row'| && row'[i] == Some(Row(h, cs, k)[i])
    {
      if i in changed {
        RowCell(h, cs, k, i);
        ChildrenOutside(staleBelow, i);
        assert IsRebuilt(h, below, i, row'[i]);
      }
    }
  }

  /** An upper row of the old grid, seen after a success. */
  lemma OldRowUntouched(
    h: Hasher, nodes: seq<seq<Node>>, cs: seq<nat>, cs': seq<nat>,
    m: set<nat>, z: set<nat>, d: set<nat>, d': set<nat>, k: nat)
    requires Tracked(h, nodes, cs, z, d) && Covers(cs, cs', m) && 1 <= k <= Depth(|cs'|)
    requires Untouched(d, m) <= d'
    ensures |RowAt(nodes, k)| <= Width(|cs'|, k)
    ensures forall i: nat :: i < Width(|cs'|, k) && i !in LiftTo(m, k) && i !in LiftTo(d', k) ==>
      i < |RowAt(nodes, k)| && RowAt(nodes, k)[i] == Some(Row(h, cs', k)[i])
  {
    OldRow(h, nodes, cs, cs', m, z, d, k);
    LiftMonotone(Untouched(d, m), d', k);
    forall i: nat | i !in LiftTo(m, k) && i !in LiftTo(d', k)
      ensures i !in LiftTo(d, k)
    {
      if i in LiftTo(d, k) {
        StaleCellUntouched(d, m, k, i);
      }
    }
  }

  /** One level of a rebuilt grid, seen from the level below. */
  lemma RebuiltLevel(
    h: Hasher, nodes: seq<seq<Node>>, row: seq<Node>, nodes': seq<seq<Node>>, m: set<nat>, depth: nat, k: nat)
    requires nodes != [] && 1 <= k <= depth && LevelsRebuilt(h, nodes[0 := row], nodes', m, depth + 1)
    ensures RowRebuilt(h, RowAt(nodes', k - 1), RowAt(nodes, k), RowAt(nodes', k), LiftTo(m, k))
  {
    assert LevelRebuilt(h, nodes[0 := row], nodes', m, depth + 1, k);
    assert RowAt(nodes[0 := row], k) == RowAt(nodes, k);
  }

  /** Level by level, a rebuilt grid is stale only above d'. */
  lemma {:induction false} RebuiltRowIsTracked(
    h: Hasher, nodes: seq<seq<Node>>, row: seq<Node>, nodes': seq<seq<Node>>, cs: seq<nat>, cs': seq<nat>,
    m: set<nat>, z: set<nat>, d: set<nat>, d': set<nat>, k: nat)
    requires Tracked(h, nodes, cs, z, d) && Covers(cs, cs', m)
    requires RightExcept(row, cs', d') && Untouched(d, m) <= d'
    requires k <= Depth(|cs'|) && LevelsRebuilt(h, nodes[0 := row], nodes', m, Depth(|cs'|) + 1)
    ensures RightExcept(RowAt(nodes', k), Row(h, cs', k), LiftTo(d', k))
    decreases k
  {
    if k == 0 {
      assert RowAt(nodes', 0) == row;
    } else {
      RebuiltRowIsTracked(h, nodes, row, nodes', cs, cs', m, z, d, d', k - 1);
      RebuiltLevel(h, nodes, row, nodes', m, Depth(|cs'|), k);
      OldRowUntouched(h, nodes, cs, cs', m, z, d, d', k);
      LiftInWidth(m, |cs'|, k);
      RebuiltRow(h, RowAt(nodes', k - 1), RowAt(nodes, k), RowAt(nodes', k), cs', k,
        LiftTo(m, k), LiftTo(d', k - 1), LiftTo(d', k));
    }
  }

  /**
   After a success the grid is stale only above the leaves that were stale and share no
   pair with a changed one, and above the leaves whose hash is still pending.
   */
  lemma {:induction false} StaleAfterSuccess(
    h: Hasher, nodes: seq<seq<Node>>, row: seq<Node>, nodes': seq<seq<Node>>, cs: seq<nat>, cs': seq<nat>,
    m: set<nat>, z: set<nat>, d: set<nat>)
    requires Tracked(h, nodes, cs, z, d) && Covers(cs, cs', m)
    requires |row| == |cs'| && RightExcept(row, cs', z - m) && forall i :: i in z - m ==> row[i].None?
    requires Rebuilt(h, nodes[0 := row], nodes', m, Depth(|cs'|))
    ensures Tracked(h, nodes', cs', z - m, (z - m) + Untouched(d, m))
  {
    var d' := (z - m) + Untouched(d, m);
    DepthMonotone(|cs|, |cs'|);
    assert RowAt(nodes', 0) == row;
    forall k: nat | 1 <= k <= Depth(|cs'|)
      ensures RightExcept(RowAt(nodes', k), Row(h, cs', k), LiftTo(d', k))
    {
      RebuiltRowIsTracked(h, nodes, row, nodes', cs, cs', m, z, d, d', k);
    }
  }

  // ----- the cost of a full rebuild, and a bound -----

  /** s holds the numbers below n. */
  ghost predicate IsUpto(s: set<nat>, n: nat) {
    forall i: nat :: i in s <==> i < n
  }

  lemma {:induction false} UptoSize(s: set<nat>, n: nat)
    requires IsUpto(s, n)
    ensures |s| == n
  {
    if n > 0 {
      UptoSize(s - {n - 1}, n - 1);
    } else {
      assert s == {};
    }
  }

  lemma LiftUpto(s: set<nat>, w: nat)
    requires IsUpto(s, w)
    ensures IsUpto(Lift(s), (w + 1) / 2)
  {
    forall i: nat
      ensures i in Lift(s) <==> i < (w + 1) / 2
    {
      if i < (w + 1) / 2 {
        assert 2 * i in s && (2 * i) / 2 == i;
      }
    }
  }

  lemma {:induction false} LiftToUpto(s: set<nat>, n: nat, k: nat)
    requires IsUpto(s, n)
    ensures IsUpto(LiftTo(s, k), Width(n, k))
  {
    if k != 0 {
      LiftToUpto(s, n, k - 1);
      LiftUpto(LiftTo(s, k - 1), Width(n, k - 1));
    }
  }

  /** Every row has its width and no cell is nil. */
  ghost predicate FullRows(nodes: seq<seq<Node>>, n: nat) {
    forall k: nat :: k <= Depth(n) ==> FullRow(RowAt(nodes, k), Width(n, k))
  }

  ghost predicate FullRow(row: seq<Node>, w: nat) {
    |row| == w && forall i: nat :: i < w ==> row[i].Some?
  }

  lemma GridIsFull(h: Hasher, cs: seq<nat>)
    ensures FullRows(GridOf(h, cs), |cs|)
  {
    forall k: nat | k <= Depth(|cs|)
      ensures FullRow(RowAt(GridOf(h, cs), k), Width(|cs|, k))
    {
      GridRowAt(h, cs, k);
    }
  }

  lemma JoinedUpto(s: set<nat>, row: seq<Node>)
    requires IsUpto(s, (|row| + 1) / 2) && FullRow(row, |row|)
    ensures |Joined(s, row)| == |row| / 2
  {
    forall i: nat
      ensures i in Joined(s, row) <==> i < |row| / 2
    {
      assert CellAt(row, 2 * i + 1).Some? <==> 2 * i + 1 < |row|;
      assert i in s <==> i < (|row| + 1) / 2;
    }
    UptoSize(Joined(s, row), |row| / 2);
  }

  /** Rebuilding everything hashes once per pair; over k levels that is n less the width of level k. */
  lemma {:induction false} FullRebuildCost(nodes: seq<seq<Node>>, n: nat, s: set<nat>, k: nat)
    requires FullRows(nodes, n) && IsUpto(s, n) && k <= Depth(n)
    ensures RebuildHashes(nodes, s, k) == n - Width(n, k)
  {
    if k != 0 {
      FullRebuildCost(nodes, n, s, k - 1);
      LiftToUpto(s, n, k);
      assert FullRow(RowAt(nodes, k - 1), Width(n, k - 1));
      JoinedUpto(LiftTo(s, k), RowAt(nodes, k - 1));
    }
  }

  lemma SubsetSize(a: set<nat>, b: set<nat>)
    requires a <= b
    ensures |a| <= |b|
  {
    assert b == a + (b - a);
  }

  lemma {:induction false} LiftSize(ms: set<nat>)
    ensures |Lift(ms)| <= |ms|
    decreases |ms|
  {
    if ms == {} {
      assert Lift(ms) == {};
    } else {
      var x :| x in ms;
      LiftSize(ms - {x});
      forall y | y in Lift(ms)
        ensures y in Lift(ms - {x}) + {x / 2}
      {
        var i :| i in ms && y == i / 2;
        assert i == x || i in ms - {x};
      }
      SubsetSize(Lift(ms), Lift(ms - {x}) + {x / 2});
    }
  }

  lemma {:induction false} LiftToSize(ms: set<nat>, k: nat)
    ensures |LiftTo(ms, k)| <= |ms|
  {
    if k != 0 {
      LiftToSize(ms, k - 1);
      LiftSize(LiftTo(ms, k - 1));
    }
  }

  /** At most one hash per changed leaf and level. */
  lemma {:induction false} RebuildCostBound(nodes: seq<seq<Node>>, ms: set<nat>, k: nat)
    ensures RebuildHashes(nodes, ms, k) <= |ms| * k
  {
    if k != 0 {
      RebuildCostBound(nodes, ms, k - 1);
      LiftToSize(ms, k);
      SubsetSize(Joined(LiftTo(ms, k), RowAt(nodes, k - 1)), LiftTo(ms, k));
      assert |ms| * k == |ms| * (k - 1) + |ms|;
    }
  }
}
