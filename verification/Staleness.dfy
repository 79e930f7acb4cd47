/**
 What the steps of the tree come to: on a coherent tree the specified operations, at
 their exact cost; on any run, failures included, which part of the grid is stale, and
 when it is coherent again.
 */
module Staleness {
  import opened Wrappers
  import opened Types
  import opened Grid
  import opened LinkedLeaves
  import opened Recompute
  import opened TreeSpec
  import opened InsertSteps

  // ----- what can be wrong -----

  /** The leaves whose hash is pending, and the leaves above which cells can be stale. */
  datatype Dirt = Dirt(pending: set<nat>, stale: set<nat>)

  const CLEAN := Dirt({}, {})

  ghost predicate TrackedBy(h: Hasher, s: TreeState, dirt: Dirt) {
    Tracked(h, s.nodes, Commitments(h, s.leaves), dirt.pending, dirt.stale)
  }

  /** A sorted batch that fails after taking a value leaves the last hash pending. */
  predicate LeavesPending(ls: Leaves, op: Op) {
    var o := ApplyLeaves(ls, op);
    op.InsertManySorted? && o.error.Some? && o.done > 0
  }

  function Last(ls: Leaves): nat {
    if ls == [] then 0 else |ls| - 1
  }

  /**
   What an operation does to the dirt: a failure adds the leaves it changed; a success
   leaves the stale leaves that share no pair with a changed one, and the pending ones.
   */
  function NextDirt(dirt: Dirt, ls: Leaves, op: Op): Dirt {
    var o := ApplyLeaves(ls, op);
    var m := Changed(ls, o.leaves);
    var z := dirt.pending - m;
    if o.error.None? then Dirt(z, z + Untouched(dirt.stale, m))
    else if LeavesPending(ls, op) then Dirt(z + {Last(o.leaves)}, dirt.stale + m)
    else Dirt(z, dirt.stale + m)
  }

  // ----- one step -----

  lemma {:induction false} SortedGrows(ls: Leaves, vs: seq<nat>)
    ensures |SortedBatch(ls, vs).leaves| >= |ls| + SortedBatch(ls, vs).done
    decreases |vs|
  {
    if vs != [] {
      if ls == [] {
        SortedGrows(FirstLeaves(vs[0]), vs[1..]);
      } else if TailError(ls, vs[0]).None? {
        SortedGrows(Splice(ls, |ls| - 1, vs[0]), vs[1..]);
      }
    }
  }

  /** The new level 0 is right where it was, and where it changed. */
  lemma LevelZeroRight(h: Hasher, row: seq<Node>, a: Leaves, b: Leaves, z: set<nat>, z': set<nat>, pending: bool)
    requires |row| == |a| && Tightened(a, b) && RightExcept(row, Commitments(h, a), z)
    requires forall i :: i in z ==> i < |a| && row[i].None?
    requires forall i: nat :: i < |b| ==> (i in z' <==> (i in z && a[i] == b[i]) || (pending && i == |b| - 1))
    requires forall i :: i in z' ==> i < |b|
    ensures var new_ := LevelZero(h, row, a, b, pending);
      RightExcept(new_, Commitments(h, b), z') && forall i :: i in z' ==> new_[i].None?
  {
    var new_ := LevelZero(h, row, a, b, pending);
    forall i: nat | i < |b|
      ensures i !in z' ==> new_[i] == Some(Commitments(h, b)[i])
      ensures i in z' ==> new_[i].None?
    {
      assert new_[i] == CellZero(h, row, a, b, pending, i);
    }
  }

  lemma FailureKeepsTrack(h: Hasher, s: TreeState, op: Op, t: TreeState, e: Option<Error>, dirt: Dirt)
    requires TrackedBy(h, s, dirt) && Stepped(h, s, op, t, e) && e.Some?
    ensures TrackedBy(h, t, NextDirt(dirt, s.leaves, op))
  {
    var o := ApplyLeaves(s.leaves, op);
    var m, next := Changed(s.leaves, o.leaves), NextDirt(dirt, s.leaves, op);
    var pending := LeavesPending(s.leaves, op);
    var row := LevelZero(h, s.nodes[0], s.leaves, o.leaves, pending);
    ApplyTightens(s.leaves, op);
    ChangedCovers(h, s.leaves, o.leaves);
    if pending {
      SortedGrows(s.leaves, op.values);
      assert |o.leaves| - 1 in m;
    }
    LevelZeroRight(h, s.nodes[0], s.leaves, o.leaves, dirt.pending, next.pending, pending);
    StaleAfterFailure(h, s.nodes, row, Commitments(h, s.leaves), Commitments(h, o.leaves),
      m, dirt.pending, dirt.stale, next.pending);
  }

  lemma SuccessKeepsTrack(h: Hasher, s: TreeState, op: Op, t: TreeState, dirt: Dirt)
    requires TrackedBy(h, s, dirt) && Stepped(h, s, op, t, None)
    ensures TrackedBy(h, t, NextDirt(dirt, s.leaves, op))
  {
    var o := ApplyLeaves(s.leaves, op);
    var m := Changed(s.leaves, o.leaves);
    var row := LevelZero(h, s.nodes[0], s.leaves, o.leaves, false);
    ApplyTightens(s.leaves, op);
    ChangedCovers(h, s.leaves, o.leaves);
    LevelZeroRight(h, s.nodes[0], s.leaves, o.leaves, dirt.pending, dirt.pending - m, false);
    StaleAfterSuccess(h, s.nodes, row, t.nodes, Commitments(h, s.leaves), Commitments(h, o.leaves),
      m, dirt.pending, dirt.stale);
  }

  /** Every step of the tree, failing or not and in any order of visits, keeps track of what is stale. */
  lemma {:induction false} StepKeepsTrack(h: Hasher, s: TreeState, op: Op, t: TreeState, e: Option<Error>, dirt: Dirt)
    requires TrackedBy(h, s, dirt) && Stepped(h, s, op, t, e)
    ensures TrackedBy(h, t, NextDirt(dirt, s.leaves, op))
  {
    if e.Some? {
      FailureKeepsTrack(h, s, op, t, e, dirt);
    } else {
      SuccessKeepsTrack(h, s, op, t, dirt);
    }
  }

  // ----- coherent trees -----

  lemma {:induction false} CleanIffCoherent(h: Hasher, s: TreeState)
    requires Linked(s.leaves)
    ensures TrackedBy(h, s, CLEAN) <==> Coherent(h, s)
  {
    if TrackedBy(h, s, CLEAN) {
      TrackedClean(h, s.nodes, Commitments(h, s.leaves));
    }
    if Coherent(h, s) {
      GridIsTracked(h, Commitments(h, s.leaves));
    }
  }

  lemma SuccessStaysClean(ls: Leaves, op: Op)
    requires ApplyLeaves(ls, op).error.None?
    ensures NextDirt(CLEAN, ls, op) == CLEAN
  {
    var m := Changed(ls, ApplyLeaves(ls, op).leaves);
    assert Untouched({}, m) == {};
    assert CLEAN.pending - m == {};
  }

  lemma SuccessIsApply(h: Hasher, s: TreeState, op: Op, t: TreeState)
    requires Coherent(h, s) && Stepped(h, s, op, t, None)
    ensures (t, None) == Apply(h, s, op)
  {
    CleanIffCoherent(h, s);
    SuccessStaysClean(s.leaves, op);
    SuccessKeepsTrack(h, s, op, t, CLEAN);
    ApplyLeavesAgrees(h, s, op);
    TrackedClean(h, t.nodes, Commitments(h, t.leaves));
  }

  lemma FailureIsApply(h: Hasher, s: TreeState, op: Op, t: TreeState, e: Option<Error>)
    requires Coherent(h, s) && Stepped(h, s, op, t, e) && e.Some?
    ensures (t, e) == Apply(h, s, op)
  {
    var o := ApplyLeaves(s.leaves, op);
    ApplyTightens(s.leaves, op);
    ApplyLeavesAgrees(h, s, op);
    LevelZeroPresent(h, s.leaves, o.leaves);
    RewriteLevelZero(h, s);
    if LeavesPending(s.leaves, op) {
      SortedGrows(s.leaves, op.values);
    }
    assert s.nodes[0] == Present(Row(h, Commitments(h, s.leaves), 0));
  }

  /** On a coherent tree every step is the specified operation. */
  lemma {:induction false} SteppedIsApply(h: Hasher, s: TreeState, op: Op, t: TreeState, e: Option<Error>)
    requires Coherent(h, s) && Stepped(h, s, op, t, e)
    ensures (t, e) == Apply(h, s, op)
  {
    if e.Some? {
      FailureIsApply(h, s, op, t, e);
    } else {
      SuccessIsApply(h, s, op, t);
    }
  }

  // ----- exact cost -----

  /** One successful insertion makes at most two hashes for leaves and two for each level, on any tree. */
  lemma {:induction false} InsertCost(h: Hasher, s: TreeState, v: nat, t: TreeState)
    requires s.nodes != [] && Stepped(h, s, Op.Insert(v), t, None)
    ensures t.nodes != [] && StepHashes(s.leaves, Op.Insert(v), t.nodes) <= 2 + 2 * (|t.nodes| - 1)
  {
    BatchOfOne(s.leaves, v);
    InsertLeafTightens(s.leaves, v);
    var m, d := Changed(s.leaves, t.leaves), Depth(|t.leaves|);
    RebuildCostBound(t.nodes, m, d);
    TwicePerLevel(|m|, d, |t.nodes| - 1);
  }

  lemma TwicePerLevel(m: nat, d: nat, levels: nat)
    requires m <= 2 && d <= levels
    ensures m * d <= 2 * levels
  {
    assert m == 0 || m == 1 || m == 2;
  }

  lemma {:induction false} SortedBuildSize(vs: seq<nat>)
    requires SortedBatch([], vs).error.None? && vs != []
    ensures |SortedBatch([], vs).leaves| == |vs| + 1 && SortedBatch([], vs).done == |vs|
  {
    SortedSize(FirstLeaves(vs[0]), vs[1..]);
  }

  lemma {:induction false} SortedSize(ls: Leaves, vs: seq<nat>)
    requires ls != [] && SortedBatch(ls, vs).error.None?
    ensures |SortedBatch(ls, vs).leaves| == |ls| + |vs| && SortedBatch(ls, vs).done == |vs|
    decreases |vs|
  {
    if vs != [] {
      SortedSize(Splice(ls, |ls| - 1, vs[0]), vs[1..]);
    }
  }

  /** A sorted build of N values from empty makes exactly 2N + 1 hashes: N + 1 for leaves, N above. */
  lemma {:induction false} SortedBuildCost(h: Hasher, vs: seq<nat>, t: TreeState)
    requires Stepped(h, EMPTY_TREE, Op.InsertManySorted(vs), t, None)
    ensures StepHashes([], Op.InsertManySorted(vs), t.nodes) == 2 * |vs| + 1
    ensures RebuildHashes(t.nodes, Changed([], t.leaves), Depth(|t.leaves|)) == |vs|
  {
    var n, m := |t.leaves|, Changed([], t.leaves);
    EmptyIsCoherent(h);
    SteppedIsApply(h, EMPTY_TREE, Op.InsertManySorted(vs), t, None);
    ApplyCorrect(h, EMPTY_TREE, Op.InsertManySorted(vs));
    SortedBuildSize(vs);
    GridIsFull(h, Commitments(h, t.leaves));
    FullRebuildCost(t.nodes, n, m, Depth(n));
    TopRowIsSingle(n);
  }

  // ----- whole runs, failures included -----

  /** ops, some of which may fail, can take s to t; hashes of nil are left open, so there can be several such t. */
  ghost predicate RunsTo(h: Hasher, s: TreeState, ops: seq<Op>, t: TreeState)
    decreases |ops|, s
  {
    if ops == [] then t == s
    else exists u: TreeState, e :: StepsTo(h, s, ops[0], u, e) && RunsTo(h, u, ops[1..], t)
  }

  ghost predicate StepsTo(h: Hasher, s: TreeState, op: Op, t: TreeState, e: Option<Error>) {
    s.nodes != [] && Stepped(h, s, op, t, e)
  }

  /** What is stale after such a run; it depends on leaves and operations alone. */
  function DirtAfter(dirt: Dirt, ls: Leaves, ops: seq<Op>): Dirt
    decreases |ops|, ls
  {
    if ops == [] then dirt
    else DirtAfter(NextDirt(dirt, ls, ops[0]), ApplyLeaves(ls, ops[0]).leaves, ops[1..])
  }

  /** Over every run the leaves are as specified and the grid is stale at most where the dirt says. */
  lemma {:induction false} RunKeepsTrack(h: Hasher, s: TreeState, ops: seq<Op>, t: TreeState, dirt: Dirt)
    requires TrackedBy(h, s, dirt) && RunsTo(h, s, ops, t)
    ensures t.leaves == RunLeaves(s.leaves, ops)
    ensures TrackedBy(h, t, DirtAfter(dirt, s.leaves, ops))
    decreases |ops|
  {
    if ops != [] {
      var u: TreeState, e :| StepsTo(h, s, ops[0], u, e) && RunsTo(h, u, ops[1..], t);
      StepKeepsTrack(h, s, ops[0], u, e, dirt);
      RunKeepsTrack(h, u, ops[1..], t, NextDirt(dirt, s.leaves, ops[0]));
    }
  }

  /** A tree with a hash pending is not coherent. */
  lemma PendingIsIncoherent(h: Hasher, s: TreeState, dirt: Dirt)
    requires TrackedBy(h, s, dirt) && dirt.pending != {}
    ensures !Coherent(h, s)
  {
    var i :| i in dirt.pending;
    var g := GridOf(h, Commitments(h, s.leaves));
    assert g[0] == Present(Row(h, Commitments(h, s.leaves), 0));
    assert g[0][i] != s.nodes[0][i];
  }

  /** A run from a coherent tree that ends without dirt ends coherent; one with a hash pending does not. */
  lemma {:induction false} CleanRunIsCoherent(h: Hasher, s: TreeState, ops: seq<Op>, t: TreeState)
    requires Coherent(h, s) && RunsTo(h, s, ops, t)
    ensures DirtAfter(CLEAN, s.leaves, ops) == CLEAN ==> Coherent(h, t)
    ensures DirtAfter(CLEAN, s.leaves, ops).pending != {} ==> !Coherent(h, t)
  {
    CleanIffCoherent(h, s);
    RunKeepsTrack(h, s, ops, t, CLEAN);
    RunLeavesLinked(s.leaves, ops);
    CleanIffCoherent(h, t);
    if DirtAfter(CLEAN, s.leaves, ops).pending != {} {
      PendingIsIncoherent(h, t, DirtAfter(CLEAN, s.leaves, ops));
    }
  }
}
