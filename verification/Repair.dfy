/**
 When a grid left stale by failing operations is right again: exactly which runs end
 with the grid built from scratch, and that there are such runs.
 */
module Repair {
  import opened Wrappers
  import opened Types
  import opened Grid
  import opened LinkedLeaves
  import opened Recompute
  import opened TreeSpec
  import opened InsertSteps
  import opened Staleness

  // ----- exactly when a run ends coherent -----

  /** Level 1 above a pair of leaves: their hash, the only one of them, or nothing. */
  function PairCell(h: Hasher, ls: Leaves, c: nat): Node {
    if 2 * c + 1 < |ls| then Some(h(Commit(h, ls[2 * c]), Commit(h, ls[2 * c + 1])))
    else if 2 * c < |ls| then Some(Commit(h, ls[2 * c]))
    else None
  }

  /** The cell was made from the leaves of the past, and its pair has changed since. */
  ghost predicate MadeFrom(h: Hasher, past: Leaves, ls: Leaves, c: nat, cell: Node) {
    Tightened(past, ls) && c in Lift(Changed(past, ls)) && cell == PairCell(h, past, c)
  }

  /** The cell is what no two numbers hash to. */
  ghost predicate IsForeign(h: Hasher, ls: Leaves, c: nat, cell: Node) {
    2 * c < |ls| && (cell.Some? ==> !IsOutput(h, cell.value))
  }

  ghost predicate IsOld(h: Hasher, ls: Leaves, c: nat, cell: Node) {
    IsForeign(h, ls, c, cell) || exists past: Leaves :: MadeFrom(h, past, ls, c, cell)
  }

  /** What is stored on level 1 above the pair of leaf i. */
  function StoredPair(s: TreeState, i: nat): Node {
    CellAt(RowAt(s.nodes, 1), i / 2)
  }

  /** Above every stale leaf level 1 holds an old cell. */
  ghost predicate AllOld(h: Hasher, s: TreeState, d: set<nat>) {
    forall i :: i in d ==> IsOld(h, s.leaves, i / 2, StoredPair(s, i))
  }

  lemma OldStaysOld(h: Hasher, ls: Leaves, ls': Leaves, c: nat, cell: Node)
    requires IsOld(h, ls, c, cell) && Tightened(ls, ls')
    ensures IsOld(h, ls', c, cell)
  {
    if past: Leaves :| MadeFrom(h, past, ls, c, cell) {
      TightenedChain(past, ls, ls');
      var i :| i in Changed(past, ls) && i / 2 == c;
      assert i in Changed(past, ls');
      assert MadeFrom(h, past, ls', c, cell);
    }
  }

  /** Two records with the same commitment are the same. */
  lemma SameRecord(h: Hasher, a: IndexedLeaf, b: IndexedLeaf)
    requires Injective(h) && Commit(h, a) == Commit(h, b)
    ensures a == b
  {
    NoCollision(h, a.value, a.nextValue, b.value, b.nextValue);
  }

  /** Above a pair of leaves there is a hash. */
  lemma PairIsOutput(h: Hasher, ls: Leaves, c: nat)
    requires 2 * c < |ls|
    ensures PairCell(h, ls, c).Some? && IsOutput(h, PairCell(h, ls, c).value)
  {
    assert Commit(h, ls[2 * c]) == h(ls[2 * c].value, ls[2 * c].nextValue);
  }

  lemma CommitIsOutput(h: Hasher, l: IndexedLeaf)
    ensures IsOutput(h, Commit(h, l))
  {
    assert Commit(h, l) == h(l.value, l.nextValue);
  }

  /** A record of a value that is no hash does not hash to a pair of commitments. */
  lemma NoBranch(h: Hasher, record: IndexedLeaf, left: IndexedLeaf, right: IndexedLeaf)
    requires Injective(h) && !IsOutput(h, record.value)
    ensures Commit(h, record) != h(Commit(h, left), Commit(h, right))
  {
    CommitIsOutput(h, left);
    if h(record.value, record.nextValue) == h(Commit(h, left), Commit(h, right)) {
      NoCollision(h, record.value, record.nextValue, Commit(h, left), Commit(h, right));
      assert false;
    }
  }

  lemma MadeFromIsWrong(h: Hasher, past: Leaves, ls: Leaves, c: nat, cell: Node)
    requires Injective(h) && (forall i :: 0 <= i < |ls| ==> !IsOutput(h, ls[i].value))
    requires MadeFrom(h, past, ls, c, cell)
    ensures cell != PairCell(h, ls, c)
  {
    var i :| i in Changed(past, ls) && i / 2 == c;
    if cell == PairCell(h, ls, c) {
      var l, r := 2 * c, 2 * c + 1;
      assert l < |past| && KeptOrCloser(past[l], ls[l]);
      if r < |past| {
        NoCollision(h, Commit(h, past[l]), Commit(h, past[r]), Commit(h, ls[l]), Commit(h, ls[r]));
        SameRecord(h, past[l], ls[l]);
        SameRecord(h, past[r], ls[r]);
      } else if r < |ls| {
        NoBranch(h, past[l], ls[l], ls[r]);
      } else {
        SameRecord(h, past[l], ls[l]);
      }
    }
  }

  /** Under an injective hash over values that are no hashes an old cell is a wrong one. */
  lemma {:induction false} OldIsWrong(h: Hasher, ls: Leaves, c: nat, cell: Node)
    requires Injective(h) && (forall i :: 0 <= i < |ls| ==> !IsOutput(h, ls[i].value))
    requires IsOld(h, ls, c, cell)
    ensures cell != PairCell(h, ls, c)
  {
    if IsForeign(h, ls, c, cell) {
      PairIsOutput(h, ls, c);
    } else {
      var past: Leaves :| MadeFrom(h, past, ls, c, cell);
      MadeFromIsWrong(h, past, ls, c, cell);
    }
  }

  /** Level 1 of a grid from scratch. */
  lemma LevelOne(h: Hasher, ls: Leaves, c: nat)
    requires c < Width(|ls|, 1)
    ensures PairCell(h, ls, c) == Some(Row(h, Commitments(h, ls), 1)[c])
  {
    RowCell(h, Commitments(h, ls), 1, c);
  }

  /** Where level 1 is not stale it holds the pair's own cell. */
  lemma FreshPair(h: Hasher, s: TreeState, dirt: Dirt, i: nat)
    requires TrackedBy(h, s, dirt) && Linked(s.leaves) && i / 2 !in Lift(dirt.stale)
    ensures StoredPair(s, i) == PairCell(h, s.leaves, i / 2)
  {
    var cs, c := Commitments(h, s.leaves), i / 2;
    if s.leaves == [] {
      assert RowAt(s.nodes, 1) == [];
    } else {
      assert RightExcept(RowAt(s.nodes, 1), Row(h, cs, 1), LiftTo(dirt.stale, 1));
      assert LiftTo(dirt.stale, 1) == Lift(dirt.stale);
      if c < Width(|cs|, 1) {
        LevelOne(h, s.leaves, c);
      }
    }
  }

  lemma FailureStaysOld(h: Hasher, s: TreeState, op: Op, t: TreeState, e: Option<Error>, dirt: Dirt)
    requires TrackedBy(h, s, dirt) && Linked(s.leaves) && StepsTo(h, s, op, t, e) && e.Some?
    requires AllOld(h, s, dirt.stale)
    ensures AllOld(h, t, dirt.stale + Changed(s.leaves, t.leaves))
  {
    ApplyTightens(s.leaves, op);
    assert RowAt(t.nodes, 1) == RowAt(s.nodes, 1);
    forall i | i in dirt.stale + Changed(s.leaves, t.leaves)
      ensures IsOld(h, t.leaves, i / 2, StoredPair(t, i))
    {
      if i / 2 in Lift(dirt.stale) {
        var j :| j in dirt.stale && i / 2 == j / 2;
        OldStaysOld(h, s.leaves, t.leaves, i / 2, StoredPair(s, j));
      } else {
        FreshPair(h, s, dirt, i);
        assert i in Changed(s.leaves, t.leaves);
        assert MadeFrom(h, s.leaves, t.leaves, i / 2, StoredPair(t, i));
      }
    }
  }

  lemma SuccessKeepsPair(h: Hasher, s: TreeState, op: Op, t: TreeState, i: nat)
    requires StepsTo(h, s, op, t, None) && i / 2 !in Lift(Changed(s.leaves, t.leaves))
    ensures StoredPair(t, i) == StoredPair(s, i)
  {
    var m, d := Changed(s.leaves, t.leaves), Depth(|t.leaves|);
    var nodes := s.nodes[0 := LevelZero(h, s.nodes[0], s.leaves, t.leaves, false)];
    assert LevelRebuilt(h, nodes, t.nodes, m, d + 1, 1);
    assert LiftTo(m, 1) == Lift(m);
    assert RowAt(nodes, 1) == RowAt(s.nodes, 1);
  }

  /** A success that changes the right leaf of a pair whose left one is pending passes a nil to the hash. */
  predicate HashesNil(dirt: Dirt, ls: Leaves, op: Op) {
    var o := ApplyLeaves(ls, op);
    o.error.None? && exists i :: i in dirt.pending && PairsNil(i, Changed(ls, o.leaves))
  }

  predicate PairsNil(i: nat, m: set<nat>) {
    i % 2 == 0 && i !in m && i + 1 in m
  }

  /** Above a pending right leaf whose pair changed, the left one is promoted as if it were alone. */
  lemma LeftPromoted(h: Hasher, s: TreeState, op: Op, t: TreeState, i: nat)
    requires StepsTo(h, s, op, t, None) && i < |t.leaves| == |RowAt(t.nodes, 0)| && i % 2 == 1
    requires i / 2 in Lift(Changed(s.leaves, t.leaves)) && RowAt(t.nodes, 0)[i].None?
    ensures StoredPair(t, i) == RowAt(t.nodes, 0)[i - 1]
  {
    var m, d := Changed(s.leaves, t.leaves), Depth(|t.leaves|);
    var nodes := s.nodes[0 := LevelZero(h, s.nodes[0], s.leaves, t.leaves, false)];
    assert LevelRebuilt(h, nodes, t.nodes, m, d + 1, 1);
    assert LiftTo(m, 1) == Lift(m);
  }

  /** A cell made before leaf i came is old. */
  lemma AloneIsOld(h: Hasher, ls: Leaves, i: nat)
    requires i < |ls| && i % 2 == 1
    ensures IsOld(h, ls, i / 2, Some(Commit(h, ls[i - 1])))
  {
    assert i in Changed(ls[..i], ls);
    assert MadeFrom(h, ls[..i], ls, i / 2, Some(Commit(h, ls[i - 1])));
  }

  /** Level 0 at a pending leaf, and at a leaf that is not. */
  lemma PendingCells(h: Hasher, t: TreeState, dirt: Dirt, i: nat, j: nat)
    requires TrackedBy(h, t, dirt) && i in dirt.pending && j < i && j !in dirt.pending
    ensures i < |t.leaves| == |RowAt(t.nodes, 0)|
    ensures RowAt(t.nodes, 0)[i].None? && RowAt(t.nodes, 0)[j] == Some(Commit(h, t.leaves[j]))
  {
  }

  lemma OddPair(i: nat, m: set<nat>)
    requires i !in m && !PairsNil(i, m) && i / 2 in Lift(m)
    ensures i % 2 == 1 && i - 1 in m
  {
    var j :| j in m && j / 2 == i / 2;
    assert j == i - 1 || j == i || j == i + 1;
  }

  /** What the library answered on level 1 when asked about a nil is the hash of no two numbers. */
  ghost predicate FreshAnswers(h: Hasher, dirt: Dirt, s: TreeState, t: TreeState) {
    forall i :: i in dirt.pending && PairsNil(i, Changed(s.leaves, t.leaves)) ==>
      IsForeign(h, t.leaves, i / 2, StoredPair(t, i))
  }

  lemma PromotedPending(h: Hasher, s: TreeState, op: Op, t: TreeState, next: Dirt, i: nat, m: set<nat>)
    requires StepsTo(h, s, op, t, None) && m == Changed(s.leaves, t.leaves)
    requires TrackedBy(h, t, next) && i in next.pending && i - 1 >= 0 && i - 1 !in next.pending
    requires i % 2 == 1 && i / 2 in Lift(m)
    ensures IsOld(h, t.leaves, i / 2, StoredPair(t, i))
  {
    PendingCells(h, t, next, i, i - 1);
    LeftPromoted(h, s, op, t, i);
    AloneIsOld(h, t.leaves, i);
  }

  lemma PendingIsOld(h: Hasher, s: TreeState, op: Op, t: TreeState, dirt: Dirt, i: nat)
    requires TrackedBy(h, s, dirt) && StepsTo(h, s, op, t, None) && AllOld(h, s, dirt.stale)
    requires i in dirt.pending && i !in Changed(s.leaves, t.leaves) && FreshAnswers(h, dirt, s, t)
    ensures IsOld(h, t.leaves, i / 2, StoredPair(t, i))
  {
    var m := Changed(s.leaves, t.leaves);
    ApplyTightens(s.leaves, op);
    if i / 2 !in Lift(m) {
      SuccessKeepsPair(h, s, op, t, i);
      OldStaysOld(h, s.leaves, t.leaves, i / 2, StoredPair(s, i));
    } else if !PairsNil(i, m) {
      OddPair(i, m);
      StepKeepsTrack(h, s, op, t, None, dirt);
      PromotedPending(h, s, op, t, NextDirt(dirt, s.leaves, op), i, m);
    }
  }

  lemma SuccessStaysOld(h: Hasher, s: TreeState, op: Op, t: TreeState, dirt: Dirt)
    requires TrackedBy(h, s, dirt) && StepsTo(h, s, op, t, None) && AllOld(h, s, dirt.stale)
    requires FreshAnswers(h, dirt, s, t)
    ensures AllOld(h, t, NextDirt(dirt, s.leaves, op).stale)
  {
    var m := Changed(s.leaves, t.leaves);
    ApplyTightens(s.leaves, op);
    forall i | i in NextDirt(dirt, s.leaves, op).stale
      ensures IsOld(h, t.leaves, i / 2, StoredPair(t, i))
    {
      if i in dirt.pending && i !in m {
        PendingIsOld(h, s, op, t, dirt, i);
      } else {
        assert i in Untouched(dirt.stale, m);
        SuccessKeepsPair(h, s, op, t, i);
        OldStaysOld(h, s.leaves, t.leaves, i / 2, StoredPair(s, i));
      }
    }
  }

  /** A run in which the answers about a nil, if any, are fresh. */
  ghost predicate RunsApart(h: Hasher, dirt: Dirt, s: TreeState, ops: seq<Op>, t: TreeState)
    decreases |ops|, s
  {
    if ops == [] then t == s
    else
      exists u: TreeState, e ::
        && StepsTo(h, s, ops[0], u, e) && (e.None? ==> FreshAnswers(h, dirt, s, u))
        && RunsApart(h, NextDirt(dirt, s.leaves, ops[0]), u, ops[1..], t)
  }

  lemma {:induction false} ApartIsRun(h: Hasher, dirt: Dirt, s: TreeState, ops: seq<Op>, t: TreeState)
    requires RunsApart(h, dirt, s, ops, t)
    ensures RunsTo(h, s, ops, t)
    decreases |ops|
  {
    if ops != [] {
      var next := NextDirt(dirt, s.leaves, ops[0]);
      var u: TreeState, e :| StepsTo(h, s, ops[0], u, e) && (e.None? ==> FreshAnswers(h, dirt, s, u)) &&
        RunsApart(h, next, u, ops[1..], t);
      ApartIsRun(h, next, u, ops[1..], t);
    }
  }

  /** No operation of the run passes a nil to the hash on level 1. */
  predicate NeverHashesNil(dirt: Dirt, ls: Leaves, ops: seq<Op>)
    decreases |ops|, ls
  {
    ops != [] ==>
      && !HashesNil(dirt, ls, ops[0])
      && NeverHashesNil(NextDirt(dirt, ls, ops[0]), ApplyLeaves(ls, ops[0]).leaves, ops[1..])
  }

  /** Runs that never ask about a nil are such runs. */
  lemma {:induction false} NilFreeRunsApart(h: Hasher, dirt: Dirt, s: TreeState, ops: seq<Op>, t: TreeState)
    requires RunsTo(h, s, ops, t) && NeverHashesNil(dirt, s.leaves, ops)
    ensures RunsApart(h, dirt, s, ops, t)
    decreases |ops|
  {
    if ops != [] {
      var u: TreeState, e :| StepsTo(h, s, ops[0], u, e) && RunsTo(h, u, ops[1..], t);
      NilFreeRunsApart(h, NextDirt(dirt, s.leaves, ops[0]), u, ops[1..], t);
      assert e.None? ==> FreshAnswers(h, dirt, s, u);
    }
  }

  lemma StepStaysOld(h: Hasher, s: TreeState, op: Op, t: TreeState, e: Option<Error>, dirt: Dirt)
    requires TrackedBy(h, s, dirt) && Linked(s.leaves) && StepsTo(h, s, op, t, e)
    requires (e.None? ==> FreshAnswers(h, dirt, s, t)) && AllOld(h, s, dirt.stale)
    ensures AllOld(h, t, NextDirt(dirt, s.leaves, op).stale)
  {
    if e.Some? {
      FailureStaysOld(h, s, op, t, e, dirt);
    } else {
      SuccessStaysOld(h, s, op, t, dirt);
    }
  }

  lemma {:induction false} RunStaysOld(h: Hasher, s: TreeState, ops: seq<Op>, t: TreeState, dirt: Dirt)
    requires TrackedBy(h, s, dirt) && Linked(s.leaves) && RunsApart(h, dirt, s, ops, t)
    requires AllOld(h, s, dirt.stale)
    ensures AllOld(h, t, DirtAfter(dirt, s.leaves, ops).stale)
    decreases |ops|
  {
    if ops != [] {
      var next := NextDirt(dirt, s.leaves, ops[0]);
      var u: TreeState, e :| StepsTo(h, s, ops[0], u, e) && (e.None? ==> FreshAnswers(h, dirt, s, u)) &&
        RunsApart(h, next, u, ops[1..], t);
      StepKeepsTrack(h, s, ops[0], u, e, dirt);
      StepStaysOld(h, s, ops[0], u, e, dirt);
      ApplyLeavesCorrect(s.leaves, ops[0]);
      RunStaysOld(h, u, ops[1..], t, next);
    }
  }

  /**
   Exactly which runs end coherent, failures included: those in which every leaf changed
   by a failing operation has later, in a success, shared its pair with a changed leaf,
   and no hash is left pending.
   */
  lemma {:induction false} RunCoherentIff(h: Hasher, s: TreeState, ops: seq<Op>, t: TreeState)
    requires Coherent(h, s) && RunsApart(h, CLEAN, s, ops, t)
    requires Injective(h) && forall i :: 0 <= i < |t.leaves| ==> !IsOutput(h, t.leaves[i].value)
    ensures Coherent(h, t) <==> DirtAfter(CLEAN, s.leaves, ops) == CLEAN
  {
    var d := DirtAfter(CLEAN, s.leaves, ops).stale;
    ApartIsRun(h, CLEAN, s, ops, t);
    CleanIffCoherent(h, s);
    CleanRunIsCoherent(h, s, ops, t);
    RunStaysOld(h, s, ops, t, CLEAN);
    if d != {} && Coherent(h, t) {
      var i :| i in d;
      OldIsWrong(h, t.leaves, i / 2, StoredPair(t, i));
      CleanIffCoherent(h, t);
      FreshPair(h, t, CLEAN, i);
    }
  }

  // ----- there are such runs -----

  function PaddedTo(row: seq<Node>, n: nat): (r: seq<Node>)
    ensures |r| == if |row| < n then n else |row|
    ensures forall i: nat :: i < |r| ==> r[i] == CellAt(row, i)
  {
    if |row| < n then row + seq(n - |row|, _ => None) else row
  }

  /** One cell rebuilt; a nil on the left can be answered in any way. */
  lemma CellRebuiltExists(h: Hasher, below: seq<Node>, row: seq<Node>, i: nat) returns (row': seq<Node>)
    ensures RowRebuilt(h, below, row, row', {i})
  {
    var left, right := CellAt(below, 2 * i), CellAt(below, 2 * i + 1);
    var cell := if right.None? then left else if left.Some? then Some(h(left.value, right.value)) else right;
    row' := PaddedTo(row, i + 1)[i := cell];
  }

  lemma {:induction false} RowRebuiltExists(h: Hasher, below: seq<Node>, row: seq<Node>, ms: set<nat>)
    returns (row': seq<Node>)
    ensures RowRebuilt(h, below, row, row', ms)
    decreases |ms|
  {
    if ms == {} {
      RowRebuiltStarts(h, below, row);
      row' := row;
    } else {
      var i :| i in ms;
      var mid := RowRebuiltExists(h, below, row, ms - {i});
      row' := CellRebuiltExists(h, below, mid, i);
      RowRebuiltGrows(h, below, row, mid, row', ms - {i}, i);
      assert ms - {i} + {i} == ms;
    }
  }

  lemma {:induction false} LevelsRebuiltExist(h: Hasher, nodes: seq<seq<Node>>, ms: set<nat>, level: nat)
    returns (nodes': seq<seq<Node>>)
    requires 0 < level <= |nodes|
    ensures |nodes'| == |nodes| && LevelsRebuilt(h, nodes, nodes', ms, level)
    decreases level
  {
    if level == 1 {
      LevelsRebuiltStart(h, nodes, nodes, ms);
      nodes' := nodes;
    } else {
      var mid := LevelsRebuiltExist(h, nodes, ms, level - 1);
      var row := RowRebuiltExists(h, mid[level - 2], mid[level - 1], LiftTo(ms, level - 1));
      nodes' := mid[level - 1 := row];
      LevelsRebuiltAdvance(h, nodes, mid, nodes', ms, level - 1);
    }
  }

  lemma RowsMatter(
    h: Hasher, a: seq<seq<Node>>, b: seq<seq<Node>>, nodes': seq<seq<Node>>, ms: set<nat>, level: nat)
    requires (forall k: nat :: RowAt(a, k) == RowAt(b, k)) && LevelsRebuilt(h, a, nodes', ms, level)
    ensures LevelsRebuilt(h, b, nodes', ms, level)
  {
    forall k: nat | k > 0
      ensures LevelRebuilt(h, b, nodes', ms, level, k)
    {
      assert LevelRebuilt(h, a, nodes', ms, level, k);
    }
  }

  lemma RebuiltExists(h: Hasher, nodes: seq<seq<Node>>, ms: set<nat>, depth: nat) returns (nodes': seq<seq<Node>>)
    requires nodes != []
    ensures Rebuilt(h, nodes, nodes', ms, depth) && nodes' != [] && nodes'[0] == nodes[0]
  {
    var missing := if |nodes| > depth then 0 else depth + 1 - |nodes|;
    var padded := nodes + seq(missing, _ => []);
    nodes' := LevelsRebuiltExist(h, padded, ms, depth + 1);
    RowsMatter(h, padded, nodes, nodes', ms, depth + 1);
    assert RowAt(nodes', 0) == RowAt(padded, 0);
  }

  /** A level-0 cell for each leaf. */
  predicate Shaped(s: TreeState) {
    s.nodes != [] && |s.nodes[0]| == |s.leaves|
  }

  /** From every such tree every operation leads to such a tree. */
  lemma {:induction false} StepExists(h: Hasher, s: TreeState, op: Op) returns (t: TreeState, e: Option<Error>)
    requires Shaped(s)
    ensures StepsTo(h, s, op, t, e) && Shaped(t)
  {
    var o := ApplyLeaves(s.leaves, op);
    var nodes := s.nodes[0 := LevelZero(h, s.nodes[0], s.leaves, o.leaves, LeavesPending(s.leaves, op))];
    e := o.error;
    if e.Some? {
      t := TreeState(o.leaves, nodes);
    } else {
      var nodes' := RebuiltExists(h, nodes, Changed(s.leaves, o.leaves), Depth(|o.leaves|));
      t := TreeState(o.leaves, nodes');
    }
  }

  /** From every such tree every run leads somewhere. */
  lemma {:induction false} RunExists(h: Hasher, s: TreeState, ops: seq<Op>) returns (t: TreeState)
    requires Shaped(s)
    ensures RunsTo(h, s, ops, t) && Shaped(t)
    decreases |ops|
  {
    if ops == [] {
      t := s;
    } else {
      var u, e := StepExists(h, s, ops[0]);
      t := RunExists(h, u, ops[1..]);
    }
  }

  lemma FiveTwiceFails()
    ensures ApplyLeaves([], InsertMany([5, 5])) == Outcome(FirstLeaves(5), 1, Some(Duplicate))
    ensures NextDirt(CLEAN, [], InsertMany([5, 5])) == Dirt({}, {0, 1})
  {
    var ls := FirstLeaves(5);
    assert [5, 5][1..] == [5];
    assert FindLow(ls, 5, 0) == Some(0);
    assert InsertBatch(ls, [5]) == Outcome(ls, 0, Some(Duplicate));
    assert Changed([], ls) == {0, 1};
    var none: set<nat> := {};
    assert none - {0, 1} == none && none + {0, 1} == {0, 1};
  }

  lemma SevenRepairs()
    ensures ApplyLeaves(FirstLeaves(5), Op.Insert(7)).error.None?
    ensures NextDirt(Dirt({}, {0, 1}), FirstLeaves(5), Op.Insert(7)) == CLEAN
  {
    var ls := FirstLeaves(5);
    assert FindLow(ls, 7, 0) == FindLow(ls, 7, 1) == Some(1);
    SpliceTightens(ls, 1, 7);
    var m := Changed(ls, Splice(ls, 1, 7));
    BatchOfOne(ls, 7);
    assert m == {2, 1} && 1 / 2 in Lift(m);
    assert Untouched({0, 1}, m) == {};
    var none: set<nat> := {};
    assert none - m == none && none + none == none;
  }

  /** A failed batch can be repaired: after [5, 5] has failed on an empty tree, inserting 7 makes it coherent. */
  lemma {:induction false} SevenRepairsFiveTwice(h: Hasher) returns (t: TreeState)
    ensures RunsTo(h, EMPTY_TREE, [InsertMany([5, 5]), Op.Insert(7)], t)
    ensures Apply(h, EMPTY_TREE, InsertMany([5, 5])).1 == Some(Duplicate) && Coherent(h, t)
  {
    var ops := [InsertMany([5, 5]), Op.Insert(7)];
    EmptyIsCoherent(h);
    FiveTwiceFails();
    SevenRepairs();
    ApplyLeavesAgrees(h, EMPTY_TREE, ops[0]);
    t := RunExists(h, EMPTY_TREE, ops);
    assert ops[1..] == [Op.Insert(7)] && ops[1..][1..] == [];
    CleanRunIsCoherent(h, EMPTY_TREE, ops, t);
  }
}
