/**
 The tree as a state machine on values: what each operation of insert.go does to
 the leaves and the grid, and what holds over whole runs.
 */
module TreeSpec {
  import opened Wrappers
  import opened Types
  import opened Grid
  import opened LinkedLeaves

  datatype TreeState = TreeState(leaves: Leaves, nodes: seq<seq<Node>>)

  const EMPTY_TREE := TreeState([], [[]])

  function Commit(h: Hasher, leaf: IndexedLeaf): nat {
    h(leaf.value, leaf.nextValue)
  }

  function Commitments(h: Hasher, ls: Leaves): (r: seq<nat>)
    ensures |r| == |ls|
    ensures forall i :: 0 <= i < |ls| ==> r[i] == Commit(h, ls[i])
  {
    seq(|ls|, i requires 0 <= i < |ls| => Commit(h, ls[i]))
  }

  /** The state invariant: a linked list, and the grid that its commitments build from scratch. */
  ghost predicate Coherent(h: Hasher, s: TreeState) {
    && Linked(s.leaves)
    && s.nodes == GridOf(h, Commitments(h, s.leaves))
  }

  /** A coherent state is determined by its values in insertion order. */
  lemma CoherentIsDetermined(h: Hasher, s: TreeState, t: TreeState)
    requires Coherent(h, s) && Coherent(h, t)
    requires UserValues(s.leaves) == UserValues(t.leaves)
    ensures s == t
  {
    LinkedIsDetermined(s.leaves, t.leaves);
  }

  /**
   insertBatchLocked: on failure the leaves and level 0 are those of the values
   before the failing one, and the rows above are left as they were.
   */
  function NaiveStep(h: Hasher, s: TreeState, vs: seq<nat>): (TreeState, Option<Error>)
    requires s.nodes != []
  {
    var o := InsertBatch(s.leaves, vs);
    var cs := Commitments(h, o.leaves);
    if o.error.None? then (TreeState(o.leaves, GridOf(h, cs)), None)
    else (TreeState(o.leaves, s.nodes[0 := Present(cs)]), o.error)
  }

  /** Level 0 while the sorted path is at work: the hash of a new tail is not filled in yet. */
  function TailPending(row: seq<nat>): seq<Node>
    requires row != []
  {
    Present(row[..|row| - 1]) + [None]
  }

  /** The tail path of InsertManyWithProgress, once its input is known to hold no zero. */
  function SortedStep(h: Hasher, s: TreeState, vs: seq<nat>): (TreeState, Option<Error>)
    requires s.nodes != []
  {
    var o := SortedBatch(s.leaves, vs);
    var cs := Commitments(h, o.leaves);
    if o.error.None? then (TreeState(o.leaves, GridOf(h, cs)), None)
    else if o.done == 0 || cs == [] then (s, o.error)
    else (TreeState(o.leaves, s.nodes[0 := TailPending(cs)]), o.error)
  }

  // ----- reloading -----

  /** ImportState of tree.go: shape is checked, integrity is not. */
  function ImportError(nodes: seq<seq<Node>>, ls: Leaves): Option<Error> {
    if nodes == [] then Some(EmptyNodes) else if |nodes[0]| != |ls| then Some(StateLengthMismatch) else None
  }

  /** The state both snapshot importers end in: without leaves they leave a fresh tree and skip ImportState. */
  function Reload(nodes: seq<seq<Node>>, ls: Leaves): Result<TreeState, Error> {
    if ls == [] then Success(EMPTY_TREE)
    else
      var e := ImportError(nodes, ls);
      if e.Some? then Failure(e.value) else Success(TreeState(ls, nodes))
  }

  /** What a state must look like to come back from its own nodes and leaves. */
  predicate Restorable(s: TreeState) {
    s.nodes != [] && if s.leaves == [] then s == EMPTY_TREE else |s.nodes[0]| == |s.leaves|
  }

  lemma ReloadIffRestorable(s: TreeState)
    requires s.nodes != []
    ensures Reload(s.nodes, s.leaves) == Success(s) <==> Restorable(s)
  {
  }

  /** Every coherent tree, the empty one included, is restorable. */
  lemma CoherentIsRestorable(h: Hasher, s: TreeState)
    requires Coherent(h, s)
    ensures Restorable(s)
  {
    if s.leaves == [] {
      EmptyIsCoherent(h);
    }
  }

  // ----- operations -----

  datatype Op = Insert(value: nat) | InsertMany(values: seq<nat>) | InsertManySorted(values: seq<nat>)

  function OpValues(op: Op): seq<nat> {
    if op.Insert? then [op.value] else op.values
  }

  /** What an operation does to the leaves, whatever state the grid is in. */
  function ApplyLeaves(ls: Leaves, op: Op): Outcome {
    match op
    case Insert(v) => InsertBatch(ls, [v])
    case InsertMany(vs) => if vs == [] then Outcome(ls, 0, Some(NoValues)) else InsertBatch(ls, vs)
    case InsertManySorted(vs) =>
      if vs == [] then Outcome(ls, 0, Some(NoValues))
      else if 0 in vs then Outcome(ls, 0, Some(InsertZero))
      else SortedBatch(ls, vs)
  }

  function Apply(h: Hasher, s: TreeState, op: Op): (r: (TreeState, Option<Error>))
    requires s.nodes != []
    ensures r.0.nodes != []
  {
    match op
    case Insert(v) => NaiveStep(h, s, [v])
    case InsertMany(vs) => if vs == [] then (s, Some(NoValues)) else NaiveStep(h, s, vs)
    case InsertManySorted(vs) =>
      if vs == [] then (s, Some(NoValues))
      else if 0 in vs then (s, Some(InsertZero))
      else SortedStep(h, s, vs)
  }

  // ----- single steps -----

  /** Every success is the naive batch of the operation's values over a grid built from scratch. */
  lemma SuccessIsNaive(h: Hasher, s: TreeState, op: Op)
    requires Coherent(h, s)
    requires Apply(h, s, op).1.None?
    ensures var o := InsertBatch(s.leaves, OpValues(op));
      o.error.None? && Apply(h, s, op).0 == TreeState(o.leaves, GridOf(h, Commitments(h, o.leaves)))
  {
    if op.InsertManySorted? {
      SortedRefinesNaive(s.leaves, op.values);
    }
  }

  /** A success keeps the state coherent and adds exactly the operation's values, in order. */
  lemma {:induction false} ApplyCorrect(h: Hasher, s: TreeState, op: Op)
    requires Coherent(h, s)
    requires Apply(h, s, op).1.None?
    ensures var t := Apply(h, s, op).0;
      Coherent(h, t) && UserValues(t.leaves) == UserValues(s.leaves) + OpValues(op)
  {
    SuccessIsNaive(h, s, op);
    InsertBatchCorrect(s.leaves, OpValues(op));
    assert OpValues(op)[..|OpValues(op)|] == OpValues(op);
  }

  /**
   Can the operation go through: some values, all positive, distinct and absent, and
   for the sorted path climbing from a tail stored last.
   */
  ghost predicate CanApply(ls: Leaves, op: Op) {
    && OpValues(op) != []
    && CanFollow(UserValues(ls), OpValues(op))
    && (op.InsertManySorted? ==> Climbs(ls, OpValues(op)))
  }

  /** Exactly which operations succeed on a coherent tree. */
  lemma {:induction false} ApplySucceeds(h: Hasher, s: TreeState, op: Op)
    requires Coherent(h, s)
    ensures Apply(h, s, op).1.None? <==> CanApply(s.leaves, op)
  {
    InsertBatchCorrect(s.leaves, OpValues(op));
    if op.InsertManySorted? {
      SortedSucceeds(h, s, op.values);
    }
  }

  lemma PositiveIffNoZero(vs: seq<nat>)
    ensures 0 !in vs <==> forall i :: 0 <= i < |vs| ==> vs[i] > 0
  {
    if 0 !in vs {
      forall i | 0 <= i < |vs| ensures vs[i] > 0 {
        assert vs[i] in vs;
      }
    }
  }

  lemma ZeroFails(ls: Leaves, vs: seq<nat>)
    requires Linked(ls) && 0 in vs
    ensures InsertBatch(ls, vs).error.Some?
  {
    InsertBatchCorrect(ls, vs);
    PositiveIffNoZero(vs);
  }

  lemma SortedSucceeds(h: Hasher, s: TreeState, vs: seq<nat>)
    requires Coherent(h, s)
    ensures Apply(h, s, InsertManySorted(vs)).1.None? <==>
      vs != [] && InsertBatch(s.leaves, vs).error.None? && Climbs(s.leaves, vs)
  {
    if 0 in vs {
      ZeroFails(s.leaves, vs);
    } else {
      PositiveIffNoZero(vs);
      SortedRefinesNaive(s.leaves, vs);
    }
  }

  /** Where the sorted path succeeds, the naive path ends in the same state. */
  lemma {:induction false} SortedAgreesWithNaive(h: Hasher, s: TreeState, vs: seq<nat>)
    requires Coherent(h, s)
    ensures Apply(h, s, InsertManySorted(vs)).1.None? ==>
      Apply(h, s, InsertManySorted(vs)) == Apply(h, s, InsertMany(vs))
  {
    if vs != [] && 0 !in vs {
      SortedRefinesNaive(s.leaves, vs);
    }
  }

  lemma BatchOfOne(ls: Leaves, v: nat)
    ensures var r := InsertLeaf(ls, v);
      InsertBatch(ls, [v]) == if r.Failure? then Outcome(ls, 0, Some(r.error)) else Outcome(r.value, 1, None)
  {
  }

  lemma RewriteLevelZero(h: Hasher, s: TreeState)
    requires Coherent(h, s)
    ensures s.nodes[0 := Present(Commitments(h, s.leaves))] == s.nodes
  {
  }

  /** A failing single insert changes nothing. */
  lemma FailedInsertIsNoOp(h: Hasher, s: TreeState, v: nat)
    requires Coherent(h, s) && Apply(h, s, Insert(v)).1.Some?
    ensures Apply(h, s, Insert(v)).0 == s
    ensures Apply(h, s, Insert(v)).1 == Some(if v == 0 then InsertZero else Duplicate)
  {
    InsertLeafCorrect(s.leaves, v);
    BatchOfOne(s.leaves, v);
    RewriteLevelZero(h, s);
  }

  /** A failing batch has inserted exactly the values before the first bad one, above a stale grid. */
  lemma {:induction false} FailedBatchPrefix(h: Hasher, s: TreeState, vs: seq<nat>)
    requires Coherent(h, s) && NaiveStep(h, s, vs).1.Some?
    ensures var (t, e) := NaiveStep(h, s, vs);
      var k := InsertBatch(s.leaves, vs).done;
      && k < |vs|
      && NaiveStep(h, s, vs[..k]).1.None?
      && t.leaves == NaiveStep(h, s, vs[..k]).0.leaves
      && t.nodes[0] == NaiveStep(h, s, vs[..k]).0.nodes[0]
      && t.nodes[1..] == s.nodes[1..]
      && Linked(t.leaves)
      && UserValues(t.leaves) == UserValues(s.leaves) + vs[..k]
      && e == Some(if vs[k] == 0 then InsertZero else Duplicate)
      && (vs[k] == 0 || vs[k] in UserValues(t.leaves))
  {
    var o := InsertBatch(s.leaves, vs);
    InsertBatchCorrect(s.leaves, vs);
    BatchPrefix(s.leaves, vs);
  }

  lemma {:induction false} BatchPrefix(ls: Leaves, vs: seq<nat>)
    ensures var o := InsertBatch(ls, vs);
      o.done <= |vs| && InsertBatch(ls, vs[..o.done]) == Outcome(o.leaves, o.done, None)
    decreases |vs|
  {
    if vs != [] {
      var r := InsertLeaf(ls, vs[0]);
      if r.Success? {
        BatchPrefix(r.value, vs[1..]);
        var o := InsertBatch(r.value, vs[1..]);
        assert vs[..o.done + 1][1..] == vs[1..][..o.done];
      }
    }
  }

  // ----- whole runs, failures included -----

  /** Every operation, failing or not, keeps the list linked and adds exactly the values it took. */
  lemma {:induction false} ApplyLeavesCorrect(ls: Leaves, op: Op)
    requires Linked(ls)
    ensures var o := ApplyLeaves(ls, op);
      && Linked(o.leaves) && o.done <= |OpValues(op)|
      && UserValues(o.leaves) == UserValues(ls) + OpValues(op)[..o.done]
      && (o.error.None? ==> o.done == |OpValues(op)|)
  {
    var vs := OpValues(op);
    InsertBatchCorrect(ls, vs);
    if op.InsertManySorted? && 0 !in vs {
      PositiveIffNoZero(vs);
      SortedFailure(ls, vs);
      SortedPrefix(ls, vs);
    }
    assert UserValues(ls) + vs[..0] == UserValues(ls);
  }

  lemma SortedPrefix(ls: Leaves, vs: seq<nat>)
    requires Linked(ls)
    requires IsSortedOutcome(ls, vs, SortedBatch(ls, vs))
    ensures var o := SortedBatch(ls, vs);
      Linked(o.leaves) && UserValues(o.leaves) == UserValues(ls) + vs[..o.done]
  {
    var k := SortedBatch(ls, vs).done;
    InsertBatchCorrect(ls, vs[..k]);
    assert vs[..k][..k] == vs[..k];
  }

  /** The leaves and the error of Apply are those of ApplyLeaves, whatever the grid. */
  lemma ApplyLeavesAgrees(h: Hasher, s: TreeState, op: Op)
    requires Linked(s.leaves) && s.nodes != []
    ensures var o := ApplyLeaves(s.leaves, op);
      Apply(h, s, op).0.leaves == o.leaves && Apply(h, s, op).1 == o.error
  {
    if op.InsertManySorted? && op.values != [] && 0 !in op.values {
      PositiveIffNoZero(op.values);
      SortedFailure(s.leaves, op.values);
      SortedPrefix(s.leaves, op.values);
      assert op.values[..0] == [];
    }
  }

  /** The leaves after a run that goes on past failing operations. */
  function RunLeaves(ls: Leaves, ops: seq<Op>): Leaves
    decreases |ops|
  {
    if ops == [] then ls else RunLeaves(ApplyLeaves(ls, ops[0]).leaves, ops[1..])
  }

  /** The values such a run took. */
  ghost function TakenValues(ls: Leaves, ops: seq<Op>): seq<nat>
    requires Linked(ls)
    decreases |ops|
  {
    if ops == [] then []
    else
      ApplyLeavesCorrect(ls, ops[0]);
      var o := ApplyLeaves(ls, ops[0]);
      OpValues(ops[0])[..o.done] + TakenValues(o.leaves, ops[1..])
  }

  /** ls' is linked and holds what ls holds, followed by vs. */
  ghost predicate Adds(ls: Leaves, vs: seq<nat>, ls': Leaves) {
    Linked(ls') && UserValues(ls') == UserValues(ls) + vs
  }

  lemma AddsChain(a: Leaves, vs: seq<nat>, b: Leaves, ws: seq<nat>, c: Leaves)
    requires Adds(a, vs, b) && Adds(b, ws, c)
    ensures Adds(a, vs + ws, c)
  {
    assert UserValues(a) + vs + ws == UserValues(a) + (vs + ws);
  }

  lemma AddsNothing(ls: Leaves)
    requires Linked(ls)
    ensures Adds(ls, [], ls)
  {
    assert UserValues(ls) + [] == UserValues(ls);
  }

  /** The linked list survives every run, whatever operations in it fail, and holds exactly what they took. */
  lemma {:induction false} RunLeavesLinked(ls: Leaves, ops: seq<Op>)
    requires Linked(ls)
    ensures Adds(ls, TakenValues(ls, ops), RunLeaves(ls, ops))
    decreases |ops|
  {
    if ops == [] {
      AddsNothing(ls);
    } else {
      ApplyLeavesCorrect(ls, ops[0]);
      var o := ApplyLeaves(ls, ops[0]);
      RunLeavesLinked(o.leaves, ops[1..]);
      var taken, rest := OpValues(ops[0])[..o.done], TakenValues(o.leaves, ops[1..]);
      AddsChain(ls, taken, o.leaves, rest, RunLeaves(o.leaves, ops[1..]));
    }
  }

  // ----- whole runs that succeed -----

  /** The state after a run of operations that all succeed; None if one fails. */
  function Run(h: Hasher, s: TreeState, ops: seq<Op>): (r: Option<TreeState>)
    requires s.nodes != []
    ensures r.Some? ==> r.value.nodes != []
    decreases |ops|
  {
    if ops == [] then Some(s)
    else
      var (t, e) := Apply(h, s, ops[0]);
      if e.Some? then None else Run(h, t, ops[1..])
  }

  function RunValues(ops: seq<Op>): seq<nat> {
    if ops == [] then [] else OpValues(ops[0]) + RunValues(ops[1..])
  }

  /** t is coherent and holds what s holds, followed by vs. */
  ghost predicate Extends(h: Hasher, s: TreeState, vs: seq<nat>, t: TreeState) {
    Coherent(h, t) && Adds(s.leaves, vs, t.leaves)
  }

  lemma RunStep(h: Hasher, s: TreeState, ops: seq<Op>) returns (t: TreeState)
    requires Coherent(h, s) && ops != [] && Run(h, s, ops).Some?
    ensures Extends(h, s, OpValues(ops[0]), t) && t.nodes != []
    ensures Run(h, t, ops[1..]) == Run(h, s, ops)
  {
    ApplyCorrect(h, s, ops[0]);
    t := Apply(h, s, ops[0]).0;
  }

  /** Every successful run, in any mix of operations, ends coherent with exactly its values, in order. */
  lemma {:induction false} RunCorrect(h: Hasher, s: TreeState, ops: seq<Op>)
    requires Coherent(h, s) && Run(h, s, ops).Some?
    ensures Extends(h, s, RunValues(ops), Run(h, s, ops).value)
    decreases |ops|
  {
    if ops == [] {
      AddsNothing(s.leaves);
    } else {
      var t := RunStep(h, s, ops);
      RunCorrect(h, t, ops[1..]);
      AddsChain(s.leaves, OpValues(ops[0]), t.leaves, RunValues(ops[1..]), Run(h, t, ops[1..]).value.leaves);
    }
  }

  lemma EmptyIsCoherent(h: Hasher)
    ensures Coherent(h, EMPTY_TREE) && UserValues(EMPTY_TREE.leaves) == []
  {
    assert GridOf(h, Commitments(h, [])) == [[]];
  }

  /**
   Two runs from one tree over the same values in the same order agree on leaves, grid
   and root, however they are cut into single inserts, batches and sorted batches.
   */
  lemma RunsAgree(h: Hasher, s: TreeState, a: seq<Op>, b: seq<Op>)
    requires Coherent(h, s) && Run(h, s, a).Some? && Run(h, s, b).Some?
    requires RunValues(a) == RunValues(b)
    ensures Run(h, s, a) == Run(h, s, b)
  {
    RunCorrect(h, s, a);
    RunCorrect(h, s, b);
    CoherentIsDetermined(h, Run(h, s, a).value, Run(h, s, b).value);
  }

  lemma RunCons(h: Hasher, s: TreeState, op: Op, ops: seq<Op>)
    requires Coherent(h, s)
    ensures Run(h, s, [op] + ops) ==
      if Apply(h, s, op).1.Some? then None else Run(h, Apply(h, s, op).0, ops)
  {
    assert ([op] + ops)[1..] == ops;
  }

  /** Values can be run in from empty, one by one, exactly when they are positive and distinct. */
  lemma {:induction false} SingleInsertsSucceed(h: Hasher, s: TreeState, vs: seq<nat>)
    requires Coherent(h, s)
    ensures Run(h, s, Singles(vs)).Some? <==> CanFollow(UserValues(s.leaves), vs)
    decreases |vs|
  {
    if vs != [] {
      var op := Insert(vs[0]);
      RunCons(h, s, op, Singles(vs[1..]));
      ApplySucceeds(h, s, op);
      CanFollowStep(UserValues(s.leaves), vs);
      if Apply(h, s, op).1.None? {
        ApplyCorrect(h, s, op);
        SingleInsertsSucceed(h, Apply(h, s, op).0, vs[1..]);
      }
    }
  }

  function Singles(vs: seq<nat>): seq<Op> {
    if vs == [] then [] else [Insert(vs[0])] + Singles(vs[1..])
  }

  lemma {:induction false} SinglesValues(vs: seq<nat>)
    ensures RunValues(Singles(vs)) == vs
  {
    if vs != [] {
      assert Singles(vs)[1..] == Singles(vs[1..]);
      SinglesValues(vs[1..]);
    }
  }

  /** Where the sorted path succeeds, inserting the values one by one succeeds and ends in the same tree. */
  lemma {:induction false} OneByOneAgrees(h: Hasher, s: TreeState, vs: seq<nat>)
    requires Coherent(h, s) && Apply(h, s, InsertManySorted(vs)).1.None?
    ensures Run(h, s, Singles(vs)) == Some(Apply(h, s, InsertManySorted(vs)).0)
  {
    var op := InsertManySorted(vs);
    ApplySucceeds(h, s, op);
    SingleInsertsSucceed(h, s, vs);
    SinglesValues(vs);
    RunCons(h, s, op, []);
    assert [op] + [] == [op] && RunValues([op]) == vs + [];
    RunsAgree(h, s, Singles(vs), [op]);
  }

  /** Cutting a sorted batch in two consecutive ones changes neither success nor result. */
  lemma SortedBatchesCompose(h: Hasher, s: TreeState, a: seq<nat>, b: seq<nat>)
    requires Coherent(h, s) && a != [] && b != []
    ensures Run(h, s, [InsertManySorted(a + b)]) == Run(h, s, [InsertManySorted(a)] + [InsertManySorted(b)])
  {
    var whole, first, second := InsertManySorted(a + b), InsertManySorted(a), InsertManySorted(b);
    RunCons(h, s, whole, []);
    RunCons(h, s, first, [second]);
    assert 0 in a + b <==> 0 in a || 0 in b;
    SortedBatchSplits(s.leaves, a, b);
    if Apply(h, s, first).1.None? {
      ApplyCorrect(h, s, first);
      RunCons(h, Apply(h, s, first).0, second, []);
    }
  }
}
