/**
 The two insertion loops of insert.go, step by step on values: which leaves have
 changed after each, what level 0 holds, and the whole step an operation makes on any
 tree, also one whose grid is stale.
 */
module InsertSteps {
  import opened Wrappers
  import opened Types
  import opened Grid
  import opened LinkedLeaves
  import opened Recompute
  import opened TreeSpec

  // ----- which leaves change -----

  /** The positions of new and of rewritten leaves. */
  function Changed(a: Leaves, b: Leaves): set<nat> {
    set i: nat | i < |b| && (i >= |a| || a[i] != b[i])
  }

  /** A pointer to x instead of y leads less far; 0 is the end. */
  predicate Closer(x: nat, y: nat) {
    x > 0 && (y == 0 || x < y)
  }

  /** b is a with leaves appended and pointers brought closer, so that no leaf ever returns to an old record. */
  ghost predicate Tightened(a: Leaves, b: Leaves) {
    && |a| <= |b|
    && forall i: nat :: i < |a| ==> KeptOrCloser(a[i], b[i])
  }

  predicate KeptOrCloser(old_: IndexedLeaf, new_: IndexedLeaf) {
    new_ == old_ || (new_.value == old_.value && Closer(new_.nextValue, old_.nextValue))
  }

  lemma TightenedChain(a: Leaves, b: Leaves, c: Leaves)
    requires Tightened(a, b) && Tightened(b, c)
    ensures Tightened(a, c) && Changed(a, c) == Changed(a, b) + Changed(b, c)
  {
    forall i: nat | i < |a|
      ensures KeptOrCloser(a[i], c[i]) && (a[i] == c[i] <==> a[i] == b[i] && b[i] == c[i])
    {
      assert KeptOrCloser(a[i], b[i]) && KeptOrCloser(b[i], c[i]);
    }
  }

  lemma SpliceTightens(ls: Leaves, low: nat, v: nat)
    requires low < |ls| && Closer(v, ls[low].nextValue)
    ensures Tightened(ls, Splice(ls, low, v)) && Changed(ls, Splice(ls, low, v)) == {|ls|} + {low}
  {
  }

  lemma {:induction false} InsertLeafTightens(ls: Leaves, v: nat)
    ensures InsertLeaf(ls, v).Success? ==> Tightened(ls, InsertLeaf(ls, v).value)
    ensures InsertLeaf(ls, v).Success? ==> |Changed(ls, InsertLeaf(ls, v).value)| <= 2
  {
    if InsertLeaf(ls, v).Success? {
      if ls == [] {
        assert Changed(ls, FirstLeaves(v)) == {0, 1};
      } else {
        SpliceTightens(ls, FindLow(ls, v, 0).value, v);
      }
    }
  }

  lemma {:induction false} BatchTightens(ls: Leaves, vs: seq<nat>)
    ensures Tightened(ls, InsertBatch(ls, vs).leaves)
    decreases |vs|
  {
    if vs != [] && InsertLeaf(ls, vs[0]).Success? {
      InsertLeafTightens(ls, vs[0]);
      BatchTightens(InsertLeaf(ls, vs[0]).value, vs[1..]);
      TightenedChain(ls, InsertLeaf(ls, vs[0]).value, InsertBatch(ls, vs).leaves);
    }
  }

  lemma {:induction false} SortedTightens(ls: Leaves, vs: seq<nat>)
    ensures Tightened(ls, SortedBatch(ls, vs).leaves)
    decreases |vs|
  {
    if ls != [] && vs != [] && TailError(ls, vs[0]).None? {
      var r := Splice(ls, |ls| - 1, vs[0]);
      SpliceTightens(ls, |ls| - 1, vs[0]);
      SortedTightens(r, vs[1..]);
      TightenedChain(ls, r, SortedBatch(r, vs[1..]).leaves);
    }
  }

  lemma ApplyTightens(ls: Leaves, op: Op)
    ensures Tightened(ls, ApplyLeaves(ls, op).leaves)
  {
    BatchTightens(ls, OpValues(op));
    SortedTightens(ls, OpValues(op));
  }

  // ----- level 0 -----

  /** A cell of level 0 after the leaves went from a to b: new where the leaf changed, the last one perhaps pending. */
  function CellZero(h: Hasher, row: seq<Node>, a: Leaves, b: Leaves, pending: bool, i: nat): Node
    requires i < |b|
  {
    if pending && i == |b| - 1 then None
    else if i < |a| && a[i] == b[i] then CellAt(row, i)
    else Some(Commit(h, b[i]))
  }

  function LevelZero(h: Hasher, row: seq<Node>, a: Leaves, b: Leaves, pending: bool): (r: seq<Node>)
    ensures |r| == |b|
    ensures forall i: nat :: i < |b| ==> r[i] == CellZero(h, row, a, b, pending, i)
  {
    seq(|b|, i requires 0 <= i < |b| => CellZero(h, row, a, b, pending, i))
  }

  /** t is s with other leaves and their commitments written where they changed. */
  ghost predicate LeafStep(h: Hasher, s: TreeState, t: TreeState, pending: bool) {
    && s.nodes != [] && |s.nodes[0]| == |s.leaves| && Tightened(s.leaves, t.leaves)
    && t.nodes == s.nodes[0 := LevelZero(h, s.nodes[0], s.leaves, t.leaves, pending)]
  }

  lemma NoLeafStep(h: Hasher, s: TreeState)
    requires s.nodes != [] && |s.nodes[0]| == |s.leaves|
    ensures LeafStep(h, s, s, false) && Changed(s.leaves, s.leaves) == {}
  {
    assert LevelZero(h, s.nodes[0], s.leaves, s.leaves, false) == s.nodes[0];
  }

  lemma LevelZeroTwice(h: Hasher, row: seq<Node>, a: Leaves, b: Leaves, c: Leaves)
    requires |row| == |a| && Tightened(a, b) && Tightened(b, c)
    ensures LevelZero(h, LevelZero(h, row, a, b, false), b, c, false) == LevelZero(h, row, a, c, false)
  {
    forall i: nat | i < |c|
      ensures CellZero(h, LevelZero(h, row, a, b, false), b, c, false, i) == CellZero(h, row, a, c, false, i)
    {
      if i < |a| {
        assert KeptOrCloser(a[i], b[i]) && KeptOrCloser(b[i], c[i]);
      }
    }
  }

  lemma Replaced(nodes: seq<seq<Node>>, a: seq<Node>, b: seq<Node>)
    requires nodes != []
    ensures nodes[0 := a][0] == a && nodes[0 := a][0 := b] == nodes[0 := b]
  {
  }

  lemma LeafStepChain(h: Hasher, s: TreeState, t: TreeState, u: TreeState)
    requires LeafStep(h, s, t, false) && LeafStep(h, t, u, false)
    ensures LeafStep(h, s, u, false)
  {
    TightenedChain(s.leaves, t.leaves, u.leaves);
    LevelZeroTwice(h, s.nodes[0], s.leaves, t.leaves, u.leaves);
    Replaced(s.nodes, t.nodes[0], u.nodes[0]);
  }

  /** Over level 0 of a coherent grid the new level 0 is right again, save for a pending hash. */
  lemma LevelZeroPresent(h: Hasher, a: Leaves, b: Leaves)
    requires Tightened(a, b)
    ensures LevelZero(h, Present(Commitments(h, a)), a, b, false) == Present(Commitments(h, b))
    ensures b != [] ==> LevelZero(h, Present(Commitments(h, a)), a, b, true) == TailPending(Commitments(h, b))
  {
  }

  lemma ChangedCovers(h: Hasher, a: Leaves, b: Leaves)
    requires Tightened(a, b)
    ensures Covers(Commitments(h, a), Commitments(h, b), Changed(a, b))
  {
  }

  /** Splicing a leaf in writes the commitments of exactly the two leaves that change. */
  lemma SplicedRow(h: Hasher, ls: Leaves, row: seq<Node>, low: nat, v: nat)
    requires low < |ls| == |row| && Closer(v, ls[low].nextValue)
    ensures (row + [Some(h(v, ls[low].nextValue))])[low := Some(h(ls[low].value, v))] ==
            LevelZero(h, row, ls, Splice(ls, low, v), false)
  {
  }

  lemma FirstRow(h: Hasher, v: nat)
    ensures Changed([], FirstLeaves(v)) == {0} + {1} && Tightened([], FirstLeaves(v))
    ensures LevelZero(h, [], [], FirstLeaves(v), false) == [Some(h(0, v)), Some(h(v, 0))]
    ensures LevelZero(h, [], [], FirstLeaves(v), true) == [Some(h(0, v)), None]
  {
  }

  // ----- the naive loop -----

  function Ahead(n: nat, o: Outcome): Outcome {
    o.(done := o.done + n)
  }

  lemma BatchUnrolls(ls: Leaves, vs: seq<nat>)
    requires vs != []
    ensures var r := InsertLeaf(ls, vs[0]);
      InsertBatch(ls, vs) ==
        if r.Failure? then Outcome(ls, 0, Some(r.error)) else Ahead(1, InsertBatch(r.value, vs[1..]))
  {
  }

  /** Where insertBatchLocked stands after i of its values, on any tree. */
  ghost predicate BatchAt(h: Hasher, s: TreeState, vs: seq<nat>, i: nat, t: TreeState) {
    && i <= |vs| && LeafStep(h, s, t, false)
    && InsertBatch(s.leaves, vs) == Ahead(i, InsertBatch(t.leaves, vs[i..]))
  }

  lemma BatchStarts(h: Hasher, s: TreeState, vs: seq<nat>)
    requires s.nodes != [] && |s.nodes[0]| == |s.leaves|
    ensures BatchAt(h, s, vs, 0, s) && Changed(s.leaves, s.leaves) == {}
  {
    NoLeafStep(h, s);
    assert vs[0..] == vs;
  }

  lemma BatchAdvances(h: Hasher, s: TreeState, vs: seq<nat>, i: nat, t: TreeState, u: TreeState)
    requires BatchAt(h, s, vs, i, t) && i < |vs|
    requires InsertLeaf(t.leaves, vs[i]) == Success(u.leaves) && LeafStep(h, t, u, false)
    ensures BatchAt(h, s, vs, i + 1, u)
    ensures Changed(s.leaves, u.leaves) == Changed(s.leaves, t.leaves) + Changed(t.leaves, u.leaves)
  {
    TightenedChain(s.leaves, t.leaves, u.leaves);
    LeafStepChain(h, s, t, u);
    BatchUnrolls(t.leaves, vs[i..]);
    assert vs[i..][1..] == vs[i + 1..];
  }

  lemma BatchFails(h: Hasher, s: TreeState, vs: seq<nat>, i: nat, t: TreeState)
    requires BatchAt(h, s, vs, i, t) && i < |vs|
    requires InsertLeaf(t.leaves, vs[i]).Failure?
    ensures InsertBatch(s.leaves, vs) == Outcome(t.leaves, i, Some(InsertLeaf(t.leaves, vs[i]).error))
  {
    BatchUnrolls(t.leaves, vs[i..]);
  }

  lemma BatchEnds(h: Hasher, s: TreeState, vs: seq<nat>, t: TreeState)
    requires BatchAt(h, s, vs, |vs|, t)
    ensures InsertBatch(s.leaves, vs) == Outcome(t.leaves, |vs|, None)
  {
  }

  // ----- the sorted loop -----

  lemma SortedUnrolls(ls: Leaves, vs: seq<nat>)
    requires ls != [] && vs != []
    ensures var e := TailError(ls, vs[0]);
      SortedBatch(ls, vs) ==
        if e.Some? then Outcome(ls, 0, e) else Ahead(1, SortedBatch(Splice(ls, |ls| - 1, vs[0]), vs[1..]))
  {
  }

  /** Where the sorted loop stands after i values, on any tree. */
  ghost predicate TailsAt(h: Hasher, s: TreeState, vs: seq<nat>, i: nat, t: TreeState) {
    && i <= |vs| && LeafStep(h, s, t, i > 0)
    && t.leaves != [] && |t.leaves| >= |s.leaves| + i
    && SortedBatch(s.leaves, vs) == Ahead(i, SortedBatch(t.leaves, vs[i..]))
  }

  lemma TailsStart(h: Hasher, s: TreeState, vs: seq<nat>)
    requires s.nodes != [] && |s.nodes[0]| == |s.leaves| > 0
    ensures TailsAt(h, s, vs, 0, s) && Changed(s.leaves, s.leaves) == {}
  {
    NoLeafStep(h, s);
    assert vs[0..] == vs;
  }

  lemma TailsStartEmpty(h: Hasher, s: TreeState, vs: seq<nat>, t: TreeState)
    requires s.leaves == [] && vs != [] && s.nodes != [] && s.nodes[0] == []
    requires t.leaves == FirstLeaves(vs[0]) && t.nodes == s.nodes[0 := [Some(h(0, vs[0])), None]]
    ensures TailsAt(h, s, vs, 1, t) && Changed(s.leaves, t.leaves) == {0} + {1}
  {
    FirstRow(h, vs[0]);
  }

  /** c is b with v appended after its last leaf. */
  predicate Appends(b: Leaves, v: nat, c: Leaves) {
    b != [] && b[|b| - 1].nextValue == 0 && v > 0 && c == Splice(b, |b| - 1, v)
  }

  lemma TailChanges(a: Leaves, b: Leaves, v: nat, c: Leaves)
    requires Tightened(a, b) && Appends(b, v, c)
    ensures Tightened(a, c) && Changed(a, c) == Changed(a, b) + {|b| - 1} + {|b|}
  {
    SpliceTightens(b, |b| - 1, v);
    TightenedChain(a, b, c);
  }

  /** The row of u below from that of t: the old last leaf gets its final hash, the new one none yet. */
  lemma PendingRow(h: Hasher, row: seq<Node>, a: Leaves, b: Leaves, pending: bool, v: nat, c: Leaves)
    requires Tightened(a, b) && Appends(b, v, c)
    ensures LevelZero(h, row, a, b, pending)[|b| - 1 := Some(h(b[|b| - 1].value, v))] + [None] ==
            LevelZero(h, row, a, c, true)
  {
    var now := LevelZero(h, row, a, b, pending);
    forall i: nat | i < |b| - 1
      ensures now[i] == CellZero(h, row, a, c, true, i)
    {
    }
    if |b| - 1 < |a| {
      assert KeptOrCloser(a[|b| - 1], b[|b| - 1]);
    }
  }

  /** u is t with v appended as its tail, the hash of the old tail final and that of the new one pending. */
  ghost predicate TailAppended(h: Hasher, t: TreeState, v: nat, u: TreeState) {
    && t.leaves != [] && t.nodes != [] && |t.nodes[0]| == |t.leaves|
    && var last := |t.leaves| - 1;
       && u.leaves == Splice(t.leaves, last, v)
       && u.nodes == t.nodes[0 := t.nodes[0][last := Some(h(t.leaves[last].value, v))] + [None]]
  }

  lemma TailStep(h: Hasher, s: TreeState, t: TreeState, pending: bool, v: nat, u: TreeState)
    requires LeafStep(h, s, t, pending) && TailAppended(h, t, v, u) && Appends(t.leaves, v, u.leaves)
    ensures LeafStep(h, s, u, true)
  {
    TailChanges(s.leaves, t.leaves, v, u.leaves);
    PendingRow(h, s.nodes[0], s.leaves, t.leaves, pending, v, u.leaves);
    Replaced(s.nodes, t.nodes[0], u.nodes[0]);
  }

  lemma TailsUnroll(vs: seq<nat>, i: nat, o: Outcome, t: Leaves, u: Leaves)
    requires i < |vs| && t != [] && TailError(t, vs[i]).None? && u == Splice(t, |t| - 1, vs[i])
    requires o == Ahead(i, SortedBatch(t, vs[i..]))
    ensures o == Ahead(i + 1, SortedBatch(u, vs[i + 1..]))
  {
    SortedUnrolls(t, vs[i..]);
    assert vs[i..][1..] == vs[i + 1..];
  }

  lemma TailsAdvance(h: Hasher, s: TreeState, vs: seq<nat>, i: nat, t: TreeState, u: TreeState)
    requires TailsAt(h, s, vs, i, t) && i < |vs| && TailError(t.leaves, vs[i]).None?
    requires TailAppended(h, t, vs[i], u)
    ensures TailsAt(h, s, vs, i + 1, u)
    ensures Changed(s.leaves, u.leaves) == Changed(s.leaves, t.leaves) + {|t.leaves| - 1} + {|t.leaves|}
  {
    TailChanges(s.leaves, t.leaves, vs[i], u.leaves);
    TailStep(h, s, t, i > 0, vs[i], u);
    TailsUnroll(vs, i, SortedBatch(s.leaves, vs), t.leaves, u.leaves);
  }

  lemma TailsFail(h: Hasher, s: TreeState, vs: seq<nat>, i: nat, t: TreeState)
    requires TailsAt(h, s, vs, i, t) && i < |vs| && TailError(t.leaves, vs[i]).Some?
    ensures SortedBatch(s.leaves, vs) == Outcome(t.leaves, i, TailError(t.leaves, vs[i]))
  {
    SortedUnrolls(t.leaves, vs[i..]);
  }

  lemma TailsEnd(h: Hasher, s: TreeState, vs: seq<nat>, t: TreeState)
    requires TailsAt(h, s, vs, |vs|, t) && vs != []
    ensures SortedBatch(s.leaves, vs) == Outcome(t.leaves, |vs|, None)
    ensures LeafStep(h, s, t, true) && |t.leaves| > |s.leaves|
    ensures |t.nodes| > 0 && |t.nodes[0]| == |t.leaves| && t.nodes[0][|t.leaves| - 1].None?
  {
  }

  lemma FilledRow(h: Hasher, row: seq<Node>, a: Leaves, b: Leaves)
    requires |b| > |a|
    ensures LevelZero(h, row, a, b, true)[|b| - 1 := Some(Commit(h, b[|b| - 1]))] == LevelZero(h, row, a, b, false)
  {
  }

  /** Filling in the pending hash completes the leaf step. */
  lemma PendingFilled(h: Hasher, s: TreeState, t: TreeState, u: TreeState)
    requires LeafStep(h, s, t, true) && |t.leaves| > |s.leaves| && u.leaves == t.leaves
    requires t.nodes != [] && |t.nodes[0]| == |t.leaves|
    requires u.nodes == t.nodes[0 := t.nodes[0][|t.leaves| - 1 := Some(Commit(h, t.leaves[|t.leaves| - 1]))]]
    ensures LeafStep(h, s, u, false)
  {
    FilledRow(h, s.nodes[0], s.leaves, t.leaves);
    Replaced(s.nodes, t.nodes[0], u.nodes[0]);
  }

  // ----- the whole step -----

  /**
   What an operation does to any tree with a level-0 cell for each leaf, coherent or not:
   leaves and error as specified, the commitments of the changed leaves written, on
   success every cell above them rebuilt, on failure the rows above left as they were.
   */
  ghost predicate Stepped(h: Hasher, s: TreeState, op: Op, t: TreeState, e: Option<Error>)
    requires s.nodes != []
  {
    var o := ApplyLeaves(s.leaves, op);
    var m := Changed(s.leaves, o.leaves);
    var pending := o.error.Some? && op.InsertManySorted? && o.done > 0;
    var nodes := s.nodes[0 := LevelZero(h, s.nodes[0], s.leaves, o.leaves, pending)];
    && t.leaves == o.leaves && e == o.error
    && if e.None? then Rebuilt(h, nodes, t.nodes, m, Depth(|o.leaves|)) else t.nodes == nodes
  }

  /** The hashes of leaves that it takes. */
  function LeafHashes(op: Op, o: Outcome): nat {
    if op.InsertManySorted? then o.done + (if o.error.None? then 1 else 0) else 2 * o.done
  }

  /** All hashes that it takes, when the grid ends as `nodes`. */
  function StepHashes(ls: Leaves, op: Op, nodes: seq<seq<Node>>): nat {
    var o := ApplyLeaves(ls, op);
    LeafHashes(op, o) +
    if o.error.None? then RebuildHashes(nodes, Changed(ls, o.leaves), Depth(|o.leaves|)) else 0
  }

  // ----- which error an operation answers -----

  /** How many values a sorted batch took, by the leaves it left. */
  function TakenBySize(ls: Leaves, ls': Leaves): int {
    |ls'| - |ls| - if ls == [] then 1 else 0
  }

  /**
   The answer of a sorted batch, by what is stored after it: nothing to insert, a zero,
   or what stopped it at the first value it did not take.
   */
  ghost predicate SortedAnswer(ls: Leaves, vs: seq<nat>, ls': Leaves, e: Option<Error>) {
    && (e == Some(NoValues) <==> vs == [])
    && (e == Some(InsertZero) <==> 0 in vs)
    && (vs != [] && 0 !in vs ==>
          var n := TakenBySize(ls, ls');
          && 0 <= n <= |vs| && ls' != [] && (e == None <==> n == |vs|)
          && (n > 0 ==> ls'[|ls'| - 1] == IndexedLeaf(vs[n - 1], 0))
          && (e.Some? ==> StoppedBy(ls'[|ls'| - 1], vs[n], e)))
  }

  lemma SortedAnswers(ls: Leaves, vs: seq<nat>)
    ensures var o := ApplyLeaves(ls, Op.InsertManySorted(vs)); SortedAnswer(ls, vs, o.leaves, o.error)
  {
    if vs != [] && 0 !in vs {
      SortedErrors(ls, vs);
    }
  }

  /** The answer of a naive batch: nothing to insert, or what it comes to on a linked list. */
  ghost predicate NaiveAnswer(ls: Leaves, vs: seq<nat>, ls': Leaves, e: Option<Error>) {
    && (e == Some(NoValues) <==> vs == [])
    && (Linked(ls) && vs != [] ==>
          var n := |UserValues(ls')| - |UserValues(ls)|;
          n >= 0 && Linked(ls') && IsBatchOutcome(UserValues(ls), vs, Outcome(ls', n, e)))
  }

  lemma NaiveAnswers(ls: Leaves, vs: seq<nat>)
    ensures var o := ApplyLeaves(ls, Op.InsertMany(vs)); NaiveAnswer(ls, vs, o.leaves, o.error)
  {
    if vs != [] {
      BatchErrors(ls, vs);
      if Linked(ls) {
        InsertBatchCorrect(ls, vs);
      }
    }
  }
}
