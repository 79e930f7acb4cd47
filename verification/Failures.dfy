/**
 After failing operations: which values they took, and what is left of completeness
 and soundness.  The leaves are ahead of the grid then, whose root is the old one.
 */
module Failures {
  import opened Wrappers
  import opened Arith
  import opened Types
  import opened Grid
  import opened LinkedLeaves
  import opened Paths
  import opened TreeSpec
  import opened InsertSteps
  import opened Staleness
  import opened Repair
  import opened ProofSpec

  // ----- which values a failing operation takes -----

  /** The operation on its first k values. */
  function Front(op: Op, k: nat): Op
    requires 0 < k <= |OpValues(op)|
  {
    match op
    case Insert(v) => op
    case InsertMany(vs) => InsertMany(vs[..k])
    case InsertManySorted(vs) => InsertManySorted(vs[..k])
  }

  /** The sorted path looks for zeros before it starts. */
  predicate Starts(op: Op) {
    op.InsertManySorted? ==> 0 !in op.values
  }

  /** v stands in the operation, and it and all before it can go in. */
  ghost predicate Takes(ls: Leaves, op: Op, v: nat) {
    Starts(op) && exists k :: 0 <= k < |OpValues(op)| && OpValues(op)[k] == v && CanApply(ls, Front(op, k + 1))
  }

  /** The first value is refused, or the sorted path does not start. */
  predicate RefusedAtOnce(ls: Leaves, op: Op)
    requires ls != []
  {
    var vs, tail := OpValues(op), ls[|ls| - 1];
    if op.InsertManySorted? then vs == [] || 0 in vs || tail.nextValue != 0 || vs[0] <= tail.value
    else vs == [] || vs[0] == 0 || vs[0] in UserValues(ls)
  }

  lemma CanFollowFront(us: seq<nat>, vs: seq<nat>, k: nat, n: nat)
    requires k <= n <= |vs| && CanFollow(us, vs[..n])
    ensures CanFollow(us, vs[..k])
  {
    forall i | 0 <= i < k
      ensures vs[..k][i] == vs[..n][i]
    {
    }
  }

  /** If exactly n values can go in, those are the ones up to which all can. */
  lemma FollowsUpTo(us: seq<nat>, vs: seq<nat>, n: nat, k: nat)
    requires n <= |vs| && CanFollow(us, vs[..n]) && (n < |vs| ==> !CanFollow(us, vs[..n + 1]))
    requires k < |vs|
    ensures k < n <==> CanFollow(us, vs[..k + 1])
  {
    if k < n {
      CanFollowFront(us, vs, k + 1, n);
    } else if CanFollow(us, vs[..k + 1]) {
      CanFollowFront(us, vs, n + 1, k + 1);
    }
  }

  /** The value at which a batch stopped cannot follow those before it. */
  lemma BadValue(us: seq<nat>, vs: seq<nat>, o: Outcome)
    requires IsBatchOutcome(us, vs, o) && o.done < |vs|
    ensures !CanFollow(us, vs[..o.done + 1])
  {
    var front, v := vs[..o.done + 1], vs[o.done];
    assert front[o.done] == v;
    if v > 0 {
      var i :| 0 <= i < |us + vs[..o.done]| && (us + vs[..o.done])[i] == v;
      if i >= |us| {
        assert front[i - |us|] == v;
      }
    }
  }

  lemma TakenFollow(ls: Leaves, vs: seq<nat>)
    requires Linked(ls)
    ensures var n := InsertBatch(ls, vs).done; n <= |vs| && CanFollow(UserValues(ls), vs[..n])
  {
    BatchPrefix(ls, vs);
    InsertBatchCorrect(ls, vs[..InsertBatch(ls, vs).done]);
  }

  lemma NaiveTakes(ls: Leaves, vs: seq<nat>, k: nat)
    requires Linked(ls) && k < |vs|
    ensures k < InsertBatch(ls, vs).done <==> CanFollow(UserValues(ls), vs[..k + 1])
  {
    var us, o := UserValues(ls), InsertBatch(ls, vs);
    InsertBatchCorrect(ls, vs);
    TakenFollow(ls, vs);
    if o.done < |vs| {
      BadValue(us, vs, o);
    }
    FollowsUpTo(us, vs, o.done, k);
  }

  lemma SortedTakes(ls: Leaves, vs: seq<nat>, k: nat)
    requires Linked(ls) && k < |vs| && forall i :: 0 <= i < |vs| ==> vs[i] > 0
    ensures k < SortedBatch(ls, vs).done <==> Climbs(ls, vs[..k + 1])
  {
    var front := vs[..k + 1];
    SortedRefinesNaive(ls, front);
    SortedFailure(ls, front);
    SortedFailure(ls, vs);
    SortedBatchSplits(ls, front, vs[k + 1..]);
    assert front + vs[k + 1..] == vs;
  }

  lemma ClimbingFollows(ls: Leaves, vs: seq<nat>)
    requires Linked(ls) && Climbs(ls, vs) && forall i :: 0 <= i < |vs| ==> vs[i] > 0
    ensures CanFollow(UserValues(ls), vs)
  {
    SortedRefinesNaive(ls, vs);
    SortedFailure(ls, vs);
    InsertBatchCorrect(ls, vs);
  }

  /** What an operation takes are its first values as far as they can go in. */
  lemma {:induction false} TakenIff(ls: Leaves, op: Op, k: nat)
    requires Linked(ls) && k < |OpValues(op)|
    ensures k < ApplyLeaves(ls, op).done <==> Starts(op) && CanApply(ls, Front(op, k + 1))
  {
    var vs := OpValues(op);
    if op.InsertManySorted? {
      if 0 !in vs {
        PositiveIffNoZero(vs);
        SortedTakes(ls, vs, k);
        if Climbs(ls, vs[..k + 1]) {
          ClimbingFollows(ls, vs[..k + 1]);
        }
      }
    } else {
      NaiveTakes(ls, vs, k);
      assert op.Insert? ==> vs[..k + 1] == [op.value];
    }
  }

  lemma {:induction false} TakesIffTaken(ls: Leaves, op: Op, v: nat)
    requires Linked(ls) && ApplyLeaves(ls, op).done <= |OpValues(op)|
    ensures Takes(ls, op, v) <==> v in OpValues(op)[..ApplyLeaves(ls, op).done]
  {
    var vs, n := OpValues(op), ApplyLeaves(ls, op).done;
    if Takes(ls, op, v) {
      var k :| 0 <= k < |vs| && vs[k] == v && CanApply(ls, Front(op, k + 1));
      TakenIff(ls, op, k);
      assert vs[..n][k] == v;
    }
    if v in vs[..n] {
      var k :| 0 <= k < n && vs[..n][k] == v;
      TakenIff(ls, op, k);
    }
  }

  lemma {:induction false} RefusedIff(ls: Leaves, op: Op)
    requires Linked(ls) && ls != []
    ensures RefusedAtOnce(ls, op) <==> ApplyLeaves(ls, op).done == 0
  {
    var vs := OpValues(op);
    if vs != [] {
      if op.InsertManySorted? {
      } else {
        InsertLeafCorrect(ls, vs[0]);
      }
    }
  }

  // ----- runs of failing operations -----

  /** None of the operations can go through when its turn comes. */
  ghost predicate FailsAll(ls: Leaves, ops: seq<Op>)
    decreases |ops|, ls
  {
    ops != [] ==> !CanApply(ls, ops[0]) && FailsAll(ApplyLeaves(ls, ops[0]).leaves, ops[1..])
  }

  /** One of the operations takes v when its turn comes. */
  ghost predicate RunTakes(ls: Leaves, ops: seq<Op>, v: nat)
    decreases |ops|, ls
  {
    ops != [] && (Takes(ls, ops[0], v) || RunTakes(ApplyLeaves(ls, ops[0]).leaves, ops[1..], v))
  }

  lemma {:induction false} RunTakesIff(ls: Leaves, ops: seq<Op>, v: nat)
    requires Linked(ls)
    ensures RunTakes(ls, ops, v) <==> v in TakenValues(ls, ops)
    decreases |ops|
  {
    if ops != [] {
      var o := ApplyLeaves(ls, ops[0]);
      ApplyLeavesCorrect(ls, ops[0]);
      TakesIffTaken(ls, ops[0], v);
      RunTakesIff(o.leaves, ops[1..], v);
    }
  }

  /** All the operations are refused at once. */
  predicate AllRefused(ls: Leaves, ops: seq<Op>)
    requires ls != []
  {
    forall j :: 0 <= j < |ops| ==> RefusedAtOnce(ls, ops[j])
  }

  lemma RefusedKeepsLeaves(ls: Leaves, op: Op)
    requires Linked(ls) && ApplyLeaves(ls, op).done == 0
    ensures ApplyLeaves(ls, op).leaves == ls
  {
    ApplyLeavesCorrect(ls, op);
    assert UserValues(ls) + OpValues(op)[..0] == UserValues(ls);
    LinkedIsDetermined(ls, ApplyLeaves(ls, op).leaves);
  }

  /** Nothing is taken exactly if all are refused at once. */
  lemma {:induction false} AllRefusedIff(ls: Leaves, ops: seq<Op>)
    requires Linked(ls) && ls != []
    ensures AllRefused(ls, ops) <==> TakenValues(ls, ops) == []
    decreases |ops|
  {
    if ops != [] {
      var o := ApplyLeaves(ls, ops[0]);
      ApplyLeavesCorrect(ls, ops[0]);
      RefusedIff(ls, ops[0]);
      assert AllRefused(ls, ops) <==> RefusedAtOnce(ls, ops[0]) && AllRefused(ls, ops[1..]) by {
        assert forall j :: 0 < j < |ops| ==> ops[j] == ops[1..][j - 1];
      }
      if o.done == 0 {
        RefusedKeepsLeaves(ls, ops[0]);
        AllRefusedIff(ls, ops[1..]);
      }
    }
  }

  // ----- the state they leave -----

  /** The grid's first cell is the commitment of the sentinel. */
  ghost predicate HeadCommitted(h: Hasher, s: TreeState) {
    Shaped(s) && (s.leaves != [] ==> s.nodes[0][0] == Some(Commit(h, s.leaves[0])))
  }

  lemma CoherentHead(h: Hasher, s: TreeState)
    requires Coherent(h, s)
    ensures HeadCommitted(h, s)
  {
    assert s.nodes[0] == Present(Row(h, Commitments(h, s.leaves), 0));
  }

  /** t is s with the values taken in its leaves and the old rows above level 0. */
  ghost predicate IsFailure(h: Hasher, s: TreeState, taken: seq<nat>, t: TreeState) {
    && Linked(t.leaves) && UserValues(t.leaves) == UserValues(s.leaves) + taken
    && s.nodes != [] && |t.nodes| == |s.nodes| && t.nodes[1..] == s.nodes[1..]
    && (taken == [] ==> t == s)
    && HeadCommitted(h, t)
  }

  lemma LeavesSucceed(ls: Leaves, op: Op)
    requires Linked(ls)
    ensures ApplyLeaves(ls, op).error.None? <==> CanApply(ls, op)
  {
    var h: Hasher := (a, b) => a;
    var s := TreeState(ls, GridOf(h, Commitments(h, ls)));
    ApplySucceeds(h, s, op);
    ApplyLeavesAgrees(h, s, op);
  }

  lemma LevelZeroChanged(nodes: seq<seq<Node>>, row: seq<Node>)
    requires nodes != []
    ensures nodes[0 := row][0] == row && nodes[0 := row][1..] == nodes[1..]
  {
  }

  /** A failing step takes some first values, rewrites level 0 and nothing else. */
  lemma FailedStep(h: Hasher, s: TreeState, op: Op, t: TreeState, e: Option<Error>)
    requires HeadCommitted(h, s) && Linked(s.leaves) && !CanApply(s.leaves, op) && StepsTo(h, s, op, t, e)
    ensures var o := ApplyLeaves(s.leaves, op);
      e.Some? && t.leaves == o.leaves && o.done <= |OpValues(op)| && IsFailure(h, s, OpValues(op)[..o.done], t)
  {
    var o, pending := ApplyLeaves(s.leaves, op), LeavesPending(s.leaves, op);
    var row := LevelZero(h, s.nodes[0], s.leaves, o.leaves, pending);
    LeavesSucceed(s.leaves, op);
    ApplyLeavesCorrect(s.leaves, op);
    ApplyTightens(s.leaves, op);
    LevelZeroChanged(s.nodes, row);
    if o.done == 0 {
      RefusedKeepsLeaves(s.leaves, op);
      NoLeafStep(h, s);
    }
    if o.leaves != [] {
      assert row[0] == CellZero(h, s.nodes[0], s.leaves, o.leaves, pending, 0);
    }
  }

  lemma FailureChain(h: Hasher, s: TreeState, a: seq<nat>, t: TreeState, b: seq<nat>, u: TreeState)
    requires IsFailure(h, s, a, t) && IsFailure(h, t, b, u)
    ensures IsFailure(h, s, a + b, u)
  {
    assert UserValues(s.leaves) + a + b == UserValues(s.leaves) + (a + b);
  }

  lemma NoFailure(h: Hasher, s: TreeState)
    requires HeadCommitted(h, s) && Linked(s.leaves)
    ensures IsFailure(h, s, [], s)
  {
    assert UserValues(s.leaves) + [] == UserValues(s.leaves);
  }

  /** A run of failing operations, however long, takes some values and keeps the rows above level 0. */
  lemma {:induction false} FailedRunState(h: Hasher, s: TreeState, ops: seq<Op>, t: TreeState)
    requires HeadCommitted(h, s) && Linked(s.leaves) && FailsAll(s.leaves, ops) && RunsTo(h, s, ops, t)
    ensures IsFailure(h, s, TakenValues(s.leaves, ops), t)
    decreases |ops|
  {
    if ops == [] {
      NoFailure(h, s);
    } else {
      var u: TreeState, e :| StepsTo(h, s, ops[0], u, e) && RunsTo(h, u, ops[1..], t);
      FailedStep(h, s, ops[0], u, e);
      FailedRunState(h, u, ops[1..], t);
      FailureChain(h, s, OpValues(ops[0])[..ApplyLeaves(s.leaves, ops[0]).done], u, TakenValues(u.leaves, ops[1..]), t);
    }
  }

  lemma TakenValue(h: Hasher, s: TreeState, taken: seq<nat>, t: TreeState, v: nat)
    requires Linked(s.leaves) && IsFailure(h, s, taken, t)
    ensures v in UserValues(t.leaves) <==> v in UserValues(s.leaves) || v in taken
    ensures v in taken ==> v > 0 && v !in UserValues(s.leaves) && t.leaves != []
  {
    if v in taken {
      var us, ws := UserValues(s.leaves), UserValues(t.leaves);
      var i :| 0 <= i < |taken| && taken[i] == v;
      assert ws[|us| + i] == v && Values(t.leaves)[|us| + i + 1] == v;
      ZeroNotInserted(t.leaves);
      forall j | 0 <= j < |us|
        ensures us[j] != v
      {
        assert ws[j] == us[j] && Values(t.leaves)[j + 1] == us[j];
      }
    }
  }

  // ----- the root after failures -----

  lemma TopAboveLeaves(h: Hasher, s: TreeState)
    requires Coherent(h, s) && s.leaves != []
    ensures |s.nodes| > 1
  {
    assert Depth(|s.leaves|) > 0;
  }

  /** Failures on a non-empty tree keep its root. */
  lemma {:induction false} FailureKeepsRoot(h: Hasher, s: TreeState, taken: seq<nat>, t: TreeState)
    requires Coherent(h, s) && s.leaves != [] && IsFailure(h, s, taken, t)
    ensures t.leaves != [] && StoredRoot(t.nodes, |t.leaves|) == StoredRoot(s.nodes, |s.leaves|)
  {
    TopAboveLeaves(h, s);
    var d := |s.nodes| - 1;
    assert t.nodes[d] == t.nodes[1..][d - 1] && s.nodes[d] == s.nodes[1..][d - 1];
    assert UserValues(s.leaves) != [];
  }

  /** After failures on the empty tree the root is the sentinel's commitment. */
  lemma EmptyFailureRoot(h: Hasher, s: TreeState, taken: seq<nat>, t: TreeState)
    requires Coherent(h, s) && s.leaves == [] && IsFailure(h, s, taken, t)
    ensures |t.nodes| == 1
    ensures t.leaves != [] ==> StoredRoot(t.nodes, |t.leaves|) == Some(Commit(h, t.leaves[0]))
  {
    EmptyIsCoherent(h);
  }

  // ----- completeness -----

  /** The tree returns a proof for v that the verifier accepts. */
  ghost predicate Proves(h: Hasher, t: TreeState, v: nat) {
    t.nodes != [] && Generate(t, v).Success? && Verify(h, Some(Generate(t, v).value))
  }

  /** A proof without siblings against a commitment to another leaf is refused. */
  lemma AloneRowRejects(h: Hasher, t: TreeState, v: nat, i: nat)
    requires Injective(h) && v > 0 && |t.nodes| == 1 && t.leaves != [] && t.leaves[0].value == 0
    requires StoredRoot(t.nodes, |t.leaves|) == Some(Commit(h, t.leaves[0]))
    requires i < |t.leaves| && t.leaves[i].value == v
    ensures !Verify(h, Some(BuildProof(t, PROOF_MEMBERSHIP, v, i)))
  {
    var p := BuildProof(t, PROOF_MEMBERSHIP, v, i);
    assert p.siblings == [];
    if Verify(h, Some(p)) {
      NoCollision(h, t.leaves[i].value, t.leaves[i].nextValue, t.leaves[0].value, t.leaves[0].nextValue);
    }
  }

  /** A value taken by failing operations has a generated proof, and it is refused. */
  lemma {:induction false} NewValueRejected(h: Hasher, s: TreeState, taken: seq<nat>, t: TreeState, v: nat)
    requires Coherent(h, s) && |s.leaves| < TWO_63 && IsFailure(h, s, taken, t) && v in taken
    requires Injective(h) && HashFree(h, s.leaves) && !IsOutput(h, v)
    ensures Generate(t, v).Success? && !Verify(h, Some(Generate(t, v).value))
  {
    TakenValue(h, s, taken, t, v);
    UserValueAt(t.leaves, v);
    var i := IndexOf(t.leaves, v, 1).value;
    var p := Generate(t, v).value;
    assert p == BuildProof(t, PROOF_MEMBERSHIP, v, i);
    if s.leaves == [] {
      EmptyFailureRoot(h, s, taken, t);
      AloneRowRejects(h, t, v, i);
    } else {
      FailureKeepsRoot(h, s, taken, t);
      if Verify(h, Some(p)) {
        assert FalseProof(h, s, v, p);
        FalseProofIsBranchOrLate(h, s, v, p);
        FalseBranchOfAbsent(h, s, v);
      }
    }
  }

  /** s came to t by operations that all failed. */
  ghost predicate FailedRun(h: Hasher, s: TreeState, ops: seq<Op>, t: TreeState) {
    Coherent(h, s) && |s.leaves| < TWO_63 && FailsAll(s.leaves, ops) && RunsTo(h, s, ops, t)
  }

  /** An injective hash of which neither 0 nor a value of tree or operations is an output. */
  ghost predicate ApartFrom(h: Hasher, ls: Leaves, ops: seq<Op>) {
    && Injective(h) && !IsOutput(h, 0)
    && (forall i :: 0 <= i < |ls| ==> !IsOutput(h, ls[i].value))
    && forall j, i :: 0 <= j < |ops| && 0 <= i < |OpValues(ops[j])| ==> !IsOutput(h, OpValues(ops[j])[i])
  }

  lemma {:induction false} TakenApart(h: Hasher, ls: Leaves, ops: seq<Op>, v: nat)
    requires Linked(ls) && v in TakenValues(ls, ops)
    requires forall j, i :: 0 <= j < |ops| && 0 <= i < |OpValues(ops[j])| ==> !IsOutput(h, OpValues(ops[j])[i])
    ensures !IsOutput(h, v)
    decreases |ops|
  {
    if ops != [] {
      var o := ApplyLeaves(ls, ops[0]);
      ApplyLeavesCorrect(ls, ops[0]);
      if v in OpValues(ops[0])[..o.done] {
        var i :| 0 <= i < o.done && OpValues(ops[0])[i] == v;
      } else {
        assert forall j :: 0 <= j < |ops| - 1 ==> ops[1..][j] == ops[j + 1];
        TakenApart(h, o.leaves, ops[1..], v);
      }
    }
  }

  /**
   Completeness after failures, exactly: every v > 0 still has an accepted proof if and
   only if the tree was not empty and refused all the operations at once.
   */
  lemma {:induction false} CompleteAfterFailuresIff(h: Hasher, s: TreeState, ops: seq<Op>, t: TreeState)
    requires FailedRun(h, s, ops, t) && ApartFrom(h, s.leaves, ops)
    ensures (forall v: nat :: v > 0 ==> Proves(h, t, v)) <==> s.leaves != [] && AllRefused(s.leaves, ops)
  {
    var taken := TakenValues(s.leaves, ops);
    CoherentHead(h, s);
    FailedRunState(h, s, ops, t);
    if s.leaves != [] {
      AllRefusedIff(s.leaves, ops);
    }
    if taken != [] {
      TakenApart(h, s.leaves, ops, taken[0]);
      TakenValue(h, s, taken, t, taken[0]);
      ValuesHashFree(h, s.leaves);
      NewValueRejected(h, s, taken, t, taken[0]);
      assert !Proves(h, t, taken[0]);
    } else if s.leaves == [] {
      assert !Proves(h, t, 1);
    } else {
      forall v: nat | v > 0
        ensures Proves(h, t, v)
      {
        Completeness(h, s, v);
      }
    }
  }

  // ----- soundness -----

  /** The verifier accepts p for v against the root of t. */
  ghost predicate AcceptedFor(h: Hasher, t: TreeState, v: nat, p: Proof) {
    t.nodes != [] && p.value == Some(v) && p.root == StoredRoot(t.nodes, |t.leaves|) && Verify(h, Some(p))
  }

  /** Every accepted proof for v says truly whether t holds v. */
  ghost predicate AllTrue(h: Hasher, t: TreeState, v: nat) {
    forall p :: AcceptedFor(h, t, v, p) ==> p.proofType == TrueKind(t, v)
  }

  lemma AllTrueIff(h: Hasher, t: TreeState, v: nat)
    requires t.nodes != []
    ensures AllTrue(h, t, v) <==> !exists p :: FalseProof(h, t, v, p)
  {
    if AllTrue(h, t, v) {
      forall p
        ensures !FalseProof(h, t, v, p)
      {
        assert FalseProof(h, t, v, p) ==> AcceptedFor(h, t, v, p);
      }
    }
    if !exists p :: FalseProof(h, t, v, p) {
      forall p | AcceptedFor(h, t, v, p)
        ensures p.proofType == TrueKind(t, v)
      {
        KindIsTrueOrFalse(t, v, p);
        assert p.proofType == FalseKind(t, v) ==> FalseProof(h, t, v, p);
      }
    }
  }

  /** A value taken by failing operations still has its old proof of absence accepted. */
  lemma {:induction false} OldProofStillAccepted(h: Hasher, s: TreeState, taken: seq<nat>, t: TreeState, v: nat)
    requires Provable(h, s) && IsFailure(h, s, taken, t) && v in taken
    ensures Generate(s, v).Success?
    ensures FalseProof(h, t, v, Generate(s, v).value) && v in UserValues(t.leaves)
  {
    TakenValue(h, s, taken, t, v);
    FailureKeepsRoot(h, s, taken, t);
    Completeness(h, s, v);
  }

  lemma SameFalseProofs(h: Hasher, s: TreeState, taken: seq<nat>, t: TreeState, v: nat)
    requires Provable(h, s) && IsFailure(h, s, taken, t) && v !in taken
    ensures forall p :: FalseProof(h, t, v, p) <==> FalseProof(h, s, v, p)
  {
    TakenValue(h, s, taken, t, v);
    FailureKeepsRoot(h, s, taken, t);
  }

  /**
   Soundness after failures on a non-empty tree, exactly and for any hash: every accepted
   proof for v is true if and only if v was not taken and every accepted proof for v was
   true before.
   */
  lemma {:induction false} TrueAfterFailuresAnyHash(h: Hasher, s: TreeState, ops: seq<Op>, t: TreeState, v: nat)
    requires FailedRun(h, s, ops, t) && s.leaves != [] && v > 0
    ensures AllTrue(h, t, v) <==> !RunTakes(s.leaves, ops, v) && AllTrue(h, s, v)
  {
    var taken := TakenValues(s.leaves, ops);
    CoherentHead(h, s);
    FailedRunState(h, s, ops, t);
    RunTakesIff(s.leaves, ops, v);
    AllTrueIff(h, s, v);
    AllTrueIff(h, t, v);
    if v in taken {
      OldProofStillAccepted(h, s, taken, t, v);
    } else {
      SameFalseProofs(h, s, taken, t, v);
    }
  }

  /** Against the commitment of the sentinel alone only true proofs are accepted. */
  lemma {:induction false} SentinelRootIsTrue(h: Hasher, t: TreeState, v: nat, p: Proof)
    requires Linked(t.leaves) && t.leaves != [] && Injective(h) && HashFree(h, t.leaves) && v > 0
    requires p.root == Some(Commit(h, t.leaves[0])) && p.value == Some(v) && Verify(h, Some(p))
    ensures p.proofType == TrueKind(t, v)
  {
    var ls := t.leaves[..1];
    var cs := Commitments(h, ls);
    CommitmentsCommit(h, ls);
    var r := OnlyPathsReachCells(h, cs, ls, 0, 0, Record(p), p.leafIndex, p.siblings, |p.siblings|);
    assert Record(p) == t.leaves[0];
    assert PointsRight(t.leaves, 0);
    UserValueAt(t.leaves, v);
    assert Values(t.leaves)[1] in Values(t.leaves) && Values(t.leaves)[1] != 0;
  }

  lemma FailureHashFree(h: Hasher, s: TreeState, ops: seq<Op>, t: TreeState)
    requires Linked(s.leaves) && ApartFrom(h, s.leaves, ops) && IsFailure(h, s, TakenValues(s.leaves, ops), t)
    ensures HashFree(h, t.leaves)
  {
    var taken := TakenValues(s.leaves, ops);
    forall i | 0 <= i < |UserValues(t.leaves)|
      ensures !IsOutput(h, UserValues(t.leaves)[i])
    {
      var v := UserValues(t.leaves)[i];
      TakenValue(h, s, taken, t, v);
      if v in taken {
        TakenApart(h, s.leaves, ops, v);
      } else {
        var j :| 0 <= j < |UserValues(s.leaves)| && UserValues(s.leaves)[j] == v;
        assert s.leaves[j + 1].value == v;
      }
    }
    RunHashFree(h, t);
  }

  lemma EmptyFailureIsTrue(h: Hasher, s: TreeState, ops: seq<Op>, t: TreeState, v: nat)
    requires FailedRun(h, s, ops, t) && s.leaves == [] && ApartFrom(h, s.leaves, ops) && v > 0
    ensures AllTrue(h, t, v)
  {
    var taken := TakenValues(s.leaves, ops);
    CoherentHead(h, s);
    FailedRunState(h, s, ops, t);
    EmptyFailureRoot(h, s, taken, t);
    FailureHashFree(h, s, ops, t);
    forall p | AcceptedFor(h, t, v, p)
      ensures p.proofType == TrueKind(t, v)
    {
      SentinelRootIsTrue(h, t, v, p);
    }
  }

  /**
   Soundness after failures, exactly: every accepted proof for v is true if and only if
   the tree was empty, or v was not taken and no two children of the tree, read as a leaf
   record, lie about v.
   */
  lemma {:induction false} TrueAfterFailuresIff(h: Hasher, s: TreeState, ops: seq<Op>, t: TreeState, v: nat)
    requires FailedRun(h, s, ops, t) && ApartFrom(h, s.leaves, ops) && v > 0
    ensures AllTrue(h, t, v) <==>
      s.leaves == [] || (!RunTakes(s.leaves, ops, v) && !FalseBranch(h, s, v))
  {
    if s.leaves == [] {
      EmptyFailureIsTrue(h, s, ops, t, v);
    } else {
      TrueAfterFailuresAnyHash(h, s, ops, t, v);
      AllTrueIff(h, s, v);
      ValuesHashFree(h, s.leaves);
      FalseProofIff(h, s, v);
    }
  }

  // ----- a batch that repeats a value -----

  lemma RepeatedFails(ls: Leaves, v: nat)
    requires Linked(ls) && v > 0 && v !in UserValues(ls)
    ensures !CanApply(ls, InsertMany([v, v])) && Takes(ls, InsertMany([v, v]), v)
    ensures InsertBatch(ls, [v, v]).error == Some(Duplicate)
  {
    var op := InsertMany([v, v]);
    InsertBatchCorrect(ls, [v, v]);
    assert [v, v][0] == [v, v][1];
    assert OpValues(op)[0] == v && CanApply(ls, Front(op, 1));
  }

  /** On any coherent tree the batch [v, v] of a fresh v fails as a duplicate, having taken v. */
  lemma {:induction false} RepeatedValueTaken(h: Hasher, s: TreeState, v: nat) returns (taken: seq<nat>)
    requires Coherent(h, s) && v > 0 && v !in UserValues(s.leaves)
    ensures var (t, e) := Apply(h, s, InsertMany([v, v])); e == Some(Duplicate) && IsFailure(h, s, taken, t)
    ensures v in taken
  {
    var op := InsertMany([v, v]);
    CoherentHead(h, s);
    RepeatedFails(s.leaves, v);
    ApplyLeavesAgrees(h, s, op);
    var t, e := StepExists(h, s, op);
    SteppedIsApply(h, s, op, t, e);
    FailedStep(h, s, op, t, e);
    taken := OpValues(op)[..ApplyLeaves(s.leaves, op).done];
    TakesIffTaken(s.leaves, op, v);
  }

  /**
   On any non-empty tree that stores no hash the batch [v, v] of a fresh v fails after
   taking v: the proof then generated for v is refused, and the old proof that v is absent
   is accepted.
   */
  lemma {:induction false} RepeatedValueDenied(h: Hasher, s: TreeState, v: nat)
    requires Provable(h, s) && Injective(h) && HashFree(h, s.leaves)
    requires v > 0 && !IsOutput(h, v) && v !in UserValues(s.leaves)
    ensures var (t, e) := Apply(h, s, InsertMany([v, v]));
      && e == Some(Duplicate) && v in UserValues(t.leaves) && !Proves(h, t, v)
      && Generate(s, v).Success? && FalseProof(h, t, v, Generate(s, v).value)
  {
    var taken := RepeatedValueTaken(h, s, v);
    var t := Apply(h, s, InsertMany([v, v])).0;
    NewValueRejected(h, s, taken, t, v);
    OldProofStillAccepted(h, s, taken, t, v);
  }

  /** The batch [5, 5] on an empty tree: it fails, and the proof of 5 is refused. */
  lemma {:induction false} RepeatedValueLosesProof(h: Hasher, bound: nat)
    requires Ideal(h, bound) && bound > 5
    ensures var (t, e) := Apply(h, EMPTY_TREE, InsertMany([5, 5]));
      e == Some(Duplicate) && Generate(t, 5).Success? && !Verify(h, Some(Generate(t, 5).value))
  {
    EmptyIsCoherent(h);
    var taken := RepeatedValueTaken(h, EMPTY_TREE, 5);
    SmallIsNoOutput(h, bound, 5);
    NewValueRejected(h, EMPTY_TREE, taken, Apply(h, EMPTY_TREE, InsertMany([5, 5])).0, 5);
  }
}
