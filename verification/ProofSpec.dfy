/**
 Proofs of membership and non-membership: what the generator returns, what the
 verifier accepts, and that under an ideal hash the two coincide.
 */
module ProofSpec {
  import opened Wrappers
  import opened Arith
  import opened Types
  import opened Grid
  import opened LinkedLeaves
  import opened Paths
  import opened TreeSpec

  // ----- generation -----

  /** indexOfLocked: the first leaf after the sentinel that holds v; zero is never found. */
  function IndexOf(ls: Leaves, v: nat, from: nat): (r: Option<nat>)
    requires v > 0 && from <= |ls|
    ensures r.Some? ==> from <= r.value < |ls| && ls[r.value].value == v
    ensures r.None? ==> forall i :: from <= i < |ls| ==> ls[i].value != v
    decreases |ls| - from
  {
    if from == |ls| then None
    else if ls[from].value == v then Some(from)
    else IndexOf(ls, v, from + 1)
  }

  /** buildProofLocked: the path of leaf i over the stored grid, packed. */
  function BuildProof(s: TreeState, pt: uint8, v: nat, i: nat): Proof
    requires s.nodes != [] && i < |s.leaves|
  {
    var path := StoredPath(s.nodes, i, |s.nodes| - 1);
    PackFits(path);
    Proof(pt, StoredRoot(s.nodes, |s.leaves|), Some(v),
          Some(s.leaves[i].value), Some(s.leaves[i].nextValue), Pack(path), Siblings(path))
  }

  /** The siblings and the packed index of leaf i's path over the stored grid. */
  predicate IsCollected(nodes: seq<seq<Node>>, i: nat, siblings: seq<nat>, leafIndex: nat)
    requires nodes != []
  {
    var path := StoredPath(nodes, i, |nodes| - 1);
    siblings == Siblings(path) && leafIndex == Pack(path)
  }

  lemma BuiltFrom(s: TreeState, pt: uint8, v: nat, i: nat, p: Proof)
    requires s.nodes != [] && i < |s.leaves| && IsCollected(s.nodes, i, p.siblings, p.leafIndex)
    requires p.proofType == pt && p.value == Some(v) && p.root == StoredRoot(s.nodes, |s.leaves|)
    requires p.leafValue == Some(s.leaves[i].value) && p.leafNextValue == Some(s.leaves[i].nextValue)
    ensures p == BuildProof(s, pt, v, i)
  {
  }

  function Generate(s: TreeState, v: nat): Result<Proof, Error>
    requires s.nodes != []
  {
    if v == 0 then Failure(InsertZero)
    else if s.leaves == [] then Failure(EmptyTree)
    else
      match IndexOf(s.leaves, v, 1)
      case Some(i) => Success(BuildProof(s, PROOF_MEMBERSHIP, v, i))
      case None =>
        match FindLow(s.leaves, v, 0)
        case Some(low) => Success(BuildProof(s, PROOF_NON_MEMBERSHIP, v, low))
        case None => Failure(LowLeafNotFound)
  }

  // ----- verification -----

  /** The order checks of VerifyProof, before anything is hashed. */
  predicate LeafFits(pt: uint8, leaf: IndexedLeaf, v: nat) {
    if pt == PROOF_MEMBERSHIP then leaf.value == v
    else pt == PROOF_NON_MEMBERSHIP && leaf.value < v && (leaf.nextValue == 0 || leaf.nextValue > v)
  }

  /** VerifyProof, on a proof pointer that may be nil. */
  predicate Verify(h: Hasher, proof: Option<Proof>) {
    match proof
    case None => false
    case Some(p) =>
      && p.root.Some? && p.value.Some? && p.leafValue.Some? && p.leafNextValue.Some?
      && LeafFits(p.proofType, IndexedLeaf(p.leafValue.value, p.leafNextValue.value), p.value.value)
      && Walk(h, h(p.leafValue.value, p.leafNextValue.value), p.leafIndex, p.siblings, |p.siblings|) == p.root.value
  }

  /** The same proof up to the bits of the leaf index that no sibling uses. */
  predicate SameProof(p: Proof, q: Proof) {
    && p.proofType == q.proofType && p.root == q.root && p.value == q.value
    && p.leafValue == q.leafValue && p.leafNextValue == q.leafNextValue
    && p.siblings == q.siblings
    && p.leafIndex % Pow2(|q.siblings|) == q.leafIndex % Pow2(|q.siblings|)
  }

  // ----- what the generator returns on a coherent tree -----

  /** The tree is coherent, not empty, and of a size a Go slice can have. */
  ghost predicate Provable(h: Hasher, s: TreeState) {
    Coherent(h, s) && s.leaves != [] && |s.leaves| < TWO_63
  }

  /** The path a proof for leaf i carries. */
  function ProofPath(h: Hasher, s: TreeState, i: nat): seq<Step> {
    var cs := Commitments(h, s.leaves);
    Path(h, cs, i, Depth(|cs|))
  }

  lemma StoredPathHere(h: Hasher, s: TreeState, i: nat)
    requires Provable(h, s) && i < |s.leaves|
    ensures StoredPath(s.nodes, i, |s.nodes| - 1) == ProofPath(h, s, i)
    ensures |ProofPath(h, s, i)| <= 63
  {
    WholeStoredPath(h, Commitments(h, s.leaves), i);
    PathFits(h, Commitments(h, s.leaves), i);
  }

  lemma BuiltFields(s: TreeState, pt: uint8, v: nat, i: nat, path: seq<Step>)
    requires s.nodes != [] && i < |s.leaves|
    requires StoredPath(s.nodes, i, |s.nodes| - 1) == path
    ensures var p := BuildProof(s, pt, v, i);
      p.siblings == Siblings(path) && p.leafIndex == Pack(path) && p.root == StoredRoot(s.nodes, |s.leaves|)
  {
  }

  lemma BuiltProof(h: Hasher, s: TreeState, pt: uint8, v: nat, i: nat)
    requires Provable(h, s) && i < |s.leaves|
    ensures var p, path := BuildProof(s, pt, v, i), ProofPath(h, s, i);
      && p.root == Some(RootOf(h, Commitments(h, s.leaves)))
      && p.siblings == Siblings(path) && |path| <= 63
      && p.leafIndex == Pack(path)
      && Follows(path, p.leafIndex, p.siblings)
  {
    StoredPathHere(h, s, i);
    GridRoot(h, Commitments(h, s.leaves));
    PackedFollows(ProofPath(h, s, i));
    BuiltFields(s, pt, v, i, ProofPath(h, s, i));
  }

  /** Which leaf a proof for v shows: the one holding v, else the one whose gap contains v. */
  lemma {:induction false} LeafShown(h: Hasher, s: TreeState, v: nat) returns (pt: uint8, i: nat)
    requires Coherent(h, s) && s.leaves != [] && v > 0
    ensures i < |s.leaves| && Generate(s, v) == Success(BuildProof(s, pt, v, i))
    ensures LeafFits(pt, s.leaves[i], v)
    ensures pt == if v in UserValues(s.leaves) then PROOF_MEMBERSHIP else PROOF_NON_MEMBERSHIP
    ensures forall pt': uint8, j: nat :: j < |s.leaves| && LeafFits(pt', s.leaves[j], v) ==> pt' == pt && j == i
  {
    var ls := s.leaves;
    UserValueAt(ls, v);
    var low := LowLeafUnique(ls, v);
    var found := IndexOf(ls, v, 1);
    if found.Some? {
      pt, i := PROOF_MEMBERSHIP, found.value;
    } else {
      pt, i := PROOF_NON_MEMBERSHIP, low;
    }
    forall pt': uint8, j: nat | j < |ls| && LeafFits(pt', ls[j], v)
      ensures pt' == pt && j == i
    {
      assert Values(ls)[j] == ls[j].value && Values(ls)[i] == ls[i].value;
      if pt' == PROOF_MEMBERSHIP {
        assert v in Values(ls);
      } else {
        assert IsLow(ls[j], v);
        assert v !in Values(ls);
      }
    }
  }

  /** A proof that shows leaf i and follows its path walks up to the root. */
  lemma PathWalksToRoot(h: Hasher, s: TreeState, i: nat, leafIndex: nat, siblings: seq<nat>)
    requires Provable(h, s) && i < |s.leaves|
    requires Follows(ProofPath(h, s, i), leafIndex, siblings) && |siblings| == |ProofPath(h, s, i)|
    ensures Walk(h, Commit(h, s.leaves[i]), leafIndex, siblings, |siblings|) == RootOf(h, Commitments(h, s.leaves))
  {
    var cs := Commitments(h, s.leaves);
    WalkReachesRoot(h, cs, i, leafIndex, siblings);
  }

  /**
   Completeness: on a non-empty coherent tree every v > 0 has a proof, the verifier
   accepts it, and it is a membership proof exactly when v was inserted.
   */
  lemma {:induction false} Completeness(h: Hasher, s: TreeState, v: nat)
    requires Provable(h, s) && v > 0
    ensures Generate(s, v).Success?
    ensures var p := Generate(s, v).value;
      && Verify(h, Some(p))
      && p.value == Some(v) && p.root == StoredRoot(s.nodes, |s.leaves|)
      && p.proofType == (if v in UserValues(s.leaves) then PROOF_MEMBERSHIP else PROOF_NON_MEMBERSHIP)
  {
    var pt, i := LeafShown(h, s, v);
    BuiltProof(h, s, pt, v, i);
    var p := Generate(s, v).value;
    PathWalksToRoot(h, s, i, p.leafIndex, p.siblings);
  }

  // ----- what the verifier accepts, whatever the hash -----

  /** The checks the verifier makes before hashing. */
  predicate ChecksPass(p: Proof) {
    && p.value.Some? && p.leafValue.Some? && p.leafNextValue.Some?
    && LeafFits(p.proofType, Record(p), p.value.value)
  }

  /** The leaf record that p shows. */
  function Record(p: Proof): IndexedLeaf
    requires p.leafValue.Some? && p.leafNextValue.Some?
  {
    IndexedLeaf(p.leafValue.value, p.leafNextValue.value)
  }

  /** r says truly how the walk of p ended at the root. */
  ghost predicate MeetsRoot(h: Hasher, s: TreeState, p: Proof, r: Meeting) {
    var cs := Commitments(h, s.leaves);
    && p.leafValue.Some? && p.leafNextValue.Some?
    && Meets(h, cs, s.leaves, Depth(|cs|), 0, Record(p), p.leafIndex, p.siblings, |p.siblings|, r)
  }

  lemma CommitmentsCommit(h: Hasher, ls: Leaves)
    ensures CommitsTo(h, Commitments(h, ls), ls)
  {
  }

  /** Whoever passes the checks, enters the tree at a hashed cell and takes its path is accepted. */
  lemma {:induction false} EnteredIsAccepted(h: Hasher, s: TreeState, p: Proof, r: Meeting)
    requires Provable(h, s) && p.root == StoredRoot(s.nodes, |s.leaves|)
    requires ChecksPass(p) && r.Entered? && MeetsRoot(h, s, p, r)
    ensures Verify(h, Some(p))
  {
    var cs := Commitments(h, s.leaves);
    GridRoot(h, cs);
    CommitmentsCommit(h, s.leaves);
    EnteredWalksToRoot(h, cs, s.leaves, Record(p), p.leafIndex, p.siblings, r);
  }

  lemma {:induction false} AcceptedMeetsRoot(h: Hasher, s: TreeState, p: Proof) returns (r: Meeting)
    requires Provable(h, s) && p.root == StoredRoot(s.nodes, |s.leaves|)
    requires Verify(h, Some(p))
    ensures ChecksPass(p) && MeetsRoot(h, s, p, r)
  {
    var cs := Commitments(h, s.leaves);
    GridRoot(h, cs);
    TopRowIsSingle(|cs|);
    CommitmentsCommit(h, s.leaves);
    r := WalkMeetsTree(h, cs, s.leaves, Depth(|cs|), 0, Record(p), p.leafIndex, p.siblings, |p.siblings|);
  }

  /** p shows the pair hashed in cell i of level k and follows that cell's path to the root. */
  ghost predicate ShowsCell(h: Hasher, s: TreeState, p: Proof, k: nat, i: nat) {
    var cs := Commitments(h, s.leaves);
    && k <= Depth(|cs|) && Hashed(|cs|, k, i)
    && p.leafValue == Some(TreePair(h, cs, s.leaves, k, i).0)
    && p.leafNextValue == Some(TreePair(h, cs, s.leaves, k, i).1)
    && var path := PathFrom(h, cs, k, i, Depth(|cs|));
       |p.siblings| == |path| && Follows(path, p.leafIndex, p.siblings)
  }

  lemma CellBelowRoot(h: Hasher, cs: seq<nat>, k: nat, i: nat)
    requires cs != [] && k <= Depth(|cs|) && i < Width(|cs|, k)
    ensures Anc(i, Depth(|cs|) - k) == 0
  {
    var row := Row(h, cs, k);
    RootOfRow(h, cs, k);
    TopRowIsSingle(|row|);
    AncInWidth(|row|, i, Depth(|cs|) - k);
  }

  /** To show a cell is to enter the tree there at once. */
  lemma ShowsIsEntered(h: Hasher, s: TreeState, p: Proof, k: nat, i: nat)
    requires s.leaves != []
    ensures ShowsCell(h, s, p, k, i) <==> MeetsRoot(h, s, p, Entered(0, k, i))
  {
    var cs := Commitments(h, s.leaves);
    assert p.siblings[0..] == p.siblings;
    if k <= Depth(|cs|) && Hashed(|cs|, k, i) {
      CellBelowRoot(h, cs, k, i);
    }
  }

  lemma FollowsIsSame(path: seq<Step>, leafIndex: nat, siblings: seq<nat>)
    requires |path| <= 64
    ensures |siblings| == |path| && Follows(path, leafIndex, siblings) <==>
      siblings == Siblings(path) && leafIndex % Pow2(|path|) == Pack(path) % Pow2(|path|)
  {
    PackedFollows(path);
    LowBits(leafIndex, Pack(path), |path|);
    if siblings == Siblings(path) && SameBits(leafIndex, Pack(path), |path|) {
      assert Follows(path, leafIndex, siblings);
    }
  }

  /** Which proofs are the generated one for leaf i: those that show it. */
  lemma SameAsBuilt(h: Hasher, s: TreeState, pt: uint8, v: nat, i: nat, p: Proof)
    requires Provable(h, s) && i < |s.leaves|
    requires p.value == Some(v) && p.root == StoredRoot(s.nodes, |s.leaves|)
    ensures SameProof(p, BuildProof(s, pt, v, i)) <==> p.proofType == pt && ShowsCell(h, s, p, 0, i)
  {
    BuiltProof(h, s, pt, v, i);
    assert PathFrom(h, Commitments(h, s.leaves), 0, i, Depth(|s.leaves|)) == ProofPath(h, s, i);
    FollowsIsSame(ProofPath(h, s, i), p.leafIndex, p.siblings);
  }

  /** The proofs that pass the checks and show a leaf are the generated one. */
  lemma {:induction false} LeafProofIsGenerated(h: Hasher, s: TreeState, v: nat, p: Proof)
    requires Provable(h, s) && v > 0
    requires p.value == Some(v) && p.root == StoredRoot(s.nodes, |s.leaves|)
    ensures Generate(s, v).Success?
    ensures SameProof(p, Generate(s, v).value) <==> ChecksPass(p) && exists i: nat :: ShowsCell(h, s, p, 0, i)
  {
    var pt, i := LeafShown(h, s, v);
    SameAsBuilt(h, s, pt, v, i, p);
    if ChecksPass(p) && exists j: nat :: ShowsCell(h, s, p, 0, j) {
      var j: nat :| ShowsCell(h, s, p, 0, j);
      assert LeafFits(p.proofType, s.leaves[j], v);
    }
  }

  /** p passes for a proof by showing two children in place of a leaf record. */
  ghost predicate ShowsBranch(h: Hasher, s: TreeState, p: Proof) {
    ChecksPass(p) && exists k: nat, i: nat :: k > 0 && ShowsCell(h, s, p, k, i)
  }

  /** p passes for a proof by making one of the two numbers of a stored leaf record itself. */
  ghost predicate EntersLate(h: Hasher, s: TreeState, p: Proof) {
    ChecksPass(p) && exists step: nat, i: nat :: step > 0 && MeetsRoot(h, s, p, Entered(step, 0, i))
  }

  /** All ways to be accepted without a collision. */
  ghost predicate Passes(h: Hasher, s: TreeState, v: nat, p: Proof)
    requires s.nodes != []
  {
    || (Generate(s, v).Success? && SameProof(p, Generate(s, v).value))
    || ShowsBranch(h, s, p)
    || EntersLate(h, s, p)
  }

  lemma {:induction false} PassesIffEntered(h: Hasher, s: TreeState, v: nat, p: Proof)
    requires Provable(h, s) && v > 0
    requires p.value == Some(v) && p.root == StoredRoot(s.nodes, |s.leaves|)
    ensures Passes(h, s, v, p) <==> ChecksPass(p) && exists r: Meeting :: r.Entered? && MeetsRoot(h, s, p, r)
  {
    LeafProofIsGenerated(h, s, v, p);
    if ChecksPass(p) && exists r: Meeting :: r.Entered? && MeetsRoot(h, s, p, r) {
      var r: Meeting :| r.Entered? && MeetsRoot(h, s, p, r);
      ShowsIsEntered(h, s, p, r.level, r.index);
    }
    if ChecksPass(p) && exists k: nat, i: nat :: ShowsCell(h, s, p, k, i) {
      var k: nat, i: nat :| ShowsCell(h, s, p, k, i);
      ShowsIsEntered(h, s, p, k, i);
    }
  }

  /**
   What an attack has to find, for any hash at all: an accepted proof that is not one of
   those comes with two different pairs of equal hash, one hashed in the tree and one in
   the verifier's walk.
   */
  lemma {:induction false} ForgeryIsNamed(h: Hasher, s: TreeState, v: nat, p: Proof) returns (r: Meeting)
    requires Provable(h, s) && v > 0
    requires p.value == Some(v) && p.root == StoredRoot(s.nodes, |s.leaves|)
    requires Verify(h, Some(p))
    ensures Passes(h, s, v, p) || (r.Collided? && MeetsRoot(h, s, p, r))
  {
    r := AcceptedMeetsRoot(h, s, p);
    PassesIffEntered(h, s, v, p);
  }

  /** p is accepted for v and says the contrary of what the tree holds. */
  ghost predicate FalseProof(h: Hasher, s: TreeState, v: nat, p: Proof) {
    && s.nodes != [] && p.value == Some(v) && p.root == StoredRoot(s.nodes, |s.leaves|)
    && Verify(h, Some(p)) && p.proofType == FalseKind(s, v)
  }

  function TrueKind(s: TreeState, v: nat): uint8 {
    if v in UserValues(s.leaves) then PROOF_MEMBERSHIP else PROOF_NON_MEMBERSHIP
  }

  function FalseKind(s: TreeState, v: nat): uint8 {
    if v in UserValues(s.leaves) then PROOF_NON_MEMBERSHIP else PROOF_MEMBERSHIP
  }

  /** So a false proof shows a branch, enters late, or comes with a collision. */
  lemma {:induction false} FalseProofIsNamed(h: Hasher, s: TreeState, v: nat, p: Proof) returns (r: Meeting)
    requires Provable(h, s) && v > 0 && FalseProof(h, s, v, p)
    ensures ShowsBranch(h, s, p) || EntersLate(h, s, p) || (r.Collided? && MeetsRoot(h, s, p, r))
  {
    r := ForgeryIsNamed(h, s, v, p);
    Completeness(h, s, v);
  }

  // ----- entering late -----

  lemma EntersLateNeedsHash(h: Hasher, s: TreeState, p: Proof)
    requires EntersLate(h, s, p)
    ensures !HashFree(h, s.leaves)
  {
    var step: nat, i: nat :| step > 0 && MeetsRoot(h, s, p, Entered(step, 0, i));
    LateEntryHoldsOutput(h, Commitments(h, s.leaves), s.leaves, i, Record(p), p.leafIndex, p.siblings, step);
  }

  /** The record (a, b), whose hash is one of the numbers of leaf i, with the other as first sibling. */
  function LateProof(h: Hasher, s: TreeState, i: nat, a: nat, b: nat, pt: uint8, v: nat): Proof
    requires s.nodes != [] && i < |s.leaves| < TWO_63
  {
    var cs := Commitments(h, s.leaves);
    var path, leaf := Path(h, cs, i, Depth(|cs|)), s.leaves[i];
    var right := leaf.value != h(a, b);
    LateIndexFits(h, cs, i);
    Proof(pt, StoredRoot(s.nodes, |s.leaves|), Some(v), Some(a), Some(b),
          2 * Pack(path) + (if right then 1 else 0),
          [if right then leaf.value else leaf.nextValue] + Siblings(path))
  }

  lemma LateIndexFits(h: Hasher, cs: seq<nat>, i: nat)
    requires |cs| < TWO_63
    ensures 2 * Pack(Path(h, cs, i, Depth(|cs|))) + 1 < TWO_64
  {
    var path := Path(h, cs, i, Depth(|cs|));
    PathFits(h, cs, i);
    WordSizes();
    Pow2Monotone(|path|, 63);
  }

  lemma LatePair(h: Hasher, a: nat, b: nat, x: nat, right: bool, leafIndex: nat, siblings: seq<nat>)
    requires siblings != [] && siblings[0] == x && leafIndex % 2 == if right then 1 else 0
    ensures WalkPair(h, IndexedLeaf(a, b), leafIndex, siblings, 1) == if right then (x, h(a, b)) else (h(a, b), x)
  {
    assert Bit(leafIndex, 0) == right;
    assert Walk(h, h(a, b), leafIndex, siblings, 0) == h(a, b);
  }

  /** The packed path of leaf i leads to the root. */
  lemma LeafPathTaken(h: Hasher, cs: seq<nat>, i: nat)
    requires i < |cs| < TWO_63
    ensures var path := Path(h, cs, i, Depth(|cs|));
      TookPath(h, cs, 0, i, Depth(|cs|), 0, Pack(path), Siblings(path), |path|)
  {
    var path := Path(h, cs, i, Depth(|cs|));
    assert PathFrom(h, cs, 0, i, Depth(|cs|)) == path;
    PathFits(h, cs, i);
    PackedFollows(path);
    CellBelowRoot(h, cs, 0, i);
  }

  lemma ShiftedOnce(x: nat, bit: nat)
    requires bit < 2
    ensures Shift(2 * x + bit, 1) == x
  {
    assert Shift(2 * x + bit, 1) == Shift(x, 0);
  }

  /** Late entry at leaf i, from what the first step makes and what the rest follows. */
  lemma EntersAt(h: Hasher, s: TreeState, p: Proof, i: nat, leafIndex: nat, siblings: seq<nat>)
    requires p.leafValue.Some? && p.leafNextValue.Some? && i < |s.leaves| && p.siblings != []
    requires WalkPair(h, Record(p), p.leafIndex, p.siblings, 1) == (s.leaves[i].value, s.leaves[i].nextValue)
    requires Shift(p.leafIndex, 1) == leafIndex && p.siblings[1..] == siblings
    requires TookPath(h, Commitments(h, s.leaves), 0, i, Depth(|s.leaves|), 0, leafIndex, siblings, |siblings|)
    ensures MeetsRoot(h, s, p, Entered(1, 0, i))
  {
  }

  lemma LateFields(h: Hasher, s: TreeState, i: nat, a: nat, b: nat, pt: uint8, v: nat, path: seq<Step>)
    requires Provable(h, s) && i < |s.leaves|
    requires path == Path(h, Commitments(h, s.leaves), i, Depth(|s.leaves|))
    ensures var p, leaf := LateProof(h, s, i, a, b, pt, v), s.leaves[i];
      var right := leaf.value != h(a, b);
      && p.leafValue == Some(a) && p.leafNextValue == Some(b)
      && p.siblings == [if right then leaf.value else leaf.nextValue] + Siblings(path)
      && p.leafIndex == 2 * Pack(path) + if right then 1 else 0
  {
  }

  /** The first step makes the pair of a leaf record with hash c as one number, the rest follows its path. */
  lemma FirstStepEnters(
    h: Hasher, s: TreeState, p: Proof, i: nat, c: nat, x: nat, right: bool, path: nat, rest: seq<nat>)
    requires p.leafValue.Some? && p.leafNextValue.Some? && h(Record(p).value, Record(p).nextValue) == c
    requires i < |s.leaves|
    requires p.siblings == [x] + rest && p.leafIndex == 2 * path + if right then 1 else 0
    requires (s.leaves[i].value, s.leaves[i].nextValue) == if right then (x, c) else (c, x)
    requires TookPath(h, Commitments(h, s.leaves), 0, i, Depth(|s.leaves|), 0, path, rest, |rest|)
    ensures MeetsRoot(h, s, p, Entered(1, 0, i))
  {
    LatePair(h, Record(p).value, Record(p).nextValue, x, right, p.leafIndex, p.siblings);
    ShiftedOnce(path, if right then 1 else 0);
    EntersAt(h, s, p, i, path, rest);
  }

  lemma LateProofEnters(h: Hasher, s: TreeState, i: nat, a: nat, b: nat, pt: uint8, v: nat)
    requires Provable(h, s) && i < |s.leaves| && (s.leaves[i].value == h(a, b) || s.leaves[i].nextValue == h(a, b))
    ensures MeetsRoot(h, s, LateProof(h, s, i, a, b, pt, v), Entered(1, 0, i))
  {
    var leaf, path := s.leaves[i], Path(h, Commitments(h, s.leaves), i, Depth(|s.leaves|));
    var right := leaf.value != h(a, b);
    LateFields(h, s, i, a, b, pt, v, path);
    LeafPathTaken(h, Commitments(h, s.leaves), i);
    FirstStepEnters(h, s, LateProof(h, s, i, a, b, pt, v), i, h(a, b),
      if right then leaf.value else leaf.nextValue, right, Pack(path), Siblings(path));
  }

  /** Any record whose hash is a stored number is accepted for whatever it seems to prove. */
  lemma {:induction false} StoredHashForges(h: Hasher, s: TreeState, i: nat, a: nat, b: nat, pt: uint8, v: nat)
    requires Provable(h, s) && i < |s.leaves| && (s.leaves[i].value == h(a, b) || s.leaves[i].nextValue == h(a, b))
    requires LeafFits(pt, IndexedLeaf(a, b), v)
    ensures Verify(h, Some(LateProof(h, s, i, a, b, pt, v))) && EntersLate(h, s, LateProof(h, s, i, a, b, pt, v))
  {
    LateProofEnters(h, s, i, a, b, pt, v);
    EnteredIsAccepted(h, s, LateProof(h, s, i, a, b, pt, v), Entered(1, 0, i));
  }

  /** An accepted late proof against the root of s. */
  ghost predicate AcceptedLate(h: Hasher, s: TreeState, p: Proof) {
    s.nodes != [] && p.root == StoredRoot(s.nodes, |s.leaves|) && Verify(h, Some(p)) && EntersLate(h, s, p)
  }

  /** Exactly which trees have accepted late proofs, for any hash: those that store a hash. */
  lemma {:induction false} EntersLateIff(h: Hasher, s: TreeState)
    requires Provable(h, s)
    ensures (exists p :: AcceptedLate(h, s, p)) <==> !HashFree(h, s.leaves)
  {
    if p :| AcceptedLate(h, s, p) {
      EntersLateNeedsHash(h, s, p);
    }
    if !HashFree(h, s.leaves) {
      var i :| 0 <= i < |s.leaves| && HoldsOutput(h, s.leaves[i]);
      var a: nat, b: nat :| s.leaves[i].value == h(a, b) || s.leaves[i].nextValue == h(a, b);
      StoredHashForges(h, s, i, a, b, PROOF_MEMBERSHIP, a);
      assert AcceptedLate(h, s, LateProof(h, s, i, a, b, PROOF_MEMBERSHIP, a));
    }
  }

  /**
   A stored hash breaks even non-membership of small values: with 5 and the hash of
   (3, 9) stored, the record (3, 9) is accepted as a proof that 5 is absent.
   */
  lemma {:induction false} StoredHashDeniesFive(h: Hasher)
    requires Ideal(h, 6)
    ensures var (t, e) := Apply(h, EMPTY_TREE, InsertMany([5, h(3, 9)]));
      && e.None? && 5 in UserValues(t.leaves) && 2 < |t.leaves| < TWO_63
      && FalseProof(h, t, 5, LateProof(h, t, 2, 3, 9, PROOF_NON_MEMBERSHIP, 5))
  {
    var x := h(3, 9);
    var op := InsertMany([5, x]);
    EmptyIsCoherent(h);
    assert CanApply([], op);
    ApplySucceeds(h, EMPTY_TREE, op);
    ApplyCorrect(h, EMPTY_TREE, op);
    var t := Apply(h, EMPTY_TREE, op).0;
    assert [] + [5, x] == [5, x];
    assert UserValues(t.leaves)[0] == 5 && UserValues(t.leaves)[1] == x == t.leaves[2].value;
    StoredHashForges(h, t, 2, 3, 9, PROOF_NON_MEMBERSHIP, 5);
  }

  // ----- what the verifier accepts under an injective hash -----

  /**
   Soundness and uniqueness, for every v > 0 and proofs against the tree's root with
   sibling lists of any length: the verifier accepts exactly the generated proof, up to
   the unused high bits of the leaf index, those that show a branch for a leaf, and those
   that make a number of a stored record themselves, of which there are none if the tree
   stores no hash.
   */
  lemma {:induction false} AcceptedIffGenerated(h: Hasher, s: TreeState, v: nat, p: Proof)
    requires Provable(h, s) && Injective(h) && v > 0
    requires p.value == Some(v) && p.root == StoredRoot(s.nodes, |s.leaves|)
    ensures Generate(s, v).Success?
    ensures Verify(h, Some(p)) <==>
      SameProof(p, Generate(s, v).value) || ShowsBranch(h, s, p) || EntersLate(h, s, p)
    ensures HashFree(h, s.leaves) ==> !EntersLate(h, s, p)
  {
    LeafProofIsGenerated(h, s, v, p);
    AcceptedIffPasses(h, s, v, p);
    if EntersLate(h, s, p) {
      EntersLateNeedsHash(h, s, p);
    }
  }

  lemma AcceptedIffPasses(h: Hasher, s: TreeState, v: nat, p: Proof)
    requires Provable(h, s) && Injective(h) && v > 0
    requires p.value == Some(v) && p.root == StoredRoot(s.nodes, |s.leaves|)
    ensures Verify(h, Some(p)) <==> Passes(h, s, v, p)
  {
    if Verify(h, Some(p)) {
      var r := ForgeryIsNamed(h, s, v, p);
      if r.Collided? && MeetsRoot(h, s, p, r) {
        NotCollided(h, s, p, r);
      }
    }
    if Passes(h, s, v, p) {
      PassesIffEntered(h, s, v, p);
      var r: Meeting :| r.Entered? && MeetsRoot(h, s, p, r);
      EnteredIsAccepted(h, s, p, r);
    }
  }

  lemma NotCollided(h: Hasher, s: TreeState, p: Proof, r: Meeting)
    requires Injective(h) && MeetsRoot(h, s, p, r)
    ensures r.Entered?
  {
    if r.Collided? {
      var a := WalkPair(h, Record(p), p.leafIndex, p.siblings, r.step);
      var b := TreePair(h, Commitments(h, s.leaves), s.leaves, r.level, r.index);
      NoCollision(h, a.0, a.1, b.0, b.1);
    }
  }

  /** Cell i of level k has two children, l and r. */
  ghost predicate HasChildren(h: Hasher, s: TreeState, l: nat, r: nat, k: nat, i: nat) {
    var cs := Commitments(h, s.leaves);
    0 < k <= Depth(|cs|) && Hashed(|cs|, k, i) && TreePair(h, cs, s.leaves, k, i) == (l, r)
  }

  /** Two children of the tree that, taken for a leaf record, say the contrary of what it holds of v. */
  ghost predicate FalseBranch(h: Hasher, s: TreeState, v: nat) {
    exists l: nat, r: nat, k: nat, i: nat ::
      HasChildren(h, s, l, r, k, i) && LeafFits(FalseKind(s, v), IndexedLeaf(l, r), v)
  }

  ghost predicate FalseLateProof(h: Hasher, s: TreeState, v: nat, p: Proof) {
    FalseProof(h, s, v, p) && EntersLate(h, s, p)
  }

  /** The proof that shows cell i of level k as if its children were a leaf record. */
  function BranchProof(h: Hasher, s: TreeState, k: nat, i: nat, pt: uint8, v: nat): Proof
    requires s.nodes != [] && 0 < k <= Depth(|s.leaves|) && Hashed(|s.leaves|, k, i)
  {
    var cs := Commitments(h, s.leaves);
    var (l, r) := TreePair(h, cs, s.leaves, k, i);
    var path := PathFrom(h, cs, k, i, Depth(|cs|));
    PackFits(path);
    Proof(pt, StoredRoot(s.nodes, |s.leaves|), Some(v), Some(l), Some(r), Pack(path), Siblings(path))
  }

  lemma InnerPathFits(h: Hasher, s: TreeState, k: nat, i: nat)
    requires Provable(h, s) && k <= Depth(|s.leaves|)
    ensures |PathFrom(h, Commitments(h, s.leaves), k, i, Depth(|s.leaves|))| <= 63
  {
    PathFromLength(h, Commitments(h, s.leaves), k, i, Depth(|s.leaves|));
    WordSizes();
    DepthFits(|s.leaves|, 63);
  }

  lemma BranchProofShows(h: Hasher, s: TreeState, k: nat, i: nat, pt: uint8, v: nat)
    requires Provable(h, s) && 0 < k <= Depth(|s.leaves|) && Hashed(|s.leaves|, k, i)
    ensures ShowsCell(h, s, BranchProof(h, s, k, i, pt, v), k, i)
  {
    InnerPathFits(h, s, k, i);
    PackedFollows(PathFrom(h, Commitments(h, s.leaves), k, i, Depth(|s.leaves|)));
  }

  lemma {:induction false} BranchProofAccepted(
    h: Hasher, s: TreeState, k: nat, i: nat, pt: uint8, v: nat, l: nat, r: nat)
    requires Provable(h, s) && HasChildren(h, s, l, r, k, i) && LeafFits(pt, IndexedLeaf(l, r), v)
    ensures Verify(h, Some(BranchProof(h, s, k, i, pt, v)))
  {
    BranchProofShows(h, s, k, i, pt, v);
    ShowsIsEntered(h, s, BranchProof(h, s, k, i, pt, v), k, i);
    EnteredIsAccepted(h, s, BranchProof(h, s, k, i, pt, v), Entered(0, k, i));
  }

  lemma BranchShownHasChildren(h: Hasher, s: TreeState, p: Proof)
    requires ShowsBranch(h, s, p)
    ensures exists k: nat, i: nat :: HasChildren(h, s, p.leafValue.value, p.leafNextValue.value, k, i)
  {
    var k: nat, i: nat :| k > 0 && ShowsCell(h, s, p, k, i);
    assert HasChildren(h, s, p.leafValue.value, p.leafNextValue.value, k, i);
  }

  lemma FalseBranchIsFalse(h: Hasher, s: TreeState, v: nat)
    requires Provable(h, s) && FalseBranch(h, s, v)
    ensures exists p :: FalseProof(h, s, v, p)
  {
    var l: nat, r: nat, k: nat, i: nat :|
      HasChildren(h, s, l, r, k, i) && LeafFits(FalseKind(s, v), IndexedLeaf(l, r), v);
    BranchProofAccepted(h, s, k, i, FalseKind(s, v), v, l, r);
    assert FalseProof(h, s, v, BranchProof(h, s, k, i, FalseKind(s, v), v));
  }

  /** What a false proof is, under an injective hash. */
  lemma {:induction false} FalseProofIsBranchOrLate(h: Hasher, s: TreeState, v: nat, p: Proof)
    requires Provable(h, s) && Injective(h) && v > 0 && FalseProof(h, s, v, p)
    ensures FalseBranch(h, s, v) || (EntersLate(h, s, p) && !HashFree(h, s.leaves))
  {
    AcceptedIffGenerated(h, s, v, p);
    Completeness(h, s, v);
    if ShowsBranch(h, s, p) {
      BranchShownHasChildren(h, s, p);
    }
  }

  /**
   Exactly for which v > 0 a false proof is accepted under an injective hash: those that
   two children of the tree, read as a leaf record, lie about, and those that a late proof
   lies about; if the tree stores no hash, the former alone.
   */
  lemma {:induction false} FalseProofIff(h: Hasher, s: TreeState, v: nat)
    requires Provable(h, s) && Injective(h) && v > 0
    ensures (exists p :: FalseProof(h, s, v, p)) <==> FalseBranch(h, s, v) || exists p :: FalseLateProof(h, s, v, p)
    ensures HashFree(h, s.leaves) ==> !exists p :: FalseLateProof(h, s, v, p)
  {
    if p :| FalseProof(h, s, v, p) {
      FalseProofIsBranchOrLate(h, s, v, p);
      assert EntersLate(h, s, p) ==> FalseLateProof(h, s, v, p);
    }
    if FalseBranch(h, s, v) {
      FalseBranchIsFalse(h, s, v);
    }
    if p :| FalseLateProof(h, s, v, p) {
      EntersLateNeedsHash(h, s, p);
    }
  }

  /** A value that is no hash is denied by no membership proof of the tree's children. */
  lemma FalseBranchOfAbsent(h: Hasher, s: TreeState, v: nat)
    requires FalseBranch(h, s, v) && v !in UserValues(s.leaves)
    ensures IsLeftChild(h, s, v) && IsOutput(h, v)
  {
    var l: nat, r: nat, k: nat, i: nat :|
      HasChildren(h, s, l, r, k, i) && LeafFits(FalseKind(s, v), IndexedLeaf(l, r), v);
    CommitmentsCommit(h, s.leaves);
    BranchIsOutput(h, Commitments(h, s.leaves), s.leaves, k, i);
  }

  /** x is the left one of two children in the tree. */
  ghost predicate IsLeftChild(h: Hasher, s: TreeState, x: nat) {
    exists r: nat, k: nat, i: nat :: HasChildren(h, s, x, r, k, i)
  }

  // ----- the same when all values lie below the hashes -----

  /** An ideal hash over values below its outputs. */
  ghost predicate Separated(h: Hasher, bound: nat, s: TreeState) {
    Ideal(h, bound) && forall i :: 0 <= i < |s.leaves| ==> s.leaves[i].value < bound
  }

  predicate AllBelow(vs: seq<nat>, bound: nat) {
    forall i :: 0 <= i < |vs| ==> vs[i] < bound
  }

  lemma ValuesSeparate(h: Hasher, bound: nat, t: TreeState)
    requires Linked(t.leaves) && Ideal(h, bound) && AllBelow(UserValues(t.leaves), bound)
    ensures Separated(h, bound, t)
  {
    forall i | 0 <= i < |t.leaves|
      ensures t.leaves[i].value < bound
    {
      assert UserValues(t.leaves)[if i > 0 then i - 1 else 0] < bound;
    }
  }

  /** The pointers of a linked list are values of it, so a list of values that are no hashes holds none. */
  lemma {:induction false} ValuesHashFree(h: Hasher, ls: Leaves)
    requires Linked(ls) && forall i :: 0 <= i < |ls| ==> !IsOutput(h, ls[i].value)
    ensures HashFree(h, ls)
  {
    forall i | 0 <= i < |ls|
      ensures !HoldsOutput(h, ls[i])
    {
      assert PointsRight(ls, i);
      if ls[i].nextValue != 0 {
        var j :| 0 <= j < |ls| && Values(ls)[j] == ls[i].nextValue;
      } else {
        assert ls[0].value == 0;
      }
    }
  }

  lemma SeparatedHashFree(h: Hasher, bound: nat, s: TreeState)
    requires Linked(s.leaves) && Separated(h, bound, s)
    ensures HashFree(h, s.leaves)
  {
    forall i | 0 <= i < |s.leaves|
      ensures !IsOutput(h, s.leaves[i].value)
    {
      SmallIsNoOutput(h, bound, s.leaves[i].value);
    }
    ValuesHashFree(h, s.leaves);
  }

  lemma StoredValueIsSmall(h: Hasher, bound: nat, s: TreeState, v: nat)
    requires Provable(h, s) && Separated(h, bound, s) && v in UserValues(s.leaves)
    ensures 0 < v < bound
  {
    ZeroNotInserted(s.leaves);
    UserValueAt(s.leaves, v);
  }

  lemma ChildrenAreLarge(h: Hasher, bound: nat, s: TreeState, l: nat, r: nat, k: nat, i: nat)
    requires Ideal(h, bound) && HasChildren(h, s, l, r, k, i)
    ensures l >= bound && r >= bound
  {
    CommitmentsCommit(h, s.leaves);
    BranchIsOutput(h, Commitments(h, s.leaves), s.leaves, k, i);
  }

  /** Then only values never inserted are lied about, and only if they are left children. */
  lemma {:induction false} SeparatedFalseBranch(h: Hasher, bound: nat, s: TreeState, v: nat)
    requires Provable(h, s) && Separated(h, bound, s) && v > 0
    ensures FalseBranch(h, s, v) <==> v !in UserValues(s.leaves) && IsLeftChild(h, s, v)
    ensures IsLeftChild(h, s, v) ==> v >= bound
  {
    if FalseBranch(h, s, v) {
      var l: nat, r: nat, k: nat, i: nat :|
        HasChildren(h, s, l, r, k, i) && LeafFits(FalseKind(s, v), IndexedLeaf(l, r), v);
      ChildrenAreLarge(h, bound, s, l, r, k, i);
      if v in UserValues(s.leaves) {
        StoredValueIsSmall(h, bound, s, v);
      }
    }
    if IsLeftChild(h, s, v) {
      var r: nat, k: nat, i: nat :| HasChildren(h, s, v, r, k, i);
      ChildrenAreLarge(h, bound, s, v, r, k, i);
      assert v !in UserValues(s.leaves) ==> LeafFits(FalseKind(s, v), IndexedLeaf(v, r), v);
    }
  }

  lemma KindIsTrueOrFalse(s: TreeState, v: nat, p: Proof)
    requires ChecksPass(p)
    ensures p.proofType == TrueKind(s, v) || p.proofType == FalseKind(s, v)
  {
  }

  /**
   What an accepted proof for any v > 0 says is true, save that membership is also
   accepted of a left child; of a value below the hash outputs it is always true.
   */
  lemma {:induction false} Soundness(h: Hasher, bound: nat, s: TreeState, v: nat, p: Proof)
    requires Provable(h, s) && Separated(h, bound, s) && v > 0
    requires p.value == Some(v) && p.root == StoredRoot(s.nodes, |s.leaves|)
    requires Verify(h, Some(p))
    ensures p.proofType == TrueKind(s, v) || (p.proofType == PROOF_MEMBERSHIP && IsLeftChild(h, s, v))
    ensures v < bound ==> p.proofType == TrueKind(s, v)
  {
    KindIsTrueOrFalse(s, v, p);
    SeparatedHashFree(h, bound, s);
    SeparatedFalseBranch(h, bound, s, v);
    if FalseProof(h, s, v, p) {
      FalseProofIsBranchOrLate(h, s, v, p);
    }
  }

  /** Exactly of which values a false proof is accepted then: of the left children of the tree. */
  lemma {:induction false} FalseMembershipIff(h: Hasher, bound: nat, s: TreeState, v: nat)
    requires Provable(h, s) && Separated(h, bound, s) && v > 0
    ensures (exists p :: FalseProof(h, s, v, p)) <==> IsLeftChild(h, s, v)
    ensures IsLeftChild(h, s, v) ==> v !in UserValues(s.leaves)
  {
    FalseProofIff(h, s, v);
    SeparatedHashFree(h, bound, s);
    SeparatedFalseBranch(h, bound, s, v);
    if v in UserValues(s.leaves) {
      StoredValueIsSmall(h, bound, s, v);
    }
  }

  lemma RootHasChildren(n: nat)
    requires n > 1
    ensures Depth(n) > 0 && Width(n, Depth(n) - 1) == 2 && Hashed(n, Depth(n), 0)
  {
    InnerRowsAreWide(n, Depth(n) - 1);
    TopRowIsSingle(n);
  }

  /** The two children of the root. */
  function RootChildren(h: Hasher, s: TreeState): (nat, nat)
    requires |s.leaves| > 1
  {
    RootHasChildren(|s.leaves|);
    TreePair(h, Commitments(h, s.leaves), s.leaves, Depth(|s.leaves|), 0)
  }

  /** The record of l and r, without siblings, as a proof that l is a member. */
  function RootChildProof(h: Hasher, s: TreeState): Proof
    requires |s.leaves| > 1 && s.nodes != []
  {
    var (l, r) := RootChildren(h, s);
    Proof(PROOF_MEMBERSHIP, StoredRoot(s.nodes, |s.leaves|), Some(l), Some(l), Some(r), 0, [])
  }

  lemma RootBranchProof(h: Hasher, s: TreeState, l: nat, r: nat)
    requires Provable(h, s) && 0 < Depth(|s.leaves|) && Hashed(|s.leaves|, Depth(|s.leaves|), 0)
    requires RootChildren(h, s) == (l, r)
    ensures BranchProof(h, s, Depth(|s.leaves|), 0, PROOF_MEMBERSHIP, l) == RootChildProof(h, s)
    ensures HasChildren(h, s, l, r, Depth(|s.leaves|), 0)
  {
    assert PathFrom(h, Commitments(h, s.leaves), Depth(|s.leaves|), 0, Depth(|s.leaves|)) == [];
  }

  /**
   Every non-empty tree has one, whatever the hash: the record of the root's two children
   is accepted, without siblings, as the membership of the left one; if that was never
   inserted, the proof is false.
   */
  lemma {:induction false} RootChildHasMembershipProof(h: Hasher, s: TreeState)
    requires Provable(h, s)
    ensures Verify(h, Some(RootChildProof(h, s)))
    ensures var l := RootChildren(h, s).0;
      IsLeftChild(h, s, l) && (l !in UserValues(s.leaves) ==> FalseProof(h, s, l, RootChildProof(h, s)))
  {
    var (l, r) := RootChildren(h, s);
    RootHasChildren(|s.leaves|);
    RootBranchProof(h, s, l, r);
    BranchProofAccepted(h, s, Depth(|s.leaves|), 0, PROOF_MEMBERSHIP, l, l, r);
  }

  /**
   The verifier does not refuse the value zero: every non-empty tree has an accepted
   membership proof of it, made from the sentinel.  So soundness of membership needs v > 0.
   */
  lemma {:induction false} ZeroHasMembershipProof(h: Hasher, s: TreeState)
    requires Provable(h, s)
    ensures var p := BuildProof(s, PROOF_MEMBERSHIP, 0, 0);
      && Verify(h, Some(p))
      && p.proofType == PROOF_MEMBERSHIP && p.value == Some(0) && p.root == StoredRoot(s.nodes, |s.leaves|)
      && 0 !in UserValues(s.leaves)
  {
    BuiltProof(h, s, PROOF_MEMBERSHIP, 0, 0);
    var p := BuildProof(s, PROOF_MEMBERSHIP, 0, 0);
    PathWalksToRoot(h, s, 0, p.leafIndex, p.siblings);
    ZeroNotInserted(s.leaves);
  }

  lemma ZeroNotInserted(ls: Leaves)
    requires Linked(ls)
    ensures 0 !in UserValues(ls)
  {
    forall i | 0 <= i < |UserValues(ls)|
      ensures UserValues(ls)[i] != 0
    {
      assert Values(ls)[i + 1] != Values(ls)[0];
    }
  }

  // ----- what a root binds -----

  lemma RecursiveRootIsOutput(h: Hasher, cs: seq<nat>, ls: Leaves)
    requires CommitsTo(h, cs, ls) && cs != []
    ensures IsOutput(h, RecursiveRoot(h, cs))
  {
    if |cs| > 1 {
      var m := Split(|cs|);
      assert RecursiveRoot(h, cs) == h(RecursiveRoot(h, cs[..m]), RecursiveRoot(h, cs[m..]));
    } else {
      assert cs[0] == h(ls[0].value, ls[0].nextValue);
    }
  }

  lemma SplitCommits(h: Hasher, cs: seq<nat>, ls: Leaves, m: nat)
    requires CommitsTo(h, cs, ls) && HashFree(h, ls) && m <= |cs|
    ensures CommitsTo(h, cs[..m], ls[..m]) && HashFree(h, ls[..m])
    ensures CommitsTo(h, cs[m..], ls[m..]) && HashFree(h, ls[m..])
  {
  }

  /** A single leaf and a longer list have different roots. */
  lemma LeafIsNoTree(h: Hasher, cs: seq<nat>, ls: Leaves, cs': seq<nat>, ls': Leaves)
    requires Injective(h) && CommitsTo(h, cs, ls) && HashFree(h, ls) && CommitsTo(h, cs', ls') && HashFree(h, ls')
    requires |cs| == 1 && |cs'| > 1
    ensures RecursiveRoot(h, cs) != RecursiveRoot(h, cs')
  {
    var m := Split(|cs'|);
    SplitCommits(h, cs', ls', m);
    var l, r := RecursiveRoot(h, cs'[..m]), RecursiveRoot(h, cs'[m..]);
    RecursiveRootIsOutput(h, cs'[..m], ls'[..m]);
    if h(ls[0].value, ls[0].nextValue) == h(l, r) {
      NoCollision(h, ls[0].value, ls[0].nextValue, l, r);
    }
  }

  /** Lists of leaf records with the same recursive root are the same, whatever their lengths. */
  lemma {:induction false} RecursiveRootBinds(h: Hasher, cs: seq<nat>, ls: Leaves, cs': seq<nat>, ls': Leaves)
    requires Injective(h) && CommitsTo(h, cs, ls) && HashFree(h, ls) && CommitsTo(h, cs', ls') && HashFree(h, ls')
    requires cs != [] && cs' != [] && RecursiveRoot(h, cs) == RecursiveRoot(h, cs')
    ensures ls == ls'
    decreases |cs|
  {
    if |cs| == 1 && |cs'| == 1 {
      NoCollision(h, ls[0].value, ls[0].nextValue, ls'[0].value, ls'[0].nextValue);
    } else if |cs| == 1 {
      LeafIsNoTree(h, cs, ls, cs', ls');
    } else if |cs'| == 1 {
      LeafIsNoTree(h, cs', ls', cs, ls);
    } else {
      var m, m' := Split(|cs|), Split(|cs'|);
      SplitCommits(h, cs, ls, m);
      SplitCommits(h, cs', ls', m');
      NoCollision(h, RecursiveRoot(h, cs[..m]), RecursiveRoot(h, cs[m..]),
        RecursiveRoot(h, cs'[..m']), RecursiveRoot(h, cs'[m'..]));
      RecursiveRootBinds(h, cs[..m], ls[..m], cs'[..m'], ls'[..m']);
      RecursiveRootBinds(h, cs[m..], ls[m..], cs'[m'..], ls'[m'..]);
      assert ls == ls[..m] + ls[m..] && ls' == ls'[..m'] + ls'[m'..];
    }
  }

  /** A published root fixes the whole tree: leaves, their storage order, and grid. */
  lemma {:induction false} RootBindsTree(h: Hasher, s: TreeState, t: TreeState)
    requires Provable(h, s) && Provable(h, t) && Injective(h) && HashFree(h, s.leaves) && HashFree(h, t.leaves)
    ensures StoredRoot(s.nodes, |s.leaves|) == StoredRoot(t.nodes, |t.leaves|) <==> s == t
  {
    var cs, cs' := Commitments(h, s.leaves), Commitments(h, t.leaves);
    GridRoot(h, cs);
    GridRoot(h, cs');
    RootIsRecursiveRoot(h, cs);
    RootIsRecursiveRoot(h, cs');
    CommitmentsCommit(h, s.leaves);
    CommitmentsCommit(h, t.leaves);
    if RootOf(h, cs) == RootOf(h, cs') {
      RecursiveRootBinds(h, cs, s.leaves, cs', t.leaves);
    }
  }

  // ----- from a run to its proofs -----

  /**
   End to end, against the root of a tree built by any successful run from empty and for
   every v > 0, under an injective hash: which proofs are accepted, and that a false one
   is among those that show a branch or enter late.  If no value of the run is a hash,
   none enters late; if all lie below the hashes, so that v < bound is not among them,
   every accepted proof for v says truly whether the run inserted it.
   */
  lemma {:induction false} RunProofs(h: Hasher, bound: nat, ops: seq<Op>, t: TreeState, v: nat, p: Proof)
    requires Run(h, EMPTY_TREE, ops) == Some(t) && ops != []
    requires Injective(h) && v > 0 && |t.leaves| < TWO_63
    requires p.value == Some(v) && p.root == StoredRoot(t.nodes, |t.leaves|)
    ensures Generate(t, v).Success?
    ensures Verify(h, Some(p)) <==>
      SameProof(p, Generate(t, v).value) || ShowsBranch(h, t, p) || EntersLate(h, t, p)
    ensures Verify(h, Some(p)) ==> RunSays(ops, v, p) || FalseBranch(h, t, v) || EntersLate(h, t, p)
    ensures ValuesApart(h, RunValues(ops)) ==> !EntersLate(h, t, p)
    ensures Ideal(h, bound) && AllBelow(RunValues(ops), bound) && v < bound && Verify(h, Some(p)) ==> RunSays(ops, v, p)
  {
    EmptyIsCoherent(h);
    RunCorrect(h, EMPTY_TREE, ops);
    assert UserValues(t.leaves) == RunValues(ops) by {
      assert [] + RunValues(ops) == RunValues(ops);
    }
    RunNotEmpty(h, ops);
    AcceptedIffGenerated(h, t, v, p);
    if Verify(h, Some(p)) {
      KindIsTrueOrFalse(t, v, p);
      if FalseProof(h, t, v, p) {
        FalseProofIsBranchOrLate(h, t, v, p);
      }
    }
    RunHashFree(h, t);
    if Ideal(h, bound) && AllBelow(RunValues(ops), bound) && v < bound && Verify(h, Some(p)) {
      ValuesSeparate(h, bound, t);
      Soundness(h, bound, t, v, p);
    }
  }

  /** p says truly whether the run inserted v. */
  ghost predicate RunSays(ops: seq<Op>, v: nat, p: Proof) {
    p.proofType == if v in RunValues(ops) then PROOF_MEMBERSHIP else PROOF_NON_MEMBERSHIP
  }

  /** Neither 0 nor any of the values is a hash. */
  ghost predicate ValuesApart(h: Hasher, vs: seq<nat>) {
    !IsOutput(h, 0) && forall i :: 0 <= i < |vs| ==> !IsOutput(h, vs[i])
  }

  lemma RunHashFree(h: Hasher, t: TreeState)
    requires Linked(t.leaves)
    ensures ValuesApart(h, UserValues(t.leaves)) ==> HashFree(h, t.leaves)
  {
    if ValuesApart(h, UserValues(t.leaves)) {
      forall i | 0 <= i < |t.leaves|
        ensures !IsOutput(h, t.leaves[i].value)
      {
        if i > 0 {
          assert UserValues(t.leaves)[i - 1] == t.leaves[i].value;
        }
      }
      ValuesHashFree(h, t.leaves);
    }
  }

  lemma RunNotEmpty(h: Hasher, ops: seq<Op>)
    requires Run(h, EMPTY_TREE, ops).Some? && ops != []
    ensures RunValues(ops) != []
  {
    EmptyIsCoherent(h);
    ApplySucceeds(h, EMPTY_TREE, ops[0]);
  }
}
