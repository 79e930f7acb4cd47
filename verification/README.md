# LeanIMT+ revocation tree: a verified model

This project models the accumulator that commits a certificate revocation list to
one number: a Merkle tree whose leaves form a sorted linked list, so that it can prove
both that a serial is revoked and that it is not. It covers the tree and its two
insertion paths, proof generation and verification, the preparation of serials, and the
binary and JSON snapshots.

What is proved, in short:

- Every run of insertions, in any mix of single inserts, batches and sorted batches that
  succeed, ends with a linked list of exactly the given values and with the grid that
  rebuilding from scratch gives, whatever order the changed cells are visited in. The
  state depends only on the values and their order. The linked list also survives every
  run with failing operations in it.
- What an operation does is specified exactly on every tree with a level-0 cell for each
  leaf, coherent or not, and with its cost in hashes. From it follows which part of the grid
  is stale after a run with failures, and, under an injective hash, exactly when such a run
  ends with the grid built from scratch.
- Under an injective hash, for every v > 0 and sibling lists of any length, the verifier
  accepts a proof against the root of a coherent tree if and only if it is the generated one
  up to unused high bits of the leaf index, or it shows two children of a branch in place of
  a leaf record, or it makes one number of a stored leaf record itself. Without any
  assumption on the hash, every other accepted proof comes with a named collision.
- Proofs of the last kind exist if and only if a stored number is a hash, which nothing in
  the code prevents; then even the absence of a stored small value can be accepted. For a
  tree that stores no hash, a false proof for v is accepted if and only if two children of
  the tree, read as a leaf record, lie about v. If moreover all stored values lie below the
  hash outputs, those v are exactly the left children of the tree, never inserted, and all
  else the verifier accepts is true.
- On every non-empty coherent tree every v > 0 has an accepted proof that is true.
- Under an injective hash two trees that store no hash have equal roots only if they are equal.
- Failing operations keep the root of a non-empty coherent tree. After any number of them,
  under an injective hash of which no value is an output, all generated proofs are still
  accepted if and only if the tree was not empty and refused all of them at once; all
  accepted proofs for v are true if and only if the tree was empty, or v was not taken and
  was not lied about before.
- The incremental grid equals the recursive tree that splits at the largest power of two;
  a sorted build of N values costs exactly 2N + 1 hashes.
- A tree built from a revocation list depends only on the set of its positive serials.
- Both snapshot formats restore exactly the states they can; truncated binary snapshots
  are refused. Which bytes and texts are written, which are accepted and why others are refused
  is stated digit by digit, apart from the writers and parsers.

## How it is built

| file | contents |
|---|---|
| Prelude.dfy | options and results; powers of two, bits, halving |
| Types.dfy | leaf, proof, errors; the ideal hash and a concrete one |
| Grid.dfy | the grid as a function of the leaf commitments; its shape; the recursive tree |
| LinkedLeaves.dfy | the linked list, the low-leaf search, both insertion paths on leaves |
| Paths.dfy | proof paths, packed direction bits, the walk to the root and what can reach it |
| Recompute.dfy | rebuilding on any grid: what it does, what it costs, what stays stale |
| TreeSpec.dfy | the tree as a state machine; whole runs |
| ProofSpec.dfy | generation, verification, completeness, soundness, what a root binds |
| InsertSteps.dfy | the insertion loops, step by step, and the whole step on any tree |
| Staleness.dfy | steps on coherent and on stale trees, their cost, runs with failures |
| Repair.dfy | which runs with failures end coherent, and that there are such runs |
| Failures.dfy | what failing operations take, and proofs after them |
| LeanIMTPlus.dfy | the tree class and the verifier, with the source's loops and branches |
| Dedup.dfy | preparing serials, and the pipeline to a tree |
| Hex.dfy, Snapshot.dfy | the hex texts and the JSON snapshot, with what each of its fields says |
| Binary.dfy | the binary snapshot as a writer and a parser; round trips |
| BinaryLayout.dfy | the same format byte by byte, without writer and parser |
| BinaryIO.dfy | the loops that write and read it |

Modelling choices. Tree values are naturals. The hash is a parameter; a theorem that needs
it injective says so, and one that needs some number to be no hash asks for that number
alone. `Types.Ideal` is the handy special case: injective, with all outputs at or above a
bound, so that no number below the bound is a hash; `Types.IdealHashExists` shows that it
can be met for every bound. The source does not keep hashes out of the values it stores, so
the bounded theorems are corollaries of the ones that name what goes wrong otherwise.
A nil pointer is `None`. The set of changed positions is a set, from which the methods pick
in any order. Slices that never outgrow Go's `int` have fewer than 2^63 elements (`TWO_63`).
Locks are left out: every operation is one step. The tree methods ask of their caller only
that level 0 has a cell for each leaf, which `New`, `ImportState` and every method ensure.
The ghost field `calls` counts hash computations. A grid left stale by a failed batch can
make the source hash a nil left node; what that yields is left open.

Where the source's documentation and code disagree, the model follows the code. The root
README describes an absent node of a binary snapshot as a promoted one; the code stores
the promoted hash itself, so that no cell of a coherent grid is absent (`Grid.GridOf`).
The comment on `IndexedLeaf` speaks of the leaf with value < v < nextValue; the search
also stops at nextValue = v, which is how duplicates are found.

## Model

| member | source | states |
|---|---|---|
| Types.IdealHashExists | server/internal/leanimt_plus/hasher.go:11 | for every bound some hash is injective with all outputs at or above the bound, so the soundness theorems are about something |
| Grid.DepthIsBitsLen | server/internal/leanimt_plus/insert.go:189-193 | halving rounded up until one node is left takes as many steps as n - 1 has bits, which is the depth the code asks for |
| Grid.GridDepth | server/internal/leanimt_plus/insert.go:189-196 | depth d of the grid over n leaves has 2^(d-1) < n <= 2^d |
| Grid.GridRows | server/internal/leanimt_plus/insert.go:206-229 | the width of every row, halving rounded up from n at the bottom; exactly the top row has one cell |
| Grid.UpAt | server/internal/leanimt_plus/insert.go:209-221 | each cell of the row above is the hash of its two children, or its only child |
| Grid.CellIsRecursiveRoot | server/internal/leanimt_plus/insert.go:206-229 | cell i of level k is the recursive root of leaves i*2^k to (i+1)*2^k, the tree that splits at the largest power of two below its size |
| Grid.SplitIsPow2 | server/internal/leanimt_plus/insert.go:206-229 | the split point of the recursive tree is the power of two below the size and at least half of it |
| Grid.RootIsRecursiveRoot | server/internal/leanimt_plus/tree.go:45-54 | the level-by-level root equals the recursive root of all leaves |
| Grid.GridRoot | server/internal/leanimt_plus/tree.go:45-54 | the stored root of a grid over at least one leaf is present and is that root |
| LinkedLeaves.LinkedIsDetermined | server/internal/leanimt_plus/leaf.go:5-12 | a linked list is determined by its values in insertion order |
| LinkedLeaves.LowLeafUnique | server/internal/leanimt_plus/insert.go:163-174 | on a non-empty linked list and v > 0 exactly one leaf meets the search condition, the search returns it, and its pointer equals v exactly when v is present |
| LinkedLeaves.InsertLeafCorrect | server/internal/leanimt_plus/insert.go:134-157 | an insertion succeeds exactly for a positive absent value and then keeps the list linked with that value added last; zero and present values get their own errors, so the not-found error never occurs |
| LinkedLeaves.SpliceKeepsLinked | server/internal/leanimt_plus/insert.go:154-156 | redirecting the predecessor and copying its pointer keeps every pointer at the least larger value |
| LinkedLeaves.InsertBatchCorrect | server/internal/leanimt_plus/insert.go:131-161 | a batch takes exactly the values before the first zero or present one, keeps the list linked, and succeeds exactly when there is none |
| LinkedLeaves.SortedRefinesNaive | server/internal/leanimt_plus/insert.go:72-100 | the tail path succeeds exactly on ascending input above a tail stored last, and then ends with the leaves of the search path |
| LinkedLeaves.SortedFailure | server/internal/leanimt_plus/insert.go:72-85 | a failing tail path on a linked list did what the search path does on the values it took |
| LinkedLeaves.SortedErrors | server/internal/leanimt_plus/insert.go:72-85 | on any leaves the tail path stops as a duplicate if and only if the value equals the last leaf reached and that leaf is the tail, as unsorted if and only if that leaf is not the tail or lies above it; once a value was taken that leaf holds the value before |
| LinkedLeaves.SortedBatchSplits | server/internal/leanimt_plus/insert.go:72-100 | cutting a sorted batch in two changes neither leaves, nor error, nor how many values were taken |
| LinkedLeaves.FollowClimbs | server/internal/leanimt_plus/leaf.go:5-8 | the pointers from a leaf lead, strictly climbing, through exactly the stored values from its own on |
| LinkedLeaves.FollowVisitsAll | server/internal/leanimt_plus/leaf.go:5-8 | from the sentinel they visit every leaf exactly once in ascending order |
| Recompute.CellUnchanged | server/internal/leanimt_plus/insert.go:201-227 | a cell above no changed leaf is the same cell of the old grid |
| Recompute.StaleAfterFailure | server/internal/leanimt_plus/insert.go:145-152 | level 0 rewritten without a rebuild leaves stale what was stale and what lies above the changed leaves, also when levels are missing |
| Recompute.StaleAfterSuccess | server/internal/leanimt_plus/insert.go:188-230 | a rebuild leaves stale only what lies above stale leaves that share no pair with a changed one, and above pending ones |
| Recompute.TrackedClean | server/internal/leanimt_plus/insert.go:188-230 | a grid stale above no leaf is the one built from scratch |
| Recompute.FullRebuildCost | server/internal/leanimt_plus/insert.go:206-229 | rebuilding k levels above all of n leaves takes n less the width of level k hashes, so n - 1 to the root |
| Recompute.RebuildCostBound | server/internal/leanimt_plus/insert.go:206-229 | rebuilding takes at most one hash per changed leaf and level, on any grid |
| InsertSteps.ApplyTightens | server/internal/leanimt_plus/insert.go:72-157 | no operation on any leaves removes or reorders a leaf, changes its value, or moves its pointer farther away |
| InsertSteps.SortedAnswers | server/internal/leanimt_plus/insert.go:34-85 | on any leaves the answer of a sorted batch, told from the leaves after it: no values for an empty one, zero if and only if it holds one, else duplicate or unsorted at the first value not taken, or none |
| InsertSteps.NaiveAnswers | server/internal/leanimt_plus/insert.go:16-23 | the answer of a batch: no values if and only if it is empty; on a linked list zero or duplicate for the first value not taken, or none |
| Staleness.StepKeepsTrack | server/internal/leanimt_plus/insert.go:10-230 | every operation on any tree, failing or not, makes the grid stale at most where the changed leaves and the earlier staleness say |
| Staleness.SteppedIsApply | server/internal/leanimt_plus/insert.go:10-230 | on a coherent tree the step on any tree comes to the specified operation, with the grid built from scratch |
| Staleness.InsertCost | server/internal/leanimt_plus/insert.go:131-230 | one successful insertion makes at most 2 + 2*depth hashes, on any tree |
| Staleness.SortedBuildCost | server/internal/leanimt_plus/insert.go:68-108 | a sorted build of N values from empty makes exactly 2N + 1 hashes, N of them above level 0 |
| Staleness.RunKeepsTrack | server/internal/leanimt_plus/insert.go:10-230 | over every run, failures included, leaves are as specified and the grid is stale at most where leaves and operations say |
| Staleness.CleanRunIsCoherent | server/internal/leanimt_plus/insert.go:10-230 | a run that ends with nothing stale ends coherent; one that ends with a hash pending does not |
| Repair.RunCoherentIff | server/internal/leanimt_plus/insert.go:131-230 | under an injective hash of which no stored value is an output, and whose answers about a nil, if it is asked, are no hashes of numbers, a run with any failures ends coherent if and only if every leaf changed by a failure has since shared its pair with a leaf changed by a success, and no hash is left pending |
| Repair.NilFreeRunsApart | server/internal/leanimt_plus/insert.go:211-221 | a run in which no success pairs a pending left leaf with a changed right one never asks about a nil on level 1 |
| Repair.RunExists | server/internal/leanimt_plus/insert.go:10-230 | from every tree with a level-0 cell for each leaf every run leads to such a tree |
| Repair.SevenRepairsFiveTwice | server/internal/leanimt_plus/insert.go:131-230 | after the batch [5, 5] has failed on an empty tree, inserting 7 makes it coherent again |
| Paths.WalkReachesRoot | server/internal/leanimt_plus/verify.go:31-41 | following a leaf's siblings and direction bits from its commitment ends at the root |
| Paths.CellWalksToRoot | server/internal/leanimt_plus/verify.go:31-41 | so does following the siblings of any cell of any level from that cell |
| Paths.WalkMeetsTree | server/internal/leanimt_plus/verify.go:31-41 | for any hash, a walk of any length that ends at a cell either, after some steps, hashed the pair of a cell below and from there took its path, or names two colliding pairs |
| Paths.EnteredWalksToRoot | server/internal/leanimt_plus/verify.go:31-41 | conversely, for any hash, whoever hashes the pair of a cell after any number of steps and from there takes its path ends at the root |
| Paths.OnlyPathsReachCells | server/internal/leanimt_plus/verify.go:31-41 | under an injective hash only the former is possible; at once if no stored number is a hash, and then at a stored leaf if the value shown is no hash |
| Paths.StoredPathIsPath | server/internal/leanimt_plus/proof_gen.go:47-63 | on a grid built from scratch the levels the generator skips are the promoted ones |
| Paths.PackBit | server/internal/leanimt_plus/proof_gen.go:55-60 | bit j of the leaf index is the direction of sibling j |
| Paths.PathFits | server/internal/leanimt_plus/proof_gen.go:47-63 | there are at most depth siblings, and at most 63 for any slice, so the bits fit the 64-bit index |
| Paths.CodesAreDistinct | server/internal/leanimt_plus/proof.go:12-16 | distinct leaves have distinct pairs of leaf index and sibling count |
| Paths.LeafIndexIsSqueezed | server/internal/leanimt_plus/proof.go:12-16 | the leaf index is the physical index with the binary digits of the promoted levels deleted |
| Paths.PromotedDigitIsZero | server/internal/leanimt_plus/proof_gen.go:37-38 | the deleted digits are zero |
| Paths.FullPathIndex | server/internal/leanimt_plus/proof_gen.go:30-35 | with a sibling at every level the leaf index is the physical index |
| TreeSpec.CoherentIsDetermined | server/internal/leanimt_plus/tree.go:21-30 | leaves and grid of a coherent tree are determined by its values in insertion order |
| TreeSpec.ApplyCorrect | server/internal/leanimt_plus/insert.go:10-114 | a successful operation keeps the tree coherent and adds exactly its values, in order |
| TreeSpec.ApplySucceeds | server/internal/leanimt_plus/insert.go:10-114 | which operations succeed: some values, all positive, distinct and absent, and for the sorted path ascending above the last stored leaf |
| TreeSpec.SortedAgreesWithNaive | server/internal/leanimt_plus/insert.go:25-29 | where the sorted path succeeds the naive path ends in the same leaves and grid |
| TreeSpec.FailedInsertIsNoOp | server/internal/leanimt_plus/insert.go:134-152 | a failing single insert changes nothing, and fails with the zero or the duplicate error |
| TreeSpec.FailedBatchPrefix | server/internal/leanimt_plus/insert.go:134-161 | a batch failing at position k leaves the leaves and level 0 of a batch of the first k values under the old upper rows, and position k holds a zero or a present value |
| TreeSpec.ApplyLeavesCorrect | server/internal/leanimt_plus/insert.go:10-161 | any operation on any grid, failing or not, keeps the list linked and adds exactly the values it took |
| TreeSpec.ApplyLeavesAgrees | server/internal/leanimt_plus/insert.go:10-161 | leaves and error of an operation on a linked list do not depend on the grid |
| TreeSpec.RunLeavesLinked | server/internal/leanimt_plus/insert.go:10-161 | the linked list survives every run, failures included, and holds exactly the values taken |
| TreeSpec.RunCorrect | server/internal/leanimt_plus/insert.go:10-230 | every run of successful operations ends coherent with exactly its values, in order |
| TreeSpec.RunsAgree | server/internal/leanimt_plus/insert.go:25-29 | two runs from one coherent tree over the same values in the same order end in the same leaves, grid and root, however they are cut into operations |
| TreeSpec.SingleInsertsSucceed | server/internal/leanimt_plus/insert.go:10-14 | values can be inserted one by one exactly when they are positive, distinct and absent |
| TreeSpec.OneByOneAgrees | server/internal/leanimt_plus/insert.go:25-29 | where the sorted path succeeds, inserting the values one by one succeeds and ends in the same leaves, grid and root |
| TreeSpec.SortedBatchesCompose | server/internal/leanimt_plus/insert.go:34-114 | two consecutive sorted batches succeed exactly when the joined one does, with the same result |
| ProofSpec.LeafShown | server/internal/leanimt_plus/proof_gen.go:5-24 | for v > 0 exactly one kind of proof and one leaf pass the verifier's order checks, and the generator uses them: the leaf holding v, or the one whose gap contains it |
| ProofSpec.Completeness | server/internal/leanimt_plus/proof_gen.go:5-73 | on a non-empty coherent tree every v > 0 has a proof, the verifier accepts it, and it is a membership proof exactly when v was inserted |
| ProofSpec.EnteredIsAccepted | server/internal/leanimt_plus/verify.go:5-41 | for any hash, whoever passes the checks, hashes the pair of a cell of the tree at some step and from there takes its path is accepted |
| ProofSpec.ForgeryIsNamed | server/internal/leanimt_plus/verify.go:5-41 | for any hash, an accepted proof is the generated one, shows a branch, makes a number of a stored record itself, or comes with a collision between a pair of the tree and one of the walk |
| ProofSpec.FalseProofIsNamed | server/internal/leanimt_plus/verify.go:5-41 | for any hash, a false proof is one of the last three |
| ProofSpec.StoredHashForges | server/internal/leanimt_plus/insert.go:135-156 | any record whose hash is a stored number is accepted for whatever it seems to prove, since the code stores values that are hashes |
| ProofSpec.EntersLateIff | server/internal/leanimt_plus/verify.go:26-41 | for any hash, accepted proofs that make a number of a stored record themselves exist if and only if a stored number is a hash |
| ProofSpec.StoredHashDeniesFive | server/internal/leanimt_plus/insert.go:135-156 | with 5 and the hash of (3, 9) stored, the record (3, 9) is accepted as a proof that 5 is absent |
| ProofSpec.AcceptedIffGenerated | server/internal/leanimt_plus/verify.go:5-41 | against the root of any coherent tree the verifier accepts a proof for v > 0 exactly when it equals the generated one up to unused high bits of the leaf index, shows a branch for a leaf, or makes a number of a stored record itself, the last never if the tree stores no hash |
| ProofSpec.FalseProofIff | server/internal/leanimt_plus/verify.go:5-41 | for any coherent tree, a false proof for v > 0 is accepted if and only if two children, read as a leaf record, lie about v, or a proof that makes a number of a stored record does, of which there is none if the tree stores no hash |
| ProofSpec.Soundness | server/internal/leanimt_plus/verify.go:5-41 | with all stored values below the hash outputs, what an accepted proof says is true, save for the membership of a left child; of a value below the hash outputs it is always true |
| ProofSpec.FalseMembershipIff | server/internal/leanimt_plus/verify.go:10-14 | with all stored values below the hash outputs, a false proof is accepted of exactly the left children of the tree |
| ProofSpec.RootChildHasMembershipProof | server/internal/leanimt_plus/verify.go:10-14 | every non-empty tree accepts the record of the two children of its root, without siblings, as the membership of the left one, whatever the hash |
| ProofSpec.RootBindsTree | server/internal/leanimt_plus/tree.go:45-54 | two trees that store no hash have the same root if and only if they have the same leaves in the same order and the same grid |
| ProofSpec.ZeroHasMembershipProof | server/internal/leanimt_plus/verify.go:10-14 | the verifier accepts a membership proof of zero made from the sentinel on every non-empty tree, though zero is never inserted, so soundness needs v > 0 |
| ProofSpec.RunProofs | server/internal/leanimt_plus/verify.go:5-41 | from any successful run to its proofs, for every v > 0: which are accepted, which of them can be false, and that none is if values and v lie below the hash outputs |
| Failures.TakenIff | server/internal/leanimt_plus/insert.go:72-161 | an operation takes its first values as far as they can go in, nothing if the sorted path finds a zero first |
| Failures.FailedRunState | server/internal/leanimt_plus/insert.go:72-161 | a run of failing operations, however long, takes its values into the leaves, rewrites level 0 and keeps the rows above |
| Failures.FailureKeepsRoot | server/internal/leanimt_plus/tree.go:45-54 | failing operations on a non-empty coherent tree keep its root |
| Failures.NewValueRejected | server/internal/leanimt_plus/insert.go:145-152 | the proof generated for a value that failing operations took is refused |
| Failures.CompleteAfterFailuresIff | server/internal/leanimt_plus/insert.go:72-161 | after any run of failing operations every v > 0 still has an accepted proof if and only if the tree was not empty and each of them was refused at its first value or, in the sorted path, before it: zero or present, or not above the last leaf |
| Failures.OldProofStillAccepted | server/internal/leanimt_plus/insert.go:145-152 | for any hash, the proof of absence generated before failing operations is still accepted for a value they took |
| Failures.TrueAfterFailuresAnyHash | server/internal/leanimt_plus/insert.go:72-161 | for any hash and a non-empty tree: if and only if v was not taken and every accepted proof for v was true before |
| Failures.TrueAfterFailuresIff | server/internal/leanimt_plus/insert.go:72-161 | after any run of failing operations every accepted proof for v > 0 is true if and only if the tree was empty, or v was not taken and no two children, read as a leaf record, lie about v |
| Failures.RepeatedValueDenied | server/internal/leanimt_plus/insert.go:134-157 | on every non-empty tree that stores no hash the batch [v, v] of a fresh v fails as a duplicate, its new proof is refused and its old proof of absence accepted |
| Failures.RepeatedValueLosesProof | server/internal/leanimt_plus/insert.go:134-157 | the batch [5, 5] on an empty tree fails as a duplicate and the proof of 5 is refused |
| LeanIMTPlusTree.LeanIMTPlus.constructor | server/internal/leanimt_plus/tree.go:32-37 | a new tree has no leaves and one empty row |
| LeanIMTPlusTree.LeanIMTPlus.Root | server/internal/leanimt_plus/tree.go:45-54 | the first cell of the top row, absent without leaves or if that row is empty |
| LeanIMTPlusTree.LeanIMTPlus.IndexOfLocked | server/internal/leanimt_plus/tree.go:83-93 | the first leaf after the sentinel that holds the value; zero is never found |
| LeanIMTPlusTree.LeanIMTPlus.ExportState | server/internal/leanimt_plus/tree.go:113-132 | hands out all nodes and leaves |
| LeanIMTPlusTree.LeanIMTPlus.ImportState | server/internal/leanimt_plus/tree.go:134-160 | replaces the state; refuses exactly an empty grid, or a level 0 of the wrong length, each with its own error, and then changes nothing |
| LeanIMTPlusTree.LeanIMTPlus.FindLowLeafIndexLocked | server/internal/leanimt_plus/insert.go:163-174 | the first leaf meeting the search condition, or the not-found error |
| LeanIMTPlusTree.LeanIMTPlus.AppendLeafLocked | server/internal/leanimt_plus/insert.go:176-181 | the leaf, its commitment and its mark are appended with one hash |
| LeanIMTPlusTree.LeanIMTPlus.WriteLeafLocked | server/internal/leanimt_plus/insert.go:183-186 | the leaf and its commitment are replaced with one hash |
| LeanIMTPlusTree.LeanIMTPlus.RecomputeCell | server/internal/leanimt_plus/insert.go:208-226 | on any grid the cell becomes the hash or the promotion of its children, the row is padded with nil up to it, all other cells are kept, with one hash if there is a right child |
| LeanIMTPlusTree.LeanIMTPlus.RecomputeLevel | server/internal/leanimt_plus/insert.go:206-229 | on any grid and in any visiting order exactly the marked cells of the row are rebuilt from the row below, with one hash per marked cell that has a right child |
| LeanIMTPlusTree.LeanIMTPlus.RecomputeLocked | server/internal/leanimt_plus/insert.go:188-230 | on any grid the missing rows are added and every level is rebuilt from the one below above the marked leaves, at the exact cost |
| LeanIMTPlusTree.LeanIMTPlus.InsertBatchLocked | server/internal/leanimt_plus/insert.go:131-161 | on any tree the whole step: leaves, error, level 0, rebuilt rows on success, old rows on failure, and the exact number of hashes |
| LeanIMTPlusTree.LeanIMTPlus.Insert | server/internal/leanimt_plus/insert.go:10-14 | the same for one value, at most 2 + 2*depth hashes; zero and duplicate for exactly those values on a linked list; on a coherent tree the specified operation |
| LeanIMTPlusTree.LeanIMTPlus.InsertMany | server/internal/leanimt_plus/insert.go:16-23 | the same for a batch, refused as having no values if and only if it is empty; on a linked list the error is that of its first value that is zero or present; on a coherent tree the specified operation |
| LeanIMTPlusTree.LeanIMTPlus.AppendTailLocked | server/internal/leanimt_plus/insert.go:72-95 | one value of the sorted path: the old tail gets its final hash, the new one none yet; or no change, and duplicate if it equals the tail, unsorted if it lies below or the last leaf is not the tail |
| LeanIMTPlusTree.LeanIMTPlus.InsertManySorted | server/internal/leanimt_plus/insert.go:34-114 | the same for a sorted batch: no values if and only if it is empty, zero if and only if it holds one, else duplicate or unsorted by the last leaf and the first value not taken; a failure midway leaves the last commitment pending; from empty exactly 2N + 1 hashes for N values; on a coherent tree the specified operation |
| LeanIMTPlusTree.LeanIMTPlus.BuildProofLocked | server/internal/leanimt_plus/proof_gen.go:39-73 | the loop collects the specified path over whatever grid is stored, nil siblings skipped |
| LeanIMTPlusTree.LeanIMTPlus.GenerateProof | server/internal/leanimt_plus/proof_gen.go:5-24 | the zero error if and only if v is zero, else the empty-tree error if and only if there are no leaves, else the not-found error if and only if no leaf holds v and none is low for it, which a linked list excludes; otherwise a proof for v against the stored root, of membership exactly if a leaf after the sentinel holds v |
| LeanIMTPlusTree.WalkPath | server/internal/leanimt_plus/verify.go:31-41 | the loop computes the specified walk |
| LeanIMTPlusTree.VerifyProof | server/internal/leanimt_plus/verify.go:5-29 | accepts if and only if no pointer is nil, the kind is one of the two, a membership proof shows v, a non-membership proof shows a value below v whose pointer is zero or above v, and the walk from the hash of what is shown ends at the root; so no proof of absence of zero is accepted |
| Dedup.SortedCorrect | server/internal/crl/dedup.go:22 | sorting gives an ascending permutation |
| Dedup.CompactedCorrect | server/internal/crl/dedup.go:26-33 | keeping what differs from the last kept element leaves a strictly ascending list of the same values |
| Dedup.Compact | server/internal/crl/dedup.go:26-33 | the in-place loop leaves that list at the front of the array |
| Dedup.DedupAndSortSerials | server/internal/crl/dedup.go:12-34 | the strictly ascending list of exactly the positive serials, nil, zero, negative and repeated ones dropped |
| Dedup.PreparedBuilds | server/internal/crl/dedup.go:8-11 | a fresh tree takes every non-empty prepared list by the sorted path without error |
| Dedup.PipelineIsDeterministic | README.md:159 | the list and hence leaves, grid and root depend only on the set of positive serials |
| Hex.DecodeEncode | server/internal/hexenc/hex.go:11-44 | decoding an encoded integer gives it back; nil reads back as zero |
| Hex.EncodeText | server/internal/hexenc/hex.go:11-17 | the text of a number is 0x, a minus sign if it is negative, and its base-16 digits in lower case, the highest first and not zero; nil and zero are 0x0 |
| Hex.DecodeMeans | server/internal/hexenc/hex.go:31-44 | a text reads as n if and only if, after an optional 0x and sign, it is one or more digits of n in either case; it is refused as empty exactly if nothing follows the prefix |
| Hex.EncodeSlice | server/internal/hexenc/hex.go:19-26 | every element is spelled so, and reads back |
| Snapshot.SnapshotRoundTrip | server/internal/snapshot/snapshot.go:36-160 | a snapshot reads back as the same grid, absent cells included, leaves and CRL number exactly for restorable states |
| Snapshot.CoherentSnapshot | server/internal/snapshot/snapshot.go:36-160 | so every coherent tree comes back, the empty one included |
| Snapshot.WrittenFields | server/internal/snapshot/snapshot.go:36-66 | every field of a written snapshot: version 2, depth, leaf count, number of user values, CRL number, the text of each cell and leaf, and of the root, which is the first cell of the top row, the root of the leaves on a coherent tree, 0x0 without leaves |
| Snapshot.RefusedWhy | server/internal/snapshot/snapshot.go:119-158 | exactly which snapshots are refused for which of the six reasons |
| Snapshot.LoadedFields | server/internal/snapshot/snapshot.go:126-159 | what loads holds the numbers that the texts of cells and leaves denote, an empty cell text being an absent cell, and the CRL number; a snapshot without leaves loads as a fresh tree |
| Snapshot.Export | server/internal/snapshot/snapshot.go:36-67 | the loops fill in those fields, absent cells as empty text |
| Snapshot.Import | server/internal/snapshot/snapshot.go:119-159 | a version other than 2, a depth that is negative or disagrees, an unreadable cell, an unreadable leaf, and a misshapen state are refused in this order, each if and only if it applies, and what loads is what the texts denote |
| Binary.GetPut | server/internal/snapshot/binary.go:41-46 | a number in range of its field reads back from the bytes written for it |
| BinaryLayout.PutByte | server/internal/snapshot/binary.go:41-46 | byte i of the w bytes written for n is the digit of n in base 256 at place w - 1 - i |
| BinaryLayout.BigEndianIff | server/internal/snapshot/binary.go:92-102 | bytes read as n if and only if they are its base-256 digits, the highest first |
| BinaryIO.BigTo32 | server/internal/snapshot/binary.go:214-220 | the 32 big-endian bytes of a number, zero bytes for nil |
| Binary.BinaryRoundTrip | server/internal/snapshot/binary.go:37-150 | a written tree with numbers in range reads back as itself, leaving exactly the bytes after it unread, if and only if it is restorable |
| Binary.CoherentBinary | server/internal/snapshot/binary.go:37-150 | so every coherent tree with numbers in range comes back, the empty one included |
| Binary.BinarySize | server/internal/snapshot/binary.go:22-36 | the size is 50, plus 4 + 33 per cell for each level, plus 64 per leaf |
| Binary.TruncationRejected | server/internal/snapshot/binary.go:87-141 | every proper prefix of a written tree is refused as too short |
| Binary.ReadTreeMore | server/internal/snapshot/binary.go:87-150 | what a successful read returns does not depend on the bytes after it |
| Binary.LoadsAlikeIff | server/internal/snapshot/binary.go:87-150 | writing again what was loaded loads the same, and two inputs load the same tree, number and rest if and only if they are written again to the same bytes |
| BinaryLayout.WrittenBytes | server/internal/snapshot/binary.go:37-85 | the bytes of a written tree with numbers in range: LI, version 2, depth, leaf count, CRL number, root, then per level its count and per cell its presence and number, then the leaves, all big-endian; absent cells and the root of a tree without leaves are zero bytes; the root is the first cell of the top row, on a coherent tree the root of its leaves |
| BinaryLayout.HeaderRefused | server/internal/snapshot/binary.go:87-99 | fewer than 50 bytes are too short; of the others, bad magic if and only if the first two are not LI, unsupported version if and only if they are and the next two are not 0, 2 |
| BinaryLayout.LoadsIff | server/internal/snapshot/binary.go:87-150 | bytes load as a given tree with leaves and CRL number if and only if they are laid out so, a cell being present exactly if its presence byte is 1, and level 0 has a cell for each leaf; the header root is not read, and the rest is what follows the layout |
| BinaryIO.ExportBinary | server/internal/snapshot/binary.go:37-85 | the writes produce those bytes, starting 4C 49 00 02 for any tree |
| BinaryIO.ImportBinary | server/internal/snapshot/binary.go:87-150 | the reads refuse short input, bad magic and other versions by the bytes, return what the layout says and leave the bytes after it; an input without leaves gives a fresh tree |

## Left out

- Poseidon and its field: the hash is a parameter; what it does with a nil argument, which a grid left stale by a failed batch can produce, is left open.
- Repair.RunCoherentIff: says nothing of runs in which the library, asked for the hash of a nil, answers with the hash of two numbers; what it does when asked is not part of this model. For these CleanRunIsCoherent gives one direction.
- Failures.TrueAfterFailuresIff, CompleteAfterFailuresIff: speak of failures after a coherent tree; once a success has followed them, only leaves and staleness of the grid are stated.
- Snapshot.FromSnapshot: reports a negative number as an error where the source would load it, because tree values are naturals here; the number in an error message (level, index) is not modelled.
- Dedup.Sorted: stands for the library sort, whose algorithm is not part of this model; the order being total, every sort gives this result.
- Go integers are unbounded here except where the model writes the width out: leaf index, its shifts, and the fields of the binary format.
- In-place sharing of slices: rows and leaves are sequences that the methods reassign, so aliasing between a caller's slices and the tree, and the defensive copies against it, are not modelled.
- Siblings of a proof cannot be nil here; the source would pass a nil one to the hash.
- HTTP, gRPC, WASM, CRL download, X.509, gzip, JSON text, files and renames: input and output around the modelled functions.
- Tree manager, watcher, relayer and the on-chain contract: map updates and one comparison, which would only add easy members.
- Locks, capacity reservation and progress callbacks: no effect on results.
- Key-value stores, benchmarks, configuration and generated bindings: unrelated to the tree.
