/**
 The tree itself, updated in place: fields, loops and branches as in tree.go,
 insert.go, proof_gen.go and verify.go.  Every method is proved against the
 specification on values in TreeSpec and ProofSpec.
 */
module LeanIMTPlusTree {
  import opened Wrappers
  import opened Arith
  import opened Types
  import opened Grid
  import opened LinkedLeaves
  import opened Paths
  import opened InsertSteps
  import opened Staleness
  import opened Recompute
  import opened TreeSpec
  import opened ProofSpec

  class LeanIMTPlus {
    const hash: Hasher
    var nodes: seq<seq<Node>>
    var leaves: Leaves
    ghost var calls: nat // how often the hash was computed

    function State(): TreeState
      reads this
    {
      TreeState(leaves, nodes)
    }

    constructor (h: Hasher)
      ensures hash == h && State() == EMPTY_TREE && calls == 0
    {
      hash := h;
      nodes := [[]];
      leaves := [];
      calls := 0;
    }

    method Hash2(a: nat, b: nat) returns (r: nat)
      modifies this`calls
      ensures r == hash(a, b) && calls == old(calls) + 1
    {
      calls := calls + 1;
      r := hash(a, b);
    }

    // ----- tree.go -----

    method Root() returns (r: Node)
      requires nodes != []
      ensures r == StoredRoot(nodes, |leaves|)
      ensures leaves == [] ==> r == None
      ensures leaves != [] ==> r == CellAt(nodes[|nodes| - 1], 0)
    {
      if |leaves| == 0 {
        return None;
      }
      var top := nodes[|nodes| - 1];
      if |top| == 0 || top[0].None? {
        return None;
      }
      return Some(top[0].value);
    }

    method IndexOfLocked(v: nat) returns (r: Option<nat>)
      ensures v == 0 ==> r == None
      ensures v > 0 ==> r == if leaves == [] then None else IndexOf(leaves, v, 1)
    {
      if v == 0 {
        return None;
      }
      var i := 1;
      while i < |leaves|
        invariant leaves != [] ==> 1 <= i <= |leaves| && IndexOf(leaves, v, 1) == IndexOf(leaves, v, i)
      {
        if leaves[i].value == v {
          return Some(i);
        }
        i := i + 1;
      }
      return None;
    }

    /** The copies the source makes here are of values, so the state is what is handed out. */
    method ExportState() returns (ns: seq<seq<Node>>, ls: Leaves)
      ensures ns == nodes && ls == leaves
    {
      ns, ls := [], [];
      var level := 0;
      while level < |nodes|
        invariant 0 <= level <= |nodes| && ns == nodes[..level]
      {
        var row := [];
        var i := 0;
        while i < |nodes[level]|
          invariant 0 <= i <= |nodes[level]| && row == nodes[level][..i]
        {
          row := row + [nodes[level][i]];
          i := i + 1;
        }
        assert row == nodes[level];
        ns := ns + [row];
        level := level + 1;
      }
      var i := 0;
      while i < |leaves|
        invariant 0 <= i <= |leaves| && ls == leaves[..i]
      {
        ls := ls + [leaves[i]];
        i := i + 1;
      }
    }

    method ImportState(ns: seq<seq<Node>>, ls: Leaves) returns (err: Option<Error>)
      modifies this`nodes, this`leaves
      ensures err == ImportError(ns, ls)
      ensures ns == [] <==> err == Some(EmptyNodes)
      ensures ns != [] && |ns[0]| != |ls| <==> err == Some(StateLengthMismatch)
      ensures State() == if err.None? then TreeState(ls, ns) else old(State())
    {
      if |ns| == 0 {
        return Some(EmptyNodes);
      }
      if |ns[0]| != |ls| {
        return Some(StateLengthMismatch);
      }
      nodes := [];
      var level := 0;
      while level < |ns|
        invariant 0 <= level <= |ns| && nodes == ns[..level] && leaves == old(leaves)
      {
        var row := [];
        var i := 0;
        while i < |ns[level]|
          invariant 0 <= i <= |ns[level]| && row == ns[level][..i]
        {
          row := row + [ns[level][i]];
          i := i + 1;
        }
        assert row == ns[level];
        nodes := nodes + [row];
        level := level + 1;
      }
      leaves := [];
      var i := 0;
      while i < |ls|
        invariant 0 <= i <= |ls| && leaves == ls[..i] && nodes == ns
      {
        leaves := leaves + [ls[i]];
        i := i + 1;
      }
      return None;
    }

    // ----- insert.go: helpers -----

    method FindLowLeafIndexLocked(v: nat) returns (r: Result<nat, Error>)
      ensures r == match FindLow(leaves, v, 0)
                   case Some(i) => Success(i)
                   case None => Failure(LowLeafNotFound)
    {
      var i := 0;
      while i < |leaves|
        invariant 0 <= i <= |leaves|
        invariant FindLow(leaves, v, 0) == FindLow(leaves, v, i)
      {
        var cur := leaves[i];
        if cur.value < v && (cur.nextValue == 0 || cur.nextValue >= v) {
          return Success(i);
        }
        i := i + 1;
      }
      return Failure(LowLeafNotFound);
    }

    /** What every method keeps, whatever the grid holds: a level-0 cell for each leaf. */
    ghost predicate Shaped()
      reads this
    {
      nodes != [] && |nodes[0]| == |leaves|
    }

    method AppendLeafLocked(leaf: IndexedLeaf, modified: set<nat>) returns (m: set<nat>)
      requires Shaped()
      modifies this
      ensures leaves == old(leaves) + [leaf]
      ensures nodes == old(nodes)[0 := old(nodes)[0] + [Some(hash(leaf.value, leaf.nextValue))]]
      ensures m == modified + {|old(leaves)|}
      ensures calls == old(calls) + 1
    {
      var idx := |leaves|;
      leaves := leaves + [leaf];
      var c := Hash2(leaf.value, leaf.nextValue);
      nodes := nodes[0 := nodes[0] + [Some(c)]];
      m := modified + {idx};
    }

    method WriteLeafLocked(idx: nat, leaf: IndexedLeaf)
      requires Shaped() && idx < |leaves|
      modifies this
      ensures leaves == old(leaves)[idx := leaf]
      ensures nodes == old(nodes)[0 := old(nodes)[0][idx := Some(hash(leaf.value, leaf.nextValue))]]
      ensures calls == old(calls) + 1
    {
      leaves := leaves[idx := leaf];
      var c := Hash2(leaf.value, leaf.nextValue);
      nodes := nodes[0 := nodes[0][idx := Some(c)]];
    }

    // ----- insert.go: recomputeLocked -----

    // On any grid; what that means for a grid that was right before the leaves changed
    // is proved in Staleness.

    /** The hash of a nil left node: what the external library makes of it is left open. */
    method HashNilLeft(right: nat) returns (r: nat)
      modifies this`calls
      ensures calls == old(calls) + 1
    {
      calls := calls + 1;
      r := *;
    }

    /** Writes one cell, first padding the row with nil up to it. */
    method SetCell(level: nat, idx: nat, cell: Node)
      requires level < |nodes|
      modifies this`nodes
      ensures |nodes| == |old(nodes)| && nodes == old(nodes)[level := nodes[level]]
      ensures var row := old(nodes)[level];
        && |nodes[level]| == (if |row| > idx then |row| else idx + 1)
        && forall i: nat :: i < |nodes[level]| ==> nodes[level][i] == if i == idx then cell else CellAt(row, i)
    {
      ghost var row := nodes[level];
      while |nodes[level]| <= idx
        invariant |nodes| == |old(nodes)| && nodes == old(nodes)[level := nodes[level]]
        invariant |row| <= |nodes[level]| && (|nodes[level]| > |row| ==> |nodes[level]| <= idx + 1)
        invariant forall i: nat :: i < |nodes[level]| ==> nodes[level][i] == CellAt(row, i)
        decreases idx + 1 - |nodes[level]|
      {
        nodes := nodes[level := nodes[level] + [None]];
      }
      nodes := nodes[level := nodes[level][idx := cell]];
    }

    /** Hashes or promotes the children of one cell and stores the result. */
    method RecomputeCell(level: nat, idx: nat)
      requires 1 <= level < |nodes|
      modifies this`nodes, this`calls
      ensures |nodes| == |old(nodes)| && nodes == old(nodes)[level := nodes[level]]
      ensures RowRebuilt(hash, nodes[level - 1], old(nodes)[level], nodes[level], {idx})
      ensures calls == old(calls) + if CellAt(nodes[level - 1], 2 * idx + 1).Some? then 1 else 0
    {
      var left, right := None, None;
      if 2 * idx < |nodes[level - 1]| {
        left := nodes[level - 1][2 * idx];
      }
      if 2 * idx + 1 < |nodes[level - 1]| {
        right := nodes[level - 1][2 * idx + 1];
      }
      var cell := left;
      if right.Some? {
        var c: nat;
        if left.Some? {
          c := Hash2(left.value, right.value);
        } else {
          c := HashNilLeft(right.value);
        }
        cell := Some(c);
      }
      SetCell(level, idx, cell);
      assert nodes[level - 1] == old(nodes)[level - 1];
      assert IsRebuilt(hash, nodes[level - 1], idx, cell);
    }

    /** One level: the cells above the modified leaves are rebuilt, in any order. */
    method RecomputeLevel(level: nat, modified: set<nat>) returns (next: set<nat>)
      requires 1 <= level < |nodes|
      modifies this`nodes, this`calls
      ensures |nodes| == |old(nodes)| && nodes == old(nodes)[level := nodes[level]]
      ensures RowRebuilt(hash, nodes[level - 1], old(nodes)[level], nodes[level], modified)
      ensures next == Lift(modified)
      ensures calls == old(calls) + |Joined(modified, nodes[level - 1])|
    {
      ghost var below, row := nodes[level - 1], nodes[level];
      RowRebuiltStarts(hash, below, row);
      var todo := modified;
      next := {};
      while todo != {}
        invariant todo <= modified
        invariant |nodes| == |old(nodes)| && nodes == old(nodes)[level := nodes[level]]
        invariant RowRebuilt(hash, below, row, nodes[level], modified - todo)
        invariant next == Lift(modified - todo)
        invariant calls == old(calls) + |Joined(modified - todo, below)|
        decreases todo
      {
        var idx :| idx in todo;
        ghost var done, mid := modified - todo, nodes[level];
        RecomputeCell(level, idx);
        RowRebuiltGrows(hash, below, row, mid, nodes[level], done, idx);
        JoinedGrows(done, idx, below);
        LiftGrows(done, idx);
        next := next + {idx / 2};
        todo := todo - {idx};
        assert modified - todo == done + {idx};
      }
      assert modified - todo == modified;
    }

    /** Adds the rows the target depth asks for, empty. */
    method AddLevels(targetDepth: nat)
      requires nodes != []
      modifies this`nodes
      ensures |nodes| == if |old(nodes)| > targetDepth then |old(nodes)| else targetDepth + 1
      ensures forall k: nat :: RowAt(nodes, k) == RowAt(old(nodes), k)
    {
      while |nodes| - 1 < targetDepth
        invariant |old(nodes)| <= |nodes| && (|nodes| > |old(nodes)| ==> |nodes| - 1 <= targetDepth)
        invariant forall k: nat :: RowAt(nodes, k) == RowAt(old(nodes), k)
        decreases targetDepth + 1 - |nodes|
      {
        nodes := nodes + [[]];
      }
    }

    /** The loop over the levels, from 1 to the top. */
    method RecomputeLevels(targetDepth: nat, parents: set<nat>, ghost start: seq<seq<Node>>, ghost ms: set<nat>)
      requires |nodes| > targetDepth && parents == LiftTo(ms, 1)
      requires LevelsRebuilt(hash, start, nodes, ms, 1)
      modifies this`nodes, this`calls
      ensures |nodes| == |old(nodes)| && LevelsRebuilt(hash, start, nodes, ms, targetDepth + 1)
      ensures calls == old(calls) + RebuildHashes(nodes, ms, targetDepth)
    {
      var modified := parents;
      var level := 1;
      while level <= targetDepth
        invariant 1 <= level <= targetDepth + 1
        invariant |nodes| == |old(nodes)| && modified == LiftTo(ms, level)
        invariant LevelsRebuilt(hash, start, nodes, ms, level)
        invariant calls == old(calls) + RebuildHashes(nodes, ms, level - 1)
      {
        ghost var mid := nodes;
        modified := RecomputeLevel(level, modified);
        LevelsRebuiltAdvance(hash, start, mid, nodes, ms, level);
        HashesBelow(mid, nodes, ms, level - 1);
        level := level + 1;
      }
    }

    /** Rebuilds every cell above a modified leaf, level by level, after adding the rows that are missing. */
    method RecomputeLocked(modifiedLeaves: set<nat>)
      requires nodes != []
      modifies this`nodes, this`calls
      ensures Rebuilt(hash, old(nodes), nodes, modifiedLeaves, Depth(|old(nodes)[0]|))
      ensures calls == old(calls) + RebuildHashes(nodes, modifiedLeaves, Depth(|old(nodes)[0]|))
    {
      var size := |nodes[0]|;
      var targetDepth := 0;
      if size > 1 {
        targetDepth := BitsLen(size - 1);
      }
      if size > 0 {
        DepthIsBitsLen(size);
      }
      AddLevels(targetDepth);
      LevelsRebuiltStart(hash, old(nodes), nodes, modifiedLeaves);
      if targetDepth == 0 {
        return;
      }
      var modified := set i | i in modifiedLeaves :: i / 2;
      RecomputeLevels(targetDepth, modified, old(nodes), modifiedLeaves);
    }

    // ----- insert.go: the two insertion paths -----

    /** One round of insertBatchLocked: refuses v with the tree untouched, or splices it in. */
    method InsertOneLocked(v: nat, modified: set<nat>) returns (m: set<nat>, err: Option<Error>)
      requires Shaped()
      modifies this
      ensures err == (var r := InsertLeaf(old(leaves), v); if r.Failure? then Some(r.error) else None)
      ensures err.Some? ==> State() == old(State()) && calls == old(calls) && m == modified
      ensures err.None? ==>
        && InsertLeaf(old(leaves), v) == Success(leaves)
        && LeafStep(hash, old(State()), State(), false)
        && m == modified + Changed(old(leaves), leaves)
        && calls == old(calls) + 2
    {
      m, err := modified, None;
      if v == 0 {
        return m, Some(InsertZero);
      }
      if |leaves| == 0 {
        m := AppendLeafLocked(IndexedLeaf(0, v), m);
        m := AppendLeafLocked(IndexedLeaf(v, 0), m);
        FirstRow(hash, v);
        assert leaves == FirstLeaves(v);
        assert nodes[0] == [Some(hash(0, v)), Some(hash(v, 0))];
        return;
      }
      var r := FindLowLeafIndexLocked(v);
      if r.Failure? {
        return m, Some(r.error);
      }
      var low := leaves[r.value];
      if low.nextValue != 0 && low.nextValue == v {
        return m, Some(Duplicate);
      }
      m := SpliceLocked(r.value, v, modified);
    }

    /** Appends the leaf of v and points its predecessor to it. */
    method SpliceLocked(lowIdx: nat, v: nat, modified: set<nat>) returns (m: set<nat>)
      requires Shaped() && lowIdx < |leaves| && Closer(v, leaves[lowIdx].nextValue)
      modifies this
      ensures leaves == Splice(old(leaves), lowIdx, v)
      ensures LeafStep(hash, old(State()), State(), false)
      ensures m == modified + Changed(old(leaves), leaves)
      ensures calls == old(calls) + 2
    {
      SplicedRow(hash, leaves, nodes[0], lowIdx, v);
      SpliceTightens(leaves, lowIdx, v);
      var low := leaves[lowIdx];
      m := AppendLeafLocked(IndexedLeaf(v, low.nextValue), modified);
      WriteLeafLocked(lowIdx, IndexedLeaf(low.value, v));
      m := m + {lowIdx};
    }

    method InsertBatchLocked(values: seq<nat>, ghost op: Op) returns (err: Option<Error>)
      requires Shaped() && values != [] && values == OpValues(op) && !op.InsertManySorted?
      modifies this
      ensures Shaped() && Stepped(hash, old(State()), op, State(), err)
      ensures calls == old(calls) + StepHashes(old(leaves), op, nodes)
    {
      ghost var start := State();
      var modified: set<nat> := {};
      var i := 0;
      BatchStarts(hash, start, values);
      while i < |values|
        invariant BatchAt(hash, start, values, i, State()) && modified == Changed(start.leaves, leaves)
        invariant calls == old(calls) + 2 * i
      {
        ghost var before := State();
        modified, err := InsertOneLocked(values[i], modified);
        if err.Some? {
          BatchFails(hash, start, values, i, before);
          return;
        }
        BatchAdvances(hash, start, values, i, before, State());
        i := i + 1;
      }
      BatchEnds(hash, start, values, State());
      RecomputeLocked(modified);
      err := None;
    }

    method Insert(v: nat) returns (err: Option<Error>)
      requires Shaped()
      modifies this
      ensures Shaped() && Stepped(hash, old(State()), Op.Insert(v), State(), err)
      ensures calls == old(calls) + StepHashes(old(leaves), Op.Insert(v), nodes)
      ensures NaiveAnswer(old(leaves), [v], leaves, err)
      ensures err.None? ==> calls <= old(calls) + 2 + 2 * (|nodes| - 1)
      ensures old(Coherent(hash, State())) ==> (State(), err) == Apply(hash, old(State()), Op.Insert(v))
    {
      ghost var start := State();
      NaiveAnswers(leaves, [v]);
      err := InsertBatchLocked([v], Op.Insert(v));
      if err.None? {
        InsertCost(hash, start, v, State());
      }
      if Coherent(hash, start) {
        SteppedIsApply(hash, start, Op.Insert(v), State(), err);
      }
    }

    method InsertMany(values: seq<nat>) returns (err: Option<Error>)
      requires Shaped()
      modifies this
      ensures Shaped() && Stepped(hash, old(State()), Op.InsertMany(values), State(), err)
      ensures calls == old(calls) + StepHashes(old(leaves), Op.InsertMany(values), nodes)
      ensures NaiveAnswer(old(leaves), values, leaves, err)
      ensures old(Coherent(hash, State())) ==> (State(), err) == Apply(hash, old(State()), Op.InsertMany(values))
    {
      ghost var start := State();
      NaiveAnswers(leaves, values);
      if |values| == 0 {
        NoLeafStep(hash, State());
        return Some(NoValues);
      }
      err := InsertBatchLocked(values, Op.InsertMany(values));
      if Coherent(hash, start) {
        SteppedIsApply(hash, start, Op.InsertMany(values), State(), err);
      }
    }

    /** One round of the sorted loop: finalizes the old tail and appends v with its hash pending. */
    method AppendTailLocked(v: nat, modified: set<nat>) returns (m: set<nat>, err: Option<Error>)
      requires Shaped() && leaves != []
      modifies this
      ensures err == TailError(old(leaves), v)
      ensures var last := old(leaves)[|old(leaves)| - 1];
        if last.nextValue == 0 && last.value < v then err == None else StoppedBy(last, v, err)
      ensures err.Some? ==> State() == old(State()) && calls == old(calls)
      ensures err.None? ==>
        && TailAppended(hash, old(State()), v, State())
        && m == modified + {|old(leaves)| - 1} + {|old(leaves)|}
        && calls == old(calls) + 1
    {
      m, err := modified, None;
      var tailIdx := |leaves| - 1;
      var tail := leaves[tailIdx];
      if tail.nextValue != 0 {
        return m, Some(Unsorted);
      }
      if v == tail.value {
        return m, Some(Duplicate);
      }
      if v < tail.value {
        return m, Some(Unsorted);
      }
      leaves := leaves[tailIdx := IndexedLeaf(tail.value, v)];
      var c := Hash2(tail.value, v);
      nodes := nodes[0 := nodes[0][tailIdx := Some(c)]];
      m := m + {tailIdx};
      leaves := leaves + [IndexedLeaf(v, 0)];
      nodes := nodes[0 := nodes[0] + [None]];
      m := m + {|leaves| - 1};
    }

    /** InsertManyWithProgress without its progress reports. */
    method InsertManySorted(values: seq<nat>) returns (err: Option<Error>)
      requires Shaped()
      modifies this
      ensures Shaped() && Stepped(hash, old(State()), Op.InsertManySorted(values), State(), err)
      ensures calls == old(calls) + StepHashes(old(leaves), Op.InsertManySorted(values), nodes)
      ensures SortedAnswer(old(leaves), values, leaves, err)
      ensures err.Some? && |leaves| > |old(leaves)| ==> |nodes[0]| == |leaves| && nodes[0][|leaves| - 1] == None
      ensures old(Coherent(hash, State())) ==> (State(), err) == Apply(hash, old(State()), Op.InsertManySorted(values))
      ensures old(State()) == EMPTY_TREE && err.None? ==> calls == old(calls) + 2 * |values| + 1
    {
      ghost var start := State();
      SortedAnswers(leaves, values);
      NoLeafStep(hash, State());
      if |values| == 0 {
        return Some(NoValues);
      }
      var k := 0;
      while k < |values|
        invariant 0 <= k <= |values| && 0 !in values[..k]
      {
        if values[k] == 0 {
          return Some(InsertZero);
        }
        k := k + 1;
      }
      assert values[..|values|] == values;
      err := InsertTailsLocked(values);
      if start == EMPTY_TREE && err.None? {
        SortedBuildCost(hash, values, State());
      }
      if Coherent(hash, start) {
        SteppedIsApply(hash, start, Op.InsertManySorted(values), State(), err);
      }
    }

    /** The sentinel and the first value of a sorted build, the hash of the latter pending. */
    method StartTailsLocked(first: nat) returns (m: set<nat>)
      requires Shaped() && leaves == []
      modifies this
      ensures leaves == FirstLeaves(first) && m == {0} + {1}
      ensures nodes == old(nodes)[0 := [Some(hash(0, first)), None]]
      ensures calls == old(calls) + 1
    {
      leaves := leaves + [IndexedLeaf(0, first)];
      var c := Hash2(0, first);
      nodes := nodes[0 := nodes[0] + [Some(c)]];
      m := {0};
      leaves := leaves + [IndexedLeaf(first, 0)];
      nodes := nodes[0 := nodes[0] + [None]];
      m := m + {1};
      assert nodes[0] == [Some(hash(0, first)), None];
    }

    /** Fills in the hash of the last leaf if it is pending. */
    method FinishTailLocked()
      requires Shaped() && leaves != []
      modifies this`nodes, this`calls
      ensures var last := |leaves| - 1;
        if old(nodes)[0][last].Some? then nodes == old(nodes) && calls == old(calls)
        else
          nodes == old(nodes)[0 := old(nodes)[0][last := Some(Commit(hash, leaves[last]))]] && calls == old(calls) + 1
    {
      var lastIdx := |leaves| - 1;
      if nodes[0][lastIdx].None? {
        var last := leaves[lastIdx];
        var c := Hash2(last.value, last.nextValue);
        nodes := nodes[0 := nodes[0][lastIdx := Some(c)]];
      }
    }

    /** Where the sorted loop begins: at the second value of a sorted build, else at the first. */
    method BeginTailsLocked(values: seq<nat>) returns (i: nat, modified: set<nat>)
      requires Shaped() && values != []
      modifies this
      ensures TailsAt(hash, old(State()), values, i, State()) && modified == Changed(old(leaves), leaves)
      ensures calls == old(calls) + i
    {
      ghost var start := State();
      i, modified := 0, {};
      if |leaves| == 0 {
        modified := StartTailsLocked(values[0]);
        i := 1;
        TailsStartEmpty(hash, start, values, State());
      } else {
        TailsStart(hash, start, values);
      }
    }

    /** One round of the sorted loop, seen from the whole batch. */
    method NextTailLocked(values: seq<nat>, i: nat, modified: set<nat>, ghost start: TreeState)
      returns (m: set<nat>, err: Option<Error>)
      requires i < |values| && TailsAt(hash, start, values, i, State()) && modified == Changed(start.leaves, leaves)
      modifies this
      ensures err.None? ==>
        TailsAt(hash, start, values, i + 1, State()) && m == Changed(start.leaves, leaves) && calls == old(calls) + 1
      ensures err.Some? ==>
        State() == old(State()) && calls == old(calls) && SortedBatch(start.leaves, values) == Outcome(leaves, i, err)
    {
      ghost var before := State();
      m, err := AppendTailLocked(values[i], modified);
      if err.Some? {
        TailsFail(hash, start, values, i, before);
      } else {
        TailsAdvance(hash, start, values, i, before, State());
      }
    }

    /** After the sorted loop: the pending hash, then the levels above. */
    method FinishTailsLocked(modified: set<nat>, ghost start: TreeState, ghost values: seq<nat>)
      requires TailsAt(hash, start, values, |values|, State()) && values != []
      modifies this`nodes, this`calls
      ensures var row := LevelZero(hash, start.nodes[0], start.leaves, leaves, false);
        Rebuilt(hash, start.nodes[0 := row], nodes, modified, Depth(|leaves|))
      ensures calls == old(calls) + 1 + RebuildHashes(nodes, modified, Depth(|leaves|))
    {
      ghost var before := State();
      TailsEnd(hash, start, values, before);
      FinishTailLocked();
      PendingFilled(hash, start, before, State());
      RecomputeLocked(modified);
    }

    /** The body of the sorted path, on values without a zero. */
    method InsertTailsLocked(values: seq<nat>) returns (err: Option<Error>)
      requires Shaped() && values != [] && 0 !in values
      modifies this
      ensures Shaped() && Stepped(hash, old(State()), Op.InsertManySorted(values), State(), err)
      ensures calls == old(calls) + StepHashes(old(leaves), Op.InsertManySorted(values), nodes)
    {
      ghost var start := State();
      NoLeafStep(hash, start);
      var i, modified := BeginTailsLocked(values);
      while i < |values|
        invariant TailsAt(hash, start, values, i, State()) && modified == Changed(start.leaves, leaves)
        invariant calls == old(calls) + i
      {
        modified, err := NextTailLocked(values, i, modified, start);
        if err.Some? {
          return;
        }
        i := i + 1;
      }
      TailsEnd(hash, start, values, State());
      FinishTailsLocked(modified, start, values);
      err := None;
    }

    // ----- proof_gen.go -----

    /** The loop of buildProofLocked: from leaf physIdx up to the top level. */
    method CollectPath(physIdx: nat) returns (siblings: seq<nat>, leafIndex: nat)
      requires nodes != []
      ensures IsCollected(nodes, physIdx, siblings, leafIndex) && leafIndex < TWO_64
    {
      siblings, leafIndex := [], 0;
      var bitPos, i := 0, physIdx;
      var depth := |nodes| - 1;
      var level := 0;
      ghost var path: seq<Step> := [];
      while level < depth
        invariant 0 <= level <= depth && i == Anc(physIdx, level)
        invariant path == StoredPath(nodes, physIdx, level)
        invariant siblings == Siblings(path) && bitPos == |path|
        invariant leafIndex == Pack(path)
      {
        siblings, leafIndex, bitPos := CollectSibling(nodes[level], i, siblings, leafIndex, bitPos, path);
        path := path + StoredStepAt(nodes[level], i);
        i := i / 2;
        level := level + 1;
      }
      PackFits(path);
    }

    method BuildProofLocked(pt: uint8, v: nat, physIdx: nat) returns (p: Proof)
      requires nodes != [] && physIdx < |leaves|
      ensures p == BuildProof(State(), pt, v, physIdx)
    {
      var leaf := leaves[physIdx];
      var siblings, leafIndex := CollectPath(physIdx);
      var root := Root();
      p := Proof(pt, root, Some(v), Some(leaf.value), Some(leaf.nextValue), leafIndex, siblings);
      BuiltFrom(State(), pt, v, physIdx, p);
    }

    method GenerateProof(v: nat) returns (r: Result<Proof, Error>)
      requires nodes != []
      ensures r == Generate(State(), v)
      ensures v == 0 <==> r == Failure(InsertZero)
      ensures v > 0 && leaves == [] <==> r == Failure(EmptyTree)
      ensures r == Failure(LowLeafNotFound) <==>
        && v > 0 && leaves != []
        && (forall i :: 1 <= i < |leaves| ==> leaves[i].value != v)
        && (forall i :: 0 <= i < |leaves| ==> !IsLow(leaves[i], v))
      ensures v > 0 && leaves != [] && Linked(leaves) ==> r.Success?
      ensures r.Success? ==>
        && r.value.value == Some(v) && r.value.root == StoredRoot(nodes, |leaves|)
        && r.value.proofType == if exists i :: 1 <= i < |leaves| && leaves[i].value == v then 0 else 1
    {
      if v == 0 {
        return Failure(InsertZero);
      }
      if |leaves| == 0 {
        return Failure(EmptyTree);
      }
      if Linked(leaves) {
        LowLeafFound(leaves, v);
      }
      var idx := IndexOfLocked(v);
      if idx.Some? {
        var p := BuildProofLocked(PROOF_MEMBERSHIP, v, idx.value);
        return Success(p);
      }
      var low := FindLowLeafIndexLocked(v);
      if low.Failure? {
        return Failure(low.error);
      }
      var p := BuildProofLocked(PROOF_NON_MEMBERSHIP, v, low.value);
      return Success(p);
    }
  }

  // ----- verify.go -----

  method WalkPath(h: Hasher, leaf: nat, leafIndex: uint64, siblings: seq<nat>) returns (node: nat)
    ensures node == Walk(h, leaf, leafIndex, siblings, |siblings|)
  {
    node := leaf;
    var i := 0;
    while i < |siblings|
      invariant 0 <= i <= |siblings| && node == Walk(h, leaf, leafIndex, siblings, i)
    {
      if Bit(leafIndex, i) {
        node := h(siblings[i], node);
      } else {
        node := h(node, siblings[i]);
      }
      i := i + 1;
    }
  }

  method VerifyProof(h: Hasher, proof: Option<Proof>) returns (ok: bool)
    ensures ok == Verify(h, proof)
    ensures ok <==>
      && proof.Some?
      && var p := proof.value;
         && p.root.Some? && p.value.Some? && p.leafValue.Some? && p.leafNextValue.Some?
         && (p.proofType == 0 || p.proofType == 1)
         && (p.proofType == 0 ==> p.leafValue == p.value)
         && (p.proofType == 1 ==>
               && p.leafValue.value < p.value.value
               && (p.leafNextValue.value == 0 || p.leafNextValue.value > p.value.value))
         && Walk(h, h(p.leafValue.value, p.leafNextValue.value), p.leafIndex, p.siblings, |p.siblings|) == p.root.value
    ensures ok && proof.value.value == Some(0) ==> proof.value.proofType == PROOF_MEMBERSHIP
  {
    if proof.None? {
      return false;
    }
    var p := proof.value;
    if p.root.None? || p.value.None? || p.leafValue.None? || p.leafNextValue.None? {
      return false;
    }
    var v, leaf := p.value.value, IndexedLeaf(p.leafValue.value, p.leafNextValue.value);
    if p.proofType == PROOF_MEMBERSHIP {
      if leaf.value != v {
        return false;
      }
    } else if p.proofType == PROOF_NON_MEMBERSHIP {
      if leaf.value >= v {
        return false;
      }
      if leaf.nextValue != 0 && leaf.nextValue <= v {
        return false;
      }
    } else {
      return false;
    }
    var commitment := h(leaf.value, leaf.nextValue);
    var got := WalkPath(h, commitment, p.leafIndex, p.siblings);
    return got == p.root.value;
  }

  /** One round of the loop of buildProofLocked: emits the sibling and the bit of node i, if there is a sibling. */
  method CollectSibling(row: seq<Node>, i: nat, siblings: seq<nat>, leafIndex: nat, bitPos: nat, ghost path: seq<Step>)
    returns (siblings': seq<nat>, leafIndex': nat, bitPos': nat)
    requires siblings == Siblings(path) && leafIndex == Pack(path) && bitPos == |path|
    ensures var path' := path + StoredStepAt(row, i);
      siblings' == Siblings(path') && leafIndex' == Pack(path') && bitPos' == |path'|
  {
    SiblingsGrow(path, StoredStepAt(row, i));
    PackGrows(path, StoredStepAt(row, i));
    siblings', leafIndex', bitPos' := siblings, leafIndex, bitPos;
    var isRight := i % 2;
    var sibIdx := if isRight == 1 then i - 1 else i + 1;
    if sibIdx < |row| && row[sibIdx].Some? {
      siblings' := siblings + [row[sibIdx].value];
      if isRight == 1 {
        leafIndex' := leafIndex + ShiftedOne(bitPos);
      }
      bitPos' := bitPos + 1;
    }
  }
}
