/** The JSON snapshot of snapshot.go as the struct that is written and read. */
module Snapshot {
  import opened Wrappers
  import opened Types
  import opened Grid
  import opened LinkedLeaves
  import opened TreeSpec
  import opened LeanIMTPlusTree
  import Hex

  const SNAPSHOT_VERSION := 2

  datatype LeafEntry = LeafEntry(value: string, nextValue: string)

  datatype Snapshot = Snapshot(
    version: int,
    root: string,
    depth: int,
    leafCount: int,
    size: int,
    crlNumber: uint64,
    nodes: seq<seq<string>>,
    leaves: seq<LeafEntry>)

  /** A negative number, which hex text can hold, is reported like unreadable text: the tree here holds naturals. */
  datatype SnapshotError = BadVersion | BadDepth | BadNode | BadLeaf | BadState(error: Error)

  function HexOf(n: nat): string {
    Hex.Encode(Some(n))
  }

  function CellText(n: Node): string {
    if n.None? then "" else HexOf(n.value)
  }

  function EntryOf(l: IndexedLeaf): LeafEntry {
    LeafEntry(HexOf(l.value), HexOf(l.nextValue))
  }

  function RowTexts(row: seq<Node>): seq<string> {
    seq(|row|, i requires 0 <= i < |row| => CellText(row[i]))
  }

  function NodeTexts(nodes: seq<seq<Node>>): seq<seq<string>> {
    seq(|nodes|, k requires 0 <= k < |nodes| => RowTexts(nodes[k]))
  }

  function Entries(ls: Leaves): seq<LeafEntry> {
    seq(|ls|, i requires 0 <= i < |ls| => EntryOf(ls[i]))
  }

  function ToSnapshot(s: TreeState, crlNumber: uint64): Snapshot
    requires s.nodes != []
  {
    Snapshot(SNAPSHOT_VERSION, Hex.Encode(StoredRoot(s.nodes, |s.leaves|)), |s.nodes| - 1, |s.leaves|,
             if s.leaves == [] then 0 else |s.leaves| - 1, crlNumber, NodeTexts(s.nodes), Entries(s.leaves))
  }

  // ----- reading -----

  /** A text that stands for a natural number. */
  predicate IsNumber(t: string) {
    Hex.Decode(t).Success? && Hex.Decode(t).value >= 0
  }

  function NumberOf(t: string): nat
    requires IsNumber(t)
  {
    Hex.Decode(t).value
  }

  predicate IsCell(t: string) {
    t == "" || IsNumber(t)
  }

  function CellOf(t: string): Node
    requires IsCell(t)
  {
    if t == "" then None else Some(NumberOf(t))
  }

  predicate IsEntry(e: LeafEntry) {
    IsNumber(e.value) && IsNumber(e.nextValue)
  }

  function LeafOf(e: LeafEntry): IndexedLeaf
    requires IsEntry(e)
  {
    IndexedLeaf(NumberOf(e.value), NumberOf(e.nextValue))
  }

  predicate IsRow(row: seq<string>) {
    forall i :: 0 <= i < |row| ==> IsCell(row[i])
  }

  function RowOf(row: seq<string>): (r: seq<Node>)
    requires IsRow(row)
    ensures |r| == |row| && forall i :: 0 <= i < |row| ==> r[i] == CellOf(row[i])
  {
    seq(|row|, i requires 0 <= i < |row| => CellOf(row[i]))
  }

  predicate AreRows(rows: seq<seq<string>>) {
    forall k :: 0 <= k < |rows| ==> IsRow(rows[k])
  }

  function NodesOf(rows: seq<seq<string>>): (r: seq<seq<Node>>)
    requires AreRows(rows)
    ensures |r| == |rows| && forall k :: 0 <= k < |rows| ==> r[k] == RowOf(rows[k])
  {
    seq(|rows|, k requires 0 <= k < |rows| => RowOf(rows[k]))
  }

  predicate AreEntries(es: seq<LeafEntry>) {
    forall i :: 0 <= i < |es| ==> IsEntry(es[i])
  }

  function LeavesOf(es: seq<LeafEntry>): (r: Leaves)
    requires AreEntries(es)
    ensures |r| == |es| && forall i :: 0 <= i < |es| ==> r[i] == LeafOf(es[i])
  {
    seq(|es|, i requires 0 <= i < |es| => LeafOf(es[i]))
  }

  /** Import, after the JSON is parsed. */
  function FromSnapshot(snap: Snapshot): Result<(TreeState, uint64), SnapshotError> {
    if snap.version != SNAPSHOT_VERSION then Failure(BadVersion)
    else if snap.depth < 0 || (|snap.nodes| > 0 && snap.depth != |snap.nodes| - 1) then Failure(BadDepth)
    else if !AreRows(snap.nodes) then Failure(BadNode)
    else if !AreEntries(snap.leaves) then Failure(BadLeaf)
    else
      var r := Reload(NodesOf(snap.nodes), LeavesOf(snap.leaves));
      if r.Failure? then Failure(BadState(r.error)) else Success((r.value, snap.crlNumber))
  }

  // ----- what is written, field by field -----

  /** The text of a cell: nothing for nil, else the number. */
  ghost predicate CellWritten(t: string, cell: Node) {
    if cell.None? then t == "" else Hex.HexText(t, cell)
  }

  ghost predicate NodesWritten(texts: seq<seq<string>>, nodes: seq<seq<Node>>) {
    && |texts| == |nodes|
    && forall k :: 0 <= k < |nodes| ==> RowWritten(texts[k], nodes[k])
  }

  ghost predicate RowWritten(texts: seq<string>, row: seq<Node>) {
    |texts| == |row| && forall i :: 0 <= i < |row| ==> CellWritten(texts[i], row[i])
  }

  ghost predicate LeavesWritten(es: seq<LeafEntry>, ls: Leaves) {
    && |es| == |ls|
    && forall i :: 0 <= i < |ls| ==>
         Hex.HexText(es[i].value, Some(ls[i].value)) && Hex.HexText(es[i].nextValue, Some(ls[i].nextValue))
  }

  lemma RowTextsWritten(row: seq<Node>)
    ensures RowWritten(RowTexts(row), row)
  {
    forall i | 0 <= i < |row|
      ensures CellWritten(RowTexts(row)[i], row[i])
    {
      Hex.EncodeText(row[i]);
    }
  }

  lemma NodeTextsWritten(nodes: seq<seq<Node>>)
    ensures NodesWritten(NodeTexts(nodes), nodes)
  {
    forall k | 0 <= k < |nodes|
      ensures RowWritten(NodeTexts(nodes)[k], nodes[k])
    {
      RowTextsWritten(nodes[k]);
    }
  }

  lemma EntriesWritten(ls: Leaves)
    ensures LeavesWritten(Entries(ls), ls)
  {
    forall i | 0 <= i < |ls|
      ensures Hex.HexText(Entries(ls)[i].value, Some(ls[i].value))
      ensures Hex.HexText(Entries(ls)[i].nextValue, Some(ls[i].nextValue))
    {
      Hex.EncodeText(Some(ls[i].value));
      Hex.EncodeText(Some(ls[i].nextValue));
    }
  }

  /** The text of the root: the first cell of the top row, the number the leaves commit to on a coherent tree. */
  ghost predicate RootWritten(t: string, h: Hasher, s: TreeState)
    requires s.nodes != []
  {
    var top := s.nodes[|s.nodes| - 1];
    && (s.leaves == [] ==> t == "0x0")
    && (s.leaves != [] && top != [] ==> Hex.HexText(t, top[0]))
    && (s.leaves != [] && Coherent(h, s) ==> Hex.HexText(t, Some(RootOf(h, Commitments(h, s.leaves)))))
  }

  lemma RootTextWritten(h: Hasher, s: TreeState)
    requires s.nodes != []
    ensures RootWritten(Hex.Encode(StoredRoot(s.nodes, |s.leaves|)), h, s)
  {
    var root := StoredRoot(s.nodes, |s.leaves|);
    var text := Hex.Encode(root);
    Hex.EncodeText(root);
    if Coherent(h, s) && s.leaves != [] {
      GridRoot(h, Commitments(h, s.leaves));
    }
    RootTextIs(text, root, h, s);
  }

  lemma RootTextIs(t: string, root: Node, h: Hasher, s: TreeState)
    requires s.nodes != [] && root == StoredRoot(s.nodes, |s.leaves|) && Hex.HexText(t, root)
    requires s.leaves != [] && Coherent(h, s) ==> root == Some(RootOf(h, Commitments(h, s.leaves)))
    ensures RootWritten(t, h, s)
  {
  }

  /** Every field of a written snapshot. */
  lemma {:induction false} WrittenFields(h: Hasher, s: TreeState, crlNumber: uint64)
    requires s.nodes != []
    ensures var snap := ToSnapshot(s, crlNumber);
      && snap.version == 2 && snap.depth == |s.nodes| - 1 && snap.leafCount == |s.leaves|
      && snap.size == |UserValues(s.leaves)| && snap.crlNumber == crlNumber
      && NodesWritten(snap.nodes, s.nodes) && LeavesWritten(snap.leaves, s.leaves)
      && RootWritten(snap.root, h, s)
  {
    NodeTextsWritten(s.nodes);
    EntriesWritten(s.leaves);
    RootTextWritten(h, s);
  }

  // ----- the loops -----

  method Export(tree: LeanIMTPlus, crlNumber: uint64) returns (snap: Snapshot)
    requires tree.nodes != []
    ensures snap == ToSnapshot(tree.State(), crlNumber)
    ensures snap.version == 2 && snap.depth == |tree.nodes| - 1 && snap.leafCount == |tree.leaves|
    ensures snap.size == |UserValues(tree.leaves)| && snap.crlNumber == crlNumber
    ensures NodesWritten(snap.nodes, tree.nodes) && LeavesWritten(snap.leaves, tree.leaves)
    ensures RootWritten(snap.root, tree.hash, tree.State())
  {
    var nodes, leaves := tree.ExportState();
    var jsonNodes := seq(|nodes|, _ => []);
    var level := 0;
    while level < |nodes|
      invariant 0 <= level <= |nodes| && |jsonNodes| == |nodes|
      invariant forall k :: 0 <= k < level ==> jsonNodes[k] == RowTexts(nodes[k])
    {
      var row := seq(|nodes[level]|, _ => "");
      var i := 0;
      while i < |nodes[level]|
        invariant 0 <= i <= |nodes[level]| == |row|
        invariant forall j :: 0 <= j < i ==> row[j] == CellText(nodes[level][j])
      {
        if nodes[level][i].None? {
          row := row[i := ""];
        } else {
          row := row[i := HexOf(nodes[level][i].value)];
        }
        i := i + 1;
      }
      jsonNodes := jsonNodes[level := row];
      level := level + 1;
    }
    assert jsonNodes == NodeTexts(nodes);
    var jsonLeaves := [];
    var i := 0;
    while i < |leaves|
      invariant 0 <= i <= |leaves| && jsonLeaves == Entries(leaves)[..i]
    {
      jsonLeaves := jsonLeaves + [LeafEntry(HexOf(leaves[i].value), HexOf(leaves[i].nextValue))];
      i := i + 1;
    }
    var root := tree.Root();
    snap := Snapshot(SNAPSHOT_VERSION, Hex.Encode(root), |nodes| - 1, |leaves|,
                     if |leaves| == 0 then 0 else |leaves| - 1, crlNumber, jsonNodes, jsonLeaves);
    WrittenFields(tree.hash, tree.State(), crlNumber);
  }

  method ImportRow(row: seq<string>) returns (r: Option<seq<Node>>)
    ensures r == if IsRow(row) then Some(RowOf(row)) else None
  {
    var out: seq<Node> := seq(|row|, _ => None);
    var i := 0;
    while i < |row|
      invariant 0 <= i <= |row| == |out|
      invariant forall j :: 0 <= j < i ==> IsCell(row[j]) && out[j] == CellOf(row[j])
      invariant forall j :: i <= j < |row| ==> out[j] == None
    {
      if row[i] != "" {
        var n := Hex.Decode(row[i]);
        if n.Failure? || n.value < 0 {
          assert !IsCell(row[i]);
          return None;
        }
        out := out[i := Some(n.value)];
      }
      i := i + 1;
    }
    assert out == RowOf(row);
    return Some(out);
  }

  method ImportNodes(rows: seq<seq<string>>) returns (r: Option<seq<seq<Node>>>)
    ensures r == if AreRows(rows) then Some(NodesOf(rows)) else None
  {
    var nodes: seq<seq<Node>> := seq(|rows|, _ => []);
    var level := 0;
    while level < |rows|
      invariant 0 <= level <= |rows| == |nodes|
      invariant forall k :: 0 <= k < level ==> IsRow(rows[k]) && nodes[k] == RowOf(rows[k])
    {
      var row := ImportRow(rows[level]);
      if row.None? {
        assert !IsRow(rows[level]);
        return None;
      }
      nodes := nodes[level := row.value];
      level := level + 1;
    }
    assert AreRows(rows) && nodes == NodesOf(rows);
    return Some(nodes);
  }

  method ImportLeaves(es: seq<LeafEntry>) returns (r: Option<Leaves>)
    ensures r == if AreEntries(es) then Some(LeavesOf(es)) else None
  {
    var leaves: Leaves := seq(|es|, _ => IndexedLeaf(0, 0));
    var i := 0;
    while i < |es|
      invariant 0 <= i <= |es| == |leaves|
      invariant forall j :: 0 <= j < i ==> IsEntry(es[j]) && leaves[j] == LeafOf(es[j])
    {
      var v := Hex.Decode(es[i].value);
      if v.Failure? || v.value < 0 {
        assert !IsEntry(es[i]);
        return None;
      }
      var next := Hex.Decode(es[i].nextValue);
      if next.Failure? || next.value < 0 {
        assert !IsEntry(es[i]);
        return None;
      }
      leaves := leaves[i := IndexedLeaf(v.value, next.value)];
      i := i + 1;
    }
    assert AreEntries(es);
    assert leaves == LeavesOf(es);
    return Some(leaves);
  }

  /** The text is not that of a number at or above zero. */
  predicate Unreadable(t: string) {
    Hex.Decode(t).Failure? || Hex.Decode(t).value < 0
  }

  predicate HasBadNode(rows: seq<seq<string>>) {
    exists k, i :: 0 <= k < |rows| && 0 <= i < |rows[k]| && rows[k][i] != "" && Unreadable(rows[k][i])
  }

  predicate HasBadLeaf(es: seq<LeafEntry>) {
    exists i :: 0 <= i < |es| && (Unreadable(es[i].value) || Unreadable(es[i].nextValue))
  }

  lemma BadNodeIff(rows: seq<seq<string>>)
    ensures HasBadNode(rows) <==> !AreRows(rows)
  {
    if !AreRows(rows) {
      var k :| 0 <= k < |rows| && !IsRow(rows[k]);
      var i :| 0 <= i < |rows[k]| && !IsCell(rows[k][i]);
    }
    if k, i :| 0 <= k < |rows| && 0 <= i < |rows[k]| && rows[k][i] != "" && Unreadable(rows[k][i]) {
      assert !IsCell(rows[k][i]) && !IsRow(rows[k]);
    }
  }

  lemma BadLeafIff(es: seq<LeafEntry>)
    ensures HasBadLeaf(es) <==> !AreEntries(es)
  {
    if !AreEntries(es) {
      var i :| 0 <= i < |es| && !IsEntry(es[i]);
    }
  }

  predicate BadDepthField(snap: Snapshot) {
    snap.depth < 0 || (|snap.nodes| > 0 && snap.depth != |snap.nodes| - 1)
  }

  predicate Legible(snap: Snapshot) {
    snap.version == 2 && !BadDepthField(snap) && !HasBadNode(snap.nodes) && !HasBadLeaf(snap.leaves)
  }

  /** There are leaves, and not as many cells on level 0. */
  predicate Misshapen(snap: Snapshot) {
    snap.leaves != [] && (snap.nodes == [] || |snap.nodes[0]| != |snap.leaves|)
  }

  /** The text is that of the number. */
  predicate Reads(t: string, n: nat) {
    Hex.Decode(t) == Success(n)
  }

  /** Every cell is nil where the text is empty, else the number in it. */
  predicate NodesRead(texts: seq<seq<string>>, nodes: seq<seq<Node>>) {
    && |texts| == |nodes|
    && forall k :: 0 <= k < |nodes| ==>
         && |texts[k]| == |nodes[k]|
         && forall i :: 0 <= i < |nodes[k]| ==>
              if texts[k][i] == "" then nodes[k][i] == None
              else nodes[k][i].Some? && Reads(texts[k][i], nodes[k][i].value)
  }

  predicate LeavesRead(es: seq<LeafEntry>, ls: Leaves) {
    && |es| == |ls|
    && forall i :: 0 <= i < |ls| ==> Reads(es[i].value, ls[i].value) && Reads(es[i].nextValue, ls[i].nextValue)
  }

  /** What a snapshot loads as: a fresh tree without leaves, else the numbers in it. */
  lemma {:induction false} LoadedFields(snap: Snapshot)
    requires FromSnapshot(snap).Success?
    ensures var (s, crlNumber) := FromSnapshot(snap).value;
      && crlNumber == snap.crlNumber
      && if snap.leaves == [] then s == EMPTY_TREE
         else NodesRead(snap.nodes, s.nodes) && LeavesRead(snap.leaves, s.leaves)
  {
  }

  /** Why a snapshot is refused: the first of these that applies. */
  lemma {:induction false} RefusedWhy(snap: Snapshot)
    ensures var r := FromSnapshot(snap);
      && (snap.version != 2 <==> r == Failure(BadVersion))
      && (snap.version == 2 && BadDepthField(snap) <==> r == Failure(BadDepth))
      && (snap.version == 2 && !BadDepthField(snap) && HasBadNode(snap.nodes) <==> r == Failure(BadNode))
      && (snap.version == 2 && !BadDepthField(snap) && !HasBadNode(snap.nodes) && HasBadLeaf(snap.leaves) <==>
            r == Failure(BadLeaf))
      && (r.Failure? && r.error.BadState? <==> Legible(snap) && Misshapen(snap))
      && (Legible(snap) && Misshapen(snap) ==>
            r == Failure(BadState(if snap.nodes == [] then EmptyNodes else StateLengthMismatch)))
  {
    BadNodeIff(snap.nodes);
    BadLeafIff(snap.leaves);
  }

  method Import(h: Hasher, snap: Snapshot) returns (tree: LeanIMTPlus, crlNumber: uint64, err: Option<SnapshotError>)
    ensures fresh(tree) && tree.hash == h
    ensures snap.version != 2 <==> err == Some(BadVersion)
    ensures snap.version == 2 && BadDepthField(snap) <==> err == Some(BadDepth)
    ensures snap.version == 2 && !BadDepthField(snap) && HasBadNode(snap.nodes) <==> err == Some(BadNode)
    ensures snap.version == 2 && !BadDepthField(snap) && !HasBadNode(snap.nodes) && HasBadLeaf(snap.leaves) <==>
      err == Some(BadLeaf)
    ensures Legible(snap) && Misshapen(snap) ==>
      err == Some(BadState(if snap.nodes == [] then EmptyNodes else StateLengthMismatch))
    ensures Legible(snap) && !Misshapen(snap) <==> err == None
    ensures err == None ==>
      && crlNumber == snap.crlNumber
      && if snap.leaves == [] then tree.State() == EMPTY_TREE
         else NodesRead(snap.nodes, tree.nodes) && LeavesRead(snap.leaves, tree.leaves)
    ensures match FromSnapshot(snap)
      case Success((s, crl)) => err == None && tree.State() == s && crlNumber == crl
      case Failure(e) => err == Some(e)
  {
    RefusedWhy(snap);
    if FromSnapshot(snap).Success? {
      LoadedFields(snap);
    }
    tree := new LeanIMTPlus(h);
    crlNumber := 0;
    if snap.version != SNAPSHOT_VERSION {
      return tree, 0, Some(BadVersion);
    }
    if snap.depth < 0 || (|snap.nodes| > 0 && snap.depth != |snap.nodes| - 1) {
      return tree, 0, Some(BadDepth);
    }
    var nodes := ImportNodes(snap.nodes);
    if nodes.None? {
      return tree, 0, Some(BadNode);
    }
    var leaves := ImportLeaves(snap.leaves);
    if leaves.None? {
      return tree, 0, Some(BadLeaf);
    }
    if |leaves.value| > 0 {
      var e := tree.ImportState(nodes.value, leaves.value);
      if e.Some? {
        return tree, 0, Some(BadState(e.value));
      }
    }
    return tree, snap.crlNumber, None;
  }

  // ----- round trip -----

  lemma NumberReadsBack(n: nat)
    ensures IsNumber(HexOf(n)) && NumberOf(HexOf(n)) == n && HexOf(n) != ""
  {
    Hex.DecodeEncode(Some(n));
  }

  lemma {:induction false} RowReadsBack(row: seq<Node>)
    ensures IsRow(RowTexts(row)) && RowOf(RowTexts(row)) == row
  {
    forall i | 0 <= i < |row|
      ensures IsCell(RowTexts(row)[i]) && CellOf(RowTexts(row)[i]) == row[i]
    {
      if row[i].Some? {
        NumberReadsBack(row[i].value);
      }
    }
  }

  lemma {:induction false} EntriesReadBack(ls: Leaves)
    ensures AreEntries(Entries(ls)) && LeavesOf(Entries(ls)) == ls
  {
    forall i | 0 <= i < |ls|
      ensures IsEntry(Entries(ls)[i]) && LeafOf(Entries(ls)[i]) == ls[i]
    {
      NumberReadsBack(ls[i].value);
      NumberReadsBack(ls[i].nextValue);
    }
  }

  lemma {:induction false} NodesReadBack(nodes: seq<seq<Node>>)
    ensures AreRows(NodeTexts(nodes)) && NodesOf(NodeTexts(nodes)) == nodes
  {
    forall k | 0 <= k < |nodes|
      ensures IsRow(NodeTexts(nodes)[k]) && RowOf(NodeTexts(nodes)[k]) == nodes[k]
    {
      RowReadsBack(nodes[k]);
    }
  }

  /** Reading a written snapshot restores leaves, grid and number, nil cells included, exactly for restorable states. */
  lemma {:induction false} SnapshotRoundTrip(s: TreeState, crlNumber: uint64)
    requires s.nodes != []
    ensures FromSnapshot(ToSnapshot(s, crlNumber)) == Success((s, crlNumber)) <==> Restorable(s)
  {
    NodesReadBack(s.nodes);
    EntriesReadBack(s.leaves);
    ReloadIffRestorable(s);
  }

  /** So every coherent tree comes back, the empty one included. */
  lemma CoherentSnapshot(h: Hasher, s: TreeState, crlNumber: uint64)
    requires Coherent(h, s)
    ensures FromSnapshot(ToSnapshot(s, crlNumber)) == Success((s, crlNumber))
  {
    CoherentIsRestorable(h, s);
    SnapshotRoundTrip(s, crlNumber);
  }
}
