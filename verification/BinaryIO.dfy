/** The loops of binary.go, which write and read the binary snapshot, and the bytes they write and accept. */
module BinaryIO {
  import opened Wrappers
  import opened Types
  import opened Grid
  import opened LinkedLeaves
  import opened TreeSpec
  import opened LeanIMTPlusTree
  import opened Binary
  import opened BinaryLayout

  // ----- the loops -----

  /** FillBytes panics on a number that does not fit; nil and zero become 32 zero bytes. */
  function BigTo32(n: Node): (r: Bytes)
    requires Fits(Value(n), 32)
    ensures r == Put(Value(n), 32)
    ensures BigEndian(r, Value(n)) && |r| == 32
  {
    PutIsBigEndian(Value(n), 32);
    PutZero(32);
    if n.Some? && n.value > 0 then Put(n.value, 32) else seq(32, _ => 0)
  }

  lemma Regroup3(w: Bytes, a: Bytes, b: Bytes, rest: Bytes)
    ensures w + (a + b + rest) == w + a + b + rest
  {
  }

  method WriteRow(row: seq<Node>) returns (w: Bytes)
    requires forall i :: 0 <= i < |row| ==> Fits(Value(row[i]), 32)
    ensures w == PutRow(row)
  {
    w := Put(|row|, 4);
    var i := 0;
    while i < |row|
      invariant 0 <= i <= |row|
      invariant w + PutCells(row[i..]) == PutRow(row)
    {
      var present: uint8 := 0;
      if row[i].Some? {
        present := 1;
      }
      assert row[i..][0] == row[i] && row[i..][1..] == row[i + 1..];
      Regroup3(w, [present], BigTo32(row[i]), PutCells(row[i + 1..]));
      w := w + [present] + BigTo32(row[i]);
      i := i + 1;
    }
  }

  method WriteRows(nodes: seq<seq<Node>>) returns (w: Bytes)
    requires CellsFit(nodes)
    ensures w == PutRows(nodes)
  {
    w := [];
    var level := 0;
    while level < |nodes|
      invariant 0 <= level <= |nodes|
      invariant w + PutRows(nodes[level..]) == PutRows(nodes)
    {
      var row := WriteRow(nodes[level]);
      assert nodes[level..][0] == nodes[level] && nodes[level..][1..] == nodes[level + 1..];
      Regroup3(w, row, [], PutRows(nodes[level + 1..]));
      assert row + [] == row && w + row + [] == w + row;
      w := w + row;
      level := level + 1;
    }
  }

  method WriteLeaves(leaves: Leaves) returns (w: Bytes)
    requires LeavesInRange(leaves)
    ensures w == PutLeaves(leaves)
  {
    w := [];
    var i := 0;
    while i < |leaves|
      invariant 0 <= i <= |leaves|
      invariant w + PutLeaves(leaves[i..]) == PutLeaves(leaves)
    {
      var v, next := BigTo32(Some(leaves[i].value)), BigTo32(Some(leaves[i].nextValue));
      assert leaves[i..][0] == leaves[i] && leaves[i..][1..] == leaves[i + 1..];
      Regroup3(w, v, next, PutLeaves(leaves[i + 1..]));
      w := w + v + next;
      i := i + 1;
    }
  }

  method ExportBinary(tree: LeanIMTPlus, crlNumber: uint64) returns (w: Bytes)
    requires tree.nodes != []
    requires CellsFit(tree.nodes) && LeavesInRange(tree.leaves)
    ensures w == PutTree(tree.State(), crlNumber)
    ensures |w| >= 50 && w[..4] == [0x4C, 0x49, 0, 2]
    ensures InRange(tree.State(), crlNumber) ==> Written(w, tree.hash, tree.State(), crlNumber)
  {
    var nodes, leaves := tree.ExportState();
    var root := tree.Root();
    RootFits(tree.nodes, |tree.leaves|);
    w := Put(MAGIC, 2) + Put(BINARY_VERSION, 2) + Put(|tree.nodes| - 1, 2) + Put(|tree.leaves|, 4)
      + Put(crlNumber, 8) + BigTo32(root);
    assert w == PutHeader(tree.State(), crlNumber);
    var levels := WriteRows(nodes);
    var records := WriteLeaves(leaves);
    w := w + levels + records;
    HeaderStart(tree.State(), crlNumber);
    if InRange(tree.State(), crlNumber) {
      WrittenBytes(tree.hash, tree.State(), crlNumber);
    }
  }

  /** What was read so far, put before what is still to be read. */
  function After<T>(acc: seq<T>, r: Option<Read<seq<T>>>): Option<Read<seq<T>>> {
    if r.None? then None else Some(Read(acc + r.value.value, r.value.rest))
  }

  lemma AfterNothing<T>(r: Option<Read<seq<T>>>)
    ensures After([], r) == r
  {
    if r.Some? {
      assert [] + r.value.value == r.value.value;
    }
  }

  lemma NothingAfter<T>(acc: seq<T>, rest: Bytes)
    ensures After(acc, Some(Read([], rest))) == Some(Read(acc, rest))
  {
    assert acc + [] == acc;
  }

  method ImportRow(data: Bytes) returns (r: Option<Read<seq<Node>>>)
    ensures r == ReadRow(data)
  {
    var n := ReadFull(data, 4);
    if n.None? {
      return None;
    }
    var count, rest := Get(n.value.value), n.value.rest;
    var level: seq<Node> := [];
    var i := 0;
    AfterNothing(ReadCells(rest, count));
    while i < count
      invariant 0 <= i <= count
      invariant ReadRow(data) == After(level, ReadCells(rest, count - i))
    {
      var cell := ImportCell(rest);
      if cell.None? {
        return None;
      }
      AfterCell(level, rest, count - i, cell.value);
      level := level + [cell.value.value];
      rest := cell.value.rest;
      i := i + 1;
    }
    NothingAfter(level, rest);
    return Some(Read(level, rest));
  }

  method ImportCell(data: Bytes) returns (r: Option<Read<Node>>)
    ensures r == ReadCell(data)
  {
    var pres := ReadFull(data, 1);
    if pres.None? {
      return None;
    }
    var hash := ReadFull(pres.value.rest, 32);
    if hash.None? {
      return None;
    }
    var cell := None;
    if pres.value.value[0] == 1 {
      cell := Some(Get(hash.value.value));
    }
    return Some(Read(cell, hash.value.rest));
  }

  lemma AfterCell(acc: seq<Node>, data: Bytes, count: nat, c: Read<Node>)
    requires count > 0 && ReadCell(data) == Some(c)
    ensures After(acc, ReadCells(data, count)) == After(acc + [c.value], ReadCells(c.rest, count - 1))
  {
    var r := ReadCells(c.rest, count - 1);
    if r.Some? {
      assert acc + ([c.value] + r.value.value) == acc + [c.value] + r.value.value;
    }
  }

  lemma AfterRow(acc: seq<seq<Node>>, data: Bytes, count: nat, row: Read<seq<Node>>)
    requires count > 0 && ReadRow(data) == Some(row)
    ensures After(acc, ReadRows(data, count)) == After(acc + [row.value], ReadRows(row.rest, count - 1))
  {
    var r := ReadRows(row.rest, count - 1);
    if r.Some? {
      assert acc + ([row.value] + r.value.value) == acc + [row.value] + r.value.value;
    }
  }

  lemma AfterLeaf(acc: Leaves, data: Bytes, count: nat, l: Read<IndexedLeaf>)
    requires count > 0 && ReadLeaf(data) == Some(l)
    ensures After(acc, ReadLeaves(data, count)) == After(acc + [l.value], ReadLeaves(l.rest, count - 1))
  {
    var r := ReadLeaves(l.rest, count - 1);
    if r.Some? {
      assert acc + ([l.value] + r.value.value) == acc + [l.value] + r.value.value;
    }
  }

  method ImportRows(data: Bytes, count: nat) returns (r: Option<Read<seq<seq<Node>>>>)
    ensures r == ReadRows(data, count)
  {
    var nodes: seq<seq<Node>> := [];
    var rest, level := data, 0;
    AfterNothing(ReadRows(data, count));
    while level < count
      invariant 0 <= level <= count
      invariant ReadRows(data, count) == After(nodes, ReadRows(rest, count - level))
    {
      var row := ImportRow(rest);
      if row.None? {
        return None;
      }
      AfterRow(nodes, rest, count - level, row.value);
      nodes := nodes + [row.value.value];
      rest := row.value.rest;
      level := level + 1;
    }
    NothingAfter(nodes, rest);
    return Some(Read(nodes, rest));
  }

  method ImportLeaves(data: Bytes, count: nat) returns (r: Option<Read<Leaves>>)
    ensures r == ReadLeaves(data, count)
  {
    var leaves: Leaves := [];
    var rest, i := data, 0;
    AfterNothing(ReadLeaves(data, count));
    while i < count
      invariant 0 <= i <= count
      invariant ReadLeaves(data, count) == After(leaves, ReadLeaves(rest, count - i))
    {
      var v := ReadFull(rest, 32);
      if v.None? {
        return None;
      }
      var next := ReadFull(v.value.rest, 32);
      if next.None? {
        return None;
      }
      var leaf := Read(IndexedLeaf(Get(v.value.value), Get(next.value.value)), next.value.rest);
      AfterLeaf(leaves, rest, count - i, leaf);
      leaves := leaves + [leaf.value];
      rest := leaf.rest;
      i := i + 1;
    }
    NothingAfter(leaves, rest);
    return Some(Read(leaves, rest));
  }

  /** The tree's bytes come first, with a level-0 cell for each leaf, and the rest after them. */
  ghost predicate LaidOut(data: Bytes, s: TreeState, crlNumber: nat, rest: Bytes) {
    && s.nodes != [] && |s.nodes[0]| == |s.leaves| && Layout(data, s, crlNumber)
    && |data| >= TreeSize(s) && rest == data[TreeSize(s)..]
  }

  /** What reading comes to, in bytes. */
  lemma ImportAnswers(data: Bytes)
    ensures |data| < 50 ==> ReadTree(data) == Failure(ShortRead)
    ensures |data| >= 50 ==> (data[..2] != [0x4C, 0x49] <==> ReadTree(data) == Failure(BadMagic))
    ensures |data| >= 50 ==>
      (data[..2] == [0x4C, 0x49] && data[2..4] != [0, 2] <==> ReadTree(data) == Failure(UnsupportedVersion))
    ensures ReadTree(data).Success? ==>
      var r := ReadTree(data).value;
      if r.value.state.leaves == [] then r.value.state == EMPTY_TREE && |data| >= 50 && data[6..10] == [0, 0, 0, 0]
      else LaidOut(data, r.value.state, r.value.crlNumber, r.rest)
  {
    HeaderRefused(data);
    if ReadTree(data).Success? {
      var r := ReadTree(data).value.value;
      LoadedInRange(data);
      if r.state.leaves == [] {
        EmptyCount(data);
      } else {
        LoadsIff(data, r.state, r.crlNumber);
      }
    }
  }

  method ImportBinary(h: Hasher, data: Bytes)
    returns (tree: LeanIMTPlus, crlNumber: nat, rest: Bytes, err: Option<BinaryError>)
    ensures fresh(tree) && tree.hash == h
    ensures |data| < 50 ==> err == Some(ShortRead)
    ensures |data| >= 50 ==> (data[..2] != [0x4C, 0x49] <==> err == Some(BadMagic))
    ensures |data| >= 50 ==> (data[..2] == [0x4C, 0x49] && data[2..4] != [0, 2] <==> err == Some(UnsupportedVersion))
    ensures err == None && tree.leaves != [] ==> LaidOut(data, tree.State(), crlNumber, rest)
    ensures err == None && tree.leaves == [] ==> tree.State() == EMPTY_TREE && data[6..10] == [0, 0, 0, 0]
    ensures match ReadTree(data)
      case Success(r) => err == None && Parsed(tree.State(), crlNumber) == r.value && rest == r.rest
      case Failure(e) => err == Some(e)
  {
    ImportAnswers(data);
    tree := new LeanIMTPlus(h);
    crlNumber, rest := 0, data;
    var hdr := ReadFull(data, 50);
    if hdr.None? {
      return tree, 0, rest, Some(ShortRead);
    }
    var b := hdr.value.value;
    if Get(b[0..2]) != MAGIC {
      return tree, 0, rest, Some(BadMagic);
    }
    if Get(b[2..4]) != BINARY_VERSION {
      return tree, 0, rest, Some(UnsupportedVersion);
    }
    var depth, leafCount := Get(b[4..6]), Get(b[6..10]);
    var nodes := ImportRows(hdr.value.rest, depth + 1);
    if nodes.None? {
      return tree, 0, rest, Some(ShortRead);
    }
    var leaves := ImportLeaves(nodes.value.rest, leafCount);
    if leaves.None? {
      return tree, 0, rest, Some(ShortRead);
    }
    if |leaves.value.value| > 0 {
      var e := tree.ImportState(nodes.value.value, leaves.value.value);
      if e.Some? {
        return tree, 0, rest, Some(BadState(e.value));
      }
    }
    return tree, Get(b[10..18]), leaves.value.rest, None;
  }
}
