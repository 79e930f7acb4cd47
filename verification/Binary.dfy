/**
 The binary snapshot of binary.go: a printer and a parser over streams of bytes, and
 what they make of each other.
 */
module Binary {
  import opened Wrappers
  import opened Types
  import opened Grid
  import opened LinkedLeaves
  import opened TreeSpec

  type Bytes = seq<uint8>

  const MAGIC: nat := 0x4C49
  const BINARY_VERSION: nat := 2

  datatype BinaryError = ShortRead | BadMagic | UnsupportedVersion | BadState(error: Error)

  // ----- big-endian numbers -----

  /** n in w bytes, most significant first; what does not fit is dropped, as by Go's integer conversions. */
  function Put(n: nat, w: nat): (r: Bytes)
    ensures |r| == w
    decreases w, n
  {
    if w == 0 then [] else Put(n / 256, w - 1) + [n % 256]
  }

  function Get(b: Bytes): nat {
    if b == [] then 0 else 256 * Get(b[..|b| - 1]) + b[|b| - 1]
  }

  /** n < 256^w */
  predicate Fits(n: nat, w: nat)
    decreases w, n
  {
    if w == 0 then n == 0 else Fits(n / 256, w - 1)
  }

  lemma {:induction false} GetPut(n: nat, w: nat)
    requires Fits(n, w)
    ensures Get(Put(n, w)) == n
    decreases w
  {
    if w != 0 {
      GetPut(n / 256, w - 1);
      assert Put(n, w)[..w - 1] == Put(n / 256, w - 1);
    }
  }

  // ----- printing -----

  function Value(n: Node): nat {
    if n.Some? then n.value else 0
  }

  function PutCell(n: Node): Bytes {
    [if n.Some? then 1 else 0] + Put(Value(n), 32)
  }

  function PutCells(row: seq<Node>): Bytes {
    if row == [] then [] else PutCell(row[0]) + PutCells(row[1..])
  }

  function PutRow(row: seq<Node>): Bytes {
    Put(|row|, 4) + PutCells(row)
  }

  function PutRows(rows: seq<seq<Node>>): Bytes {
    if rows == [] then [] else PutRow(rows[0]) + PutRows(rows[1..])
  }

  function PutLeaf(l: IndexedLeaf): Bytes {
    Put(l.value, 32) + Put(l.nextValue, 32)
  }

  function PutLeaves(ls: Leaves): Bytes {
    if ls == [] then [] else PutLeaf(ls[0]) + PutLeaves(ls[1..])
  }

  function PutHeader(s: TreeState, crlNumber: nat): Bytes
    requires s.nodes != []
  {
    Put(MAGIC, 2) + Put(BINARY_VERSION, 2) + Put(|s.nodes| - 1, 2) + Put(|s.leaves|, 4) + Put(crlNumber, 8)
    + Put(Value(StoredRoot(s.nodes, |s.leaves|)), 32)
  }

  function PutTree(s: TreeState, crlNumber: nat): Bytes
    requires s.nodes != []
  {
    PutHeader(s, crlNumber) + PutRows(s.nodes) + PutLeaves(s.leaves)
  }

  // ----- parsing: a value and the unread rest, or None when the stream ends early -----

  datatype Read<T> = Read(value: T, rest: Bytes)

  /** io.ReadFull */
  function ReadFull(data: Bytes, n: nat): (r: Option<Read<Bytes>>)
    ensures r.Some? ==> |r.value.value| == n && |r.value.rest| == |data| - n
  {
    if |data| < n then None else Some(Read(data[..n], data[n..]))
  }

  function ReadCell(data: Bytes): Option<Read<Node>> {
    var p := ReadFull(data, 1);
    if p.None? then None
    else
      var v := ReadFull(p.value.rest, 32);
      if v.None? then None
      else Some(Read(if p.value.value[0] == 1 then Some(Get(v.value.value)) else None, v.value.rest))
  }

  function ReadCells(data: Bytes, count: nat): Option<Read<seq<Node>>>
    decreases count, data
  {
    if count == 0 then Some(Read([], data))
    else
      var c := ReadCell(data);
      if c.None? then None
      else
        var cs := ReadCells(c.value.rest, count - 1);
        if cs.None? then None else Some(Read([c.value.value] + cs.value.value, cs.value.rest))
  }

  function ReadRow(data: Bytes): Option<Read<seq<Node>>> {
    var n := ReadFull(data, 4);
    if n.None? then None else ReadCells(n.value.rest, Get(n.value.value))
  }

  function ReadRows(data: Bytes, count: nat): Option<Read<seq<seq<Node>>>>
    decreases count, data
  {
    if count == 0 then Some(Read([], data))
    else
      var r := ReadRow(data);
      if r.None? then None
      else
        var rs := ReadRows(r.value.rest, count - 1);
        if rs.None? then None else Some(Read([r.value.value] + rs.value.value, rs.value.rest))
  }

  function ReadLeaf(data: Bytes): Option<Read<IndexedLeaf>> {
    var v := ReadFull(data, 32);
    if v.None? then None
    else
      var n := ReadFull(v.value.rest, 32);
      if n.None? then None
      else Some(Read(IndexedLeaf(Get(v.value.value), Get(n.value.value)), n.value.rest))
  }

  function ReadLeaves(data: Bytes, count: nat): Option<Read<Leaves>>
    decreases count, data
  {
    if count == 0 then Some(Read([], data))
    else
      var l := ReadLeaf(data);
      if l.None? then None
      else
        var ls := ReadLeaves(l.value.rest, count - 1);
        if ls.None? then None else Some(Read([l.value.value] + ls.value.value, ls.value.rest))
  }

  datatype Header = Header(magic: nat, version: nat, depth: nat, leafCount: nat, crlNumber: nat)

  function ReadHeader(data: Bytes): Option<Read<Header>> {
    var r := ReadFull(data, 50);
    if r.None? then None
    else
      var b := r.value.value;
      Some(Read(Header(Get(b[0..2]), Get(b[2..4]), Get(b[4..6]), Get(b[6..10]), Get(b[10..18])), r.value.rest))
  }

  datatype Parsed = Parsed(state: TreeState, crlNumber: nat)

  /** ImportBinary; bytes after the last leaf are left unread. */
  function ReadTree(data: Bytes): Result<Read<Parsed>, BinaryError> {
    var h := ReadHeader(data);
    if h.None? then Failure(ShortRead)
    else if h.value.value.magic != MAGIC then Failure(BadMagic)
    else if h.value.value.version != BINARY_VERSION then Failure(UnsupportedVersion)
    else ReadBody(h.value.value, h.value.rest)
  }

  function ReadBody(h: Header, data: Bytes): Result<Read<Parsed>, BinaryError> {
    var ns := ReadRows(data, h.depth + 1);
    if ns.None? then Failure(ShortRead)
    else
      var ls := ReadLeaves(ns.value.rest, h.leafCount);
      if ls.None? then Failure(ShortRead)
      else
        var r := Reload(ns.value.value, ls.value.value);
        if r.Failure? then Failure(BadState(r.error)) else Success(Read(Parsed(r.value, h.crlNumber), ls.value.rest))
  }

  // ----- round trip -----

  /** Every number and count is in the range its field has. */
  ghost predicate InRange(s: TreeState, crlNumber: nat) {
    && s.nodes != []
    && Fits(|s.nodes| - 1, 2) && Fits(|s.leaves|, 4) && Fits(crlNumber, 8)
    && RowsInRange(s.nodes) && LeavesInRange(s.leaves)
  }

  /** No number of the grid is wider than its 32 bytes. */
  ghost predicate CellsFit(nodes: seq<seq<Node>>) {
    forall k, i :: 0 <= k < |nodes| && 0 <= i < |nodes[k]| ==> Fits(Value(nodes[k][i]), 32)
  }

  ghost predicate RowInRange(row: seq<Node>) {
    Fits(|row|, 4) && forall i :: 0 <= i < |row| ==> Fits(Value(row[i]), 32)
  }

  ghost predicate RowsInRange(rows: seq<seq<Node>>) {
    forall k :: 0 <= k < |rows| ==> RowInRange(rows[k])
  }

  ghost predicate LeavesInRange(ls: Leaves) {
    forall i :: 0 <= i < |ls| ==> Fits(ls[i].value, 32) && Fits(ls[i].nextValue, 32)
  }

  lemma ReadFullPrefix(b: Bytes, tail: Bytes)
    ensures ReadFull(b + tail, |b|) == Some(Read(b, tail))
  {
    assert (b + tail)[..|b|] == b && (b + tail)[|b|..] == tail;
  }

  lemma ReadFullPut(n: nat, w: nat, tail: Bytes)
    requires Fits(n, w)
    ensures var r := ReadFull(Put(n, w) + tail, w);
      r == Some(Read(Put(n, w), tail)) && Get(r.value.value) == n
  {
    GetPut(n, w);
    ReadFullPrefix(Put(n, w), tail);
  }

  lemma ReadCellPut(c: Node, tail: Bytes)
    requires Fits(Value(c), 32)
    ensures ReadCell(PutCell(c) + tail) == Some(Read(c, tail))
  {
    var present: Bytes := [if c.Some? then 1 else 0];
    var rest := Put(Value(c), 32) + tail;
    assert PutCell(c) + tail == present + rest;
    ReadFullPrefix(present, rest);
    ReadFullPut(Value(c), 32, tail);
  }

  lemma ReadCellsCons(data: Bytes, count: nat, cell: Read<Node>, row: Read<seq<Node>>)
    requires count > 0 && ReadCell(data) == Some(cell) && ReadCells(cell.rest, count - 1) == Some(row)
    ensures ReadCells(data, count) == Some(Read([cell.value] + row.value, row.rest))
  {
  }

  lemma PutCellsCons(row: seq<Node>, tail: Bytes)
    requires row != []
    ensures PutCells(row) + tail == PutCell(row[0]) + (PutCells(row[1..]) + tail)
  {
  }

  lemma ReadCellsPutStep(row: seq<Node>, tail: Bytes, rest: Bytes)
    requires row != [] && Fits(Value(row[0]), 32) && rest == PutCells(row[1..]) + tail
    requires ReadCells(rest, |row| - 1) == Some(Read(row[1..], tail))
    ensures ReadCells(PutCells(row) + tail, |row|) == Some(Read(row, tail))
  {
    ReadCellPut(row[0], rest);
    PutCellsCons(row, tail);
    ReadCellsCons(PutCell(row[0]) + rest, |row|, Read(row[0], rest), Read(row[1..], tail));
    assert row == [row[0]] + row[1..];
  }

  lemma ReadNoCells(tail: Bytes)
    ensures ReadCells(PutCells([]) + tail, 0) == Some(Read([], tail))
  {
    assert PutCells([]) + tail == tail;
  }

  lemma {:induction false} ReadCellsPut(row: seq<Node>, tail: Bytes)
    requires forall i :: 0 <= i < |row| ==> Fits(Value(row[i]), 32)
    ensures ReadCells(PutCells(row) + tail, |row|) == Some(Read(row, tail))
    decreases |row|
  {
    if row == [] {
      ReadNoCells(tail);
    } else {
      ReadCellsPut(row[1..], tail);
      ReadCellsPutStep(row, tail, PutCells(row[1..]) + tail);
    }
  }

  lemma ReadRowPut(row: seq<Node>, tail: Bytes)
    requires RowInRange(row)
    ensures ReadRow(PutRow(row) + tail) == Some(Read(row, tail))
  {
    assert PutRow(row) + tail == Put(|row|, 4) + (PutCells(row) + tail);
    ReadFullPut(|row|, 4, PutCells(row) + tail);
    ReadCellsPut(row, tail);
  }

  lemma ReadRowsCons(data: Bytes, count: nat, row: Read<seq<Node>>, rows: Read<seq<seq<Node>>>)
    requires count > 0 && ReadRow(data) == Some(row) && ReadRows(row.rest, count - 1) == Some(rows)
    ensures ReadRows(data, count) == Some(Read([row.value] + rows.value, rows.rest))
  {
  }

  lemma PutRowsCons(rows: seq<seq<Node>>, tail: Bytes)
    requires rows != []
    ensures PutRows(rows) + tail == PutRow(rows[0]) + (PutRows(rows[1..]) + tail)
  {
  }

  lemma ReadRowsPutStep(rows: seq<seq<Node>>, tail: Bytes, rest: Bytes)
    requires rows != [] && RowInRange(rows[0]) && rest == PutRows(rows[1..]) + tail
    requires ReadRows(rest, |rows| - 1) == Some(Read(rows[1..], tail))
    ensures ReadRows(PutRows(rows) + tail, |rows|) == Some(Read(rows, tail))
  {
    ReadRowPut(rows[0], rest);
    PutRowsCons(rows, tail);
    ReadRowsCons(PutRow(rows[0]) + rest, |rows|, Read(rows[0], rest), Read(rows[1..], tail));
    assert rows == [rows[0]] + rows[1..];
  }

  lemma ReadNoRows(tail: Bytes)
    ensures ReadRows(PutRows([]) + tail, 0) == Some(Read([], tail))
  {
    assert PutRows([]) + tail == tail;
  }

  lemma {:induction false} ReadRowsPut(rows: seq<seq<Node>>, tail: Bytes)
    requires RowsInRange(rows)
    ensures ReadRows(PutRows(rows) + tail, |rows|) == Some(Read(rows, tail))
    decreases |rows|
  {
    if rows == [] {
      ReadNoRows(tail);
    } else {
      ReadRowsPut(rows[1..], tail);
      ReadRowsPutStep(rows, tail, PutRows(rows[1..]) + tail);
    }
  }

  lemma ReadLeafPut(l: IndexedLeaf, tail: Bytes)
    requires Fits(l.value, 32) && Fits(l.nextValue, 32)
    ensures ReadLeaf(PutLeaf(l) + tail) == Some(Read(l, tail))
  {
    assert PutLeaf(l) + tail == Put(l.value, 32) + (Put(l.nextValue, 32) + tail);
    ReadFullPut(l.value, 32, Put(l.nextValue, 32) + tail);
    ReadFullPut(l.nextValue, 32, tail);
  }

  lemma ReadLeavesCons(data: Bytes, count: nat, leaf: Read<IndexedLeaf>, ls: Read<Leaves>)
    requires count > 0 && ReadLeaf(data) == Some(leaf) && ReadLeaves(leaf.rest, count - 1) == Some(ls)
    ensures ReadLeaves(data, count) == Some(Read([leaf.value] + ls.value, ls.rest))
  {
  }

  lemma PutLeavesCons(ls: Leaves, tail: Bytes)
    requires ls != []
    ensures PutLeaves(ls) + tail == PutLeaf(ls[0]) + (PutLeaves(ls[1..]) + tail)
  {
  }

  lemma ReadLeavesPutStep(ls: Leaves, tail: Bytes, rest: Bytes)
    requires ls != [] && Fits(ls[0].value, 32) && Fits(ls[0].nextValue, 32) && rest == PutLeaves(ls[1..]) + tail
    requires ReadLeaves(rest, |ls| - 1) == Some(Read(ls[1..], tail))
    ensures ReadLeaves(PutLeaves(ls) + tail, |ls|) == Some(Read(ls, tail))
  {
    ReadLeafPut(ls[0], rest);
    PutLeavesCons(ls, tail);
    ReadLeavesCons(PutLeaf(ls[0]) + rest, |ls|, Read(ls[0], rest), Read(ls[1..], tail));
    assert ls == [ls[0]] + ls[1..];
  }

  lemma ReadNoLeaves(tail: Bytes)
    ensures ReadLeaves(PutLeaves([]) + tail, 0) == Some(Read([], tail))
  {
    assert PutLeaves([]) + tail == tail;
  }

  lemma {:induction false} ReadLeavesPut(ls: Leaves, tail: Bytes)
    requires LeavesInRange(ls)
    ensures ReadLeaves(PutLeaves(ls) + tail, |ls|) == Some(Read(ls, tail))
    decreases |ls|
  {
    if ls == [] {
      ReadNoLeaves(tail);
    } else {
      ReadLeavesPut(ls[1..], tail);
      ReadLeavesPutStep(ls, tail, PutLeaves(ls[1..]) + tail);
    }
  }

  function HeaderOf(s: TreeState, crlNumber: nat): Header
    requires s.nodes != []
  {
    Header(MAGIC, BINARY_VERSION, |s.nodes| - 1, |s.leaves|, crlNumber)
  }

  lemma HeaderFields(s: TreeState, crlNumber: nat)
    requires s.nodes != []
    ensures var b := PutHeader(s, crlNumber);
      && |b| == 50
      && b[0..2] == Put(MAGIC, 2) && b[2..4] == Put(BINARY_VERSION, 2) && b[4..6] == Put(|s.nodes| - 1, 2)
      && b[6..10] == Put(|s.leaves|, 4) && b[10..18] == Put(crlNumber, 8)
  {
  }

  lemma ReadHeaderPut(s: TreeState, crlNumber: nat, tail: Bytes)
    requires s.nodes != [] && Fits(|s.nodes| - 1, 2) && Fits(|s.leaves|, 4) && Fits(crlNumber, 8)
    ensures ReadHeader(PutHeader(s, crlNumber) + tail) == Some(Read(HeaderOf(s, crlNumber), tail))
  {
    HeaderFields(s, crlNumber);
    GetPut(MAGIC, 2);
    GetPut(BINARY_VERSION, 2);
    GetPut(|s.nodes| - 1, 2);
    GetPut(|s.leaves|, 4);
    GetPut(crlNumber, 8);
    var b := PutHeader(s, crlNumber);
    assert (b + tail)[..50] == b && (b + tail)[50..] == tail;
  }

  lemma ReadTreeParts(data: Bytes, h: Read<Header>, ns: Read<seq<seq<Node>>>, ls: Read<Leaves>)
    requires ReadHeader(data) == Some(h) && h.value.magic == MAGIC && h.value.version == BINARY_VERSION
    requires ReadRows(h.rest, h.value.depth + 1) == Some(ns)
    requires ReadLeaves(ns.rest, h.value.leafCount) == Some(ls)
    ensures var r := Reload(ns.value, ls.value);
      ReadTree(data) ==
        if r.Failure? then Failure(BadState(r.error)) else Success(Read(Parsed(r.value, h.value.crlNumber), ls.rest))
  {
  }

  lemma PutTreeParts(s: TreeState, crlNumber: nat, tail: Bytes)
    requires s.nodes != []
    ensures PutTree(s, crlNumber) + tail == PutHeader(s, crlNumber) + (PutRows(s.nodes) + (PutLeaves(s.leaves) + tail))
  {
  }

  lemma PartsRead(s: TreeState, crlNumber: nat, tail: Bytes, leaves: Bytes, body: Bytes)
    requires InRange(s, crlNumber) && leaves == PutLeaves(s.leaves) + tail && body == PutRows(s.nodes) + leaves
    ensures ReadHeader(PutHeader(s, crlNumber) + body) == Some(Read(HeaderOf(s, crlNumber), body))
    ensures ReadRows(body, |s.nodes|) == Some(Read(s.nodes, leaves))
    ensures ReadLeaves(leaves, |s.leaves|) == Some(Read(s.leaves, tail))
  {
    ReadHeaderPut(s, crlNumber, body);
    ReadRowsPut(s.nodes, leaves);
    ReadLeavesPut(s.leaves, tail);
  }

  lemma ComposedReads(s: TreeState, crlNumber: nat, tail: Bytes, data: Bytes, body: Bytes, leaves: Bytes)
    requires s.nodes != [] && ReadHeader(data) == Some(Read(HeaderOf(s, crlNumber), body))
    requires ReadRows(body, |s.nodes|) == Some(Read(s.nodes, leaves))
    requires ReadLeaves(leaves, |s.leaves|) == Some(Read(s.leaves, tail))
    ensures var r := Reload(s.nodes, s.leaves);
      ReadTree(data) ==
        if r.Failure? then Failure(BadState(r.error)) else Success(Read(Parsed(r.value, crlNumber), tail))
  {
    ReadTreeParts(data, Read(HeaderOf(s, crlNumber), body), Read(s.nodes, leaves), Read(s.leaves, tail));
  }

  /** A written tree reads as its own grid and leaves, with the bytes after it left unread. */
  lemma {:induction false} WrittenReads(s: TreeState, crlNumber: nat, tail: Bytes)
    requires InRange(s, crlNumber)
    ensures var r := Reload(s.nodes, s.leaves);
      ReadTree(PutTree(s, crlNumber) + tail) ==
        if r.Failure? then Failure(BadState(r.error)) else Success(Read(Parsed(r.value, crlNumber), tail))
  {
    var leaves := PutLeaves(s.leaves) + tail;
    var body := PutRows(s.nodes) + leaves;
    PutTreeParts(s, crlNumber, tail);
    PartsRead(s, crlNumber, tail, leaves, body);
    ComposedReads(s, crlNumber, tail, PutHeader(s, crlNumber) + body, body, leaves);
  }

  /**
   Reading what was written, whatever follows it, restores grid, leaves and CRL
   number and leaves exactly the rest unread, if and only if the state is restorable.
   */
  lemma {:induction false} BinaryRoundTrip(s: TreeState, crlNumber: nat, tail: Bytes)
    requires InRange(s, crlNumber)
    ensures ReadTree(PutTree(s, crlNumber) + tail) == Success(Read(Parsed(s, crlNumber), tail)) <==> Restorable(s)
  {
    WrittenReads(s, crlNumber, tail);
    ReloadIffRestorable(s);
  }

  /** So every coherent tree comes back, the empty one included. */
  lemma CoherentBinary(h: Hasher, s: TreeState, crlNumber: nat, tail: Bytes)
    requires Coherent(h, s) && InRange(s, crlNumber)
    ensures ReadTree(PutTree(s, crlNumber) + tail) == Success(Read(Parsed(s, crlNumber), tail))
  {
    CoherentIsRestorable(h, s);
    BinaryRoundTrip(s, crlNumber, tail);
  }

  // ----- which bytes load the same tree -----

  lemma {:induction false} GetFits(b: Bytes)
    ensures Fits(Get(b), |b|)
  {
    if b != [] {
      GetFits(b[..|b| - 1]);
      assert Get(b) / 256 == Get(b[..|b| - 1]);
    }
  }

  lemma {:induction false} FitsZero(w: nat)
    ensures Fits(0, w)
  {
    if w != 0 {
      FitsZero(w - 1);
    }
  }

  lemma RootFits(nodes: seq<seq<Node>>, leafCount: nat)
    requires nodes != []
    requires CellsFit(nodes)
    ensures Fits(Value(StoredRoot(nodes, leafCount)), 32)
  {
    FitsZero(32);
  }

  lemma CellRead(data: Bytes)
    requires ReadCell(data).Some?
    ensures Fits(Value(ReadCell(data).value.value), 32)
  {
    var v := ReadFull(ReadFull(data, 1).value.rest, 32).value.value;
    GetFits(v);
    FitsZero(32);
  }

  lemma {:induction false} CellsRead(data: Bytes, count: nat)
    requires ReadCells(data, count).Some?
    ensures var row := ReadCells(data, count).value.value;
      |row| == count && forall i :: 0 <= i < |row| ==> Fits(Value(row[i]), 32)
    decreases count
  {
    if count != 0 {
      CellRead(data);
      CellsRead(ReadCell(data).value.rest, count - 1);
    }
  }

  lemma RowRead(data: Bytes)
    requires ReadRow(data).Some?
    ensures RowInRange(ReadRow(data).value.value)
  {
    var n := ReadFull(data, 4).value;
    GetFits(n.value);
    CellsRead(n.rest, Get(n.value));
  }

  lemma {:induction false} RowsRead(data: Bytes, count: nat)
    requires ReadRows(data, count).Some?
    ensures |ReadRows(data, count).value.value| == count && RowsInRange(ReadRows(data, count).value.value)
    decreases count
  {
    if count != 0 {
      RowRead(data);
      RowsRead(ReadRow(data).value.rest, count - 1);
    }
  }

  lemma LeafRead(data: Bytes)
    requires ReadLeaf(data).Some?
    ensures var l := ReadLeaf(data).value.value; Fits(l.value, 32) && Fits(l.nextValue, 32)
  {
    var v := ReadFull(data, 32).value;
    GetFits(v.value);
    GetFits(ReadFull(v.rest, 32).value.value);
  }

  lemma {:induction false} LeavesRead(data: Bytes, count: nat)
    requires ReadLeaves(data, count).Some?
    ensures |ReadLeaves(data, count).value.value| == count && LeavesInRange(ReadLeaves(data, count).value.value)
    decreases count
  {
    if count != 0 {
      LeafRead(data);
      LeavesRead(ReadLeaf(data).value.rest, count - 1);
    }
  }

  lemma HeaderRead(data: Bytes)
    requires ReadHeader(data).Some?
    ensures var h := ReadHeader(data).value.value; Fits(h.depth, 2) && Fits(h.leafCount, 4) && Fits(h.crlNumber, 8)
  {
    var b := ReadFull(data, 50).value.value;
    GetFits(b[4..6]);
    GetFits(b[6..10]);
    GetFits(b[10..18]);
  }

  lemma EmptyInRange(crlNumber: nat)
    requires Fits(crlNumber, 8)
    ensures InRange(EMPTY_TREE, crlNumber) && Restorable(EMPTY_TREE)
  {
    FitsZero(2);
    FitsZero(4);
  }

  /** Whatever loads is in range and restorable. */
  lemma {:induction false} LoadedInRange(data: Bytes)
    requires ReadTree(data).Success?
    ensures var r := ReadTree(data).value.value; InRange(r.state, r.crlNumber) && Restorable(r.state)
  {
    var h := ReadHeader(data).value;
    HeaderRead(data);
    RowsRead(h.rest, h.value.depth + 1);
    LeavesRead(ReadRows(h.rest, h.value.depth + 1).value.rest, h.value.leafCount);
    EmptyInRange(h.value.crlNumber);
  }

  /** The bytes in which what was loaded is written again, with the unread rest. */
  function Rewritten(data: Bytes): Bytes
    requires ReadTree(data).Success?
  {
    LoadedInRange(data);
    var r := ReadTree(data).value;
    PutTree(r.value.state, r.value.crlNumber) + r.rest
  }

  /**
   Loading ignores the root in the header, the number of an absent cell, all but the value
   1 of a presence byte, and the rows of a tree without leaves: writing again what was
   loaded changes no more than that, and two inputs load alike if and only if they are
   written again alike.
   */
  lemma {:induction false} LoadsAlikeIff(a: Bytes, b: Bytes)
    requires ReadTree(a).Success? && ReadTree(b).Success?
    ensures ReadTree(Rewritten(a)) == ReadTree(a)
    ensures ReadTree(a) == ReadTree(b) <==> Rewritten(a) == Rewritten(b)
  {
    Reloads(a);
    Reloads(b);
  }

  lemma Reloads(data: Bytes)
    requires ReadTree(data).Success?
    ensures ReadTree(Rewritten(data)) == ReadTree(data)
  {
    var r := ReadTree(data).value;
    LoadedInRange(data);
    BinaryRoundTrip(r.value.state, r.value.crlNumber, r.rest);
  }

  // ----- size -----

  function RowsSize(rows: seq<seq<Node>>): nat {
    if rows == [] then 0 else 4 + 33 * |rows[0]| + RowsSize(rows[1..])
  }

  lemma {:induction false} CellsSize(row: seq<Node>)
    ensures |PutCells(row)| == 33 * |row|
  {
    if row != [] {
      CellsSize(row[1..]);
    }
  }

  lemma {:induction false} RowsSizeIs(rows: seq<seq<Node>>)
    ensures |PutRows(rows)| == RowsSize(rows)
  {
    if rows != [] {
      CellsSize(rows[0]);
      RowsSizeIs(rows[1..]);
    }
  }

  lemma {:induction false} LeavesSize(ls: Leaves)
    ensures |PutLeaves(ls)| == 64 * |ls|
  {
    if ls != [] {
      LeavesSize(ls[1..]);
    }
  }

  /** The exact size: 50, then 4 + 33 per cell for each level, then 64 per leaf. */
  lemma {:induction false} BinarySize(s: TreeState, crlNumber: nat)
    requires s.nodes != []
    ensures |PutTree(s, crlNumber)| == 50 + RowsSize(s.nodes) + 64 * |s.leaves|
  {
    RowsSizeIs(s.nodes);
    LeavesSize(s.leaves);
  }

  // ----- truncation -----

  lemma ReadFullMore(data: Bytes, more: Bytes, n: nat)
    requires ReadFull(data, n).Some?
    ensures var r := ReadFull(data, n).value;
      ReadFull(data + more, n) == Some(Read(r.value, r.rest + more))
  {
    assert (data + more)[..n] == data[..n] && (data + more)[n..] == data[n..] + more;
  }

  lemma ReadCellMore(data: Bytes, more: Bytes)
    requires ReadCell(data).Some?
    ensures var r := ReadCell(data).value;
      ReadCell(data + more) == Some(Read(r.value, r.rest + more))
  {
    ReadFullMore(data, more, 1);
    ReadFullMore(ReadFull(data, 1).value.rest, more, 32);
  }

  lemma {:induction false} ReadCellsMore(data: Bytes, more: Bytes, count: nat)
    requires ReadCells(data, count).Some?
    ensures var r := ReadCells(data, count).value;
      ReadCells(data + more, count) == Some(Read(r.value, r.rest + more))
    decreases count, data
  {
    if count != 0 {
      ReadCellMore(data, more);
      ReadCellsMore(ReadCell(data).value.rest, more, count - 1);
    }
  }

  lemma {:induction false} ReadRowsMore(data: Bytes, more: Bytes, count: nat)
    requires ReadRows(data, count).Some?
    ensures var r := ReadRows(data, count).value;
      ReadRows(data + more, count) == Some(Read(r.value, r.rest + more))
    decreases count, data
  {
    if count != 0 {
      ReadFullMore(data, more, 4);
      var n := ReadFull(data, 4).value;
      ReadCellsMore(n.rest, more, Get(n.value));
      ReadRowsMore(ReadRow(data).value.rest, more, count - 1);
    }
  }

  lemma {:induction false} ReadLeavesMore(data: Bytes, more: Bytes, count: nat)
    requires ReadLeaves(data, count).Some?
    ensures var r := ReadLeaves(data, count).value;
      ReadLeaves(data + more, count) == Some(Read(r.value, r.rest + more))
    decreases count, data
  {
    if count != 0 {
      ReadFullMore(data, more, 32);
      ReadFullMore(ReadFull(data, 32).value.rest, more, 32);
      ReadLeavesMore(ReadLeaf(data).value.rest, more, count - 1);
    }
  }

  /** A successful read does not depend on what follows. */
  lemma {:induction false} ReadTreeMore(data: Bytes, more: Bytes)
    requires ReadTree(data).Success?
    ensures var r := ReadTree(data).value;
      ReadTree(data + more) == Success(Read(r.value, r.rest + more))
  {
    ReadFullMore(data, more, 50);
    var h := ReadHeader(data).value;
    ReadRowsMore(h.rest, more, h.value.depth + 1);
    ReadLeavesMore(ReadRows(h.rest, h.value.depth + 1).value.rest, more, h.value.leafCount);
  }

  /** Header, rows and records are there, and nothing after them. */
  ghost predicate ReadsWhole(data: Bytes, s: TreeState, crlNumber: nat)
    requires s.nodes != []
  {
    var h := ReadHeader(data);
    && h.Some? && h.value.value == HeaderOf(s, crlNumber)
    && var ns := ReadRows(h.value.rest, |s.nodes|);
       ns.Some? && ReadLeaves(ns.value.rest, |s.leaves|) == Some(Read(s.leaves, []))
  }

  lemma WholeReads(s: TreeState, crlNumber: nat)
    requires InRange(s, crlNumber)
    ensures ReadsWhole(PutTree(s, crlNumber), s, crlNumber)
  {
    var leaves := PutLeaves(s.leaves) + [];
    var body := PutRows(s.nodes) + leaves;
    PutTreeParts(s, crlNumber, []);
    PartsRead(s, crlNumber, [], leaves, body);
    assert PutTree(s, crlNumber) + [] == PutTree(s, crlNumber);
  }

  /** Cutting bytes off a body that was read to its end leaves too few. */
  lemma ShortBody(front: Bytes, back: Bytes, rows: nat, leafCount: nat)
    requires back != [] && ReadRows(front + back, rows).Some?
    requires var ls := ReadLeaves(ReadRows(front + back, rows).value.rest, leafCount);
      ls.Some? && ls.value.rest == []
    ensures ReadRows(front, rows).Some? ==> ReadLeaves(ReadRows(front, rows).value.rest, leafCount).None?
  {
    if ReadRows(front, rows).Some? {
      ReadRowsMore(front, back, rows);
      var records := ReadRows(front, rows).value.rest;
      if ReadLeaves(records, leafCount).Some? {
        ReadLeavesMore(records, back, leafCount);
      }
    }
  }

  lemma ShortTree(data: Bytes, h: Read<Header>)
    requires ReadHeader(data) == Some(h) && h.value.magic == MAGIC && h.value.version == BINARY_VERSION
    requires var ns := ReadRows(h.rest, h.value.depth + 1);
      ns.Some? ==> ReadLeaves(ns.value.rest, h.value.leafCount).None?
    ensures ReadTree(data) == Failure(ShortRead)
  {
  }

  lemma CutHeader(front: Bytes, back: Bytes)
    requires ReadHeader(front).Some?
    ensures var h := ReadHeader(front).value;
      ReadHeader(front + back) == Some(Read(h.value, h.rest + back))
  {
    ReadFullMore(front, back, 50);
  }

  lemma CutReads(front: Bytes, back: Bytes, s: TreeState, crlNumber: nat)
    requires s.nodes != [] && back != [] && ReadsWhole(front + back, s, crlNumber)
    ensures ReadTree(front) == Failure(ShortRead)
  {
    if ReadHeader(front).Some? {
      var h := ReadHeader(front).value;
      CutHeader(front, back);
      ShortBody(h.rest, back, |s.nodes|, |s.leaves|);
      ShortTree(front, h);
    }
  }

  /** Every proper prefix of a written tree is refused as too short. */
  lemma {:induction false} TruncationRejected(s: TreeState, crlNumber: nat, cut: nat)
    requires InRange(s, crlNumber) && cut < |PutTree(s, crlNumber)|
    ensures ReadTree(PutTree(s, crlNumber)[..cut]) == Failure(ShortRead)
  {
    var whole := PutTree(s, crlNumber);
    assert whole[..cut] + whole[cut..] == whole;
    WholeReads(s, crlNumber);
    CutReads(whole[..cut], whole[cut..], s, crlNumber);
  }
}
