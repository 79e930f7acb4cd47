/**
 The bytes of the binary snapshot, field by field: big-endian numbers at the places that
 binary.go documents.  What is written has this layout, and what has it loads.
 */
module BinaryLayout {
  import opened Arith
  import opened Wrappers
  import opened Types
  import opened Grid
  import opened LinkedLeaves
  import opened TreeSpec
  import opened Binary

  // ----- big-endian numbers -----

  /** b is n with the most significant byte first. */
  ghost predicate BigEndian(b: Bytes, n: nat) {
    && n < Power(256, |b|)
    && forall i :: 0 <= i < |b| ==> b[i] == DigitAt(n, 256, |b| - 1 - i)
  }

  lemma {:induction false} FitsBelow(n: nat, w: nat)
    ensures Fits(n, w) <==> n < Power(256, w)
    decreases w
  {
    if w != 0 {
      FitsBelow(n / 256, w - 1);
      BelowPower(n, 256, w - 1);
    }
  }

  /** Byte i of a number put into w bytes, also when it does not fit. */
  lemma {:induction false} PutByte(n: nat, w: nat, i: nat)
    requires i < w
    ensures Put(n, w)[i] == DigitAt(n, 256, w - 1 - i)
    decreases w
  {
    if i == w - 1 {
      DigitAbove(n, 256, 0);
    } else {
      PutByte(n / 256, w - 1, i);
      DigitAbove(n, 256, w - 2 - i);
    }
  }

  lemma PutIsBigEndian(n: nat, w: nat)
    requires Fits(n, w)
    ensures BigEndian(Put(n, w), n)
  {
    FitsBelow(n, w);
    forall i | 0 <= i < w
      ensures Put(n, w)[i] == DigitAt(n, 256, w - 1 - i)
    {
      PutByte(n, w, i);
    }
  }

  /** The number that bytes spell is the one that is read from them. */
  lemma {:induction false} BigEndianIff(b: Bytes, n: nat)
    ensures BigEndian(b, n) <==> Get(b) == n
  {
    if BigEndian(b, n) {
      FitsBelow(n, |b|);
      PutIsBigEndian(n, |b|);
      assert b == Put(n, |b|);
      GetPut(n, |b|);
    }
    if Get(b) == n {
      GetFits(b);
      PutGet(b);
      PutIsBigEndian(n, |b|);
    }
  }

  lemma {:induction false} PutGet(b: Bytes)
    ensures Put(Get(b), |b|) == b
  {
    if b != [] {
      PutGet(b[..|b| - 1]);
      assert Get(b) / 256 == Get(b[..|b| - 1]) && Get(b) % 256 == b[|b| - 1];
    }
  }

  lemma SmallNumbers()
    ensures BigEndian([0x4C, 0x49], MAGIC) && BigEndian([0, 2], BINARY_VERSION)
  {
    GetTwo(0x4C, 0x49);
    GetTwo(0, 2);
    BigEndianIff([0x4C, 0x49], MAGIC);
    BigEndianIff([0, 2], BINARY_VERSION);
  }

  lemma GetTwo(a: uint8, b: uint8)
    ensures Get([a, b]) == 256 * a + b
  {
    var one: Bytes := [a];
    assert [a, b][..1] == one && one[..0] == [];
    assert Get(one) == a;
  }

  /** Two bytes are a given number exactly if they are its bytes. */
  lemma TwoBytes(b: Bytes, x: uint8, y: uint8)
    requires |b| == 2
    ensures Get(b) == 256 * x + y <==> b == [x, y]
  {
    GetTwo(x, y);
    if Get(b) == 256 * x + y {
      PutGet(b);
      PutGet([x, y]);
    }
  }

  // ----- cells, rows and leaves -----

  /** A presence byte, 1 for a stored cell, and its number in 32 bytes. */
  ghost predicate CellBytes(b: Bytes, c: Node) {
    |b| == 33 && (b[0] == 1 <==> c.Some?) && (c.Some? ==> BigEndian(b[1..], c.value))
  }

  ghost predicate Cells(data: Bytes, row: seq<Node>)
    decreases |row|, data
  {
    row != [] ==> |data| >= 33 && CellBytes(data[..33], row[0]) && Cells(data[33..], row[1..])
  }

  /** A row: how many cells, in 4 bytes, and the cells. */
  ghost predicate RowBytes(data: Bytes, row: seq<Node>) {
    |data| >= 4 && BigEndian(data[..4], |row|) && Cells(data[4..], row)
  }

  ghost predicate Rows(data: Bytes, rows: seq<seq<Node>>)
    decreases |rows|, data
  {
    rows != [] ==>
      && |data| >= 4 + 33 * |rows[0]| && RowBytes(data, rows[0])
      && Rows(data[4 + 33 * |rows[0]|..], rows[1..])
  }

  /** A leaf record: value and next value in 32 bytes each. */
  ghost predicate LeafBytes(b: Bytes, l: IndexedLeaf) {
    |b| == 64 && BigEndian(b[..32], l.value) && BigEndian(b[32..], l.nextValue)
  }

  ghost predicate LeafRecords(data: Bytes, ls: Leaves)
    decreases |ls|, data
  {
    ls != [] ==> |data| >= 64 && LeafBytes(data[..64], ls[0]) && LeafRecords(data[64..], ls[1..])
  }

  /** The 50 bytes of the header: "LI", version 2, depth, leaf count, CRL number; the root is read by nothing. */
  ghost predicate HeaderBytes(b: Bytes, depth: nat, leafCount: nat, crlNumber: nat) {
    && |b| == 50 && b[..4] == [0x4C, 0x49, 0, 2]
    && BigEndian(b[4..6], depth) && BigEndian(b[6..10], leafCount) && BigEndian(b[10..18], crlNumber)
  }

  /** The bytes of a tree: header, rows from level 0 up, leaf records. */
  ghost predicate Layout(data: Bytes, s: TreeState, crlNumber: nat) {
    && s.nodes != [] && |data| >= 50 + RowsSize(s.nodes)
    && HeaderBytes(data[..50], |s.nodes| - 1, |s.leaves|, crlNumber)
    && Rows(data[50..], s.nodes) && LeafRecords(data[50 + RowsSize(s.nodes)..], s.leaves)
  }

  // ----- reading them -----

  lemma DropTwice(data: Bytes, a: nat, b: nat)
    requires a + b <= |data|
    ensures data[a..][b..] == data[a + b..]
  {
  }

  lemma TakeDrop(data: Bytes, a: nat, b: nat)
    requires a <= b <= |data|
    ensures data[..b][a..] == data[a..][..b - a]
  {
  }

  lemma ReadCellIff(data: Bytes, c: Node)
    ensures ReadCell(data).Some? && ReadCell(data).value.value == c <==> |data| >= 33 && CellBytes(data[..33], c)
    ensures ReadCell(data).Some? ==> |data| >= 33 && ReadCell(data).value.rest == data[33..]
  {
    if |data| >= 33 {
      TakeDrop(data, 1, 33);
      DropTwice(data, 1, 32);
      if c.Some? {
        BigEndianIff(data[..33][1..], c.value);
      }
    }
  }

  lemma CellsUnroll(data: Bytes, row: seq<Node>)
    requires row != []
    ensures ReadCells(data, |row|).Some? && ReadCells(data, |row|).value.value == row <==>
      && ReadCell(data).Some? && ReadCell(data).value.value == row[0]
      && var rest := ReadCells(ReadCell(data).value.rest, |row| - 1);
         rest.Some? && rest.value.value == row[1..]
    ensures ReadCells(data, |row|).Some? ==>
      ReadCells(data, |row|).value.rest == ReadCells(ReadCell(data).value.rest, |row| - 1).value.rest
  {
    assert row == [row[0]] + row[1..];
  }

  /** What reads as the row has the bytes of its cells, and the reverse; what is left then starts after them. */
  lemma {:induction false} ReadCellsIff(data: Bytes, row: seq<Node>)
    ensures ReadCells(data, |row|).Some? && ReadCells(data, |row|).value.value == row <==> Cells(data, row)
    ensures Cells(data, row) ==> |data| >= 33 * |row| && ReadCells(data, |row|).value.rest == data[33 * |row|..]
    decreases |row|
  {
    if row != [] {
      CellsUnroll(data, row);
      ReadCellIff(data, row[0]);
      if |data| >= 33 {
        ReadCellsIff(data[33..], row[1..]);
        if Cells(data[33..], row[1..]) {
          DropTwice(data, 33, 33 * (|row| - 1));
        }
      }
    }
  }

  lemma ReadRowIff(data: Bytes, row: seq<Node>)
    ensures ReadRow(data).Some? && ReadRow(data).value.value == row <==> RowBytes(data, row)
    ensures RowBytes(data, row) ==>
      |data| >= 4 + 33 * |row| && ReadRow(data).value.rest == data[4 + 33 * |row|..]
  {
    if |data| >= 4 {
      BigEndianIff(data[..4], |row|);
      ReadCellsIff(data[4..], row);
      if ReadRow(data).Some? {
        CellsRead(data[4..], Get(data[..4]));
      }
      if RowBytes(data, row) {
        DropTwice(data, 4, 33 * |row|);
      }
    }
  }

  lemma RowsUnroll(data: Bytes, rows: seq<seq<Node>>)
    requires rows != []
    ensures ReadRows(data, |rows|).Some? && ReadRows(data, |rows|).value.value == rows <==>
      && ReadRow(data).Some? && ReadRow(data).value.value == rows[0]
      && var rest := ReadRows(ReadRow(data).value.rest, |rows| - 1);
         rest.Some? && rest.value.value == rows[1..]
    ensures ReadRows(data, |rows|).Some? ==>
      ReadRows(data, |rows|).value.rest == ReadRows(ReadRow(data).value.rest, |rows| - 1).value.rest
  {
    assert rows == [rows[0]] + rows[1..];
  }

  lemma {:induction false} ReadRowsIff(data: Bytes, rows: seq<seq<Node>>)
    ensures ReadRows(data, |rows|).Some? && ReadRows(data, |rows|).value.value == rows <==> Rows(data, rows)
    ensures Rows(data, rows) ==>
      |data| >= RowsSize(rows) && ReadRows(data, |rows|).value.rest == data[RowsSize(rows)..]
    decreases |rows|
  {
    if rows != [] {
      RowsUnroll(data, rows);
      ReadRowIff(data, rows[0]);
      var n := 4 + 33 * |rows[0]|;
      if |data| >= n {
        ReadRowsIff(data[n..], rows[1..]);
        if Rows(data[n..], rows[1..]) {
          DropTwice(data, n, RowsSize(rows[1..]));
        }
      }
    }
  }

  lemma ReadLeafIff(data: Bytes, l: IndexedLeaf)
    ensures ReadLeaf(data).Some? && ReadLeaf(data).value.value == l <==> |data| >= 64 && LeafBytes(data[..64], l)
    ensures ReadLeaf(data).Some? ==> |data| >= 64 && ReadLeaf(data).value.rest == data[64..]
  {
    if |data| >= 64 {
      assert data[..64][..32] == data[..32];
      TakeDrop(data, 32, 64);
      DropTwice(data, 32, 32);
      BigEndianIff(data[..64][..32], l.value);
      BigEndianIff(data[..64][32..], l.nextValue);
    }
  }

  lemma LeavesUnroll(data: Bytes, ls: Leaves)
    requires ls != []
    ensures ReadLeaves(data, |ls|).Some? && ReadLeaves(data, |ls|).value.value == ls <==>
      && ReadLeaf(data).Some? && ReadLeaf(data).value.value == ls[0]
      && var rest := ReadLeaves(ReadLeaf(data).value.rest, |ls| - 1);
         rest.Some? && rest.value.value == ls[1..]
    ensures ReadLeaves(data, |ls|).Some? ==>
      ReadLeaves(data, |ls|).value.rest == ReadLeaves(ReadLeaf(data).value.rest, |ls| - 1).value.rest
  {
    assert ls == [ls[0]] + ls[1..];
  }

  lemma {:induction false} ReadLeavesIff(data: Bytes, ls: Leaves)
    ensures ReadLeaves(data, |ls|).Some? && ReadLeaves(data, |ls|).value.value == ls <==> LeafRecords(data, ls)
    ensures LeafRecords(data, ls) ==>
      |data| >= 64 * |ls| && ReadLeaves(data, |ls|).value.rest == data[64 * |ls|..]
    decreases |ls|
  {
    if ls != [] {
      LeavesUnroll(data, ls);
      ReadLeafIff(data, ls[0]);
      if |data| >= 64 {
        ReadLeavesIff(data[64..], ls[1..]);
        if LeafRecords(data[64..], ls[1..]) {
          DropTwice(data, 64, 64 * (|ls| - 1));
        }
      }
    }
  }

  lemma HeaderIff(data: Bytes, depth: nat, leafCount: nat, crlNumber: nat)
    ensures |data| >= 50 && HeaderBytes(data[..50], depth, leafCount, crlNumber) <==>
      && ReadHeader(data).Some?
      && ReadHeader(data).value.value == Header(MAGIC, BINARY_VERSION, depth, leafCount, crlNumber)
    ensures ReadHeader(data).Some? ==> |data| >= 50 && ReadHeader(data).value.rest == data[50..]
  {
    if |data| >= 50 {
      var b := data[..50];
      TwoBytes(b[0..2], 0x4C, 0x49);
      TwoBytes(b[2..4], 0, 2);
      assert b[..4] == b[0..2] + b[2..4];
      BigEndianIff(b[4..6], depth);
      BigEndianIff(b[6..10], leafCount);
      BigEndianIff(b[10..18], crlNumber);
    }
  }

  /** The first bytes alone decide these refusals. */
  lemma {:induction false} HeaderRefused(data: Bytes)
    ensures |data| < 50 ==> ReadTree(data) == Failure(ShortRead)
    ensures |data| >= 50 ==> (data[..2] != [0x4C, 0x49] <==> ReadTree(data) == Failure(BadMagic))
    ensures |data| >= 50 ==>
      (data[..2] == [0x4C, 0x49] && data[2..4] != [0, 2] <==> ReadTree(data) == Failure(UnsupportedVersion))
  {
    if |data| >= 50 {
      var b := data[..50];
      assert b[0..2] == data[..2] && b[2..4] == data[2..4];
      TwoBytes(data[..2], 0x4C, 0x49);
      TwoBytes(data[2..4], 0, 2);
    }
  }

  /** The rows and records read from the bytes after a header. */
  ghost predicate BodyReads(body: Bytes, s: TreeState) {
    var ns := ReadRows(body, |s.nodes|);
    && ns.Some? && ns.value.value == s.nodes
    && var ls := ReadLeaves(ns.value.rest, |s.leaves|);
       ls.Some? && ls.value.value == s.leaves
  }

  lemma BodyIff(body: Bytes, s: TreeState)
    ensures BodyReads(body, s) <==>
      && Rows(body, s.nodes) && |body| >= RowsSize(s.nodes) && LeafRecords(body[RowsSize(s.nodes)..], s.leaves)
    ensures BodyReads(body, s) ==>
      && |body| >= RowsSize(s.nodes) + 64 * |s.leaves|
      && ReadLeaves(ReadRows(body, |s.nodes|).value.rest, |s.leaves|).value.rest ==
           body[RowsSize(s.nodes) + 64 * |s.leaves|..]
  {
    ReadRowsIff(body, s.nodes);
    if Rows(body, s.nodes) {
      var rest := body[RowsSize(s.nodes)..];
      ReadLeavesIff(rest, s.leaves);
      if LeafRecords(rest, s.leaves) {
        DropTwice(body, RowsSize(s.nodes), 64 * |s.leaves|);
      }
    }
  }

  /** The layout in terms of the bytes after the header. */
  lemma LayoutBody(data: Bytes, s: TreeState, crlNumber: nat, body: Bytes)
    requires s.nodes != [] && |data| >= 50 && body == data[50..]
    ensures Layout(data, s, crlNumber) <==>
      && HeaderBytes(data[..50], |s.nodes| - 1, |s.leaves|, crlNumber)
      && Rows(body, s.nodes) && |body| >= RowsSize(s.nodes) && LeafRecords(body[RowsSize(s.nodes)..], s.leaves)
  {
    if |body| >= RowsSize(s.nodes) {
      DropTwice(data, 50, RowsSize(s.nodes));
    }
  }

  lemma LayoutParts(data: Bytes, s: TreeState, crlNumber: nat)
    requires s.nodes != []
    ensures Layout(data, s, crlNumber) <==>
      && ReadHeader(data).Some?
      && ReadHeader(data).value.value == Header(MAGIC, BINARY_VERSION, |s.nodes| - 1, |s.leaves|, crlNumber)
      && BodyReads(ReadHeader(data).value.rest, s)
    ensures Layout(data, s, crlNumber) ==>
      |data| >= TreeSize(s) && data[50..][RowsSize(s.nodes) + 64 * |s.leaves|..] == data[TreeSize(s)..]
  {
    HeaderIff(data, |s.nodes| - 1, |s.leaves|, crlNumber);
    if |data| >= 50 {
      var body := data[50..];
      LayoutBody(data, s, crlNumber, body);
      BodyIff(body, s);
      if BodyReads(body, s) {
        DropTwice(data, 50, RowsSize(s.nodes) + 64 * |s.leaves|);
      }
    }
  }

  function TreeSize(s: TreeState): nat {
    50 + RowsSize(s.nodes) + 64 * |s.leaves|
  }

  /**
   Exactly which bytes load as a given tree with leaves and CRL number: those with its
   layout, if its level 0 has a cell for each leaf; what comes after them is left unread.
   */
  lemma {:induction false} LoadsIff(data: Bytes, s: TreeState, crlNumber: nat)
    requires s.nodes != [] && s.leaves != []
    ensures ReadTree(data).Success? && ReadTree(data).value.value == Parsed(s, crlNumber) <==>
      Layout(data, s, crlNumber) && |s.nodes[0]| == |s.leaves|
    ensures Layout(data, s, crlNumber) ==> |data| >= TreeSize(s)
    ensures Layout(data, s, crlNumber) && |s.nodes[0]| == |s.leaves| ==>
      ReadTree(data).value.rest == data[TreeSize(s)..]
    ensures Layout(data, s, crlNumber) && |s.nodes[0]| != |s.leaves| ==>
      ReadTree(data) == Failure(BadState(StateLengthMismatch))
  {
    LayoutParts(data, s, crlNumber);
    if Layout(data, s, crlNumber) {
      PartsLoad(data, s, crlNumber);
      BodyIff(ReadHeader(data).value.rest, s);
      HeaderRest(data);
    } else if ReadTree(data).Success? && ReadTree(data).value.value == Parsed(s, crlNumber) {
      LoadedParts(data);
    }
  }

  lemma PartsLoad(data: Bytes, s: TreeState, crlNumber: nat)
    requires s.nodes != [] && s.leaves != [] && ReadHeader(data).Some?
    requires ReadHeader(data).value.value == Header(MAGIC, BINARY_VERSION, |s.nodes| - 1, |s.leaves|, crlNumber)
    requires BodyReads(ReadHeader(data).value.rest, s)
    ensures var body := ReadHeader(data).value.rest;
      var ls := ReadLeaves(ReadRows(body, |s.nodes|).value.rest, |s.leaves|);
      ReadTree(data) == if |s.nodes[0]| != |s.leaves| then Failure(BadState(StateLengthMismatch))
        else Success(Read(Parsed(s, crlNumber), ls.value.rest))
  {
  }

  lemma HeaderRest(data: Bytes)
    requires ReadHeader(data).Some?
    ensures |data| >= 50 && ReadHeader(data).value.rest == data[50..]
  {
  }

  /** What loads with leaves was read from a header with its counts and from a body with its parts. */
  lemma LoadedParts(data: Bytes)
    requires ReadTree(data).Success? && ReadTree(data).value.value.state.leaves != []
    ensures var r := ReadTree(data).value.value;
      && ReadHeader(data).Some? && r.state.nodes != []
      && ReadHeader(data).value.value ==
           Header(MAGIC, BINARY_VERSION, |r.state.nodes| - 1, |r.state.leaves|, r.crlNumber)
      && BodyReads(ReadHeader(data).value.rest, r.state)
  {
    var h := ReadHeader(data).value;
    RowsRead(h.rest, h.value.depth + 1);
    LeavesRead(ReadRows(h.rest, h.value.depth + 1).value.rest, h.value.leafCount);
  }

  /** What loads without leaves has leaf count zero. */
  lemma EmptyCount(data: Bytes)
    requires ReadTree(data).Success? && ReadTree(data).value.value.state.leaves == []
    ensures |data| >= 50 && data[6..10] == [0, 0, 0, 0]
  {
    var h := ReadHeader(data).value;
    RowsRead(h.rest, h.value.depth + 1);
    LeavesRead(ReadRows(h.rest, h.value.depth + 1).value.rest, h.value.leafCount);
    assert data[..50][6..10] == data[6..10] && Get(data[6..10]) == 0;
    PutGet(data[6..10]);
    PutZero(4);
  }

  // ----- writing them -----

  /** Absent cells are written as zero bytes throughout. */
  ghost predicate AbsentZero(data: Bytes, row: seq<Node>)
    decreases |row|, data
  {
    row != [] ==>
      |data| >= 33 && (row[0].None? ==> forall i :: 0 <= i < 33 ==> data[i] == 0) && AbsentZero(data[33..], row[1..])
  }

  ghost predicate RowsAbsentZero(data: Bytes, rows: seq<seq<Node>>)
    decreases |rows|, data
  {
    rows != [] ==>
      && |data| >= 4 + 33 * |rows[0]| && AbsentZero(data[4..], rows[0])
      && RowsAbsentZero(data[4 + 33 * |rows[0]|..], rows[1..])
  }

  lemma {:induction false} PutZero(w: nat)
    ensures Put(0, w) == seq(w, _ => 0)
  {
    if w != 0 {
      PutZero(w - 1);
    }
  }

  lemma CellsAbsentZeroStep(row: seq<Node>, tail: Bytes, rest: Bytes)
    requires row != [] && rest == PutCells(row[1..]) + tail && AbsentZero(rest, row[1..])
    ensures AbsentZero(PutCells(row) + tail, row)
  {
    PutZero(32);
    PutCellsCons(row, tail);
    assert (PutCell(row[0]) + rest)[33..] == rest;
    if row[0].None? {
      assert PutCell(row[0]) == [0] + Put(0, 32);
    }
  }

  lemma {:induction false} CellsAbsentZero(row: seq<Node>, tail: Bytes)
    ensures AbsentZero(PutCells(row) + tail, row)
    decreases |row|
  {
    if row != [] {
      CellsAbsentZero(row[1..], tail);
      CellsAbsentZeroStep(row, tail, PutCells(row[1..]) + tail);
    }
  }

  lemma RowFront(row: seq<Node>, rest: Bytes)
    ensures var data, n := PutRow(row) + rest, 4 + 33 * |row|;
      |data| >= n && data[4..] == PutCells(row) + rest && data[n..] == rest
  {
    CellsSize(row);
    Drops(Put(|row|, 4), PutCells(row), rest);
  }

  lemma Drops(a: Bytes, b: Bytes, c: Bytes)
    ensures (a + b + c)[|a|..] == b + c && (a + b + c)[|a| + |b|..] == c
  {
  }

  lemma RowsAbsentZeroStep(rows: seq<seq<Node>>, tail: Bytes, rest: Bytes)
    requires rows != [] && rest == PutRows(rows[1..]) + tail && RowsAbsentZero(rest, rows[1..])
    ensures RowsAbsentZero(PutRows(rows) + tail, rows)
  {
    PutRowsCons(rows, tail);
    RowFront(rows[0], rest);
    CellsAbsentZero(rows[0], rest);
  }

  lemma {:induction false} PutRowsAbsentZero(rows: seq<seq<Node>>, tail: Bytes)
    ensures RowsAbsentZero(PutRows(rows) + tail, rows)
    decreases |rows|
  {
    if rows != [] {
      PutRowsAbsentZero(rows[1..], tail);
      RowsAbsentZeroStep(rows, tail, PutRows(rows[1..]) + tail);
    }
  }

  lemma HeaderStart(s: TreeState, crlNumber: nat)
    requires s.nodes != []
    ensures |PutTree(s, crlNumber)| >= 50
    ensures PutTree(s, crlNumber)[..4] == [0x4C, 0x49, 0, 2]
    ensures PutTree(s, crlNumber)[18..50] == Put(Value(StoredRoot(s.nodes, |s.leaves|)), 32)
    ensures PutTree(s, crlNumber)[50..] == PutRows(s.nodes) + PutLeaves(s.leaves)
  {
    var b := PutHeader(s, crlNumber);
    HeaderFields(s, crlNumber);
    SmallNumbers();
    BigEndianIff([0x4C, 0x49], MAGIC);
    BigEndianIff([0, 2], BINARY_VERSION);
    PutGet([0x4C, 0x49]);
    PutGet([0, 2]);
    assert b[..4] == b[0..2] + b[2..4];
    assert b[18..50] == Put(Value(StoredRoot(s.nodes, |s.leaves|)), 32);
    HeaderFront(b, PutRows(s.nodes), PutLeaves(s.leaves));
  }

  lemma HeaderFront(b: Bytes, rows: Bytes, leaves: Bytes)
    requires |b| == 50
    ensures var data := b + rows + leaves;
      data[..4] == b[..4] && data[18..50] == b[18..50] && data[50..] == rows + leaves
  {
  }

  /** All bytes of a written tree with numbers in range. */
  ghost predicate Written(w: Bytes, h: Hasher, s: TreeState, crlNumber: nat) {
    && Layout(w, s, crlNumber) && |w| == TreeSize(s) && RowsAbsentZero(w[50..], s.nodes)
    && (s.leaves == [] ==> forall i :: 18 <= i < 50 ==> w[i] == 0)
    && (s.leaves != [] && s.nodes[|s.nodes| - 1] != [] ==> BigEndian(w[18..50], Value(s.nodes[|s.nodes| - 1][0])))
    && (s.leaves != [] && Coherent(h, s) ==> BigEndian(w[18..50], RootOf(h, Commitments(h, s.leaves))))
  }

  lemma {:induction false} WrittenLayout(s: TreeState, crlNumber: nat)
    requires InRange(s, crlNumber)
    ensures Layout(PutTree(s, crlNumber), s, crlNumber)
  {
    var w := PutTree(s, crlNumber);
    var leaves := PutLeaves(s.leaves) + [];
    var body := PutRows(s.nodes) + leaves;
    PutTreeParts(s, crlNumber, []);
    assert w + [] == w;
    PartsRead(s, crlNumber, [], leaves, body);
    LayoutParts(w, s, crlNumber);
  }

  /** What is written, byte by byte. */
  lemma {:induction false} WrittenBytes(h: Hasher, s: TreeState, crlNumber: nat)
    requires InRange(s, crlNumber)
    ensures Written(PutTree(s, crlNumber), h, s, crlNumber)
  {
    var w := PutTree(s, crlNumber);
    WrittenLayout(s, crlNumber);
    BinarySize(s, crlNumber);
    HeaderStart(s, crlNumber);
    PutRowsAbsentZero(s.nodes, PutLeaves(s.leaves));
    WrittenRoot(h, s, w);
  }

  lemma WrittenRoot(h: Hasher, s: TreeState, w: Bytes)
    requires s.nodes != [] && CellsFit(s.nodes) && |w| >= 50
    requires w[18..50] == Put(Value(StoredRoot(s.nodes, |s.leaves|)), 32)
    ensures s.leaves == [] ==> forall i :: 18 <= i < 50 ==> w[i] == 0
    ensures s.leaves != [] && s.nodes[|s.nodes| - 1] != [] ==>
      BigEndian(w[18..50], Value(s.nodes[|s.nodes| - 1][0]))
    ensures s.leaves != [] && Coherent(h, s) ==> BigEndian(w[18..50], RootOf(h, Commitments(h, s.leaves)))
  {
    if s.leaves == [] {
      PutZero(32);
      forall i | 18 <= i < 50
        ensures w[i] == 0
      {
        assert w[i] == w[18..50][i - 18];
      }
    } else {
      RootFits(s.nodes, |s.leaves|);
      PutIsBigEndian(Value(StoredRoot(s.nodes, |s.leaves|)), 32);
      if Coherent(h, s) {
        GridRoot(h, Commitments(h, s.leaves));
      }
    }
  }
}
