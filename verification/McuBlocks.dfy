/** How the coefficient controllers put an MCU together: compress_data,
    compress_first_pass and compress_output of jccoefct.c, and compress_output of
    jctrans.c. All of them build the same blocks, dummy blocks included. */
module McuBlocks {
  import opened McuGeometry
  import Numbers

  /** A block of quantised coefficients: the DC one and the 63 others. */
  datatype Block = Block(dc: int, ac: seq<int>)

  type Plane = seq<seq<Block>>

  /** The real blocks of one iMCU row: plane ci holds the block rows of component ci. */
  type Strip = seq<Plane>

  // ---- The MCUs of a scan ----

  /** A dummy block encodes to the smallest amount of data: no AC coefficients, and the
      DC of the block before it. */
  function Dummy(dc: int): (b: Block) {
    Block(dc, seq(63, i => 0))
  }

  function Min(a: nat, b: nat): (m: nat) { if a < b then a else b }

  predicate GoodPlane(plane: Plane, rows: nat, cols: nat) {
    && 0 < rows <= |plane| && 0 < cols
    && forall r :: 0 <= r < rows ==> |plane[r]| == cols
  }

  /** The block at row r and column c of an iMCU row with rows by cols real blocks, in
      an MCU that ends before column end. Right of the real blocks, the DC is that of
      the last real block in the row; below them, that of the last real block of the
      same MCU. */
  function BlockAt(plane: Plane, rows: nat, cols: nat, r: nat, c: nat, end: nat): (b: Block)
    requires GoodPlane(plane, rows, cols) && end > 0
  {
    if r < rows then if c < cols then plane[r][c] else Dummy(plane[r][cols - 1].dc)
    else Dummy(plane[rows - 1][Min(end, cols) - 1].dc)
  }

  /** One row of an MCU: w blocks from column c on. */
  function McuRow(plane: Plane, rows: nat, cols: nat, r: nat, c: nat, w: nat): (s: seq<Block>)
    requires GoodPlane(plane, rows, cols) && w > 0
    ensures |s| == w && forall k :: 0 <= k < w ==> s[k] == BlockAt(plane, rows, cols, r, c + k, c + w)
  {
    seq(w, k requires 0 <= k < w => BlockAt(plane, rows, cols, r, c + k, c + w))
  }

  /** The first h rows of a component's part of an MCU. */
  function CompBlocks(plane: Plane, rows: nat, cols: nat, r: nat, c: nat, w: nat, h: nat): (s: seq<Block>)
    requires GoodPlane(plane, rows, cols) && w > 0
  {
    if h == 0 then []
    else CompBlocks(plane, rows, cols, r, c, w, h - 1) + McuRow(plane, rows, cols, r + h - 1, c, w)
  }

  /** The real block rows of a component in iMCU row i. */
  function RealRows(sc: ScanComp, total: nat, i: nat): (rows: nat) {
    if i + 1 < total then sc.vSamp else sc.lastRowHeight
  }

  /** The strip has the planes of a scan's components. */
  ghost predicate GoodStrip(strip: Strip, scan: Scan, i: nat) {
    forall k :: 0 <= k < |scan.comps| ==> GoodComp(strip, scan, i, scan.comps[k])
  }

  ghost predicate GoodComp(strip: Strip, scan: Scan, i: nat, sc: ScanComp) {
    && sc.index < |strip| && 0 < sc.width
    && GoodPlane(strip[sc.index], RealRows(sc, scan.totalIMcuRows, i), sc.widthInBlocks)
  }

  /** The part of component sc in the MCU at MCU row y and column x of iMCU row i. */
  ghost function McuPart(strip: Strip, scan: Scan, i: nat, sc: ScanComp, y: nat, x: nat): (s: seq<Block>)
    requires GoodComp(strip, scan, i, sc)
  {
    CompBlocks(strip[sc.index], RealRows(sc, scan.totalIMcuRows, i), sc.widthInBlocks, y, x * sc.width, sc.width,
               sc.height)
  }

  /** The parts of the first n components. */
  ghost function McuUpto(strip: Strip, scan: Scan, i: nat, y: nat, x: nat, n: nat): (s: seq<Block>)
    requires GoodStrip(strip, scan, i) && n <= |scan.comps|
  {
    if n == 0 then []
    else McuUpto(strip, scan, i, y, x, n - 1) + McuPart(strip, scan, i, scan.comps[n - 1], y, x)
  }

  ghost function Mcu(strip: Strip, scan: Scan, i: nat, y: nat, x: nat): (s: seq<Block>)
    requires GoodStrip(strip, scan, i)
  {
    McuUpto(strip, scan, i, y, x, |scan.comps|)
  }

  /** The MCUs of iMCU row i before row y, column x. */
  ghost function McusTo(strip: Strip, scan: Scan, i: nat, y: nat, x: nat): (s: seq<seq<Block>>)
    requires GoodStrip(strip, scan, i)
    decreases y, x
  {
    if x > 0 then McusTo(strip, scan, i, y, x - 1) + [Mcu(strip, scan, i, y, x - 1)]
    else if y > 0 then McusTo(strip, scan, i, y - 1, scan.mcusPerRow)
    else []
  }

  /** start_iMCU_row: the MCU rows of an iMCU row. */
  function McuRows(scan: Scan, i: nat): (n: nat)
    requires scan.comps != []
  {
    if |scan.comps| > 1 then 1 else RealRows(scan.comps[0], scan.totalIMcuRows, i)
  }

  ghost predicate GoodImage(image: seq<Strip>, scan: Scan) {
    && scan.comps != [] && 0 < scan.mcusPerRow && |image| == scan.totalIMcuRows
    && forall i :: 0 <= i < |image| ==> GoodStrip(image[i], scan, i)
  }

  /** The MCUs of the first n iMCU rows. */
  ghost function AllMcus(image: seq<Strip>, scan: Scan, n: nat): (s: seq<seq<Block>>)
    requires GoodImage(image, scan) && n <= |image|
  {
    if n == 0 then []
    else AllMcus(image, scan, n - 1) + McusTo(image[n - 1], scan, n - 1, McuRows(scan, n - 1), 0)
  }

  // ---- compress_data: one MCU ----

  /** forward_DCT: n blocks of a block row. */
  method ForwardDct(plane: Plane, row: nat, col: nat, n: nat) returns (blocks: seq<Block>)
    requires row < |plane| && col + n <= |plane[row]|
    ensures blocks == plane[row][col..col + n]
  {
    blocks := plane[row][col..col + n];
  }

  /** The real columns of MCU x. */
  ghost predicate HasColumns(sc: ScanComp, x: nat, count: nat) {
    0 < count <= sc.width && if count < sc.width then x * sc.width + count == sc.widthInBlocks
                             else x * sc.width + sc.width <= sc.widthInBlocks
  }

  /** "Create some dummy blocks at the right edge": up to w blocks, each with the DC of
      the one before it. */
  method DummiesRight(start: seq<Block>, w: nat) returns (row: seq<Block>)
    requires 0 < |start| <= w
    ensures |row| == w && row[..|start|] == start
    ensures forall k :: |start| <= k < w ==> row[k] == Dummy(start[|start| - 1].dc)
  {
    row := start;
    while |row| < w
      invariant |start| <= |row| <= w && row[..|start|] == start
      invariant forall k :: |start| <= k < |row| ==> row[k] == Dummy(start[|start| - 1].dc)
    {
      row := row + [Dummy(row[|row| - 1].dc)];
    }
  }

  /** Before a row of dummy blocks, the last block of the MCU so far has the DC of the
      MCU's last real block. */
  lemma LastOfPart(plane: Plane, rows: nat, cols: nat, r: nat, c: nat, w: nat, h: nat)
    requires GoodPlane(plane, rows, cols) && w > 0 && h > 0 && rows <= r + h && r < rows
    ensures var s := CompBlocks(plane, rows, cols, r, c, w, h);
            s != [] && s[|s| - 1].dc == plane[rows - 1][Min(c + w, cols) - 1].dc
  {
    var last := McuRow(plane, rows, cols, r + h - 1, c, w);
    assert last[w - 1] == BlockAt(plane, rows, cols, r + h - 1, c + (w - 1), c + w);
  }

  lemma RealMcuRow(plane: Plane, rows: nat, sc: ScanComp, r: nat, x: nat, count: nat, row: seq<Block>)
    requires GoodPlane(plane, rows, sc.widthInBlocks) && HasColumns(sc, x, count) && r < rows && |row| == sc.width
    requires row[..count] == plane[r][x * sc.width..x * sc.width + count]
    requires forall k :: count <= k < sc.width ==> row[k] == Dummy(plane[r][x * sc.width + count - 1].dc)
    ensures row == McuRow(plane, rows, sc.widthInBlocks, r, x * sc.width, sc.width)
  {
    var c := x * sc.width;
    forall k | 0 <= k < sc.width ensures row[k] == BlockAt(plane, rows, sc.widthInBlocks, r, c + k, c + sc.width) {
      if k < count {
        assert row[k] == row[..count][k] == plane[r][c + k];
      }
    }
  }

  lemma DummyMcuRow(plane: Plane, rows: nat, cols: nat, r: nat, c: nat, w: nat, row: seq<Block>)
    requires GoodPlane(plane, rows, cols) && w > 0 && rows <= r && |row| == w
    requires forall k :: 0 <= k < w ==> row[k] == Dummy(plane[rows - 1][Min(c + w, cols) - 1].dc)
    ensures row == McuRow(plane, rows, cols, r, c, w)
  {
    hide Dummy, Min;
  }

  /** One block row of a component, after the blocks mcu. */
  method DctRow(mcu: seq<Block>, plane: Plane, sc: ScanComp, rows: nat, r: nat, x: nat, blockCnt: nat)
    returns (row: seq<Block>)
    requires GoodPlane(plane, rows, sc.widthInBlocks) && HasColumns(sc, x, blockCnt)
    requires r >= rows ==>
               mcu != [] && mcu[|mcu| - 1].dc == plane[rows - 1][Min(x * sc.width + sc.width, sc.widthInBlocks) - 1].dc
    ensures row == McuRow(plane, rows, sc.widthInBlocks, r, x * sc.width, sc.width)
  {
    hide McuRow, BlockAt, Min, Dummy;
    var xpos := x * sc.width;
    if r < rows {
      row := ForwardDct(plane, r, xpos, blockCnt);
      row := DummiesRight(row, sc.width);
      RealMcuRow(plane, rows, sc, r, x, blockCnt, row);
    } else {
      row := seq(sc.width, k => Dummy(mcu[|mcu| - 1].dc));
      DummyMcuRow(plane, rows, sc.widthInBlocks, r, xpos, sc.width, row);
    }
  }

  /** A component's part of an MCU, appended to mcu. */
  method DctComponent(mcu: seq<Block>, plane: Plane, sc: ScanComp, rows: nat, y: nat, x: nat, blockCnt: nat)
    returns (r: seq<Block>)
    requires GoodPlane(plane, rows, sc.widthInBlocks) && HasColumns(sc, x, blockCnt) && y < rows
    ensures r == mcu + CompBlocks(plane, rows, sc.widthInBlocks, y, x * sc.width, sc.width, sc.height)
  {
    hide McuRow, BlockAt;
    r := mcu;
    for yindex := 0 to sc.height
      invariant r == mcu + CompBlocks(plane, rows, sc.widthInBlocks, y, x * sc.width, sc.width, yindex)
    {
      if yindex + y >= rows {
        LastOfPart(plane, rows, sc.widthInBlocks, y, x * sc.width, sc.width, yindex);
      }
      var row := DctRow(r, plane, sc, rows, y + yindex, x, blockCnt);
      r := r + row;
    }
  }

  /** What compress_data and the transcoder can build an MCU from. */
  ghost predicate AtMcu(strip: Strip, scan: Scan, i: nat, y: nat, x: nat) {
    && ScanShape(scan) && GoodStrip(strip, scan, i) && x < scan.mcusPerRow && y < McuRows(scan, i)
  }

  lemma CompAtMcu(strip: Strip, scan: Scan, i: nat, y: nat, x: nat, k: nat)
    requires AtMcu(strip, scan, i, y, x) && k < |scan.comps|
    ensures var sc := scan.comps[k];
            && GoodComp(strip, scan, i, sc) && y < RealRows(sc, scan.totalIMcuRows, i)
            && HasColumns(sc, x, if x + 1 < scan.mcusPerRow then sc.width else sc.lastColWidth)
  {
    assert Covers(scan, scan.comps[k]);
    RealColumns(scan, scan.comps[k], x);
  }

  /** The loops over components and block rows in compress_data. */
  method DctMcu(strip: Strip, scan: Scan, i: nat, y: nat, x: nat) returns (mcu: seq<Block>)
    requires AtMcu(strip, scan, i, y, x)
    ensures mcu == Mcu(strip, scan, i, y, x)
  {
    mcu := [];
    for ci := 0 to |scan.comps|
      invariant mcu == McuUpto(strip, scan, i, y, x, ci)
    {
      var sc := scan.comps[ci];
      CompAtMcu(strip, scan, i, y, x, ci);
      var blockCnt := if x < scan.mcusPerRow - 1 then sc.width else sc.lastColWidth;
      mcu := DctComponent(mcu, strip[sc.index], sc, RealRows(sc, scan.totalIMcuRows, i), y, x, blockCnt);
    }
  }

  // ---- The transcoder: one MCU ----

  /** "Fill in any dummy blocks needed in this row": the transcoder's loop, each block
      with the DC of the one before it. */
  method AppendDummies(mcu: seq<Block>, n: nat) returns (r: seq<Block>)
    requires mcu != []
    ensures r == mcu + seq(n, k => Dummy(mcu[|mcu| - 1].dc))
  {
    r := mcu;
    for k := 0 to n
      invariant |r| == |mcu| + k && r[..|mcu|] == mcu
      invariant forall j :: |mcu| <= j < |r| ==> r[j] == Dummy(mcu[|mcu| - 1].dc)
    {
      r := r + [Dummy(r[|r| - 1].dc)];
    }
  }

  /** "Fill in pointers to real blocks in this row". */
  method AppendReal(mcu: seq<Block>, row: seq<Block>, start: nat, n: nat) returns (r: seq<Block>)
    requires start + n <= |row|
    ensures r == mcu + row[start..start + n]
  {
    r := mcu;
    for k := 0 to n
      invariant r == mcu + row[start..start + k]
    {
      r := r + [row[start + k]];
    }
  }

  /** One block row of a component. */
  method CopyRow(mcu: seq<Block>, plane: Plane, sc: ScanComp, rows: nat, r: nat, x: nat, blockCnt: nat)
    returns (after: seq<Block>)
    requires GoodPlane(plane, rows, sc.widthInBlocks) && HasColumns(sc, x, blockCnt)
    requires r >= rows ==>
               mcu != [] && mcu[|mcu| - 1].dc == plane[rows - 1][Min(x * sc.width + sc.width, sc.widthInBlocks) - 1].dc
    ensures after == mcu + McuRow(plane, rows, sc.widthInBlocks, r, x * sc.width, sc.width)
  {
    hide McuRow, BlockAt, Min, Dummy;
    var startCol := x * sc.width;
    var xindex: nat := 0;
    after := mcu;
    if r < rows {
      after := AppendReal(after, plane[r], startCol, blockCnt);
      xindex := blockCnt;
      assert after[|after| - 1] == plane[r][startCol + blockCnt - 1];
    }
    ghost var last := after[|after| - 1].dc;
    after := AppendDummies(after, sc.width - xindex);
    ghost var fill := seq(sc.width - xindex, k => Dummy(last));
    if r < rows {
      RealMcuRow(plane, rows, sc, r, x, blockCnt, plane[r][startCol..startCol + blockCnt] + fill);
    } else {
      DummyMcuRow(plane, rows, sc.widthInBlocks, r, startCol, sc.width, fill);
    }
  }

  method CopyComponent(mcu: seq<Block>, plane: Plane, sc: ScanComp, rows: nat, y: nat, x: nat, blockCnt: nat)
    returns (r: seq<Block>)
    requires GoodPlane(plane, rows, sc.widthInBlocks) && HasColumns(sc, x, blockCnt) && y < rows
    ensures r == mcu + CompBlocks(plane, rows, sc.widthInBlocks, y, x * sc.width, sc.width, sc.height)
  {
    hide McuRow, BlockAt;
    r := mcu;
    for yindex := 0 to sc.height
      invariant r == mcu + CompBlocks(plane, rows, sc.widthInBlocks, y, x * sc.width, sc.width, yindex)
    {
      if yindex + y >= rows {
        LastOfPart(plane, rows, sc.widthInBlocks, y, x * sc.width, sc.width, yindex);
      }
      r := CopyRow(r, plane, sc, rows, y + yindex, x, blockCnt);
    }
  }

  /** The loops over components and block rows in the transcoder's compress_output. */
  method CopyMcu(strip: Strip, scan: Scan, i: nat, y: nat, x: nat) returns (mcu: seq<Block>)
    requires AtMcu(strip, scan, i, y, x)
    ensures mcu == Mcu(strip, scan, i, y, x)
  {
    mcu := [];
    for ci := 0 to |scan.comps|
      invariant mcu == McuUpto(strip, scan, i, y, x, ci)
    {
      var sc := scan.comps[ci];
      CompAtMcu(strip, scan, i, y, x, ci);
      var blockCnt := if x < scan.mcusPerRow - 1 then sc.width else sc.lastColWidth;
      mcu := CopyComponent(mcu, strip[sc.index], sc, RealRows(sc, scan.totalIMcuRows, i), y, x, blockCnt);
    }
  }

  // ---- compress_first_pass: the stored rows of a component ----

  /** A stored row r shows the blocks of MCU column x at positions x * h and on. */
  ghost predicate McuIn(row: seq<Block>, plane: Plane, rows: nat, cols: nat, r: nat, x: nat, h: nat) {
    && GoodPlane(plane, rows, cols) && h > 0 && x * h + h <= |row|
    && row[x * h..x * h + h] == McuRow(plane, rows, cols, r, x * h, h)
  }

  /** A stored row is padded to q MCUs, and holds the blocks that each MCU needs. */
  ghost predicate PaddedRow(row: seq<Block>, plane: Plane, rows: nat, cols: nat, r: nat, h: nat, q: nat) {
    && GoodPlane(plane, rows, cols) && |row| == q * h
    && (r < rows ==> cols <= |row| && row[..cols] == plane[r])
    && forall x: nat :: x < q ==> McuIn(row, plane, rows, cols, r, x, h)
  }

  /** A component's blocks fit into q MCUs of h blocks, but not into q - 1. */
  predicate Fits(cols: nat, h: nat, q: nat) {
    h > 0 && q > 0 && q * h - h < cols <= q * h
  }

  lemma RealMcuIn(row: seq<Block>, plane: Plane, rows: nat, cols: nat, r: nat, x: nat, h: nat, c: nat)
    requires GoodPlane(plane, rows, cols) && h > 0 && r < rows && c == x * h && c + h <= |row|
    requires cols <= |row| && row[..cols] == plane[r]
    requires forall k :: cols <= k < |row| ==> row[k] == Dummy(plane[r][cols - 1].dc)
    ensures McuIn(row, plane, rows, cols, r, x, h)
  {
    var part, mcu := row[c..c + h], McuRow(plane, rows, cols, r, c, h);
    forall k | 0 <= k < h ensures part[k] == mcu[k] {
      if c + k < cols {
        assert part[k] == row[..cols][c + k];
      }
    }
    assert part == mcu;
  }

  /** "Perform DCT for all non-dummy blocks", one block row, with the dummy blocks at
      its right end. */
  method StoreReal(plane: Plane, r: nat, cols: nat, ndummy: nat, ghost rows: nat, ghost h: nat, ghost q: nat)
    returns (row: seq<Block>)
    requires GoodPlane(plane, rows, cols) && r < rows && Fits(cols, h, q) && cols + ndummy == q * h
    ensures PaddedRow(row, plane, rows, cols, r, h, q)
  {
    hide McuRow, BlockAt, Dummy, Fits;
    row := ForwardDct(plane, r, 0, cols);
    var lastDC := row[|row| - 1].dc;
    row := row + seq(ndummy, k => Dummy(lastDC));
    assert row[..cols] == plane[r];
    hide McuIn;
    forall x: nat | x < q ensures McuIn(row, plane, rows, cols, r, x, h) {
      Numbers.MulMono(x + 1, q, h);
      Numbers.Distribute(x, 1, h);
      RealMcuIn(row, plane, rows, cols, r, x, h, x * h);
    }
  }

  lemma AboveDummy(above: seq<Block>, plane: Plane, rows: nat, cols: nat, r: nat, x: nat, h: nat)
    requires 0 < rows <= r && McuIn(above, plane, rows, cols, r - 1, x, h)
    ensures x * h + h <= |above|
    ensures above[x * h + h - 1].dc == plane[rows - 1][Min(x * h + h, cols) - 1].dc
  {
    assert above[x * h + h - 1] == above[x * h..x * h + h][h - 1] == McuRow(plane, rows, cols, r - 1, x * h, h)[h - 1];
    assert x * h + (h - 1) == x * h + h - 1;
  }

  lemma KeepMcuIn(row: seq<Block>, more: seq<Block>, plane: Plane, rows: nat, cols: nat, r: nat, x: nat, h: nat)
    requires McuIn(row, plane, rows, cols, r, x, h)
    ensures McuIn(row + more, plane, rows, cols, r, x, h)
  {
    hide McuRow;
    assert (row + more)[x * h..x * h + h] == row[x * h..x * h + h];
  }

  /** One MCU's worth of a dummy block row. */
  lemma DummyMcuIn(row: seq<Block>, fill: seq<Block>, plane: Plane, rows: nat, cols: nat, r: nat, x: nat, h: nat)
    requires GoodPlane(plane, rows, cols) && h > 0 && rows <= r && |row| == x * h && |fill| == h
    requires forall k :: 0 <= k < h ==> fill[k] == Dummy(plane[rows - 1][Min(x * h + h, cols) - 1].dc)
    ensures McuIn(row + fill, plane, rows, cols, r, x, h)
  {
    DummyMcuRow(plane, rows, cols, r, x * h, h, fill);
    hide McuRow;
    assert (row + fill)[x * h..x * h + h] == fill;
  }

  /** "Create dummy block rows as needed": every block has the DC of the last block of
      the same MCU in the row above. */
  method StoreDummy(above: seq<Block>, mcusAcross: nat, h: nat, ghost plane: Plane, ghost rows: nat, ghost cols: nat,
                    ghost r: nat)
    returns (row: seq<Block>)
    requires h > 0 && 0 < rows <= r && PaddedRow(above, plane, rows, cols, r - 1, h, mcusAcross)
    ensures PaddedRow(row, plane, rows, cols, r, h, mcusAcross)
  {
    hide McuIn, McuRow, BlockAt, Dummy, Min;
    row := [];
    for mcuIndex := 0 to mcusAcross
      invariant |row| == mcuIndex * h
      invariant forall x: nat :: x < mcuIndex ==> McuIn(row, plane, rows, cols, r, x, h)
    {
      assert McuIn(above, plane, rows, cols, r - 1, mcuIndex, h);
      AboveDummy(above, plane, rows, cols, r, mcuIndex, h);
      var lastDC := above[mcuIndex * h + h - 1].dc;
      var fill := seq(h, k => Dummy(lastDC));
      DummyMcuIn(row, fill, plane, rows, cols, r, mcuIndex, h);
      forall x: nat | x < mcuIndex ensures McuIn(row + fill, plane, rows, cols, r, x, h) {
        KeepMcuIn(row, fill, plane, rows, cols, r, x, h);
      }
      Numbers.Distribute(mcuIndex, 1, h);
      row := row + fill;
    }
  }

  /** The stored strip of a component: v rows, of which `rows` are real. */
  ghost predicate PaddedPlane(stored: Plane, plane: Plane, rows: nat, cols: nat, v: nat, h: nat, q: nat) {
    |stored| == v && forall r: nat :: r < v ==> PaddedRow(stored[r], plane, rows, cols, r, h, q)
  }

  /** compress_first_pass: store the blocks of component c of iMCU row i. */
  method StoreComponent(plane: Plane, c: Component, totalIMcuRows: nat, i: nat, ghost q: nat) returns (stored: Plane)
    requires c.v > 0 && i < totalIMcuRows && Fits(c.widthInBlocks, c.h, q)
    requires GoodPlane(plane, BlockRows(c, totalIMcuRows, i), c.widthInBlocks)
    ensures PaddedPlane(stored, plane, BlockRows(c, totalIMcuRows, i), c.widthInBlocks, c.v, c.h, q)
  {
    hide PaddedRow, LastPart;
    var blockRows := BlockRows(c, totalIMcuRows, i);
    var ndummy := c.widthInBlocks % c.h;
    if ndummy > 0 {
      ndummy := c.h - ndummy;
    }
    Padding(c.widthInBlocks, c.h, q);
    stored := [];
    for blockRow := 0 to blockRows
      invariant |stored| == blockRow
      invariant forall r: nat :: r < blockRow ==>
                                   PaddedRow(stored[r], plane, blockRows, c.widthInBlocks, r, c.h, q)
    {
      var row := StoreReal(plane, blockRow, c.widthInBlocks, ndummy, blockRows, c.h, q);
      stored := stored + [row];
    }
    if i == totalIMcuRows - 1 {
      var mcusAcross := (c.widthInBlocks + ndummy) / c.h;
      for blockRow := blockRows to c.v
        invariant |stored| == blockRow
        invariant forall r: nat :: r < blockRow ==>
                                     PaddedRow(stored[r], plane, blockRows, c.widthInBlocks, r, c.h, q)
      {
        var row := StoreDummy(stored[blockRow - 1], mcusAcross, c.h, plane, blockRows, c.widthInBlocks, blockRow);
        stored := stored + [row];
      }
    }
  }

  /** "Count non-dummy DCT block rows in this iMCU row". */
  function BlockRows(c: Component, total: nat, i: nat): (rows: nat)
    requires c.v > 0
    ensures rows <= c.v && (i + 1 < total ==> rows == c.v)
  {
    if i + 1 < total then c.v else LastPart(c.heightInBlocks, c.v)
  }

  /** The dummy blocks at the right margin complete the last MCU. */
  lemma Padding(b: nat, h: nat, q: nat)
    requires Fits(b, h, q)
    ensures var n := b % h;
            var ndummy := if n > 0 then h - n else 0;
            b + ndummy == q * h && (b + ndummy) / h == q
  {
    LastPartIs(b, h, q);
    Numbers.DivModUnique(q * h, h, q, 0);
  }

  // ---- compress_output: one MCU ----

  /** The stored blocks show component sc of the MCU at row y, column x. */
  ghost predicate ShowsComp(stored: Strip, strip: Strip, scan: Scan, i: nat, sc: ScanComp, y: nat, x: nat) {
    && GoodComp(strip, scan, i, sc) && sc.index < |stored| && y + sc.height <= |stored[sc.index]|
    && forall r: nat :: y <= r < y + sc.height ==>
                          McuIn(stored[sc.index][r], strip[sc.index], RealRows(sc, scan.totalIMcuRows, i),
                                sc.widthInBlocks, r, x, sc.width)
  }

  ghost predicate Shows(stored: Strip, strip: Strip, scan: Scan, i: nat, y: nat, x: nat) {
    forall k :: 0 <= k < |scan.comps| ==> ShowsComp(stored, strip, scan, i, scan.comps[k], y, x)
  }

  method OutputComponent(mcu: seq<Block>, stored: Strip, sc: ScanComp, y: nat, x: nat, ghost strip: Strip,
                         ghost scan: Scan, ghost i: nat)
    returns (r: seq<Block>)
    requires ShowsComp(stored, strip, scan, i, sc, y, x)
    ensures r == mcu + McuPart(strip, scan, i, sc, y, x)
  {
    hide McuRow, BlockAt, RealRows;
    r := mcu;
    var startCol := x * sc.width;
    ghost var rows := RealRows(sc, scan.totalIMcuRows, i);
    for yindex := 0 to sc.height
      invariant r == mcu + CompBlocks(strip[sc.index], rows, sc.widthInBlocks, y, startCol, sc.width, yindex)
    {
      assert McuIn(stored[sc.index][y + yindex], strip[sc.index], rows, sc.widthInBlocks, y + yindex, x, sc.width);
      r := AppendReal(r, stored[sc.index][yindex + y], startCol, sc.width);
    }
  }

  /** "Construct list of pointers to DCT blocks belonging to this MCU". */
  method OutputMcu(stored: Strip, scan: Scan, y: nat, x: nat, ghost strip: Strip, ghost i: nat)
    returns (mcu: seq<Block>)
    requires GoodStrip(strip, scan, i) && Shows(stored, strip, scan, i, y, x)
    ensures mcu == Mcu(strip, scan, i, y, x)
  {
    mcu := [];
    for ci := 0 to |scan.comps|
      invariant mcu == McuUpto(strip, scan, i, y, x, ci)
    {
      hide ShowsComp, McuPart, GoodComp;
      mcu := OutputComponent(mcu, stored, scan.comps[ci], y, x, strip, scan, i);
    }
  }

  /** What compress_first_pass has stored of a strip. */
  ghost predicate StoredStrip(stored: Strip, strip: Strip, f: Frame, i: nat, q: nat) {
    && |stored| == |f.comps| == |strip|
    && forall k :: 0 <= k < |f.comps| ==> StoredComp(stored[k], strip[k], f.comps[k], f.totalIMcuRows, i, q)
  }

  ghost predicate StoredComp(stored: Plane, plane: Plane, c: Component, total: nat, i: nat, q: nat) {
    c.v > 0 && PaddedPlane(stored, plane, BlockRows(c, total, i), c.widthInBlocks, c.v, c.h, q)
  }

  /** A component's blocks of one MCU column, read from the padded rows. */
  lemma ReadInterleaved(stored: Plane, plane: Plane, c: Component, total: nat, i: nat, q: nat, r: nat, x: nat)
    requires StoredComp(stored, plane, c, total, i, q) && r < c.v && x < q
    ensures McuIn(stored[r], plane, BlockRows(c, total, i), c.widthInBlocks, r, x, c.h)
  {
    hide McuIn;
    assert PaddedRow(stored[r], plane, BlockRows(c, total, i), c.widthInBlocks, r, c.h, q);
  }

  lemma ReadAlone(stored: Plane, plane: Plane, c: Component, total: nat, i: nat, q: nat, r: nat, x: nat)
    requires StoredComp(stored, plane, c, total, i, q) && r < BlockRows(c, total, i) && x < c.widthInBlocks
    ensures McuIn(stored[r], plane, BlockRows(c, total, i), c.widthInBlocks, r, x, 1)
  {
    assert PaddedRow(stored[r], plane, BlockRows(c, total, i), c.widthInBlocks, r, c.h, q);
    assert stored[r][x] == stored[r][..c.widthInBlocks][x];
    assert stored[r][x * 1..x * 1 + 1] == [plane[r][x]];
    assert McuRow(plane, BlockRows(c, total, i), c.widthInBlocks, r, x * 1, 1) == [plane[r][x]];
  }

  lemma SameQuotient(b: nat, h: nat, p: nat, q: nat)
    requires Fits(b, h, p) && Fits(b, h, q)
    ensures p == q
  {
    if p < q {
      Numbers.MulMono(p, q - 1, h);
      Numbers.Distribute(q, -1, h);
    } else if q < p {
      Numbers.MulMono(q, p - 1, h);
      Numbers.Distribute(p, -1, h);
    }
  }

  lemma SameRows(scan: Scan, sc: ScanComp, c: Component, i: nat)
    requires Tiles(scan, sc, c)
    ensures BlockRows(c, scan.totalIMcuRows, i) == RealRows(sc, scan.totalIMcuRows, i)
  {
    LastPartIs(c.heightInBlocks, c.v, scan.totalIMcuRows);
  }

  /** The stored blocks of an iMCU row show every MCU of every scan. */
  lemma StoredShows(stored: Strip, strip: Strip, f: Frame, sel: seq<nat>, scan: Scan, i: nat, q: nat, y: nat, x: nat)
    requires StoredStrip(stored, strip, f, i, q) && GoodScan(f, sel, scan) && AtMcu(strip, scan, i, y, x)
    requires forall k :: 0 <= k < |f.comps| ==> Fits(f.comps[k].widthInBlocks, f.comps[k].h, q)
    ensures Shows(stored, strip, scan, i, y, x)
  {
    forall k | 0 <= k < |scan.comps| ensures ShowsComp(stored, strip, scan, i, scan.comps[k], y, x) {
      var sc, c := scan.comps[k], f.comps[sel[k]];
      assert Tiles(scan, sc, c) && Fits(c.widthInBlocks, c.h, q);
      assert StoredComp(stored[sel[k]], strip[sel[k]], c, f.totalIMcuRows, i, q);
      CompAtMcu(strip, scan, i, y, x, k);
      SameRows(scan, sc, c, i);
      if |sel| > 1 {
        assert FullSize(sc, c);
        InterleavedShows(stored, strip, f.totalIMcuRows, c, scan, sc, i, q, x);
      } else {
        AloneShows(stored, strip, f.totalIMcuRows, c, scan, sc, i, q, y, x);
      }
    }
  }

  lemma InterleavedShows(stored: Strip, strip: Strip, total: nat, c: Component, scan: Scan, sc: ScanComp, i: nat,
                         q: nat, x: nat)
    requires Tiles(scan, sc, c) && FullSize(sc, c) && Fits(c.widthInBlocks, c.h, q) && x < scan.mcusPerRow
    requires GoodComp(strip, scan, i, sc) && sc.index < |stored| && scan.totalIMcuRows == total
    requires StoredComp(stored[sc.index], strip[sc.index], c, total, i, q)
    requires BlockRows(c, total, i) == RealRows(sc, total, i)
    ensures ShowsComp(stored, strip, scan, i, sc, 0, x)
  {
    hide McuIn, BlockRows, RealRows;
    SameQuotient(c.widthInBlocks, c.h, scan.mcusPerRow, q);
    forall r: nat | 0 <= r < sc.height
      ensures McuIn(stored[sc.index][r], strip[sc.index], RealRows(sc, total, i), sc.widthInBlocks, r, x, sc.width)
    {
      ReadInterleaved(stored[sc.index], strip[sc.index], c, total, i, q, r, x);
    }
  }

  lemma AloneShows(stored: Strip, strip: Strip, total: nat, c: Component, scan: Scan, sc: ScanComp, i: nat,
                   q: nat, y: nat, x: nat)
    requires Tiles(scan, sc, c) && sc.width == sc.height == 1 && x < scan.mcusPerRow
    requires GoodComp(strip, scan, i, sc) && sc.index < |stored| && scan.totalIMcuRows == total
    requires StoredComp(stored[sc.index], strip[sc.index], c, total, i, q)
    requires BlockRows(c, total, i) == RealRows(sc, total, i) && y < RealRows(sc, total, i)
    ensures ShowsComp(stored, strip, scan, i, sc, y, x)
  {
    hide McuIn, RealRows;
    ReadAlone(stored[sc.index], strip[sc.index], c, total, i, q, y, x);
  }
}
