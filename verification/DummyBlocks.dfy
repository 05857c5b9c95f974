/** Dummy blocks, seen in the MCUs that are sent: right of a component's blocks and below
    them, an MCU is filled with blocks that have no AC coefficients and repeat the DC of
    the block before them. */
module DummyBlocks {
  import opened McuGeometry
  import opened McuBlocks
  import opened LosslessImage
  import opened StoredImage
  import Numbers

  predicate NoAc(b: Block) {
    |b.ac| == 63 && forall k :: 0 <= k < 63 ==> b.ac[k] == 0
  }

  /** The row and column of slot t of an MCU among the blocks of its component. */
  predicate Exists(s: Scan, i: nat, y: nat, x: nat, sc: ScanComp, t: Slot) {
    y + t.y < (if i + 1 < s.totalIMcuRows then sc.vSamp else sc.lastRowHeight) && x * sc.width + t.x < sc.widthInBlocks
  }

  /** A block of a component by its place. */
  lemma BlockIs(plane: Plane, rows: nat, cols: nat, r: nat, c: nat, end: nat)
    requires GoodPlane(plane, rows, cols) && end > 0
    ensures r < rows && c < cols ==> BlockAt(plane, rows, cols, r, c, end) == plane[r][c]
    ensures r >= rows || c >= cols ==> NoAc(BlockAt(plane, rows, cols, r, c, end))
  {
  }

  /** A dummy block and its left neighbour, or the end of the row above. */
  lemma BlockBefore(plane: Plane, rows: nat, cols: nat, r: nat, c: nat, left: nat, w: nat)
    requires GoodPlane(plane, rows, cols) && w > 0 && left <= c < left + w && left < cols && (r >= rows || c >= cols)
    ensures c > left ==>
              BlockAt(plane, rows, cols, r, c, left + w).dc == BlockAt(plane, rows, cols, r, c - 1, left + w).dc
    ensures c == left ==> r > 0 && BlockAt(plane, rows, cols, r, c, left + w).dc
                                == BlockAt(plane, rows, cols, r - 1, left + w - 1, left + w).dc
  {
  }

  /** The slot before slot j of an MCU, unless j begins a component. */
  lemma {:induction false} SlotBefore(comps: seq<ScanComp>, n: nat, j: nat)
    requires n <= |comps| && j < |Slots(comps, n)|
    ensures var t := Slots(comps, n)[j];
            && t.j < n && t.y < comps[t.j].height && t.x < comps[t.j].width
            && (t.x > 0 ==> j > 0 && Slots(comps, n)[j - 1] == Slot(t.j, t.y, t.x - 1))
            && (t.x == 0 && t.y > 0 ==> j > 0 && Slots(comps, n)[j - 1] == Slot(t.j, t.y - 1, comps[t.j].width - 1))
    decreases n
  {
    hide Cells;
    SlotsAre(comps, n, j);
    var m := |Slots(comps, n - 1)|;
    if j < m {
      SlotBefore(comps, n - 1, j);
    } else {
      var w, h := comps[n - 1].width, comps[n - 1].height;
      CellsAt(n - 1, w, h, j - m);
      CellInside(n - 1, w, h, j - m);
      var c := CellAt(n - 1, w, j - m);
      if c.x > 0 {
        CellOf(n - 1, w, h, c.y, c.x - 1);
        CellsAt(n - 1, w, h, j - m - 1);
      } else if c.y > 0 {
        Numbers.Distribute(c.y - 1, 1, w);
        CellOf(n - 1, w, h, c.y - 1, w - 1);
        CellsAt(n - 1, w, h, j - m - 1);
      }
    }
  }

  /** Block j of an MCU: a real block where the component has one, and else a dummy block
      with the DC of block j - 1, which belongs to the same component. */
  ghost predicate ShowsBlock(strip: Strip, s: Scan, i: nat, y: nat, x: nat, mcu: seq<McuBlocks.Block>, j: nat)
    requires j < |Slots(s.comps, |s.comps|)| == |mcu| && Slots(s.comps, |s.comps|)[j].j < |s.comps|
  {
    var t := Slots(s.comps, |s.comps|)[j];
    var sc := s.comps[t.j];
    if Exists(s, i, y, x, sc, t) then
      var r, c := y + t.y, x * sc.width + t.x;
      && sc.index < |strip| && r < |strip[sc.index]| && 0 <= c < |strip[sc.index][r]| && mcu[j] == strip[sc.index][r][c]
    else
      j > 0 && Slots(s.comps, |s.comps|)[j - 1].j == t.j && NoAc(mcu[j]) && mcu[j].dc == mcu[j - 1].dc
  }

  /** The slot before t in the part of one component. */
  function Preceding(t: Slot, w: nat): (p: Slot)
    requires t.x > 0 || (t.y > 0 && w > 0)
  {
    if t.x > 0 then Slot(t.j, t.y, t.x - 1) else Slot(t.j, t.y - 1, w - 1)
  }

  lemma PartShows(strip: Strip, s: Scan, i: nat, y: nat, x: nat, sc: ScanComp, t: Slot)
    requires GoodComp(strip, s, i, sc) && 0 <= x * sc.width < sc.widthInBlocks && t.x < sc.width
    requires y < RealRows(sc, s.totalIMcuRows, i)
    ensures Exists(s, i, y, x, sc, t) ==>
              && y + t.y < |strip[sc.index]| && x * sc.width + t.x < |strip[sc.index][y + t.y]|
              && CompBlock(strip, s, i, y, x, sc, t) == strip[sc.index][y + t.y][x * sc.width + t.x]
    ensures !Exists(s, i, y, x, sc, t) ==>
              && NoAc(CompBlock(strip, s, i, y, x, sc, t)) && (t.x > 0 || t.y > 0)
              && CompBlock(strip, s, i, y, x, sc, t).dc == CompBlock(strip, s, i, y, x, sc, Preceding(t, sc.width)).dc
  {
    var plane, rows, left := strip[sc.index], RealRows(sc, s.totalIMcuRows, i), x * sc.width;
    hide BlockAt;
    BlockIs(plane, rows, sc.widthInBlocks, y + t.y, left + t.x, left + sc.width);
    if !Exists(s, i, y, x, sc, t) {
      BlockBefore(plane, rows, sc.widthInBlocks, y + t.y, left + t.x, left, sc.width);
    }
  }

  lemma PartStarts(strip: Strip, s: Scan, i: nat, y: nat, x: nat, k: nat)
    requires AtMcu(strip, s, i, y, x) && k < |s.comps|
    ensures var sc := s.comps[k];
            GoodComp(strip, s, i, sc) && 0 <= x * sc.width < sc.widthInBlocks && y < RealRows(sc, s.totalIMcuRows, i)
  {
    CompAtMcu(strip, s, i, y, x, k);
    Numbers.MulMono(0, x, s.comps[k].width);
    assert Covers(s, s.comps[k]);
    RealColumns(s, s.comps[k], x);
  }

  lemma McuShowsBlock(strip: Strip, s: Scan, i: nat, y: nat, x: nat, j: nat)
    requires AtMcu(strip, s, i, y, x) && j < |Mcu(strip, s, i, y, x)|
    ensures |Mcu(strip, s, i, y, x)| == |Slots(s.comps, |s.comps|)| && Slots(s.comps, |s.comps|)[j].j < |s.comps|
    ensures ShowsBlock(strip, s, i, y, x, Mcu(strip, s, i, y, x), j)
  {
    McuLength(strip, s, i, y, x, |s.comps|);
    SlotBefore(s.comps, |s.comps|, j);
    var t := Slots(s.comps, |s.comps|)[j];
    var sc := s.comps[t.j];
    PartStarts(strip, s, i, y, x, t.j);
    PartShows(strip, s, i, y, x, sc, t);
    hide Slots, AtMcu, McuUpto, CompBlock, RealRows, Exists, NoAc, GoodComp, GoodStrip, ShowsBlock;
    McuAt(strip, s, i, y, x, |s.comps|, j);
    if Exists(s, i, y, x, sc, t) {
      ShownReal(strip, s, i, y, x, Mcu(strip, s, i, y, x), j);
    } else {
      McuAt(strip, s, i, y, x, |s.comps|, j - 1);
      ShownDummy(strip, s, i, y, x, Mcu(strip, s, i, y, x), j);
    }
  }

  lemma ShownReal(strip: Strip, s: Scan, i: nat, y: nat, x: nat, mcu: seq<McuBlocks.Block>, j: nat)
    requires j < |Slots(s.comps, |s.comps|)| == |mcu| && Slots(s.comps, |s.comps|)[j].j < |s.comps|
    requires var t := Slots(s.comps, |s.comps|)[j];
             var sc := s.comps[t.j];
             var r, c := y + t.y, x * sc.width + t.x;
             && Exists(s, i, y, x, sc, t) && sc.index < |strip| && r < |strip[sc.index]|
             && 0 <= c < |strip[sc.index][r]|
             && mcu[j] == strip[sc.index][r][c]
    ensures ShowsBlock(strip, s, i, y, x, mcu, j)
  {
    hide Slots, Exists;
  }

  lemma ShownDummy(strip: Strip, s: Scan, i: nat, y: nat, x: nat, mcu: seq<McuBlocks.Block>, j: nat)
    requires 0 < j < |Slots(s.comps, |s.comps|)| == |mcu| && Slots(s.comps, |s.comps|)[j].j < |s.comps|
    requires var t := Slots(s.comps, |s.comps|)[j];
             !Exists(s, i, y, x, s.comps[t.j], t) && Slots(s.comps, |s.comps|)[j - 1].j == t.j
    requires NoAc(mcu[j]) && mcu[j].dc == mcu[j - 1].dc
    ensures ShowsBlock(strip, s, i, y, x, mcu, j)
  {
    hide Slots, Exists, NoAc;
  }

  /** The MCUs that all controllers send. */
  lemma StreamShowsBlock(image: Image, s: Scan, i: nat, y: nat, x: nat, j: nat)
    requires GoodImage(image, s) && ScanShape(s) && i < |image| && y < McuBlocks.McuRows(s, i) && x < s.mcusPerRow
    requires j < |Mcu(image[i], s, i, y, x)|
    ensures var n := (RowsBefore(s, i) + y) * s.mcusPerRow + x;
            && 0 <= n < |AllMcus(image, s, |image|)|
            && j < |Slots(s.comps, |s.comps|)| == |AllMcus(image, s, |image|)[n]|
            && Slots(s.comps, |s.comps|)[j].j < |s.comps|
            && ShowsBlock(image[i], s, i, y, x, AllMcus(image, s, |image|)[n], j)
  {
    AllAt(image, s, |image|, i, y, x);
    assert AtMcu(image[i], s, i, y, x);
    hide AllMcus, ShowsBlock, Mcu, GoodStrip, Slots, McuBlocks.McuRows, RowsBefore, AtMcu;
    McuShowsBlock(image[i], s, i, y, x, j);
  }

  /** The rows that compress_first_pass stores: every block beyond the real ones has no AC
      coefficients. */
  lemma StoredDummies(stored: Plane, plane: Plane, rows: nat, cols: nat, v: nat, h: nat, q: nat, r: nat, c: nat)
    requires PaddedPlane(stored, plane, rows, cols, v, h, q) && r < v && h > 0 && c < q * h && (r >= rows || c >= cols)
    ensures |stored[r]| == q * h && NoAc(stored[r][c])
  {
    var x := c / h;
    Divided(c, h, q);
    assert PaddedRow(stored[r], plane, rows, cols, r, h, q);
    assert McuIn(stored[r], plane, rows, cols, r, x, h);
    hide PaddedPlane, PaddedRow;
    assert stored[r][x * h..x * h + h][c - x * h] == stored[r][c];
    BlockIs(plane, rows, cols, r, c, x * h + h);
  }
}
