/** From the coefficient controllers to the decoded image: the MCUs that the controllers
    send in a scan are the blocks of the image in the order that the theorems about
    scripts use, dummy blocks included, so those theorems speak of what is really sent. */
module StoredImage {
  import opened Numbers
  import opened McuGeometry
  import opened LosslessImage
  import opened CoefControllers
  import M = McuBlocks
  import H = HuffmanImage
  import HuffItems
  import J = PhuffProgression
  import P = Progression
  import S = SequentialImage
  import Script = ScanScript
  import AcBand
  import Table = ProbabilityTable
  import Bin = Binarisation

  type Image = seq<M.Strip>

  // ---- One MCU ----

  lemma {:induction false} CompBlocksAt(plane: M.Plane, rows: nat, cols: nat, r: nat, c: nat, w: nat, h: nat, k: nat)
    requires M.GoodPlane(plane, rows, cols) && w > 0 && k < w * h
    ensures |M.CompBlocks(plane, rows, cols, r, c, w, h)| == w * h
    ensures M.CompBlocks(plane, rows, cols, r, c, w, h)[k] == M.BlockAt(plane, rows, cols, r + k / w, c + k % w, c + w)
    decreases h
  {
    CompBlocksLength(plane, rows, cols, r, c, w, h);
    CompBlocksLength(plane, rows, cols, r, c, w, h - 1);
    Distribute(h, -1, w);
    hide M.BlockAt, M.GoodPlane;
    if k < w * (h - 1) {
      CompBlocksAt(plane, rows, cols, r, c, w, h - 1, k);
    } else {
      DivModUnique(k, w, h - 1, k - w * (h - 1));
    }
  }

  lemma {:induction false} CompBlocksLength(plane: M.Plane, rows: nat, cols: nat, r: nat, c: nat, w: nat, h: nat)
    requires M.GoodPlane(plane, rows, cols) && w > 0
    ensures |M.CompBlocks(plane, rows, cols, r, c, w, h)| == w * h
    decreases h
  {
    if h > 0 {
      CompBlocksLength(plane, rows, cols, r, c, w, h - 1);
      Distribute(h, -1, w);
    }
  }

  /** What the controllers put into slot t. */
  ghost function SlotBlock(strip: M.Strip, s: Scan, i: nat, y: nat, x: nat, t: Slot): (b: M.Block)
    requires M.GoodStrip(strip, s, i) && t.j < |s.comps|
  {
    assert M.GoodComp(strip, s, i, s.comps[t.j]);
    CompBlock(strip, s, i, y, x, s.comps[t.j], t)
  }

  ghost function CompBlock(strip: M.Strip, s: Scan, i: nat, y: nat, x: nat, sc: ScanComp, t: Slot): (b: M.Block)
    requires M.GoodComp(strip, s, i, sc)
  {
    MulMono(0, x, sc.width);
    M.BlockAt(strip[sc.index], M.RealRows(sc, s.totalIMcuRows, i), sc.widthInBlocks, y + t.y, x * sc.width + t.x,
              x * sc.width + sc.width)
  }

  lemma PartAt(strip: M.Strip, s: Scan, i: nat, y: nat, x: nat, j: nat, sc: ScanComp, k: nat)
    requires M.GoodComp(strip, s, i, sc) && k < |Cells(j, sc.width, sc.height)|
    ensures |M.McuPart(strip, s, i, sc, y, x)| == |Cells(j, sc.width, sc.height)|
    ensures M.McuPart(strip, s, i, sc, y, x)[k] == CompBlock(strip, s, i, y, x, sc, Cells(j, sc.width, sc.height)[k])
  {
    MulMono(0, x, sc.width);
    hide M.BlockAt, M.CompBlocks, M.RealRows;
    CompBlocksAt(strip[sc.index], M.RealRows(sc, s.totalIMcuRows, i), sc.widthInBlocks, y, x * sc.width, sc.width,
                 sc.height, k);
  }

  lemma PartLength(strip: M.Strip, s: Scan, i: nat, y: nat, x: nat, j: nat, sc: ScanComp)
    requires M.GoodComp(strip, s, i, sc)
    ensures |M.McuPart(strip, s, i, sc, y, x)| == |Cells(j, sc.width, sc.height)|
  {
    MulMono(0, x, sc.width);
    CompBlocksLength(strip[sc.index], M.RealRows(sc, s.totalIMcuRows, i), sc.widthInBlocks, y, x * sc.width, sc.width,
                     sc.height);
  }

  lemma {:induction false} McuLength(strip: M.Strip, s: Scan, i: nat, y: nat, x: nat, n: nat)
    requires M.GoodStrip(strip, s, i) && n <= |s.comps|
    ensures |M.McuUpto(strip, s, i, y, x, n)| == |Slots(s.comps, n)|
    decreases n
  {
    if n > 0 {
      assert M.GoodComp(strip, s, i, s.comps[n - 1]);
      hide M.GoodStrip, M.GoodComp, M.McuPart, Cells;
      McuLength(strip, s, i, y, x, n - 1);
      PartLength(strip, s, i, y, x, n - 1, s.comps[n - 1]);
    }
  }

  lemma {:induction false} McuAt(strip: M.Strip, s: Scan, i: nat, y: nat, x: nat, n: nat, j: nat)
    requires M.GoodStrip(strip, s, i) && n <= |s.comps| && j < |Slots(s.comps, n)|
    ensures |M.McuUpto(strip, s, i, y, x, n)| == |Slots(s.comps, n)| && Slots(s.comps, n)[j].j < |s.comps|
    ensures M.McuUpto(strip, s, i, y, x, n)[j] == SlotBlock(strip, s, i, y, x, Slots(s.comps, n)[j])
    decreases n
  {
    assert M.GoodComp(strip, s, i, s.comps[n - 1]);
    hide M.GoodStrip, M.GoodComp, M.McuPart, Cells, CompBlock;
    McuLength(strip, s, i, y, x, n);
    McuLength(strip, s, i, y, x, n - 1);
    SlotsAre(s.comps, n, j);
    var m, sc := |Slots(s.comps, n - 1)|, s.comps[n - 1];
    if j < m {
      McuAt(strip, s, i, y, x, n - 1, j);
    } else {
      PartAt(strip, s, i, y, x, n - 1, sc, j - m);
      CellsAt(n - 1, sc.width, sc.height, j - m);
      CellInside(n - 1, sc.width, sc.height, j - m);
    }
  }

  // ---- The MCUs of a scan ----

  lemma {:induction false} RowsLength(strip: M.Strip, s: Scan, i: nat, y: nat, x: nat)
    requires M.GoodStrip(strip, s, i)
    ensures |M.McusTo(strip, s, i, y, x)| == y * s.mcusPerRow + x
    decreases y, x
  {
    hide M.GoodStrip, M.Mcu;
    if x > 0 {
      RowsLength(strip, s, i, y, x - 1);
    } else if y > 0 {
      RowsLength(strip, s, i, y - 1, s.mcusPerRow);
      Distribute(y, -1, s.mcusPerRow);
    }
  }

  lemma {:induction false} RowsAt(strip: M.Strip, s: Scan, i: nat, y: nat, x: nat, y2: nat, x2: nat)
    requires M.GoodStrip(strip, s, i) && x2 < s.mcusPerRow && (y2 < y || (y2 == y && x2 < x))
    ensures 0 <= y2 * s.mcusPerRow + x2 < |M.McusTo(strip, s, i, y, x)|
    ensures M.McusTo(strip, s, i, y, x)[y2 * s.mcusPerRow + x2] == M.Mcu(strip, s, i, y2, x2)
    decreases y, x
  {
    hide M.GoodStrip, M.Mcu;
    MulMono(0, y2, s.mcusPerRow);
    RowsLength(strip, s, i, y, x);
    if x > 0 {
      RowsLength(strip, s, i, y, x - 1);
      if y2 < y || x2 < x - 1 {
        RowsAt(strip, s, i, y, x - 1, y2, x2);
      }
    } else {
      RowsAt(strip, s, i, y - 1, s.mcusPerRow, y2, x2);
    }
  }

  /** The MCU rows in the first n iMCU rows. */
  function RowsBefore(s: Scan, n: nat): (r: nat)
    requires s.comps != []
  {
    if n == 0 then 0 else RowsBefore(s, n - 1) + M.McuRows(s, n - 1)
  }

  lemma {:induction false} AllLength(image: Image, s: Scan, n: nat)
    requires M.GoodImage(image, s) && n <= |image|
    ensures |M.AllMcus(image, s, n)| == RowsBefore(s, n) * s.mcusPerRow
    decreases n
  {
    hide M.GoodStrip, M.McusTo, M.McuRows;
    if n > 0 {
      AllLength(image, s, n - 1);
      RowsLength(image[n - 1], s, n - 1, M.McuRows(s, n - 1), 0);
      Distribute(RowsBefore(s, n - 1), M.McuRows(s, n - 1), s.mcusPerRow);
    }
  }

  lemma {:induction false} AllAt(image: Image, s: Scan, n: nat, i: nat, y: nat, x: nat)
    requires M.GoodImage(image, s) && i < n <= |image| && y < M.McuRows(s, i) && x < s.mcusPerRow
    ensures 0 <= (RowsBefore(s, i) + y) * s.mcusPerRow + x < |M.AllMcus(image, s, n)|
    ensures M.AllMcus(image, s, n)[(RowsBefore(s, i) + y) * s.mcusPerRow + x] == M.Mcu(image[i], s, i, y, x)
    decreases n
  {
    hide M.GoodStrip, M.McusTo, M.McuRows, M.Mcu;
    MulMono(0, RowsBefore(s, i) + y, s.mcusPerRow);
    if i < n - 1 {
      AllAt(image, s, n - 1, i, y, x);
    } else {
      AllLength(image, s, i);
      RowsAt(image[i], s, i, M.McuRows(s, i), 0, y, x);
      Distribute(RowsBefore(s, i), y, s.mcusPerRow);
    }
  }

  /** The place of MCU row my among the iMCU rows. */
  function Outer(s: Scan, my: nat): (i: nat)
    requires s.comps != []
  {
    if |s.comps| > 1 || s.comps[0].vSamp == 0 then my else my / s.comps[0].vSamp
  }

  function Inner(s: Scan, my: nat): (y: nat)
    requires s.comps != []
  {
    if |s.comps| > 1 || s.comps[0].vSamp == 0 then 0 else my % s.comps[0].vSamp
  }

  lemma {:induction false} RowsBeforeIs(s: Scan, n: nat)
    requires s.comps != [] && n <= s.totalIMcuRows
    ensures |s.comps| > 1 ==> RowsBefore(s, n) == n
    ensures |s.comps| == 1 ==>
              RowsBefore(s, n) == n * s.comps[0].vSamp - (if n < s.totalIMcuRows || n == 0 then 0
                                                          else s.comps[0].vSamp - s.comps[0].lastRowHeight)
    decreases n
  {
    if n > 0 {
      RowsBeforeIs(s, n - 1);
      Distribute(n, -1, s.comps[0].vSamp);
    }
  }

  lemma AllRows(ly: Layout, info: Script.ScanInfo, s: Scan)
    requires GoodSetup(ly, info, s)
    ensures s.comps != [] && RowsBefore(s, s.totalIMcuRows) == McuRows(ly, s)
  {
    assert Tiles(s, s.comps[0], ly.f.comps[Sel(info)[0]]);
    RowsBeforeIs(s, s.totalIMcuRows);
  }

  lemma RowSplits(ly: Layout, info: Script.ScanInfo, s: Scan, my: nat)
    requires GoodSetup(ly, info, s) && my < McuRows(ly, s)
    ensures s.comps != [] && Outer(s, my) < s.totalIMcuRows && Inner(s, my) < M.McuRows(s, Outer(s, my))
    ensures RowsBefore(s, Outer(s, my)) + Inner(s, my) == my
  {
    var sc := s.comps[0];
    assert Tiles(s, sc, ly.f.comps[Sel(info)[0]]);
    if |s.comps| == 1 {
      Divided(my, sc.vSamp, s.totalIMcuRows);
      if Outer(s, my) + 1 == s.totalIMcuRows {
        Distribute(s.totalIMcuRows, -1, sc.vSamp);
      }
    }
    RowsBeforeIs(s, Outer(s, my));
  }

  // ---- The blocks of the image ----

  function Flat(b: M.Block): (r: AcBand.Block) {
    seq(DCTSIZE2, k requires 0 <= k < DCTSIZE2 => FlatAt(b, k))
  }

  function FlatAt(b: M.Block, k: nat): (v: int) {
    if k == 0 then b.dc else if k - 1 < |b.ac| then b.ac[k - 1] else 0
  }

  function Flats(mcu: seq<M.Block>): (r: seq<AcBand.Block>) {
    seq(|mcu|, j requires 0 <= j < |mcu| => Flat(mcu[j]))
  }

  function AllFlats(mcus: seq<seq<M.Block>>): (r: seq<seq<AcBand.Block>>) {
    seq(|mcus|, i requires 0 <= i < |mcus| => Flats(mcus[i]))
  }

  /** The block of the image at a spot; dummy blocks as an MCU of all components has
      them. */
  ghost function BlockOf(f: Frame, image: Image, p: Spot): (b: M.Block)
    requires ImageBlocks(f, image) && p.c < |f.comps| && f.comps[p.c].v > 0 && f.comps[p.c].h > 0
    requires p.row / f.comps[p.c].v < f.totalIMcuRows
  {
    var c, i := f.comps[p.c], p.row / f.comps[p.c].v;
    assert FrameStrip(f, image[i], i);
    assert FramePlane(c, image[i][p.c], f.totalIMcuRows, i);
    MulMono(0, p.col / c.h, c.h);
    M.BlockAt(image[i][p.c], M.BlockRows(c, f.totalIMcuRows, i), c.widthInBlocks, p.row % c.v, p.col,
              p.col / c.h * c.h + c.h)
  }

  ghost predicate Inhabited(f: Frame, p: Spot) {
    p.c < |f.comps| && f.comps[p.c].v > 0 && f.comps[p.c].h > 0 && p.row / f.comps[p.c].v < f.totalIMcuRows
  }

  lemma GridInhabited(ly: Layout, p: Spot)
    requires GoodLayout(ly) && InGrid(ly, p)
    ensures Inhabited(ly.f, p)
  {
    assert Roomy(ly, ly.f.comps[p.c]);
    Divided(p.row, ly.f.comps[p.c].v, ly.f.totalIMcuRows);
  }

  ghost function FlatOf(f: Frame, image: Image, p: Spot): (b: AcBand.Block) {
    if ImageBlocks(f, image) && Inhabited(f, p) then Flat(BlockOf(f, image, p)) else Flat(M.Dummy(0))
  }

  /** All blocks of the image, by number. */
  ghost function Blocks(ly: Layout, image: Image): (x: seq<AcBand.Block>) {
    seq(ly.size, b requires 0 <= b < ly.size => BlockNumbered(ly, image, b))
  }

  ghost function BlockNumbered(ly: Layout, image: Image, b: nat): (blk: AcBand.Block) {
    FlatOf(ly.f, image, ly.spot(b))
  }

  /** What a controller puts into a slot is the block of the image at the spot. */
  lemma SlotIsBlock(ly: Layout, image: Image, info: Script.ScanInfo, s: Scan, my: nat, mx: nat, t: Slot)
    requires GoodLayout(ly) && GoodSetup(ly, info, s) && ImageBlocks(ly.f, image) && M.GoodImage(image, s)
    requires my < McuRows(ly, s) && mx < s.mcusPerRow && Outer(s, my) < |image|
    requires t.j < |s.comps| && t.y < s.comps[t.j].height && t.x < s.comps[t.j].width
    ensures Inhabited(ly.f, SpotOf(s, my, mx, t))
    ensures SlotBlock(image[Outer(s, my)], s, Outer(s, my), Inner(s, my), mx, t)
            == BlockOf(ly.f, image, SpotOf(s, my, mx, t))
  {
    var sc, c := s.comps[t.j], ly.f.comps[Sel(info)[t.j]];
    SpotInGrid(ly, info, s, my, mx, t);
    GridInhabited(ly, SpotOf(s, my, mx, t));
    RowSplits(ly, info, s, my);
    SetupComp(ly, info, s, t.j, Outer(s, my));
    hide GoodLayout, GoodSetup, SpotOf, ImageBlocks, M.BlockRows, M.RealRows, SlotBlock, BlockOf, Tiles, M.GoodImage,
         Inhabited, InGrid, Real, M.McuRows;
    if |s.comps| == 1 {
      assert my < c.heightInBlocks;
      AloneIsBlock(ly, image, s, my, mx, t, c);
    } else {
      SharedIsBlock(ly, image, s, my, mx, t, c);
    }
  }

  /** The facts about a component of a scan. */
  lemma SetupComp(ly: Layout, info: Script.ScanInfo, s: Scan, j: nat, i: nat)
    requires GoodSetup(ly, info, s) && j < |s.comps|
    ensures j < |info.comps| && Sel(info)[j] < |ly.f.comps| && s.totalIMcuRows == ly.f.totalIMcuRows
    ensures var sc, c := s.comps[j], ly.f.comps[Sel(info)[j]];
            && sc.index == Sel(info)[j] && sc.vSamp == c.v > 0 && sc.widthInBlocks == c.widthInBlocks
            && M.BlockRows(c, s.totalIMcuRows, i) == M.RealRows(sc, s.totalIMcuRows, i)
            && (|s.comps| == 1 ==> && sc.width == sc.height == 1 && s.mcusPerRow == c.widthInBlocks
                                   && McuRows(ly, s) == c.heightInBlocks)
            && (|s.comps| > 1 ==> FullSize(sc, c))
  {
    var sc, c := s.comps[j], ly.f.comps[Sel(info)[j]];
    assert Tiles(s, sc, c);
    assert |s.comps| > 1 ==> FullSize(sc, c);
    M.SameRows(s, sc, c, i);
  }

  lemma SharedIsBlock(ly: Layout, image: Image, s: Scan, my: nat, mx: nat, t: Slot, c: Component)
    requires ImageBlocks(ly.f, image) && M.GoodImage(image, s) && |s.comps| > 1 && my < |image| && t.j < |s.comps|
    requires Inhabited(ly.f, SpotOf(s, my, mx, t)) && c == ly.f.comps[s.comps[t.j].index]
    requires t.y < s.comps[t.j].height && t.x < s.comps[t.j].width && FullSize(s.comps[t.j], c)
    requires s.comps[t.j].widthInBlocks == c.widthInBlocks && s.totalIMcuRows == ly.f.totalIMcuRows
    requires c.v > 0 && M.BlockRows(c, s.totalIMcuRows, my) == M.RealRows(s.comps[t.j], s.totalIMcuRows, my)
    ensures SlotBlock(image[my], s, my, 0, mx, t) == BlockOf(ly.f, image, SpotOf(s, my, mx, t))
  {
    hide M.BlockAt, M.BlockRows, M.RealRows, M.GoodStrip;
    MulMono(0, my, c.v);
    MulMono(0, mx, c.h);
    DivModUnique(my * c.v + t.y, c.v, my, t.y);
    DivModUnique(mx * c.h + t.x, c.h, mx, t.x);
  }

  lemma AloneIsBlock(ly: Layout, image: Image, s: Scan, my: nat, mx: nat, t: Slot, c: Component)
    requires ImageBlocks(ly.f, image) && M.GoodImage(image, s) && |s.comps| == 1 && t.j == 0 && Outer(s, my) < |image|
    requires Inhabited(ly.f, SpotOf(s, my, mx, t)) && c == ly.f.comps[s.comps[0].index] && s.comps[0].vSamp == c.v > 0
    requires s.comps[0].width == s.comps[0].height == 1 && t.y == t.x == 0
    requires s.comps[0].widthInBlocks == c.widthInBlocks && s.totalIMcuRows == ly.f.totalIMcuRows
    requires M.BlockRows(c, s.totalIMcuRows, Outer(s, my)) == M.RealRows(s.comps[0], s.totalIMcuRows, Outer(s, my))
    requires my < c.heightInBlocks && mx < c.widthInBlocks && Inner(s, my) < M.McuRows(s, Outer(s, my))
    ensures SlotBlock(image[Outer(s, my)], s, Outer(s, my), Inner(s, my), mx, t)
            == BlockOf(ly.f, image, SpotOf(s, my, mx, t))
  {
    hide M.BlockRows, M.RealRows, M.GoodStrip;
    assert my * 1 == my && mx * 1 == mx;
  }

  // ---- The stream of a scan ----

  ghost predicate Bounded(ly: Layout, s: Scan) {
    forall i, j :: 0 <= i < |OrderOf(ly, s)| && 0 <= j < |OrderOf(ly, s)[i]| ==> OrderOf(ly, s)[i][j] < ly.size
  }

  lemma OrderBounded(ly: Layout, info: Script.ScanInfo, s: Scan)
    requires GoodLayout(ly) && GoodSetup(ly, info, s)
    ensures Bounded(ly, s) && s.comps != [] && s.mcusPerRow > 0
  {
    SetupComp(ly, info, s, 0, 0);
    assert s.mcusPerRow > 0 by { assert Tiles(s, s.comps[0], ly.f.comps[Sel(info)[0]]); }
    forall i, j | 0 <= i < |OrderOf(ly, s)| && 0 <= j < |OrderOf(ly, s)[i]| ensures OrderOf(ly, s)[i][j] < ly.size {
      var my, mx := OrderAt(ly, s, i, j);
      SlotsAre(s.comps, |s.comps|, j);
      SpotInGrid(ly, info, s, my, mx, Slots(s.comps, |s.comps|)[j]);
    }
  }

  /** MCU n of the scan is the one at MCU row y and column x of iMCU row i. */
  ghost predicate AtPlace(s: Scan, n: nat, i: nat, y: nat, x: nat) {
    && s.comps != [] && s.mcusPerRow > 0 && i < s.totalIMcuRows && y < M.McuRows(s, i)
    && i == Outer(s, n / s.mcusPerRow) && y == Inner(s, n / s.mcusPerRow) && x == n % s.mcusPerRow
    && n == (RowsBefore(s, i) + y) * s.mcusPerRow + x
  }

  lemma OrderLength(ly: Layout, s: Scan)
    ensures |OrderOf(ly, s)| == McuRows(ly, s) * s.mcusPerRow
  {
    hide McuRows;
  }

  lemma PlaceOf(ly: Layout, info: Script.ScanInfo, s: Scan, n: nat) returns (i: nat, y: nat, x: nat)
    requires GoodSetup(ly, info, s) && s.mcusPerRow > 0 && n < |OrderOf(ly, s)|
    ensures AtPlace(s, n, i, y, x)
  {
    hide GoodSetup, OrderOf, McuRows, M.McuRows, Outer, Inner, RowsBefore;
    var my := n / s.mcusPerRow;
    OrderLength(ly, s);
    Divided(n, s.mcusPerRow, McuRows(ly, s));
    RowSplits(ly, info, s, my);
    i, y, x := Outer(s, my), Inner(s, my), n % s.mcusPerRow;
  }

  lemma EntryIsBlock(ly: Layout, image: Image, info: Script.ScanInfo, s: Scan, n: nat, j: nat, i: nat, y: nat, x: nat)
    requires GoodLayout(ly) && GoodSetup(ly, info, s) && ImageBlocks(ly.f, image) && M.GoodImage(image, s)
    requires AtPlace(s, n, i, y, x) && i < |image| && n < |OrderOf(ly, s)| && j < |OrderOf(ly, s)[n]|
    requires OrderOf(ly, s)[n][j] < ly.size && j < |M.Mcu(image[i], s, i, y, x)|
    ensures Flat(M.Mcu(image[i], s, i, y, x)[j]) == Blocks(ly, image)[OrderOf(ly, s)[n][j]]
  {
    var my, mx := OrderAt(ly, s, n, j);
    DivModUnique(n, s.mcusPerRow, my, mx);
    SlotsAre(s.comps, |s.comps|, j);
    var t := Slots(s.comps, |s.comps|)[j];
    SpotInGrid(ly, info, s, my, mx, t);
    SpotReturns(ly, SpotOf(s, my, mx, t));
    hide GoodLayout, GoodSetup, Slots, OrderOf, SpotOf, M.McuUpto, SlotBlock, BlockOf, Tiles, McuRows, M.McuRows,
         Inhabited, M.GoodStrip, RowsBefore, Outer, Inner;
    SlotIsBlock(ly, image, info, s, my, mx, t);
    McuAt(image[i], s, i, y, mx, |s.comps|, j);
  }

  lemma SpotReturns(ly: Layout, p: Spot)
    requires GoodLayout(ly) && InGrid(ly, p)
    ensures ly.at(p) < ly.size && ly.spot(ly.at(p)) == p
  {
  }

  lemma EntryLength(ly: Layout, s: Scan, n: nat)
    requires n < |OrderOf(ly, s)| && s.mcusPerRow > 0
    ensures |OrderOf(ly, s)[n]| == |Slots(s.comps, |s.comps|)|
  {
    hide Slots;
  }

  /** MCU n of the stream. */
  lemma StreamAt(image: Image, s: Scan, n: nat, i: nat, y: nat, x: nat)
    requires M.GoodImage(image, s) && i < |image| && AtPlace(s, n, i, y, x)
    ensures n < |M.AllMcus(image, s, |image|)| && M.AllMcus(image, s, |image|)[n] == M.Mcu(image[i], s, i, y, x)
    ensures |M.Mcu(image[i], s, i, y, x)| == |Slots(s.comps, |s.comps|)|
  {
    hide Slots, M.McuUpto, M.McuRows, M.AllMcus, RowsBefore, M.GoodStrip, Outer, Inner;
    AllAt(image, s, |image|, i, y, x);
    McuLength(image[i], s, i, y, x, |s.comps|);
  }

  lemma McuIsGathered(ly: Layout, image: Image, info: Script.ScanInfo, s: Scan, n: nat)
    requires GoodLayout(ly) && GoodSetup(ly, info, s) && ImageBlocks(ly.f, image) && M.GoodImage(image, s)
    requires Bounded(ly, s) && s.mcusPerRow > 0 && n < |OrderOf(ly, s)|
    ensures n < |M.AllMcus(image, s, |image|)| && |Blocks(ly, image)| == ly.size
    ensures Flats(M.AllMcus(image, s, |image|)[n]) == P.GatherMcu(Blocks(ly, image), OrderOf(ly, s)[n])
  {
    hide GoodLayout, GoodSetup, OrderOf, Slots, M.McuUpto, M.AllMcus, Outer, Inner, Blocks, Flat, M.Mcu, RowsBefore;
    var i, y, x := PlaceOf(ly, info, s, n);
    StreamAt(image, s, n, i, y, x);
    EntryLength(ly, s, n);
    BlocksLength(ly, image);
    hide AtPlace;
    var ids, mcu := OrderOf(ly, s)[n], M.Mcu(image[i], s, i, y, x);
    forall j | 0 <= j < |mcu| ensures Flat(mcu[j]) == Blocks(ly, image)[ids[j]] {
      EntryIsBlock(ly, image, info, s, n, j, i, y, x);
    }
  }

  lemma BlocksLength(ly: Layout, image: Image)
    ensures |Blocks(ly, image)| == ly.size
  {
  }

  lemma ImageSuits(ly: Layout, image: Image, info: Script.ScanInfo, s: Scan)
    requires GoodSetup(ly, info, s) && ImageBlocks(ly.f, image)
    ensures M.GoodImage(image, s)
  {
    GoodScanShape(ly.f, Sel(info), s);
    forall i | 0 <= i < |image| ensures M.GoodStrip(image[i], s, i) {
      hide FrameStrip, M.GoodStrip;
      ScanStrip(ly.f, image[i], Sel(info), s, i);
    }
  }

  /** The MCUs that every controller sends in a scan are the blocks of the image in the
      order of the scan. */
  lemma StreamIsGathered(ly: Layout, image: Image, info: Script.ScanInfo, s: Scan)
    requires GoodLayout(ly) && GoodSetup(ly, info, s) && ImageBlocks(ly.f, image)
    ensures M.GoodImage(image, s) && Bounded(ly, s) && |Blocks(ly, image)| == ly.size
    ensures AllFlats(M.AllMcus(image, s, |image|)) == P.Gather(Blocks(ly, image), OrderOf(ly, s))
  {
    ImageSuits(ly, image, info, s);
    OrderBounded(ly, info, s);
    BlocksLength(ly, image);
    AllRows(ly, info, s);
    AllLength(image, s, |image|);
    assert |M.AllMcus(image, s, |image|)| == |OrderOf(ly, s)|;
    hide GoodLayout, GoodSetup, M.GoodImage, M.AllMcus, OrderOf, Blocks, Flats, RowsBefore, McuRows;
    var mcus, order := M.AllMcus(image, s, |image|), OrderOf(ly, s);
    forall n | 0 <= n < |mcus| ensures AllFlats(mcus)[n] == P.Gather(Blocks(ly, image), order)[n] {
      McuIsGathered(ly, image, info, s, n);
    }
  }

  // ---- The whole image ----

  /** Every coefficient of every real block has at most 14 bits. */
  ghost predicate SmallImage(f: Frame, image: Image)
    requires ImageBlocks(f, image)
  {
    forall i, c :: 0 <= i < |image| && 0 <= c < |f.comps| ==>
             FrameStrip(f, image[i], i) && SmallPlane(f, image[i], i, c)
  }

  ghost predicate SmallPlane(f: Frame, strip: M.Strip, i: nat, c: nat)
    requires FrameStrip(f, strip, i) && c < |f.comps|
  {
    && FramePlane(f.comps[c], strip[c], f.totalIMcuRows, i)
    && forall r, k :: 0 <= r < M.BlockRows(f.comps[c], f.totalIMcuRows, i) && 0 <= k < f.comps[c].widthInBlocks ==>
                        SmallBlock(strip[c][r][k])
  }

  predicate SmallBlock(b: M.Block) {
    Abs(b.dc) <= 0x4000 && forall k :: 0 <= k < |b.ac| ==> Abs(b.ac[k]) <= 0x4000
  }

  lemma FlatSmall(b: M.Block, k: nat)
    requires SmallBlock(b) && k < DCTSIZE2
    ensures Abs(Flat(b)[k]) <= 0x4000
  {
  }

  /** A dummy block repeats the DC of a real one. */
  lemma BlockAtSmall(plane: M.Plane, rows: nat, cols: nat, r: nat, c: nat, end: nat)
    requires M.GoodPlane(plane, rows, cols) && end > 0
    requires forall i, k :: 0 <= i < rows && 0 <= k < cols ==> SmallBlock(plane[i][k])
    ensures SmallBlock(M.BlockAt(plane, rows, cols, r, c, end))
  {
    var d := if r < rows then plane[r][cols - 1] else plane[rows - 1][M.Min(end, cols) - 1];
    assert SmallBlock(d);
  }

  lemma BlocksSmall(ly: Layout, image: Image)
    requires ImageBlocks(ly.f, image) && SmallImage(ly.f, image)
    ensures SmallBlocks(Blocks(ly, image))
  {
    var x := Blocks(ly, image);
    forall b, k | 0 <= b < |x| && 0 <= k < DCTSIZE2 ensures Abs(x[b][k]) <= 0x4000 {
      var p := ly.spot(b);
      if Inhabited(ly.f, p) {
        SpotSmall(ly.f, image, p);
        FlatSmall(BlockOf(ly.f, image, p), k);
      }
    }
  }

  lemma SpotSmall(f: Frame, image: Image, p: Spot)
    requires ImageBlocks(f, image) && SmallImage(f, image) && Inhabited(f, p)
    ensures SmallBlock(BlockOf(f, image, p))
  {
    var c, i := f.comps[p.c], p.row / f.comps[p.c].v;
    assert FrameStrip(f, image[i], i) && SmallPlane(f, image[i], i, p.c);
    MulMono(0, p.col / c.h, c.h);
    hide SmallBlock, M.BlockAt, M.BlockRows;
    BlockAtSmall(image[i][p.c], M.BlockRows(c, f.totalIMcuRows, i), c.widthInBlocks, p.row % c.v, p.col,
                 p.col / c.h * c.h + c.h);
  }

  /** The block of the image at a real spot. */
  lemma RealBlock(ly: Layout, image: Image, p: Spot)
    requires ImageBlocks(ly.f, image) && GoodLayout(ly) && InGrid(ly, p) && Real(ly, p)
    ensures Inhabited(ly.f, p)
    ensures var i, r := p.row / ly.f.comps[p.c].v, p.row % ly.f.comps[p.c].v;
            && i < |image| && p.c < |image[i]| && r < |image[i][p.c]| && p.col < |image[i][p.c][r]|
            && BlockOf(ly.f, image, p) == image[i][p.c][r][p.col]
  {
    GridInhabited(ly, p);
    var c, i := ly.f.comps[p.c], p.row / ly.f.comps[p.c].v;
    assert Roomy(ly, c);
    assert FrameStrip(ly.f, image[i], i);
    assert FramePlane(c, image[i][p.c], ly.f.totalIMcuRows, i);
    RealRow(c, ly.f.totalIMcuRows, p.row);
    hide M.BlockRows, GoodLayout, FrameStrip, Roomy;
  }

  lemma RealRow(c: Component, total: nat, row: nat)
    requires c.v > 0 && row < c.heightInBlocks <= total * c.v && row / c.v < total
    ensures row % c.v < M.BlockRows(c, total, row / c.v)
  {
    var i := row / c.v;
    if i + 1 == total {
      Distribute(total, -1, c.v);
      LastPartIs(c.heightInBlocks, c.v, total);
    }
  }

  ghost predicate Returned(ly: Layout, image: Image, blocks: seq<AcBand.Block>)
    requires ImageBlocks(ly.f, image)
  {
    && |blocks| == ly.size
    && forall b :: 0 <= b < ly.size && Real(ly, ly.spot(b)) ==> Comes(ly.f, image, ly.spot(b), blocks[b])
  }

  /** The decoded block is the one of the image. */
  ghost predicate Comes(f: Frame, image: Image, p: Spot, blk: AcBand.Block) {
    && p.c < |f.comps| && f.comps[p.c].v > 0
    && var i, r := p.row / f.comps[p.c].v, p.row % f.comps[p.c].v;
       && i < |image| && p.c < |image[i]| && r < |image[i][p.c]| && p.col < |image[i][p.c][r]|
       && blk == Flat(image[i][p.c][r][p.col])
  }

  lemma RealComes(ly: Layout, image: Image, b: nat, blk: AcBand.Block)
    requires ImageBlocks(ly.f, image) && GoodLayout(ly) && b < ly.size && Real(ly, ly.spot(b))
             && blk == BlockNumbered(ly, image, b)
    ensures Comes(ly.f, image, ly.spot(b), blk)
  {
    RealBlock(ly, image, ly.spot(b));
    hide GoodLayout, ImageBlocks, BlockOf, Flat;
  }

  /** Giving back the numbered blocks is giving back the image. */
  lemma RestoredReturned(ly: Layout, image: Image, blocks: seq<AcBand.Block>)
    requires ImageBlocks(ly.f, image) && GoodLayout(ly) && Restored(ly, Blocks(ly, image), blocks)
    ensures Returned(ly, image, blocks)
  {
    BlocksLength(ly, image);
    hide ImageBlocks, GoodLayout, Comes, FlatOf;
    forall b | 0 <= b < ly.size && Real(ly, ly.spot(b)) ensures Comes(ly.f, image, ly.spot(b), blocks[b]) {
      RealComes(ly, image, b, blocks[b]);
    }
  }

  /** In every scan of the script, what is coded is what the controllers send. */
  ghost predicate SendsImage(ly: Layout, image: Image, script: seq<Script.ScanInfo>, setups: seq<Scan>)
    requires ImageBlocks(ly.f, image) && |setups| == |script|
  {
    forall n :: 0 <= n < |script| ==> Sends(ly, image, setups[n])
  }

  ghost predicate Sends(ly: Layout, image: Image, s: Scan) {
    && M.GoodImage(image, s) && Bounded(ly, s) && |Blocks(ly, image)| == ly.size
    && AllFlats(M.AllMcus(image, s, |image|)) == P.Gather(Blocks(ly, image), OrderOf(ly, s))
  }

  lemma ScriptSends(ly: Layout, image: Image, script: seq<Script.ScanInfo>, setups: seq<Scan>)
    requires GoodLayout(ly) && ImageBlocks(ly.f, image) && GoodSetups(ly, script, setups)
    ensures SendsImage(ly, image, script, setups)
  {
    forall n | 0 <= n < |script| ensures Sends(ly, image, setups[n]) {
      StreamIsGathered(ly, image, script[n], setups[n]);
      hide GoodSetup, GoodLayout, M.GoodImage, Bounded, M.AllMcus, OrderOf, Blocks, AllFlats;
    }
  }

  /** For every frame with any sampling factors, every complete legal script, and all
      coefficients of at most 14 bits: each scan codes the MCUs that the coefficient
      controllers send, and decoding the scans one after the other gives back every real
      block of the image that the DCT has made. */
  lemma SentImageComesBack(ly: Layout, image: Image, script: seq<Script.ScanInfo>, setups: seq<Scan>, t: Tables,
                           e: Rest, tab: seq<nat>, stats: seq<byte>)
    requires GoodLayout(ly) && ImageBlocks(ly.f, image) && SmallImage(ly.f, image)
    requires GoodTables(t, |ly.f.comps|) && GoodSetups(ly, script, setups)
    requires Script.Progressive(script, |ly.f.comps|) && Completes(script, |ly.f.comps|) && e.m != 0 && e.m != 0xFF
    requires Table.ValidTable(tab) && |tab| > 0 && Table.ValidStats(tab, stats) && |stats| == Bin.BINS
    ensures SendsImage(ly, image, script, setups)
    ensures var x := Blocks(ly, image);
            && P.GoodJobs(ImageOf(ly, x), JobsOf(ly, script, setups, t, e))
            && var r := P.RunJobs(tab, stats, stats, ImageOf(ly, x), JobsOf(ly, script, setups, t, e), P.Zeroed(|x|));
               r.Decoded? && Returned(ly, image, r.blocks)
  {
    ScriptSends(ly, image, script, setups);
    BlocksLength(ly, image);
    BlocksSmall(ly, image);
    var x := Blocks(ly, image);
    hide SmallBlocks, SmallImage, GoodTables, Table.ValidTable, Table.ValidStats, Script.Progressive, JobsOf,
         P.GoodJobs, P.RunJobs, GoodSetups, GoodLayout, Completes, Sends, ImageBlocks, ImageOf, Returned, Restored;
    CompleteScriptIsLossless(ly, x, script, setups, t, e, tab, stats);
    RestoredReturned(ly, image,
                     P.RunJobs(tab, stats, stats, ImageOf(ly, x), JobsOf(ly, script, setups, t, e),
                               P.Zeroed(|x|)).blocks);
  }

  /** The same for every script that is not progressive. */
  lemma SequentialImageComesBack(ly: Layout, image: Image, script: seq<Script.ScanInfo>, setups: seq<Scan>, t: Tables,
                                 e: Rest, tab: seq<nat>, stats: seq<byte>)
    requires GoodLayout(ly) && ImageBlocks(ly.f, image) && SmallImage(ly.f, image)
    requires GoodTables(t, |ly.f.comps|) && GoodSetups(ly, script, setups)
    requires Script.Sequential(script, |ly.f.comps|) && e.m != 0 && e.m != 0xFF
    requires Table.ValidTable(tab) && |tab| > 0 && Table.ValidStats(tab, stats) && |stats| == Bin.BINS
    ensures SendsImage(ly, image, script, setups)
    ensures var x := Blocks(ly, image);
            && P.GoodJobs(ImageOf(ly, x), JobsOf(ly, script, setups, t, e))
            && var r := P.RunJobs(tab, stats, stats, ImageOf(ly, x), JobsOf(ly, script, setups, t, e), P.Zeroed(|x|));
               r.Decoded? && Returned(ly, image, r.blocks)
  {
    ScriptSends(ly, image, script, setups);
    BlocksLength(ly, image);
    BlocksSmall(ly, image);
    var x := Blocks(ly, image);
    hide SmallBlocks, SmallImage, GoodTables, Table.ValidTable, Table.ValidStats, Script.Sequential, JobsOf, P.GoodJobs,
         P.RunJobs, GoodSetups, GoodLayout, Sends, ImageBlocks, ImageOf, Returned, Restored;
    SequentialScriptIsLossless(ly, x, script, setups, t, e, tab, stats);
    RestoredReturned(ly, image,
                     P.RunJobs(tab, stats, stats, ImageOf(ly, x), JobsOf(ly, script, setups, t, e),
                               P.Zeroed(|x|)).blocks);
  }

  // ---- The whole image with Huffman tables ----

  /** Table numbers, restart interval and tables for the scans of a script. */
  ghost predicate HuffmanSetup(ly: Layout, image: Image, script: seq<Script.ScanInfo>, setups: seq<Scan>, c: H.Choice)
    requires ImageBlocks(ly.f, image)
  {
    && GoodLayout(ly) && SmallImage(ly.f, image) && GoodSetups(ly, script, setups)
    && H.HuffTables(c.dc, c.ac, |ly.f.comps|) && c.e.m != 0 && c.e.m != 0xFF && |c.codes| == |script|
    && forall i :: 0 <= i < |script| ==> HuffItems.GoodCodes(c.codes[i])
  }

  lemma SetupSuits(ly: Layout, image: Image, script: seq<Script.ScanInfo>, setups: seq<Scan>, c: H.Choice)
    requires ImageBlocks(ly.f, image) && HuffmanSetup(ly, image, script, setups, c)
    requires Script.Progressive(script, |ly.f.comps|) || Script.Sequential(script, |ly.f.comps|)
    ensures H.ScriptSetup(ly, Blocks(ly, image), script, setups, c) && SendsImage(ly, image, script, setups)
  {
    ScriptSends(ly, image, script, setups);
    BlocksLength(ly, image);
    BlocksSmall(ly, image);
    LegalSelections(script, |ly.f.comps|);
    hide SmallBlocks, SmallImage, ImageBlocks, Blocks, GoodLayout, GoodSetups, GoodSelections, Sends,
         HuffItems.GoodCodes, Script.Progressive, Script.Sequential;
  }

  /** For every script that is not progressive: each scan codes the MCUs that the
      coefficient controllers send; with tables that have codes for them and flushes that
      lose no bits, the bytes that the encoder writes give back every real block. */
  lemma HuffmanImageComesBack(ly: Layout, image: Image, script: seq<Script.ScanInfo>, setups: seq<Scan>, c: H.Choice,
                              w: nat)
    requires ImageBlocks(ly.f, image) && HuffmanSetup(ly, image, script, setups, c)
    requires Script.Sequential(script, |ly.f.comps|) && (w == 32 || w == 64)
    ensures SendsImage(ly, image, script, setups)
    ensures var x := Blocks(ly, image);
            && H.ScriptSetup(ly, x, script, setups, c)
            && ((forall i :: 0 <= i < |script| ==> H.ScanServed(ly, x, script, setups, c, w, i)) ==>
                  && S.GoodHuffJobs(ImageOf(ly, x), H.ScriptJobs(ly, x, script, setups, c, w))
                  && var r := S.RunHuffJobs(ImageOf(ly, x), H.ScriptJobs(ly, x, script, setups, c, w), P.Zeroed(|x|));
                     r.Decoded? && Returned(ly, image, r.blocks))
  {
    SetupSuits(ly, image, script, setups, c);
    var x := Blocks(ly, image);
    assert GoodLayout(ly);
    hide HuffmanSetup, H.ScriptSetup, H.ScanServed, Script.Sequential, H.ScriptJobs, S.GoodHuffJobs, S.RunHuffJobs,
         GoodLayout, ImageBlocks, ImageOf, Returned, Restored, SendsImage, Blocks;
    if forall i :: 0 <= i < |script| ==> H.ScanServed(ly, x, script, setups, c, w, i) {
      H.SequentialHuffmanIsLossless(ly, x, script, setups, c, w);
      RestoredReturned(ly, image, S.RunHuffJobs(ImageOf(ly, x), H.ScriptJobs(ly, x, script, setups, c, w),
                                                P.Zeroed(|x|)).blocks);
    }
  }

  /** The same for every complete progressive script. */
  lemma ProgressiveImageComesBack(ly: Layout, image: Image, script: seq<Script.ScanInfo>, setups: seq<Scan>,
                                  c: H.Choice)
    requires ImageBlocks(ly.f, image) && HuffmanSetup(ly, image, script, setups, c)
    requires Script.Progressive(script, |ly.f.comps|) && Completes(script, |ly.f.comps|)
    ensures SendsImage(ly, image, script, setups)
    ensures var x := Blocks(ly, image);
            && H.ProgressiveSetup(ly, x, script, setups, c)
            && ((forall i :: 0 <= i < |script| ==> H.PhuffServed(ly, x, script, setups, c, i)) ==>
                  && J.GoodJobs(ImageOf(ly, x), H.PhuffJobs(ly, x, script, setups, c))
                  && var r := J.RunJobs(ImageOf(ly, x), H.PhuffJobs(ly, x, script, setups, c), P.Zeroed(|x|));
                     r.Decoded? && Returned(ly, image, r.blocks))
  {
    SetupSuits(ly, image, script, setups, c);
    var x := Blocks(ly, image);
    assert GoodLayout(ly);
    hide HuffmanSetup, H.ScriptSetup, H.PhuffServed, Script.Progressive, H.PhuffJobs, J.GoodJobs, J.RunJobs, GoodLayout,
         ImageBlocks, ImageOf, Returned, Restored, SendsImage, Blocks, Completes;
    if forall i :: 0 <= i < |script| ==> H.PhuffServed(ly, x, script, setups, c, i) {
      H.ProgressiveHuffmanIsLossless(ly, x, script, setups, c);
      RestoredReturned(ly, image, J.RunJobs(ImageOf(ly, x), H.PhuffJobs(ly, x, script, setups, c),
                                            P.Zeroed(|x|)).blocks);
    }
  }
}
