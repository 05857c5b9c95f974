/** A whole image, from the script to the decoded blocks: for every frame of
    initial_setup, with any sampling factors, everything that the theorems about scripts
    ask for can be built from the frame, dummy blocks included, and with arithmetic coding
    the coefficients of all real blocks come back exactly. */
module LosslessImage {
  import opened Numbers
  import opened ProbabilityTable
  import opened Binarisation
  import opened AcBand
  import opened McuCoding
  import opened ScanCoding
  import opened Progression
  import G = McuGeometry
  import Script = ScanScript
  import SimpleProgression
  import SequentialImage

  // ---- The blocks of a frame ----

  /** A block of a component, by row and column. */
  datatype Spot = Spot(c: nat, row: nat, col: nat)

  /** A frame whose MCUs are `across` to a row, with its blocks, dummy blocks included,
      numbered in some way: `at` and `spot` are inverse to each other. */
  datatype Layout = Layout(f: G.Frame, across: nat, size: nat, at: Spot -> nat, spot: nat -> Spot)

  predicate InGrid(ly: Layout, s: Spot) {
    && s.c < |ly.f.comps| && s.row < ly.f.totalIMcuRows * ly.f.comps[s.c].v && s.col < ly.across * ly.f.comps[s.c].h
  }

  /** Not a dummy block. */
  predicate Real(ly: Layout, s: Spot) {
    s.c < |ly.f.comps| && s.row < ly.f.comps[s.c].heightInBlocks && s.col < ly.f.comps[s.c].widthInBlocks
  }

  ghost predicate GoodLayout(ly: Layout) {
    && (forall b: nat :: b < ly.size ==> InGrid(ly, ly.spot(b)) && ly.at(ly.spot(b)) == b)
    && (forall s :: InGrid(ly, s) ==> ly.at(s) < ly.size && ly.spot(ly.at(s)) == s)
    && (forall c :: 0 <= c < |ly.f.comps| ==> Roomy(ly, ly.f.comps[c]))
  }

  /** The grid has room for the component. */
  ghost predicate Roomy(ly: Layout, c: G.Component) {
    && c.h > 0 && c.v > 0 && c.widthInBlocks <= ly.across * c.h && c.heightInBlocks <= ly.f.totalIMcuRows * c.v
    && ly.across * c.h - c.h < c.widthInBlocks
  }

  /** Every frame of initial_setup has room. */
  lemma FrameRoomy(ly: Layout, width: nat, height: nat, sampling: seq<G.Sampling>, c: nat)
    requires G.GoodFrame(ly.f, width, height, sampling) && ly.across == G.DivRoundUp(width, ly.f.maxH * G.DCTSIZE)
             && c < |ly.f.comps|
    ensures Roomy(ly, ly.f.comps[c])
  {
    assert G.Sized(ly.f.comps[c], sampling[c], width, height, ly.f.maxH, ly.f.maxV);
    hide G.DivRoundUp;
    G.BlocksPerMcu(width, ly.f.comps[c].h, ly.f.maxH * G.DCTSIZE);
    G.BlocksPerMcu(height, ly.f.comps[c].v, ly.f.maxV * G.DCTSIZE);
  }

  lemma Divided(x: nat, h: nat, n: nat)
    requires h > 0 && x < n * h
    ensures x / h < n && x % h < h && x == x / h * h + x % h
  {
    if x / h >= n {
      MulMono(n, x / h, h);
    }
  }

  lemma Inside(a: nat, n: nat, y: nat, h: nat)
    requires a < n && y < h
    ensures a * h + y < n * h
  {
    MulMono(a + 1, n, h);
    Distribute(a, 1, h);
  }

  /** The blocks of the first n components. */
  function Before(f: G.Frame, across: nat, n: nat): (m: nat)
    requires n <= |f.comps|
  {
    if n == 0 then 0 else Before(f, across, n - 1) + Area(f, across, n - 1)
  }

  function Area(f: G.Frame, across: nat, c: nat): (m: nat)
    requires c < |f.comps|
  {
    MulMono(0, across, f.comps[c].h);
    MulMono(0, f.totalIMcuRows, f.comps[c].v);
    MulMono(0, f.totalIMcuRows * f.comps[c].v, across * f.comps[c].h);
    (f.totalIMcuRows * f.comps[c].v) * (across * f.comps[c].h)
  }

  /** Component after component, and row after row. */
  function NumberOf(f: G.Frame, across: nat, s: Spot): (b: nat)
    requires s.c < |f.comps|
  {
    MulMono(0, across, f.comps[s.c].h);
    MulMono(0, s.row, across * f.comps[s.c].h);
    Before(f, across, s.c) + (s.row * (across * f.comps[s.c].h) + s.col)
  }

  function SpotAt(f: G.Frame, across: nat, n: nat, b: nat): (s: Spot)
    requires n <= |f.comps|
  {
    if n == 0 then Spot(0, 0, 0)
    else if b < Before(f, across, n - 1) then SpotAt(f, across, n - 1, b)
    else CellSpot(n - 1, across * f.comps[n - 1].h, b - Before(f, across, n - 1))
  }

  function CellSpot(c: nat, w: int, k: nat): (s: Spot) {
    if w <= 0 then Spot(c, 0, 0) else Spot(c, k / w, k % w)
  }

  lemma {:induction false} SpotIsBack(ly: Layout, n: nat, b: nat)
    requires n <= |ly.f.comps| && b < Before(ly.f, ly.across, n)
    ensures var s := SpotAt(ly.f, ly.across, n, b);
            s.c < n && InGrid(ly, s) && NumberOf(ly.f, ly.across, s) == b
    decreases n
  {
    var m := Before(ly.f, ly.across, n - 1);
    if b < m {
      SpotIsBack(ly, n - 1, b);
    } else {
      var w, h := ly.across * ly.f.comps[n - 1].h, ly.f.totalIMcuRows * ly.f.comps[n - 1].v;
      MulMono(0, ly.across, ly.f.comps[n - 1].h);
      MulMono(0, ly.f.totalIMcuRows, ly.f.comps[n - 1].v);
      Divided(b - m, w, h);
    }
  }

  lemma NumberInside(ly: Layout, s: Spot)
    requires InGrid(ly, s)
    ensures Before(ly.f, ly.across, s.c) <= NumberOf(ly.f, ly.across, s) < Before(ly.f, ly.across, s.c + 1)
  {
    Inside(s.row, ly.f.totalIMcuRows * ly.f.comps[s.c].v, s.col, ly.across * ly.f.comps[s.c].h);
    MulMono(0, s.row, ly.across * ly.f.comps[s.c].h);
  }

  lemma {:induction false} NumberIsBack(ly: Layout, n: nat, s: Spot)
    requires InGrid(ly, s) && s.c < n <= |ly.f.comps|
    ensures NumberOf(ly.f, ly.across, s) < Before(ly.f, ly.across, n)
    ensures SpotAt(ly.f, ly.across, n, NumberOf(ly.f, ly.across, s)) == s
    decreases n
  {
    NumberInside(ly, s);
    if s.c < n - 1 {
      NumberIsBack(ly, n - 1, s);
    } else {
      var w := ly.across * ly.f.comps[s.c].h;
      DivModUnique(s.row * w + s.col, w, s.row, s.col);
    }
  }

  /** The blocks of every frame of initial_setup can be numbered. */
  lemma FrameNumbered(f: G.Frame, width: nat, height: nat, sampling: seq<G.Sampling>) returns (ly: Layout)
    requires G.GoodFrame(f, width, height, sampling)
    ensures GoodLayout(ly) && ly.f == f && ly.across == G.DivRoundUp(width, f.maxH * G.DCTSIZE)
  {
    var across := G.DivRoundUp(width, f.maxH * G.DCTSIZE);
    ly := Layout(f, across, Before(f, across, |f.comps|),
                 (s: Spot) => if s.c < |f.comps| then NumberOf(f, across, s) else 0,
                 (b: nat) => SpotAt(f, across, |f.comps|, b));
    forall c | 0 <= c < |f.comps| ensures Roomy(ly, f.comps[c]) {
      FrameRoomy(ly, width, height, sampling, c);
    }
    hide G.GoodFrame, SpotAt, NumberOf, Before, InGrid, Roomy, G.DivRoundUp;
    forall b: nat | b < ly.size ensures InGrid(ly, ly.spot(b)) && ly.at(ly.spot(b)) == b {
      SpotIsBack(ly, |f.comps|, b);
    }
    forall s | InGrid(ly, s) ensures ly.at(s) < ly.size && ly.spot(ly.at(s)) == s {
      GridComponent(ly, s);
      NumberIsBack(ly, |f.comps|, s);
    }
  }

  lemma GridComponent(ly: Layout, s: Spot)
    requires InGrid(ly, s)
    ensures s.c < |ly.f.comps|
  {
  }

  function CompOf(ly: Layout, b: nat): (c: nat) { ly.spot(b).c }

  function ImageOf(ly: Layout, x: seq<Block>): (img: Image) {
    Image(x, seq(|x|, b requires 0 <= b < |x| => CompOf(ly, b)), set b: nat | b < |x| && Real(ly, ly.spot(b)))
  }

  // ---- The order of a scan ----

  /** The place of a block inside an MCU. */
  datatype Slot = Slot(j: nat, y: nat, x: nat)

  function Cells(j: nat, w: nat, h: nat): (s: seq<Slot>)
    ensures |s| == w * h
  {
    MulMono(0, w, h);
    seq(w * h, k requires 0 <= k < w * h => CellAt(j, w, k))
  }

  function CellAt(j: nat, w: nat, k: nat): (s: Slot) {
    if w == 0 then Slot(j, 0, 0) else Slot(j, k / w, k % w)
  }

  lemma CellInside(j: nat, w: nat, h: nat, k: nat)
    requires k < w * h
    ensures w > 0 && CellAt(j, w, k).y < h && CellAt(j, w, k).x < w && k == CellAt(j, w, k).y * w + CellAt(j, w, k).x
  {
    assert w > 0;
    assert k == w * (k / w) + k % w;
    if k / w >= h {
      MulMono(h, k / w, w);
    }
  }

  lemma CellOf(j: nat, w: nat, h: nat, y: nat, x: nat)
    requires y < h && x < w
    ensures y * w + x < w * h && y * w + x >= 0 && CellAt(j, w, y * w + x) == Slot(j, y, x)
  {
    MulMono(y + 1, h, w);
    MulMono(0, y, w);
    Distribute(y, 1, w);
    DivModUnique(y * w + x, w, y, x);
  }

  /** MCU_membership, with the place of each block. */
  function Slots(comps: seq<G.ScanComp>, n: nat): (s: seq<Slot>)
    requires n <= |comps|
  {
    if n == 0 then [] else Slots(comps, n - 1) + Cells(n - 1, comps[n - 1].width, comps[n - 1].height)
  }

  lemma {:induction false} SlotsAre(comps: seq<G.ScanComp>, n: nat, i: nat)
    requires n <= |comps| && i < |Slots(comps, n)|
    ensures var s := Slots(comps, n)[i];
            s.j < n && s.y < comps[s.j].height && s.x < comps[s.j].width
    decreases n
  {
    hide Cells;
    var m := |Slots(comps, n - 1)|;
    if i < m {
      SlotsAre(comps, n - 1, i);
    } else {
      CellInside(n - 1, comps[n - 1].width, comps[n - 1].height, i - m);
      CellsAt(n - 1, comps[n - 1].width, comps[n - 1].height, i - m);
    }
  }

  lemma CellsAt(j: nat, w: nat, h: nat, k: nat)
    requires k < w * h
    ensures Cells(j, w, h)[k] == CellAt(j, w, k)
  {
  }

  /** Different blocks of an MCU have different places. */
  lemma {:induction false} SlotsDiffer(comps: seq<G.ScanComp>, n: nat, i: nat, k: nat)
    requires n <= |comps| && i < k < |Slots(comps, n)|
    ensures Slots(comps, n)[i] != Slots(comps, n)[k]
    decreases n
  {
    hide Cells;
    var m, w, h := |Slots(comps, n - 1)|, comps[n - 1].width, comps[n - 1].height;
    if k < m {
      SlotsDiffer(comps, n - 1, i, k);
    } else {
      CellsAt(n - 1, w, h, k - m);
      CellInside(n - 1, w, h, k - m);
      if i < m {
        SlotsAre(comps, n - 1, i);
      } else {
        CellsAt(n - 1, w, h, i - m);
        CellInside(n - 1, w, h, i - m);
      }
    }
  }

  /** Every place is there. */
  lemma {:induction false} FindSlot(comps: seq<G.ScanComp>, n: nat, s: Slot) returns (i: nat)
    requires n <= |comps| && s.j < n && s.y < comps[s.j].height && s.x < comps[s.j].width
    ensures i < |Slots(comps, n)| && Slots(comps, n)[i] == s
    decreases n
  {
    hide Cells;
    if s.j < n - 1 {
      i := FindSlot(comps, n - 1, s);
    } else {
      CellOf(n - 1, comps[n - 1].width, comps[n - 1].height, s.y, s.x);
      CellsAt(n - 1, comps[n - 1].width, comps[n - 1].height, s.y * comps[n - 1].width + s.x);
      i := |Slots(comps, n - 1)| + (s.y * comps[n - 1].width + s.x);
    }
  }

  lemma {:induction false} SlotsAreMembers(comps: seq<G.ScanComp>, n: nat)
    requires n <= |comps|
    ensures |Slots(comps, n)| == |G.Membership(comps, n)|
    ensures forall i :: 0 <= i < |Slots(comps, n)| ==> Slots(comps, n)[i].j == G.Membership(comps, n)[i]
    decreases n
  {
    if n > 0 {
      SlotsAreMembers(comps, n - 1);
      CellsMembers(n - 1, comps[n - 1].width, comps[n - 1].height);
      hide Cells, G.Copies;
    }
  }

  lemma CellsMembers(j: nat, w: nat, h: nat)
    ensures w * h >= 0 && |G.Copies(w * h, j)| == |Cells(j, w, h)|
    ensures forall k :: 0 <= k < |Cells(j, w, h)| ==> Cells(j, w, h)[k].j == G.Copies(w * h, j)[k]
  {
    MulMono(0, w, h);
  }

  /** What per_scan_setup makes of a script entry. */
  ghost predicate GoodSetup(ly: Layout, info: Script.ScanInfo, s: G.Scan) {
    && Script.GoodComps(info, |ly.f.comps|) && G.GoodScan(ly.f, Sel(info), s)
  }

  function Sel(info: Script.ScanInfo): (sel: seq<nat>) {
    seq(|info.comps|, j requires 0 <= j < |info.comps| => Abs(info.comps[j]))
  }

  /** The MCU rows of the scan. */
  function McuRows(ly: Layout, s: G.Scan): (n: nat) {
    if |s.comps| == 1 && s.comps[0].index < |ly.f.comps| then ly.f.comps[s.comps[0].index].heightInBlocks
      else s.totalIMcuRows
  }

  /** The spot that slot t of the MCU in row my, column mx stands for. */
  function SpotOf(s: G.Scan, my: nat, mx: nat, t: Slot): (p: Spot)
    requires t.j < |s.comps|
  {
    var sc := s.comps[t.j];
    MulMono(0, my, sc.height);
    MulMono(0, mx, sc.width);
    Spot(sc.index, my * sc.height + t.y, mx * sc.width + t.x)
  }

  function SlotSpot(s: G.Scan, my: nat, mx: nat, j: nat): (p: Spot)
    requires j < |Slots(s.comps, |s.comps|)|
  {
    SlotsAre(s.comps, |s.comps|, j);
    SpotOf(s, my, mx, Slots(s.comps, |s.comps|)[j])
  }

  function McuSpots(s: G.Scan, my: nat, mx: nat): (r: seq<Spot>) {
    seq(|Slots(s.comps, |s.comps|)|, j requires 0 <= j < |Slots(s.comps, |s.comps|)| => SlotSpot(s, my, mx, j))
  }

  /** The numbers of the blocks of each MCU, from left to right and from top to bottom. */
  function OrderOf(ly: Layout, s: G.Scan): (order: seq<seq<nat>>) {
    var rows := McuRows(ly, s);
    MulMono(0, rows, s.mcusPerRow);
    seq(rows * s.mcusPerRow, i requires 0 <= i < rows * s.mcusPerRow =>
      if s.mcusPerRow == 0 then [] else McuIds(ly, s, i / s.mcusPerRow, i % s.mcusPerRow))
  }

  function McuIds(ly: Layout, s: G.Scan, my: nat, mx: nat): (ids: seq<nat>) {
    Ids(ly, McuSpots(s, my, mx))
  }

  function Ids(ly: Layout, r: seq<Spot>): (ids: seq<nat>) {
    seq(|r|, j requires 0 <= j < |r| => IdOf(ly, r[j]))
  }

  function IdOf(ly: Layout, s: Spot): (n: nat) { ly.at(s) }

  lemma OrderAt(ly: Layout, s: G.Scan, i: nat, j: nat) returns (my: nat, mx: nat)
    requires i < |OrderOf(ly, s)| && j < |OrderOf(ly, s)[i]| && s.mcusPerRow > 0
    ensures my < McuRows(ly, s) && mx < s.mcusPerRow && i == my * s.mcusPerRow + mx
    ensures |OrderOf(ly, s)[i]| == |Slots(s.comps, |s.comps|)| && Slots(s.comps, |s.comps|)[j].j < |s.comps|
    ensures OrderOf(ly, s)[i][j] == ly.at(SpotOf(s, my, mx, Slots(s.comps, |s.comps|)[j]))
  {
    hide Slots, SpotOf, McuRows, McuIds;
    my, mx := i / s.mcusPerRow, i % s.mcusPerRow;
    Divided(i, s.mcusPerRow, McuRows(ly, s));
    assert OrderOf(ly, s)[i] == McuIds(ly, s, my, mx);
    hide OrderOf;
    McuIdsAt(ly, s, my, mx, j);
  }

  lemma McuIdsAt(ly: Layout, s: G.Scan, my: nat, mx: nat, j: nat)
    requires j < |McuIds(ly, s, my, mx)|
    ensures |McuIds(ly, s, my, mx)| == |Slots(s.comps, |s.comps|)| && Slots(s.comps, |s.comps|)[j].j < |s.comps|
    ensures McuIds(ly, s, my, mx)[j] == ly.at(SpotOf(s, my, mx, Slots(s.comps, |s.comps|)[j]))
  {
    hide Slots, SpotOf;
    assert |McuSpots(s, my, mx)| == |Slots(s.comps, |s.comps|)|;
    SlotsAre(s.comps, |s.comps|, j);
  }

  /** The MCU columns of an interleaved scan are those of the frame. */
  lemma SameColumns(h: nat, b: nat, m: nat, last: nat, q: nat)
    requires h > 0 && 1 <= last <= h && m > 0 && m * h - h + last == b && b <= q * h && q * h - h < b
    ensures m == q
  {
    Distribute(m, -1, h);
    Distribute(q, -1, h);
    G.CancelLess(m - 1, q, h);
    if m < q {
      MulMono(m, q - 1, h);
    }
  }

  /** A spot of a scan lies in the grid; in a scan of one component it is real. */
  lemma SpotInGrid(ly: Layout, info: Script.ScanInfo, s: G.Scan, my: nat, mx: nat, t: Slot)
    requires GoodLayout(ly) && GoodSetup(ly, info, s) && my < McuRows(ly, s) && mx < s.mcusPerRow
    requires t.j < |s.comps| && t.y < s.comps[t.j].height && t.x < s.comps[t.j].width
    ensures InGrid(ly, SpotOf(s, my, mx, t)) && SpotOf(s, my, mx, t).c == info.comps[t.j]
    ensures |s.comps| == 1 ==> Real(ly, SpotOf(s, my, mx, t))
  {
    var sc := s.comps[t.j];
    var c := ly.f.comps[sc.index];
    assert G.Tiles(s, sc, ly.f.comps[Sel(info)[t.j]]);
    assert Roomy(ly, c);
    if |s.comps| == 1 {
      assert my * 1 == my && mx * 1 == mx;
    } else {
      assert G.FullSize(sc, ly.f.comps[Sel(info)[t.j]]);
      SameColumns(c.h, c.widthInBlocks, s.mcusPerRow, sc.lastColWidth, ly.across);
      Inside(my, ly.f.totalIMcuRows, t.y, c.v);
      Inside(mx, ly.across, t.x, c.h);
    }
  }

  lemma SameSpot(s: G.Scan, my: nat, mx: nat, t: Slot, my2: nat, mx2: nat, t2: Slot)
    requires t.j == t2.j < |s.comps| && t.y < s.comps[t.j].height && t.x < s.comps[t.j].width
    requires t2.y < s.comps[t.j].height && t2.x < s.comps[t.j].width
    requires SpotOf(s, my, mx, t) == SpotOf(s, my2, mx2, t2)
    ensures my == my2 && mx == mx2 && t == t2
  {
    var sc := s.comps[t.j];
    DivModUnique(my * sc.height + t.y, sc.height, my, t.y);
    DivModUnique(my * sc.height + t.y, sc.height, my2, t2.y);
    DivModUnique(mx * sc.width + t.x, sc.width, mx, t.x);
    DivModUnique(mx * sc.width + t.x, sc.width, mx2, t2.x);
  }

  lemma SamePlace(ly: Layout, info: Script.ScanInfo, s: G.Scan, i: nat, j: nat, i2: nat, j2: nat)
    requires GoodLayout(ly) && GoodSetup(ly, info, s) && s.mcusPerRow > 0
    requires var order := OrderOf(ly, s);
             i < |order| && j < |order[i]| && i2 < |order| && j2 < |order[i2]| && order[i][j] == order[i2][j2]
    ensures i == i2 && j == j2
  {
    var my, mx := OrderAt(ly, s, i, j);
    var my2, mx2 := OrderAt(ly, s, i2, j2);
    hide Slots, OrderOf, GoodLayout, GoodSetup, SpotOf, McuRows;
    SameSlot(ly, info, s, my, mx, j, my2, mx2, j2);
  }

  lemma SameSlot(ly: Layout, info: Script.ScanInfo, s: G.Scan, my: nat, mx: nat, j: nat, my2: nat, mx2: nat, j2: nat)
    requires GoodLayout(ly) && GoodSetup(ly, info, s)
    requires my < McuRows(ly, s) && mx < s.mcusPerRow && my2 < McuRows(ly, s) && mx2 < s.mcusPerRow
    requires var t := Slots(s.comps, |s.comps|);
             && j < |t| && j2 < |t| && t[j].j < |s.comps| && t[j2].j < |s.comps|
             && ly.at(SpotOf(s, my, mx, t[j])) == ly.at(SpotOf(s, my2, mx2, t[j2]))
    ensures my == my2 && mx == mx2 && j == j2
  {
    var t := Slots(s.comps, |s.comps|);
    SlotsAre(s.comps, |s.comps|, j);
    SlotsAre(s.comps, |s.comps|, j2);
    SetupShape(ly, info, s);
    hide Slots, GoodLayout, GoodSetup, SpotOf, McuRows, InGrid, Real;
    SpotInGrid(ly, info, s, my, mx, t[j]);
    SpotInGrid(ly, info, s, my2, mx2, t[j2]);
    SpotsDiffer(ly, SpotOf(s, my, mx, t[j]), SpotOf(s, my2, mx2, t[j2]));
    SameComponent(info, |ly.f.comps|, t[j].j, t[j2].j);
    SameSpot(s, my, mx, t[j], my2, mx2, t[j2]);
    if j < j2 {
      SlotsDiffer(s.comps, |s.comps|, j, j2);
    } else if j2 < j {
      SlotsDiffer(s.comps, |s.comps|, j2, j);
    }
  }

  lemma SetupShape(ly: Layout, info: Script.ScanInfo, s: G.Scan)
    requires GoodSetup(ly, info, s)
    ensures Script.GoodComps(info, |ly.f.comps|) && |s.comps| == |info.comps|
  {
  }

  lemma SpotsDiffer(ly: Layout, p: Spot, p2: Spot)
    requires GoodLayout(ly) && InGrid(ly, p) && InGrid(ly, p2) && ly.at(p) == ly.at(p2)
    ensures p == p2
  {
  }

  lemma SameComponent(info: Script.ScanInfo, n: nat, j: nat, j2: nat)
    requires Script.GoodComps(info, n) && j < |info.comps| && j2 < |info.comps| && info.comps[j] == info.comps[j2]
    ensures j == j2
  {
    if j < j2 {
      Script.IncreasingPair(info, n, j, j2);
    } else if j2 < j {
      Script.IncreasingPair(info, n, j2, j);
    }
  }

  /** Where in the scan a real block of one of its components comes. */
  lemma OrderVisits(ly: Layout, info: Script.ScanInfo, s: G.Scan, b: nat)
    requires GoodLayout(ly) && GoodSetup(ly, info, s) && b < ly.size && Real(ly, ly.spot(b))
             && ly.spot(b).c in info.comps
    ensures Visits(OrderOf(ly, s), b)
  {
    var p := ly.spot(b);
    var j0 :| 0 <= j0 < |info.comps| && info.comps[j0] == p.c;
    var sc, c := s.comps[j0], ly.f.comps[p.c];
    assert G.Tiles(s, sc, ly.f.comps[Sel(info)[j0]]);
    assert Roomy(ly, c);
    var my, mx, t;
    if |s.comps| == 1 {
      my, mx, t := p.row, p.col, Slot(0, 0, 0);
    } else {
      assert G.FullSize(sc, ly.f.comps[Sel(info)[j0]]);
      SameColumns(c.h, c.widthInBlocks, s.mcusPerRow, sc.lastColWidth, ly.across);
      Divided(p.row, c.v, ly.f.totalIMcuRows);
      Divided(p.col, c.h, ly.across);
      my, mx, t := p.row / c.v, p.col / c.h, Slot(j0, p.row % c.v, p.col % c.h);
    }
    hide GoodLayout, G.GoodScan, Slots;
    assert SpotOf(s, my, mx, t) == p;
    VisitedAt(ly, s, my, mx, t, b);
  }

  lemma VisitedAt(ly: Layout, s: G.Scan, my: nat, mx: nat, t: Slot, b: nat)
    requires my < McuRows(ly, s) && mx < s.mcusPerRow && t.j < |s.comps|
    requires t.y < s.comps[t.j].height && t.x < s.comps[t.j].width && ly.at(SpotOf(s, my, mx, t)) == b
    ensures Visits(OrderOf(ly, s), b)
  {
    var j := FindSlot(s.comps, |s.comps|, t);
    var m := s.mcusPerRow;
    Inside(my, McuRows(ly, s), mx, m);
    MulMono(0, my, m);
    var i := my * m + mx;
    DivModUnique(i, m, my, mx);
    assert |McuSpots(s, my, mx)| == |Slots(s.comps, |s.comps|)|;
    hide Slots, SpotOf, McuRows;
    assert OrderOf(ly, s)[i] == McuIds(ly, s, my, mx);
    assert OrderOf(ly, s)[i][j] == b;
  }

  // ---- Scans and jobs ----

  /** The table numbers of each component, and the conditioning values of each table. */
  datatype Tables = Tables(dc: seq<nat>, ac: seq<nat>, lower: seq<nat>, upper: seq<nat>, kx: seq<nat>)

  predicate GoodTables(t: Tables, n: nat) {
    && |t.dc| == |t.ac| == n && |t.lower| == |t.upper| == |t.kx| == NUM_ARITH_TBLS
    && forall c :: 0 <= c < n ==> t.dc[c] < NUM_ARITH_TBLS && t.ac[c] < NUM_ARITH_TBLS
  }

  predicate InFrame(info: Script.ScanInfo, n: nat) {
    (forall j :: 0 <= j < |info.comps| ==> 0 <= info.comps[j] < n) && info.ss >= 0 && info.se >= 0 && info.al >= 0
  }

  function ScanOf(info: Script.ScanInfo, s: G.Scan, t: Tables, n: nat): (sc: Scan)
    requires InFrame(info, n) && GoodTables(t, n)
  {
    Scan(KindOf(info), seq(|info.comps|, j requires 0 <= j < |info.comps| => t.dc[info.comps[j]]),
         seq(|info.comps|, j requires 0 <= j < |info.comps| => t.ac[info.comps[j]]),
         G.Membership(s.comps, |s.comps|), t.lower, t.upper, t.kx, info.ss, info.se, info.al)
  }

  /** What else belongs to the scans: restart interval, and what follows each of them. */
  datatype Rest = Rest(interval: nat, m: byte, tail: seq<byte>)

  function JobOf(ly: Layout, info: Script.ScanInfo, s: G.Scan, t: Tables, e: Rest): (job: Job)
    requires InFrame(info, |ly.f.comps|) && GoodTables(t, |ly.f.comps|)
  {
    Job(info, ScanOf(info, s, t, |ly.f.comps|), e.interval, OrderOf(ly, s), e.m, e.tail)
  }

  /** The band of a scan: AC coefficients of one component, or all of DC with or without
      AC. */
  predicate GoodSelection(info: Script.ScanInfo) {
    0 <= info.ss <= info.se < DCTSIZE2 && info.al >= 0 && (info.ss > 0 ==> |info.comps| == 1)
  }

  lemma ScanGood(ly: Layout, info: Script.ScanInfo, s: G.Scan, t: Tables)
    requires GoodSetup(ly, info, s) && InFrame(info, |ly.f.comps|) && GoodTables(t, |ly.f.comps|) && GoodSelection(info)
    ensures GoodScan(ScanOf(info, s, t, |ly.f.comps|)) && |s.comps| == |info.comps| && s.mcusPerRow > 0
  {
    var sc := ScanOf(info, s, t, |ly.f.comps|);
    SlotsAreMembers(s.comps, |s.comps|);
    forall i | 0 <= i < |sc.membership| ensures sc.membership[i] < |sc.dcTbl| {
      SlotsAre(s.comps, |s.comps|, i);
    }
    assert G.Tiles(s, s.comps[0], ly.f.comps[Sel(info)[0]]);
  }

  lemma OrderGood(ly: Layout, x: seq<Block>, info: Script.ScanInfo, s: G.Scan, t: Tables, e: Rest)
    requires GoodLayout(ly) && |x| == ly.size && GoodSetup(ly, info, s) && InFrame(info, |ly.f.comps|)
    requires GoodTables(t, |ly.f.comps|) && GoodSelection(info)
    ensures GoodImage(ImageOf(ly, x)) && GoodOrder(ImageOf(ly, x), JobOf(ly, info, s, t, e))
  {
    ScanGood(ly, info, s, t);
    var img, order := ImageOf(ly, x), OrderOf(ly, s);
    SlotsAreMembers(s.comps, |s.comps|);
    hide GoodLayout, GoodSetup, Slots, G.Membership, Script.GoodComps, GoodScan, SpotOf, McuRows;
    forall i | 0 <= i < |order| ensures |order[i]| == |G.Membership(s.comps, |s.comps|)| {
    }
    hide OrderOf;
    forall i, j | 0 <= i < |order| && 0 <= j < |order[i]|
      ensures order[i][j] < |img.x| && img.comp[order[i][j]] in info.comps
              && (info.ss > 0 ==> order[i][j] in img.inside)
    {
      PlaceGood(ly, x, info, s, i, j);
    }
    forall i, j, i2, j2 | 0 <= i < |order| && 0 <= j < |order[i]| && 0 <= i2 < |order| && 0 <= j2 < |order[i2]|
                          && order[i][j] == order[i2][j2]
      ensures i == i2 && j == j2
    {
      SamePlace(ly, info, s, i, j, i2, j2);
    }
    forall b | b in img.inside && img.comp[b] in info.comps ensures Visits(order, b) {
      OrderVisits(ly, info, s, b);
    }
  }

  lemma PlaceGood(ly: Layout, x: seq<Block>, info: Script.ScanInfo, s: G.Scan, i: nat, j: nat)
    requires GoodLayout(ly) && |x| == ly.size && GoodSetup(ly, info, s) && s.mcusPerRow > 0 && GoodSelection(info)
    requires |s.comps| == |info.comps| && i < |OrderOf(ly, s)| && j < |OrderOf(ly, s)[i]|
    ensures var b, img := OrderOf(ly, s)[i][j], ImageOf(ly, x);
            b < |img.x| && img.comp[b] in info.comps && (info.ss > 0 ==> b in img.inside)
  {
    var my, mx := OrderAt(ly, s, i, j);
    SlotsAre(s.comps, |s.comps|, j);
    hide Slots, OrderOf, G.GoodScan, SpotOf, McuRows;
    var t := Slots(s.comps, |s.comps|)[j];
    SpotInGrid(ly, info, s, my, mx, t);
    var p := SpotOf(s, my, mx, t);
    assert ly.at(p) < ly.size && ly.spot(ly.at(p)) == p;
    assert p.c == info.comps[t.j];
  }

  predicate SmallBlocks(x: seq<Block>) {
    forall b, k :: 0 <= b < |x| && 0 <= k < DCTSIZE2 ==> Abs(x[b][k]) <= 0x4000
  }

  lemma GatheredSmall(x: seq<Block>, order: seq<seq<nat>>)
    requires SmallBlocks(x) && forall i, j :: 0 <= i < |order| && 0 <= j < |order[i]| ==> order[i][j] < |x|
    ensures Small(Gather(x, order))
  {
  }

  lemma JobGood(ly: Layout, x: seq<Block>, info: Script.ScanInfo, s: G.Scan, t: Tables, e: Rest)
    requires GoodLayout(ly) && |x| == ly.size && GoodSetup(ly, info, s) && InFrame(info, |ly.f.comps|)
    requires GoodTables(t, |ly.f.comps|) && GoodSelection(info) && e.m != 0 && e.m != 0xFF && SmallBlocks(x)
    ensures var img, job := ImageOf(ly, x), JobOf(ly, info, s, t, e);
            GoodImage(img) && GoodJob(img, job) && CodableJob(img, job)
  {
    var img, job := ImageOf(ly, x), JobOf(ly, info, s, t, e);
    OrderGood(ly, x, info, s, t, e);
    ScanGood(ly, info, s, t);
    hide OrderOf, Distinct, Visits, CodableFrom, GoodLayout, GoodSetup, GoodScan, G.Membership;
    GatheredSmall(x, job.order);
    hide SmallBlocks;
    ShapeOf(img, job);
    SmallIsCodable(job.sc, e.interval, ZeroPred(job.sc), e.interval, Gather(x, job.order));
  }

  lemma ShapeOf(img: Image, job: Job)
    requires GoodImage(img) && GoodScan(job.sc) && GoodOrder(img, job)
    ensures GoodPred(job.sc, ZeroPred(job.sc)) && SmallPred(ZeroPred(job.sc))
            && ShapedMcus(job.sc, Gather(img.x, job.order))
  {
    hide Distinct, Visits;
  }

  // ---- Scripts ----

  /** The script, with what per_scan_setup makes of each of its entries. */
  ghost predicate GoodSetups(ly: Layout, script: seq<Script.ScanInfo>, setups: seq<G.Scan>) {
    |setups| == |script| && forall i :: 0 <= i < |script| ==>
      GoodSetup(ly, script[i], setups[i]) && InFrame(script[i], |ly.f.comps|)
  }

  ghost function JobsOf(ly: Layout, script: seq<Script.ScanInfo>, setups: seq<G.Scan>, t: Tables,
                        e: Rest): (jobs: seq<Job>)
    requires GoodTables(t, |ly.f.comps|) && GoodSetups(ly, script, setups)
  {
    seq(|script|, i requires 0 <= i < |script| => JobOf(ly, script[i], setups[i], t, e))
  }

  predicate GoodSelections(script: seq<Script.ScanInfo>) {
    forall i :: 0 <= i < |script| ==> GoodSelection(script[i])
  }

  lemma LegalSelections(script: seq<Script.ScanInfo>, n: nat)
    requires Script.Progressive(script, n) || Script.Sequential(script, n)
    ensures GoodSelections(script)
  {
    forall i | 0 <= i < |script| ensures GoodSelection(script[i]) {
      if Script.Progressive(script, n) {
        assert Script.GoodProgressive(script, i, n);
      } else {
        assert Script.GoodSequential(script, i, n);
      }
    }
  }

  lemma JobsGood(ly: Layout, x: seq<Block>, script: seq<Script.ScanInfo>, setups: seq<G.Scan>, t: Tables, e: Rest)
    requires GoodLayout(ly) && |x| == ly.size && GoodTables(t, |ly.f.comps|) && GoodSetups(ly, script, setups)
    requires GoodSelections(script) && e.m != 0 && e.m != 0xFF && SmallBlocks(x)
    ensures var jobs := JobsOf(ly, script, setups, t, e);
            GoodJobs(ImageOf(ly, x), jobs) && Infos(jobs) == script
  {
    var img, jobs := ImageOf(ly, x), JobsOf(ly, script, setups, t, e);
    EmptyGood(ly, x);
    hide SmallBlocks, GoodTables, GoodSetup, GoodLayout, GoodJob, CodableJob, GoodImage, GoodSelection, ImageOf;
    forall i | 0 <= i < |jobs| ensures GoodJob(img, jobs[i]) && CodableJob(img, jobs[i]) {
      JobGood(ly, x, script[i], setups[i], t, e);
    }
    assert Infos(jobs) == script;
  }

  lemma EmptyGood(ly: Layout, x: seq<Block>)
    ensures GoodImage(ImageOf(ly, x))
  {
  }

  /** Every coefficient of every real block. */
  ghost predicate Restored(ly: Layout, x: seq<Block>, blocks: seq<Block>) {
    |blocks| == |x| && forall b :: 0 <= b < |x| && Real(ly, ly.spot(b)) ==> blocks[b] == x[b]
  }

  /** The script sends every coefficient of every component completely. */
  ghost predicate Completes(script: seq<Script.ScanInfo>, n: nat) {
    forall c, k :: 0 <= c < n && 0 <= k < DCTSIZE2 ==> Script.LastPos(script, c, k) == 0
  }

  lemma SentRestores(ly: Layout, x: seq<Block>, blocks: seq<Block>)
    requires |blocks| == |x|
    requires var img := ImageOf(ly, x);
             forall b :: b in img.inside && img.comp[b] < |ly.f.comps| ==> blocks[b] == x[b]
    ensures Restored(ly, x, blocks)
  {
    var img := ImageOf(ly, x);
    forall b | 0 <= b < |x| && Real(ly, ly.spot(b)) ensures blocks[b] == x[b] {
      assert b in img.inside && img.comp[b] == ly.spot(b).c;
    }
  }

  lemma CompletesRestore(ly: Layout, x: seq<Block>, script: seq<Script.ScanInfo>, blocks: seq<Block>)
    requires |blocks| == |x| && Completes(script, |ly.f.comps|)
    requires var img := ImageOf(ly, x);
             forall b, k :: b in img.inside && 0 <= k < DCTSIZE2 ==>
               (Script.LastPos(script, img.comp[b], k) == 0 ==> blocks[b][k] == x[b][k])
    ensures Restored(ly, x, blocks)
  {
    hide Script.LastPos;
    var img := ImageOf(ly, x);
    forall b | 0 <= b < |x| && Real(ly, ly.spot(b)) ensures blocks[b] == x[b] {
      forall k | 0 <= k < DCTSIZE2 ensures blocks[b][k] == x[b][k] {
        assert b in img.inside && img.comp[b] == ly.spot(b).c;
      }
    }
  }

  /** For every legal script that ends with Al = 0, every frame with any sampling factors
      and sizes, every numbering of its blocks, restart interval, choice of tables and
      conditioning values, and all coefficients of at most 14 bits: coding the image
      arithmetically and decoding the scans gives back every coefficient of every real
      block. */
  lemma CompleteScriptIsLossless(ly: Layout, x: seq<Block>, script: seq<Script.ScanInfo>, setups: seq<G.Scan>,
                                 t: Tables, e: Rest, tab: seq<nat>, stats: seq<byte>)
    requires GoodLayout(ly) && |x| == ly.size && GoodTables(t, |ly.f.comps|) && GoodSetups(ly, script, setups)
    requires Script.Progressive(script, |ly.f.comps|) && Completes(script, |ly.f.comps|)
    requires e.m != 0 && e.m != 0xFF && SmallBlocks(x)
    requires ValidTable(tab) && |tab| > 0 && ValidStats(tab, stats) && |stats| == BINS
    ensures GoodJobs(ImageOf(ly, x), JobsOf(ly, script, setups, t, e))
    ensures var r := RunJobs(tab, stats, stats, ImageOf(ly, x), JobsOf(ly, script, setups, t, e), Zeroed(|x|));
            r.Decoded? && Restored(ly, x, r.blocks)
  {
    LegalSelections(script, |ly.f.comps|);
    JobsGood(ly, x, script, setups, t, e);
    hide SmallBlocks, GoodTables, ValidTable, ValidStats, Script.Progressive, JobsOf, GoodJobs, RunJobs, GoodSetups;
    var img, jobs := ImageOf(ly, x), JobsOf(ly, script, setups, t, e);
    SuccessiveApproximation(tab, stats, img, jobs, |ly.f.comps|);
    hide ImageOf, GoodLayout, Restored, Completes, Approx, Script.LastPos;
    CompletesRestore(ly, x, script, RunJobs(tab, stats, stats, img, jobs, Zeroed(|x|)).blocks);
  }

  /** The same for every script that is not progressive. */
  lemma SequentialScriptIsLossless(ly: Layout, x: seq<Block>, script: seq<Script.ScanInfo>, setups: seq<G.Scan>,
                                   t: Tables, e: Rest, tab: seq<nat>, stats: seq<byte>)
    requires GoodLayout(ly) && |x| == ly.size && GoodTables(t, |ly.f.comps|) && GoodSetups(ly, script, setups)
    requires Script.Sequential(script, |ly.f.comps|) && e.m != 0 && e.m != 0xFF && SmallBlocks(x)
    requires ValidTable(tab) && |tab| > 0 && ValidStats(tab, stats) && |stats| == BINS
    ensures GoodJobs(ImageOf(ly, x), JobsOf(ly, script, setups, t, e))
    ensures var r := RunJobs(tab, stats, stats, ImageOf(ly, x), JobsOf(ly, script, setups, t, e), Zeroed(|x|));
            r.Decoded? && Restored(ly, x, r.blocks)
  {
    LegalSelections(script, |ly.f.comps|);
    JobsGood(ly, x, script, setups, t, e);
    hide SmallBlocks, GoodTables, ValidTable, ValidStats, Script.Sequential, JobsOf, GoodJobs, RunJobs, GoodSetups;
    var img, jobs := ImageOf(ly, x), JobsOf(ly, script, setups, t, e);
    SequentialImage.SequentialExact(tab, stats, img, jobs, |ly.f.comps|);
    hide ImageOf, GoodLayout, Restored;
    SentRestores(ly, x, RunJobs(tab, stats, stats, img, jobs, Zeroed(|x|)).blocks);
  }

  /** In particular with the script of jpeg_simple_progression and the table of the
      repository. */
  lemma RecommendedScriptIsLossless(ly: Layout, x: seq<Block>, ycc: bool, setups: seq<G.Scan>, t: Tables, e: Rest,
                                    stats: seq<byte>)
    requires |ly.f.comps| > 0 && GoodLayout(ly) && |x| == ly.size && GoodTables(t, |ly.f.comps|)
    requires GoodSetups(ly, SimpleProgression.Script(|ly.f.comps|, ycc), setups)
    requires e.m != 0 && e.m != 0xFF && SmallBlocks(x) && ValidStats(JPEG_ARITAB, stats) && |stats| == BINS
    ensures ValidTable(JPEG_ARITAB) && |JPEG_ARITAB| > 0
    ensures var script := SimpleProgression.Script(|ly.f.comps|, ycc);
            && GoodJobs(ImageOf(ly, x), JobsOf(ly, script, setups, t, e))
            && var r := RunJobs(JPEG_ARITAB, stats, stats, ImageOf(ly, x), JobsOf(ly, script, setups, t, e),
                                Zeroed(|x|));
               r.Decoded? && Restored(ly, x, r.blocks)
  {
    AritabValid();
    SimpleProgression.ScriptLegal(|ly.f.comps|, ycc);
    hide SmallBlocks, GoodTables, ValidTable, ValidStats, Script.Progressive, JobsOf, GoodJobs, RunJobs,
         SimpleProgression.Script, GoodSetups, GoodLayout, Real;
    CompleteScriptIsLossless(ly, x, SimpleProgression.Script(|ly.f.comps|, ycc), setups, t, e, JPEG_ARITAB, stats);
  }
}
