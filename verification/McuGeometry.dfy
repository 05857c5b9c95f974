/** Image and scan geometry: initial_setup and per_scan_setup of jcmaster.c. */
module McuGeometry {
  import opened Numbers

  const DCTSIZE := 8
  const JPEG_MAX_DIMENSION := 65500
  const MAX_COMPONENTS := 10
  const MAX_SAMP_FACTOR := 4
  const C_MAX_BLOCKS_IN_MCU := 10

  // ---- Rounding up ----

  /** jdiv_round_up. */
  function DivRoundUp(a: nat, b: nat): (q: nat)
    requires b > 0
  {
    (a + b - 1) / b
  }

  /** The size of the last, possibly incomplete, portion when b is cut into portions
      of h. */
  function LastPart(b: nat, h: nat): (r: nat)
    requires h > 0
  {
    if b % h == 0 then h else b % h
  }

  lemma RoundUpBounds(a: nat, b: nat)
    requires b > 0
    ensures var q := DivRoundUp(a, b); q * b - b < a <= q * b
  {
    var q := (a + b - 1) / b;
    assert a + b - 1 == b * q + (a + b - 1) % b;
  }

  /** jround_up. */
  function RoundUp(a: nat, b: nat): (r: nat)
    requires b > 0
  {
    a + b - 1 - (a + b - 1) % b
  }

  lemma RoundUpIs(a: nat, b: nat, q: nat)
    requires b > 0 && q * b - b < a <= q * b
    ensures RoundUp(a, b) == q * b
  {
    DivModUnique(a + b - 1, b, q, a + b - 1 - q * b);
  }

  lemma CancelLess(x: int, y: int, p: nat)
    requires x * p < y * p
    ensures x < y
  {
    if x >= y {
      MulMono(y, x, p);
    }
  }

  lemma LastPartIs(b: nat, h: nat, q: nat)
    requires h > 0 && q * h - h < b <= q * h
    ensures 1 <= LastPart(b, h) <= h && b == q * h - h + LastPart(b, h)
  {
    if b == q * h {
      DivModUnique(b, h, q, 0);
    } else {
      Distribute(q - 1, 1, h);
      DivModUnique(b, h, q - 1, b - (q * h - h));
    }
  }

  /** A component with sampling factor s, in an image whose MCUs measure d samples,
      has its blocks spread over as many MCUs as the image: the last MCU has at least
      one real block of the component and at most s. */
  lemma BlocksPerMcu(size: nat, s: nat, d: nat)
    requires size > 0 && s > 0 && d > 0
    ensures var q, b := DivRoundUp(size, d), DivRoundUp(size * s, d);
            q > 0 && q * s - s < b <= q * s && RoundUp(b, s) == q * s
  {
    var q, b := DivRoundUp(size, d), DivRoundUp(size * s, d);
    RoundUpBounds(size, d);
    RoundUpBounds(size * s, d);
    hide DivRoundUp;
    assert size * s <= q * s * d by {
      MulMono(size, q * d, s);
      MulAssoc(q, d, s);
      MulAssoc(q, s, d);
    }
    assert (q - 1) * s * d < size * s by {
      Distribute(q, -1, d);
      MulMono((q - 1) * d + 1, size, s);
      Distribute((q - 1) * d, 1, s);
      MulAssoc(q - 1, d, s);
      MulAssoc(q - 1, s, d);
    }
    Distribute(b, -1, d);
    CancelLess(b - 1, q * s, d);
    CancelLess((q - 1) * s, b, d);
    Distribute(q, -1, s);
    RoundUpIs(b, s, q);
  }

  // ---- The frame ----

  const BITS_IN_JSAMPLE := 8

  datatype Error = EmptyImage | ImageTooBig | WidthOverflow | BadPrecision | ComponentCount | BadSampling | BadMcuSize

  datatype Result<T> = Ok(value: T) | Err(error: Error)

  /** The sampling factors that the application sets. */
  datatype Sampling = Sampling(h: int, v: int)

  datatype Component = Component(h: nat, v: nat, widthInBlocks: nat, heightInBlocks: nat)

  datatype Frame = Frame(maxH: nat, maxV: nat, totalIMcuRows: nat, comps: seq<Component>)

  predicate GoodSampling(s: Sampling) {
    0 < s.h <= MAX_SAMP_FACTOR && 0 < s.v <= MAX_SAMP_FACTOR
  }

  predicate LegalFrame(width: int, height: int, inputComponents: int, precision: int, sampling: seq<Sampling>) {
    && precision == BITS_IN_JSAMPLE && 0 < width <= JPEG_MAX_DIMENSION && 0 < height <= JPEG_MAX_DIMENSION
    && 0 < inputComponents
    && width * inputComponents < 0x1_0000_0000 && 0 < |sampling| <= MAX_COMPONENTS
    && forall i :: 0 <= i < |sampling| ==> GoodSampling(sampling[i])
  }

  /** A component's size in blocks. */
  ghost predicate Sized(c: Component, s: Sampling, width: nat, height: nat, maxH: nat, maxV: nat)
    requires maxH > 0 && maxV > 0
  {
    && c.h == s.h > 0 && c.v == s.v > 0 && c.h <= maxH && c.v <= maxV
    && c.widthInBlocks == DivRoundUp(width * c.h, maxH * DCTSIZE)
    && c.heightInBlocks == DivRoundUp(height * c.v, maxV * DCTSIZE)
  }

  ghost predicate GoodFrame(f: Frame, width: nat, height: nat, sampling: seq<Sampling>) {
    && 0 < width && 0 < height && |f.comps| == |sampling| && 0 < f.maxH && 0 < f.maxV
    && f.totalIMcuRows == DivRoundUp(height, f.maxV * DCTSIZE)
    && (forall i :: 0 <= i < |f.comps| ==> Sized(f.comps[i], sampling[i], width, height, f.maxH, f.maxV))
    && Largest(sampling, f.maxH, f.maxV)
  }

  /** The largest sampling factors, and at least 1. */
  ghost predicate Largest(sampling: seq<Sampling>, maxH: nat, maxV: nat) {
    && (forall i :: 0 <= i < |sampling| ==> sampling[i].h <= maxH && sampling[i].v <= maxV)
    && (maxH == 1 || exists i :: 0 <= i < |sampling| && sampling[i].h == maxH)
    && (maxV == 1 || exists i :: 0 <= i < |sampling| && sampling[i].v == maxV)
  }

  /** "Compute maximum sampling factors; check factor validity". */
  method MaxFactors(sampling: seq<Sampling>) returns (ok: bool, maxH: nat, maxV: nat)
    ensures ok <==> forall i :: 0 <= i < |sampling| ==> GoodSampling(sampling[i])
    ensures 0 < maxH && 0 < maxV
    ensures ok ==> Largest(sampling, maxH, maxV)
  {
    maxH, maxV := 1, 1;
    for ci := 0 to |sampling|
      invariant 0 < maxH && 0 < maxV
      invariant forall i :: 0 <= i < ci ==> GoodSampling(sampling[i])
      invariant forall i :: 0 <= i < ci ==> sampling[i].h <= maxH && sampling[i].v <= maxV
      invariant maxH == 1 || exists i :: 0 <= i < ci && sampling[i].h == maxH
      invariant maxV == 1 || exists i :: 0 <= i < ci && sampling[i].v == maxV
    {
      var s := sampling[ci];
      if s.h <= 0 || s.h > MAX_SAMP_FACTOR || s.v <= 0 || s.v > MAX_SAMP_FACTOR {
        assert !GoodSampling(sampling[ci]);
        return false, maxH, maxV;
      }
      maxH := if s.h > maxH then s.h else maxH;
      maxV := if s.v > maxV then s.v else maxV;
    }
    ok := true;
  }

  /** initial_setup. */
  method InitialSetup(width: int, height: int, inputComponents: int, precision: int, sampling: seq<Sampling>)
    returns (r: Result<Frame>)
    ensures r.Ok? <==> LegalFrame(width, height, inputComponents, precision, sampling)
    ensures r.Ok? ==> GoodFrame(r.value, width, height, sampling)
  {
    if height <= 0 || width <= 0 || |sampling| <= 0 || inputComponents <= 0 {
      return Err(EmptyImage);
    }
    if height > JPEG_MAX_DIMENSION || width > JPEG_MAX_DIMENSION {
      return Err(ImageTooBig);
    }
    if width * inputComponents >= 0x1_0000_0000 {
      return Err(WidthOverflow);
    }
    if precision != BITS_IN_JSAMPLE {
      return Err(BadPrecision);
    }
    if |sampling| > MAX_COMPONENTS {
      return Err(ComponentCount);
    }
    var ok, maxH, maxV := MaxFactors(sampling);
    if !ok {
      return Err(BadSampling);
    }
    var comps := [];
    for ci := 0 to |sampling|
      invariant |comps| == ci
      invariant forall i :: 0 <= i < ci ==> Sized(comps[i], sampling[i], width, height, maxH, maxV)
    {
      comps := comps + [MakeComponent(sampling[ci], width, height, maxH, maxV)];
    }
    r := Ok(Frame(maxH, maxV, DivRoundUp(height, maxV * DCTSIZE), comps));
  }

  /** "Compute dimensions of components". */
  function MakeComponent(s: Sampling, width: nat, height: nat, maxH: nat, maxV: nat): (c: Component)
    requires 0 < s.h <= maxH && 0 < s.v <= maxV
    ensures Sized(c, s, width, height, maxH, maxV)
  {
    Component(s.h, s.v, DivRoundUp(width * s.h, maxH * DCTSIZE), DivRoundUp(height * s.v, maxV * DCTSIZE))
  }

  // ---- The scan ----

  /** A component of the current scan: its blocks in an MCU, and how many of them are
      real in the last column and row. */
  datatype ScanComp = ScanComp(index: nat, vSamp: nat, widthInBlocks: nat, width: nat, height: nat,
                               lastColWidth: nat, lastRowHeight: nat)

  datatype Scan = Scan(mcusPerRow: nat, totalIMcuRows: nat, comps: seq<ScanComp>)

  /** The number of blocks that an interleaved MCU of these components would have. */
  function McuBlocks(f: Frame, sel: seq<nat>): (n: nat)
    requires forall i :: 0 <= i < |sel| ==> sel[i] < |f.comps|
  {
    if sel == [] then 0
    else
      var last := f.comps[sel[|sel| - 1]];
      McuBlocks(f, sel[..|sel| - 1]) + last.h * last.v
  }

  /** The MCU columns cover the blocks of a component; all but the last are full. */
  ghost predicate Covers(s: Scan, sc: ScanComp) {
    && 0 < s.mcusPerRow && 0 < s.totalIMcuRows && 1 <= sc.lastColWidth <= sc.width
    && s.mcusPerRow * sc.width - sc.width + sc.lastColWidth == sc.widthInBlocks
    && 1 <= sc.lastRowHeight <= sc.vSamp
  }

  /** The MCUs of the scan cover exactly the blocks of component c. */
  ghost predicate Tiles(s: Scan, sc: ScanComp, c: Component) {
    && Covers(s, sc) && sc.vSamp == c.v && sc.widthInBlocks == c.widthInBlocks
    && s.totalIMcuRows * c.v - c.v + sc.lastRowHeight == c.heightInBlocks
  }

  /** What the controllers rely on. */
  ghost predicate ScanShape(s: Scan) {
    && s.comps != [] && 0 < s.mcusPerRow && 0 < s.totalIMcuRows
    && (forall k :: 0 <= k < |s.comps| ==> Covers(s, s.comps[k]))
    && (|s.comps| == 1 ==> s.comps[0].width == s.comps[0].height == 1)
    && (|s.comps| > 1 ==> forall k :: 0 <= k < |s.comps| ==> s.comps[k].height == s.comps[k].vSamp)
  }

  ghost predicate GoodScan(f: Frame, sel: seq<nat>, s: Scan) {
    && s.totalIMcuRows == f.totalIMcuRows && |s.comps| == |sel| > 0
    && (forall i :: 0 <= i < |sel| ==> sel[i] < |f.comps|)
    && (forall i :: 0 <= i < |sel| ==> s.comps[i].index == sel[i] && Tiles(s, s.comps[i], f.comps[sel[i]]))
    && (|sel| == 1 ==> s.comps[0].width == s.comps[0].height == 1)
    && (|sel| > 1 ==> forall i :: 0 <= i < |sel| ==> FullSize(s.comps[i], f.comps[sel[i]]))
  }

  predicate FullSize(sc: ScanComp, c: Component) {
    sc.width == c.h && sc.height == c.v
  }

  lemma GoodScanShape(f: Frame, sel: seq<nat>, s: Scan)
    requires GoodScan(f, sel, s)
    ensures ScanShape(s)
  {
    forall k | 0 <= k < |sel| ensures Covers(s, s.comps[k]) && (|sel| > 1 ==> s.comps[k].height == s.comps[k].vSamp) {
      assert Tiles(s, s.comps[k], f.comps[sel[k]]);
      assert |sel| > 1 ==> FullSize(s.comps[k], f.comps[sel[k]]);
    }
    assert Covers(s, s.comps[0]);
  }

  /** The blocks of a component that an MCU column really has. */
  lemma RealColumns(s: Scan, sc: ScanComp, x: nat)
    requires Covers(s, sc) && x < s.mcusPerRow
    ensures var count := if x + 1 < s.mcusPerRow then sc.width else sc.lastColWidth;
            if count < sc.width then x * sc.width + count == sc.widthInBlocks
            else x * sc.width + sc.width <= sc.widthInBlocks
  {
    MulMono(x + 1, if x + 1 < s.mcusPerRow then s.mcusPerRow - 1 else s.mcusPerRow, sc.width);
    Distribute(x, 1, sc.width);
    Distribute(s.mcusPerRow, -1, sc.width);
    if x + 1 == s.mcusPerRow {
      assert x * sc.width == s.mcusPerRow * sc.width - sc.width;
    }
  }

  lemma RowsTile(f: Frame, c: Component, s: Sampling, width: nat, height: nat)
    requires 0 < width && 0 < height && 0 < f.maxH && 0 < f.maxV && Sized(c, s, width, height, f.maxH, f.maxV)
    requires f.totalIMcuRows == DivRoundUp(height, f.maxV * DCTSIZE)
    ensures 0 < f.totalIMcuRows && 1 <= LastPart(c.heightInBlocks, c.v) <= c.v
    ensures f.totalIMcuRows * c.v - c.v + LastPart(c.heightInBlocks, c.v) == c.heightInBlocks
  {
    BlocksPerMcu(height, c.v, f.maxV * DCTSIZE);
    LastPartIs(c.heightInBlocks, c.v, f.totalIMcuRows);
  }

  lemma ColumnsTile(f: Frame, c: Component, s: Sampling, width: nat, height: nat)
    requires 0 < width && 0 < height && 0 < f.maxH && 0 < f.maxV && Sized(c, s, width, height, f.maxH, f.maxV)
    ensures var q := DivRoundUp(width, f.maxH * DCTSIZE);
            && 0 < q && 1 <= LastPart(c.widthInBlocks, c.h) <= c.h && 0 < c.widthInBlocks
            && q * c.h - c.h + LastPart(c.widthInBlocks, c.h) == c.widthInBlocks
  {
    BlocksPerMcu(width, c.h, f.maxH * DCTSIZE);
    LastPartIs(c.widthInBlocks, c.h, DivRoundUp(width, f.maxH * DCTSIZE));
    MulMono(1, DivRoundUp(width, f.maxH * DCTSIZE), c.h);
  }

  function Copies(n: nat, c: nat): (s: seq<nat>)
    ensures |s| == n
  {
    seq(n, i => c)
  }

  /** Which component of the scan each block of an MCU belongs to: the blocks of the first
      n components, one component after the other. */
  function Membership(comps: seq<ScanComp>, n: nat): (s: seq<nat>)
    requires n <= |comps|
  {
    if n == 0 then [] else Membership(comps, n - 1) + Copies(comps[n - 1].width * comps[n - 1].height, n - 1)
  }

  /** How many blocks of an MCU come before those of component n. */
  function BlocksBefore(comps: seq<ScanComp>, n: nat): (k: nat)
    requires n <= |comps|
  {
    if n == 0 then 0 else BlocksBefore(comps, n - 1) + comps[n - 1].width * comps[n - 1].height
  }

  lemma {:induction false} MembershipLength(comps: seq<ScanComp>, n: nat)
    requires n <= |comps|
    ensures |Membership(comps, n)| == BlocksBefore(comps, n)
    decreases n
  {
    if n > 0 {
      MembershipLength(comps, n - 1);
    }
  }

  /** MCU_membership names the components in the order of the scan, each for width times
      height blocks. */
  lemma {:induction false} MembershipAt(comps: seq<ScanComp>, n: nat, c: nat, j: nat)
    requires c < n <= |comps| && BlocksBefore(comps, c) <= j < BlocksBefore(comps, c + 1)
    ensures |Membership(comps, n)| == BlocksBefore(comps, n)
    ensures j < |Membership(comps, n)| && Membership(comps, n)[j] == c
    decreases n
  {
    MembershipLength(comps, n);
    MembershipLength(comps, n - 1);
    if c + 1 < n {
      MembershipAt(comps, n - 1, c, j);
    }
  }

  /** "Convert restart specified in rows to actual MCU count". */
  function RestartInterval(restartInRows: int, interval: nat, mcusPerRow: nat): (n: nat) {
    if restartInRows <= 0 then interval
    else
      MulMono(0, restartInRows, mcusPerRow);
      if restartInRows * mcusPerRow < 65535 then restartInRows * mcusPerRow else 65535
  }

  lemma RestartRows(restartInRows: int, interval: nat, mcusPerRow: nat)
    ensures var n := RestartInterval(restartInRows, interval, mcusPerRow);
            if restartInRows <= 0 then n == interval
            else n <= restartInRows * mcusPerRow && n <= 0xFFFF && (n == restartInRows * mcusPerRow || n == 0xFFFF)
  {
  }

  /** What per_scan_setup sets up besides the geometry of the components. */
  datatype ScanSetup = ScanSetup(scan: Scan, membership: seq<nat>, restartInterval: nat)

  /** per_scan_setup. */
  method PerScanSetup(f: Frame, sel: seq<nat>, width: nat, height: nat, restartInRows: int, interval: nat,
                      ghost sampling: seq<Sampling>) returns (r: Result<ScanSetup>)
    requires GoodFrame(f, width, height, sampling) && forall i :: 0 <= i < |sel| ==> sel[i] < |f.comps|
    ensures r.Ok? <==> |sel| == 1 || (1 < |sel| <= MAX_COMPS_IN_SCAN && McuBlocks(f, sel) <= C_MAX_BLOCKS_IN_MCU)
    ensures r.Ok? ==>
              && GoodScan(f, sel, r.value.scan)
              && r.value.membership == Membership(r.value.scan.comps, |sel|)
              && |r.value.membership| <= C_MAX_BLOCKS_IN_MCU
              && r.value.restartInterval == RestartInterval(restartInRows, interval, r.value.scan.mcusPerRow)
  {
    hide DivRoundUp, LastPart, Largest, Tiles, FullSize, McuBlocks, Membership, RestartInterval, Sized;
    if |sel| == 1 {
      var scan := SingleScan(f, sel[0], width, height, sampling);
      return Ok(ScanSetup(scan, [0], RestartInterval(restartInRows, interval, scan.mcusPerRow)));
    }
    if |sel| <= 0 || |sel| > MAX_COMPS_IN_SCAN {
      return Err(ComponentCount);
    }
    var mcusPerRow := DivRoundUp(width, f.maxH * DCTSIZE);
    var comps: seq<ScanComp>, membership: seq<nat> := [], [];
    assert Membership([], 0) == [] && McuBlocks(f, sel[..0]) == 0 by { NoMembers(f, sel); }
    for ci := 0 to |sel|
      invariant |comps| == ci && |membership| == McuBlocks(f, sel[..ci]) <= C_MAX_BLOCKS_IN_MCU
      invariant membership == Membership(comps, ci)
      invariant forall i :: 0 <= i < ci ==> Interleaves(f, sel[i], mcusPerRow, comps[i])
    {
      var c := f.comps[sel[ci]];
      McuBlocksGrow(f, sel, ci);
      if |membership| + c.h * c.v > C_MAX_BLOCKS_IN_MCU {
        return Err(BadMcuSize);
      }
      var sc := InterleavedComp(f, sel[ci], width, height, sampling);
      membership := AddMembers(membership, c.h * c.v, ci);
      MembershipNext(comps, sc);
      comps := comps + [sc];
    }
    assert sel[..|sel|] == sel;
    var scan := Scan(mcusPerRow, f.totalIMcuRows, comps);
    r := Ok(ScanSetup(scan, membership, RestartInterval(restartInRows, interval, mcusPerRow)));
    InterleavedScan(f, sel, scan);
  }

  lemma NoMembers(f: Frame, sel: seq<nat>)
    requires forall i :: 0 <= i < |sel| ==> sel[i] < |f.comps|
    ensures Membership([], 0) == [] && McuBlocks(f, sel[..0]) == 0
  {
  }

  /** "Noninterleaved (single-component) scan". */
  method SingleScan(f: Frame, index: nat, width: nat, height: nat, ghost sampling: seq<Sampling>) returns (scan: Scan)
    requires GoodFrame(f, width, height, sampling) && index < |f.comps|
    ensures GoodScan(f, [index], scan) && Membership(scan.comps, 1) == [0] && |scan.comps| == 1
  {
    hide DivRoundUp, LastPart, Largest;
    var c := f.comps[index];
    assert Sized(c, sampling[index], width, height, f.maxH, f.maxV);
    RowsTile(f, c, sampling[index], width, height);
    ColumnsTile(f, c, sampling[index], width, height);
    var sc := ScanComp(index, c.v, c.widthInBlocks, 1, 1, 1, LastPart(c.heightInBlocks, c.v));
    scan := Scan(c.widthInBlocks, f.totalIMcuRows, [sc]);
    MembershipNext([], sc);
    assert [] + [sc] == [sc] && Copies(1, 0) == [0];
  }

  /** The component's part in an interleaved scan. */
  ghost predicate Interleaves(f: Frame, index: nat, mcusPerRow: nat, sc: ScanComp) {
    && index < |f.comps| && sc.index == index && FullSize(sc, f.comps[index])
    && Tiles(Scan(mcusPerRow, f.totalIMcuRows, []), sc, f.comps[index])
  }

  method InterleavedComp(f: Frame, index: nat, width: nat, height: nat, ghost sampling: seq<Sampling>)
    returns (sc: ScanComp)
    requires GoodFrame(f, width, height, sampling) && index < |f.comps|
    ensures Interleaves(f, index, DivRoundUp(width, f.maxH * DCTSIZE), sc)
    ensures sc.width == f.comps[index].h && sc.height == f.comps[index].v
  {
    hide DivRoundUp, LastPart, Largest;
    var c := f.comps[index];
    assert Sized(c, sampling[index], width, height, f.maxH, f.maxV);
    RowsTile(f, c, sampling[index], width, height);
    ColumnsTile(f, c, sampling[index], width, height);
    sc := ScanComp(index, c.v, c.widthInBlocks, c.h, c.v, LastPart(c.widthInBlocks, c.h),
                   LastPart(c.heightInBlocks, c.v));
  }

  lemma InterleavedScan(f: Frame, sel: seq<nat>, scan: Scan)
    requires |sel| > 1 && |scan.comps| == |sel| && scan.totalIMcuRows == f.totalIMcuRows
    requires forall i :: 0 <= i < |sel| ==> Interleaves(f, sel[i], scan.mcusPerRow, scan.comps[i])
    ensures GoodScan(f, sel, scan)
  {
    forall i | 0 <= i < |sel|
      ensures sel[i] < |f.comps| && scan.comps[i].index == sel[i] && Tiles(scan, scan.comps[i], f.comps[sel[i]])
              && FullSize(scan.comps[i], f.comps[sel[i]])
    {
      assert Interleaves(f, sel[i], scan.mcusPerRow, scan.comps[i]);
    }
  }

  /** while (mcublks-- > 0) MCU_membership[blocks_in_MCU++] = ci; */
  method AddMembers(before: seq<nat>, mcublks: nat, ci: nat) returns (membership: seq<nat>)
    ensures membership == before + Copies(mcublks, ci)
  {
    membership := before;
    for i := 0 to mcublks
      invariant membership == before + Copies(i, ci)
    {
      membership := membership + [ci];
    }
  }

  lemma MembershipNext(comps: seq<ScanComp>, sc: ScanComp)
    ensures Membership(comps + [sc], |comps| + 1) == Membership(comps, |comps|) + Copies(sc.width * sc.height, |comps|)
  {
    MembershipPrefix(comps, sc, |comps|);
  }

  lemma {:induction false} MembershipPrefix(comps: seq<ScanComp>, sc: ScanComp, n: nat)
    requires n <= |comps|
    ensures Membership(comps + [sc], n) == Membership(comps, n)
    decreases n
  {
    if n > 0 {
      MembershipPrefix(comps, sc, n - 1);
    }
  }

  lemma {:induction false} McuBlocksGrow(f: Frame, sel: seq<nat>, n: nat)
    requires n < |sel| && forall i :: 0 <= i < |sel| ==> sel[i] < |f.comps|
    ensures McuBlocks(f, sel[..n + 1]) == McuBlocks(f, sel[..n]) + f.comps[sel[n]].h * f.comps[sel[n]].v
    ensures McuBlocks(f, sel[..n + 1]) <= McuBlocks(f, sel)
    decreases |sel| - n
  {
    assert sel[..n + 1][..n] == sel[..n];
    if n + 1 < |sel| {
      McuBlocksGrow(f, sel, n + 1);
    } else {
      assert sel[..n + 1] == sel;
    }
  }
}
