/** The coefficient controllers of jccoefct.c and jctrans.c: whichever of them runs,
    and however often the entropy coder suspends it, the entropy coder accepts the
    same MCUs in the same order. */
module CoefControllers {
  import opened McuGeometry
  import opened McuBlocks

  // ---- The stream that all controllers must produce ----

  /** The real blocks of the whole image fit the frame; q is its width in MCUs. */
  ghost predicate FrameImage(f: Frame, image: seq<Strip>, q: nat) {
    && |image| == f.totalIMcuRows > 0
    && (forall k :: 0 <= k < |f.comps| ==> Fits(f.comps[k].widthInBlocks, f.comps[k].h, q))
    && forall i :: 0 <= i < |image| ==> FrameStrip(f, image[i], i)
  }

  /** The real blocks of an image, one strip for each iMCU row. */
  ghost predicate ImageBlocks(f: Frame, image: seq<Strip>) {
    |image| == f.totalIMcuRows > 0 && forall i :: 0 <= i < |image| ==> FrameStrip(f, image[i], i)
  }

  /** All components of a frame are as wide as its MCU columns. */
  lemma FrameFits(f: Frame, width: nat, height: nat, sampling: seq<Sampling>, k: nat)
    requires GoodFrame(f, width, height, sampling) && k < |f.comps|
    ensures Fits(f.comps[k].widthInBlocks, f.comps[k].h, DivRoundUp(width, f.maxH * DCTSIZE))
  {
    assert Sized(f.comps[k], sampling[k], width, height, f.maxH, f.maxV);
    BlocksPerMcu(width, f.comps[k].h, f.maxH * DCTSIZE);
  }

  lemma ImageFits(f: Frame, width: nat, height: nat, sampling: seq<Sampling>, image: seq<Strip>)
    requires GoodFrame(f, width, height, sampling) && ImageBlocks(f, image)
    ensures FrameImage(f, image, DivRoundUp(width, f.maxH * DCTSIZE))
  {
    hide Fits, GoodFrame, DivRoundUp, FrameStrip;
    assert f.maxH > 0 by { FramePositive(f, width, height, sampling); }
    forall k | 0 <= k < |f.comps|
      ensures Fits(f.comps[k].widthInBlocks, f.comps[k].h, DivRoundUp(width, f.maxH * DCTSIZE))
    {
      FrameFits(f, width, height, sampling, k);
    }
  }

  lemma FramePositive(f: Frame, width: nat, height: nat, sampling: seq<Sampling>)
    requires GoodFrame(f, width, height, sampling)
    ensures f.maxH > 0
  {
  }

  ghost predicate FrameStrip(f: Frame, strip: Strip, i: nat) {
    |strip| == |f.comps| && forall k :: 0 <= k < |f.comps| ==> FramePlane(f.comps[k], strip[k], f.totalIMcuRows, i)
  }

  ghost predicate FramePlane(c: Component, plane: Plane, total: nat, i: nat) {
    c.v > 0 && GoodPlane(plane, BlockRows(c, total, i), c.widthInBlocks)
  }

  lemma ScanStrip(f: Frame, strip: Strip, sel: seq<nat>, scan: Scan, i: nat)
    requires FrameStrip(f, strip, i) && GoodScan(f, sel, scan)
    ensures GoodStrip(strip, scan, i)
  {
    forall k | 0 <= k < |scan.comps| ensures GoodComp(strip, scan, i, scan.comps[k]) {
      assert Tiles(scan, scan.comps[k], f.comps[sel[k]])
             && FramePlane(f.comps[sel[k]], strip[sel[k]], f.totalIMcuRows, i);
      SameRows(scan, scan.comps[k], f.comps[sel[k]], i);
    }
  }

  lemma ScanImage(f: Frame, image: seq<Strip>, q: nat, sel: seq<nat>, scan: Scan)
    requires FrameImage(f, image, q) && GoodScan(f, sel, scan)
    ensures GoodImage(image, scan) && ScanShape(scan)
  {
    GoodScanShape(f, sel, scan);
    forall i | 0 <= i < |image| ensures GoodStrip(image[i], scan, i) {
      hide FrameStrip, GoodStrip;
      ScanStrip(f, image[i], sel, scan, i);
    }
  }

  /** The MCUs before row y, column x of iMCU row i. */
  ghost function SentTo(image: seq<Strip>, scan: Scan, i: nat, y: nat, x: nat): (s: seq<seq<Block>>)
    requires GoodImage(image, scan) && i < |image|
  {
    AllMcus(image, scan, i) + McusTo(image[i], scan, i, y, x)
  }

  lemma SentNext(image: seq<Strip>, scan: Scan, i: nat, y: nat, x: nat)
    requires GoodImage(image, scan) && i < |image|
    ensures SentTo(image, scan, i, y, x + 1) == SentTo(image, scan, i, y, x) + [Mcu(image[i], scan, i, y, x)]
  {
    hide GoodStrip, AllMcus, Mcu;
  }

  lemma SentRow(image: seq<Strip>, scan: Scan, i: nat, y: nat)
    requires GoodImage(image, scan) && i < |image|
    ensures SentTo(image, scan, i, y + 1, 0) == SentTo(image, scan, i, y, scan.mcusPerRow)
  {
    hide GoodStrip, AllMcus, Mcu;
  }

  lemma SentIMcuRow(image: seq<Strip>, scan: Scan, i: nat)
    requires GoodImage(image, scan) && i < |image|
    ensures SentTo(image, scan, i, McuRows(scan, i), 0) == AllMcus(image, scan, i + 1)
    ensures i + 1 < |image| ==> SentTo(image, scan, i + 1, 0, 0) == AllMcus(image, scan, i + 1)
  {
    hide GoodStrip, Mcu;
    if i + 1 < |image| {
      assert McusTo(image[i + 1], scan, i + 1, 0, 0) == [];
    }
  }

  /** The counters of a controller, and the MCUs accepted so far in the pass. */
  ghost predicate Progress(image: seq<Strip>, scan: Scan, i: nat, rows: nat, y: nat, x: nat, sent: seq<seq<Block>>)
    requires GoodImage(image, scan)
  {
    && i <= |image|
    && if i < |image| then rows == McuRows(scan, i) && y < rows && x < scan.mcusPerRow
       && sent == SentTo(image, scan, i, y, x)
       else sent == AllMcus(image, scan, i)
  }

  lemma RowsPositive(scan: Scan, i: nat)
    requires ScanShape(scan)
    ensures McuRows(scan, i) > 0
  {
    assert Covers(scan, scan.comps[0]);
  }

  /** encode_mcu: accept the MCU while there is room, else suspend. */
  method EncodeMcu(mcu: seq<Block>, room: nat, sent: seq<seq<Block>>) returns (ok: bool, left: nat, r: seq<seq<Block>>)
    ensures ok <==> room > 0
    ensures left == (if ok then room - 1 else 0)
    ensures r == if ok then sent + [mcu] else sent
  {
    if room == 0 {
      return false, 0, sent;
    }
    ok, left, r := true, room - 1, sent + [mcu];
  }

  /** The virtual arrays hold the first n iMCU rows. */
  ghost predicate StoredUpto(wholeImage: seq<Strip>, image: seq<Strip>, f: Frame, q: nat, n: nat) {
    && n <= |wholeImage| == |image|
    && forall i :: 0 <= i < n ==> StoredStrip(wholeImage[i], image[i], f, i, q)
  }

  /** The loop over components in compress_first_pass. */
  method StoreStrip(f: Frame, strip: Strip, i: nat, ghost q: nat) returns (stored: Strip)
    requires FrameStrip(f, strip, i) && i < f.totalIMcuRows
    requires forall k :: 0 <= k < |f.comps| ==> Fits(f.comps[k].widthInBlocks, f.comps[k].h, q)
    ensures StoredStrip(stored, strip, f, i, q)
  {
    stored := [];
    for ci := 0 to |f.comps|
      invariant |stored| == ci
      invariant forall k :: 0 <= k < ci ==> StoredComp(stored[k], strip[k], f.comps[k], f.totalIMcuRows, i, q)
    {
      hide Fits, PaddedPlane, GoodPlane, BlockRows;
      assert FramePlane(f.comps[ci], strip[ci], f.totalIMcuRows, i);
      var plane := StoreComponent(strip[ci], f.comps[ci], f.totalIMcuRows, i, q);
      stored := stored + [plane];
    }
  }

  // ---- jccoefct.c ----

  /** The controller of jccoefct.c. `image` is what the DCT makes of the whole image;
      the caller passes its iMCU rows one after the other. */
  class Controller {
    const frame: Frame
    var scan: Scan
    var iMcuRowNum: nat
    var mcuCtr: nat
    var mcuVertOffset: nat
    var mcuRowsPerIMcuRow: nat
    var wholeImage: seq<Strip>        // the virtual block arrays, by iMCU row
    var sent: seq<seq<Block>>         // the MCUs that encode_mcu accepted in this pass

    ghost const image: seq<Strip>
    ghost const across: nat
    ghost var sel: seq<nat>
    ghost var stored: nat             // iMCU rows in the virtual arrays

    ghost predicate Geometry()
      reads this
    {
      FrameImage(frame, image, across) && GoodScan(frame, sel, scan) && GoodImage(image, scan) && ScanShape(scan)
    }

    ghost predicate Valid()
      reads this
    {
      && Geometry() && StoredUpto(wholeImage, image, frame, across, stored)
      && Progress(image, scan, iMcuRowNum, mcuRowsPerIMcuRow, mcuVertOffset, mcuCtr, sent)
    }

    /** start_iMCU_row. */
    method StartIMcuRow()
      requires Geometry() && iMcuRowNum <= |image| && sent == AllMcus(image, scan, iMcuRowNum)
      modifies `mcuCtr, `mcuVertOffset, `mcuRowsPerIMcuRow
      ensures Progress(image, scan, iMcuRowNum, mcuRowsPerIMcuRow, mcuVertOffset, mcuCtr, sent)
    {
      hide GoodStrip, AllMcus, Mcu, McuUpto;
      if |scan.comps| > 1 {
        mcuRowsPerIMcuRow := 1;
      } else if iMcuRowNum + 1 < frame.totalIMcuRows {
        mcuRowsPerIMcuRow := scan.comps[0].vSamp;
      } else {
        mcuRowsPerIMcuRow := scan.comps[0].lastRowHeight;
      }
      mcuCtr, mcuVertOffset := 0, 0;
      RowsPositive(scan, iMcuRowNum);
      if iMcuRowNum < |image| {
        assert McusTo(image[iMcuRowNum], scan, iMcuRowNum, 0, 0) == [];
      }
    }

    /** start_pass_coef. */
    method StartPass(newScan: Scan, ghost newSel: seq<nat>)
      requires FrameImage(frame, image, across) && GoodScan(frame, newSel, newScan)
      requires StoredUpto(wholeImage, image, frame, across, stored)
      modifies this
      ensures Valid() && iMcuRowNum == 0 && sent == [] && scan == newScan && stored == old(stored)
    {
      ScanImage(frame, image, across, newSel, newScan);
      scan, sel := newScan, newSel;
      iMcuRowNum, sent := 0, [];
      StartIMcuRow();
    }

    constructor (frame: Frame, newScan: Scan, ghost newSel: seq<nat>, ghost image: seq<Strip>,
                 ghost width: nat, ghost height: nat, ghost sampling: seq<Sampling>)
      requires GoodFrame(frame, width, height, sampling) && ImageBlocks(frame, image)
               && GoodScan(frame, newSel, newScan)
      ensures Valid() && iMcuRowNum == 0 && sent == [] && scan == newScan && stored == 0
      ensures this.frame == frame && this.image == image
    {
      ImageFits(frame, width, height, sampling, image);
      this.frame, this.image, this.across := frame, image, DivRoundUp(width, frame.maxH * DCTSIZE);
      stored, scan, sel, iMcuRowNum, sent := 0, newScan, newSel, 0, [];
      wholeImage := seq(frame.totalIMcuRows, i => []);
      new;
      ScanImage(frame, image, this.across, newSel, newScan);
      StartIMcuRow();
    }

    /** compress_data: DCT and send one iMCU row, or as much of it as the entropy coder
        accepts. */
    method CompressData(input: Strip, room: nat) returns (done: bool, left: nat)
      requires Valid() && iMcuRowNum < |image| && input == image[iMcuRowNum]
      modifies `iMcuRowNum, `mcuCtr, `mcuVertOffset, `mcuRowsPerIMcuRow, `sent
      ensures Valid() && iMcuRowNum == old(iMcuRowNum) + (if done then 1 else 0)
      ensures left <= room && |sent| == |old(sent)| + (room - left) && (!done ==> left == 0)
    {
      hide StoredUpto, FrameImage, GoodScan, GoodStrip, AllMcus, McusTo, SentTo, Mcu;
      left := room;
      var yoffset: nat := mcuVertOffset;
      while yoffset < mcuRowsPerIMcuRow
        invariant iMcuRowNum == old(iMcuRowNum) && mcuRowsPerIMcuRow == McuRows(scan, iMcuRowNum)
        invariant yoffset <= mcuRowsPerIMcuRow && (yoffset < mcuRowsPerIMcuRow ==> mcuCtr < scan.mcusPerRow)
        invariant sent == SentTo(image, scan, iMcuRowNum, yoffset, if yoffset < mcuRowsPerIMcuRow then mcuCtr else 0)
        invariant left <= room && |sent| == |old(sent)| + (room - left)
        decreases mcuRowsPerIMcuRow - yoffset
      {
        var mcuColNum: nat := mcuCtr;
        while mcuColNum < scan.mcusPerRow
          invariant iMcuRowNum == old(iMcuRowNum) && mcuRowsPerIMcuRow == McuRows(scan, iMcuRowNum)
          invariant mcuColNum <= scan.mcusPerRow && sent == SentTo(image, scan, iMcuRowNum, yoffset, mcuColNum)
          invariant left <= room && |sent| == |old(sent)| + (room - left)
          decreases scan.mcusPerRow - mcuColNum
        {
          var mcu := DctMcu(input, scan, iMcuRowNum, yoffset, mcuColNum);
          SentNext(image, scan, iMcuRowNum, yoffset, mcuColNum);
          var ok;
          ok, left, sent := EncodeMcu(mcu, left, sent);
          if !ok {
            mcuVertOffset, mcuCtr := yoffset, mcuColNum;
            return false, left;
          }
          mcuColNum := mcuColNum + 1;
        }
        SentRow(image, scan, iMcuRowNum, yoffset);
        mcuCtr := 0;
        yoffset := yoffset + 1;
      }
      SentIMcuRow(image, scan, iMcuRowNum);
      iMcuRowNum := iMcuRowNum + 1;
      StartIMcuRow();
      done := true;
    }

    /** The stored iMCU row shows all of its MCUs. */
    lemma Readable(y: nat, x: nat)
      requires Geometry() && StoredUpto(wholeImage, image, frame, across, stored) && iMcuRowNum < stored
      requires y < McuRows(scan, iMcuRowNum) && x < scan.mcusPerRow
      ensures Shows(wholeImage[iMcuRowNum], image[iMcuRowNum], scan, iMcuRowNum, y, x)
    {
      hide Fits, GoodScan, StoredStrip, GoodStrip;
      assert GoodStrip(image[iMcuRowNum], scan, iMcuRowNum);
      StoredShows(wholeImage[iMcuRowNum], image[iMcuRowNum], frame, sel, scan, iMcuRowNum, across, y, x);
    }

    /** compress_output: send one iMCU row from the virtual arrays. */
    method CompressOutput(room: nat) returns (done: bool, left: nat)
      requires Valid() && iMcuRowNum < |image| && iMcuRowNum < stored
      modifies `iMcuRowNum, `mcuCtr, `mcuVertOffset, `mcuRowsPerIMcuRow, `sent
      ensures Valid() && iMcuRowNum == old(iMcuRowNum) + (if done then 1 else 0)
      ensures left <= room && |sent| == |old(sent)| + (room - left) && (!done ==> left == 0)
    {
      hide StoredUpto, FrameImage, GoodScan, GoodStrip, AllMcus, McusTo, SentTo, Mcu, Shows;
      left := room;
      var yoffset: nat := mcuVertOffset;
      while yoffset < mcuRowsPerIMcuRow
        invariant iMcuRowNum == old(iMcuRowNum) && mcuRowsPerIMcuRow == McuRows(scan, iMcuRowNum)
        invariant yoffset <= mcuRowsPerIMcuRow && (yoffset < mcuRowsPerIMcuRow ==> mcuCtr < scan.mcusPerRow)
        invariant sent == SentTo(image, scan, iMcuRowNum, yoffset, if yoffset < mcuRowsPerIMcuRow then mcuCtr else 0)
        invariant left <= room && |sent| == |old(sent)| + (room - left)
        decreases mcuRowsPerIMcuRow - yoffset
      {
        var mcuColNum: nat := mcuCtr;
        while mcuColNum < scan.mcusPerRow
          invariant iMcuRowNum == old(iMcuRowNum) && mcuRowsPerIMcuRow == McuRows(scan, iMcuRowNum)
          invariant mcuColNum <= scan.mcusPerRow && sent == SentTo(image, scan, iMcuRowNum, yoffset, mcuColNum)
          invariant left <= room && |sent| == |old(sent)| + (room - left)
          decreases scan.mcusPerRow - mcuColNum
        {
          Readable(yoffset, mcuColNum);
          StoredLength(wholeImage, image, frame, across, stored);
          var mcu := OutputMcu(wholeImage[iMcuRowNum], scan, yoffset, mcuColNum, image[iMcuRowNum], iMcuRowNum);
          SentNext(image, scan, iMcuRowNum, yoffset, mcuColNum);
          var ok;
          ok, left, sent := EncodeMcu(mcu, left, sent);
          if !ok {
            mcuVertOffset, mcuCtr := yoffset, mcuColNum;
            return false, left;
          }
          mcuColNum := mcuColNum + 1;
        }
        SentRow(image, scan, iMcuRowNum, yoffset);
        mcuCtr := 0;
        yoffset := yoffset + 1;
      }
      SentIMcuRow(image, scan, iMcuRowNum);
      iMcuRowNum := iMcuRowNum + 1;
      StartIMcuRow();
      done := true;
    }

    /** compress_first_pass: store an iMCU row, then send it; after a suspension it is
        stored again. */
    method CompressFirstPass(input: Strip, room: nat) returns (done: bool, left: nat)
      requires Valid() && iMcuRowNum < |image| && input == image[iMcuRowNum]
      requires stored == iMcuRowNum || stored == iMcuRowNum + 1
      modifies `iMcuRowNum, `mcuCtr, `mcuVertOffset, `mcuRowsPerIMcuRow, `sent, `wholeImage, `stored
      ensures Valid() && iMcuRowNum == old(iMcuRowNum) + (if done then 1 else 0) && stored == old(iMcuRowNum) + 1
      ensures left <= room && |sent| == |old(sent)| + (room - left) && (!done ==> left == 0)
    {
      hide Fits, FrameStrip, StoredStrip, GoodStrip, GoodScan, Progress, AllMcus;
      assert FrameStrip(frame, image[iMcuRowNum], iMcuRowNum);
      var strip := StoreStrip(frame, input, iMcuRowNum, across);
      wholeImage := wholeImage[iMcuRowNum := strip];
      stored := iMcuRowNum + 1;
      done, left := CompressOutput(room);
    }

    /** A later pass, as jpeg_finish_compress runs it: the stored image is sent with the
        parameters of another scan; suspension is an error. */
    method OutputPass(newScan: Scan, ghost newSel: seq<nat>, room: nat) returns (ok: bool, left: nat)
      requires Valid() && stored == |image| && GoodScan(frame, newSel, newScan)
      modifies this
      ensures Valid() && scan == newScan && stored == |image|
      ensures ok ==> sent == AllMcus(image, newScan, |image|) && left == room - |sent|
      ensures !ok ==> |sent| == room
    {
      assert |image| == frame.totalIMcuRows;
      hide FrameImage, GoodScan, StoredUpto, GoodStrip, AllMcus, McusTo, SentTo;
      StartPass(newScan, newSel);
      left := room;
      for iMcuRow := 0 to frame.totalIMcuRows
        invariant Valid() && scan == newScan && stored == |image| && iMcuRowNum == iMcuRow
        invariant left <= room && |sent| == room - left
      {
        ok, left := CompressOutput(left);
        if !ok {
          return;
        }
      }
      ok := true;
    }
  }

  lemma StoredLength(wholeImage: seq<Strip>, image: seq<Strip>, f: Frame, q: nat, n: nat)
    requires StoredUpto(wholeImage, image, f, q, n)
    ensures |wholeImage| == |image| && n <= |image|
  {
  }

  // ---- jctrans.c ----

  /** The controller of jctrans.c: the blocks come from arrays without dummy blocks. */
  class Transcoder {
    const frame: Frame
    const scan: Scan
    const image: seq<Strip>           // the coefficient arrays, by iMCU row
    var iMcuRowNum: nat
    var mcuCtr: nat
    var mcuVertOffset: nat
    var mcuRowsPerIMcuRow: nat
    var sent: seq<seq<Block>>

    ghost const across: nat
    ghost const sel: seq<nat>

    ghost predicate Geometry()
      reads this
    {
      FrameImage(frame, image, across) && GoodScan(frame, sel, scan) && GoodImage(image, scan) && ScanShape(scan)
    }

    ghost predicate Valid()
      reads this
    {
      && Geometry()
      && Progress(image, scan, iMcuRowNum, mcuRowsPerIMcuRow, mcuVertOffset, mcuCtr, sent)
    }

    /** start_iMCU_row of jctrans.c. */
    method StartIMcuRow()
      requires Geometry() && iMcuRowNum <= |image| && sent == AllMcus(image, scan, iMcuRowNum)
      modifies `mcuCtr, `mcuVertOffset, `mcuRowsPerIMcuRow
      ensures Progress(image, scan, iMcuRowNum, mcuRowsPerIMcuRow, mcuVertOffset, mcuCtr, sent)
    {
      hide GoodStrip, AllMcus, Mcu, McuUpto;
      if |scan.comps| > 1 {
        mcuRowsPerIMcuRow := 1;
      } else if iMcuRowNum + 1 < frame.totalIMcuRows {
        mcuRowsPerIMcuRow := scan.comps[0].vSamp;
      } else {
        mcuRowsPerIMcuRow := scan.comps[0].lastRowHeight;
      }
      mcuCtr, mcuVertOffset := 0, 0;
      RowsPositive(scan, iMcuRowNum);
      if iMcuRowNum < |image| {
        assert McusTo(image[iMcuRowNum], scan, iMcuRowNum, 0, 0) == [];
      }
    }

    /** transencode_coef_controller and start_pass_coef. */
    constructor (frame: Frame, scan: Scan, ghost sel: seq<nat>, image: seq<Strip>,
                 ghost width: nat, ghost height: nat, ghost sampling: seq<Sampling>)
      requires GoodFrame(frame, width, height, sampling) && ImageBlocks(frame, image) && GoodScan(frame, sel, scan)
      ensures Valid() && iMcuRowNum == 0 && sent == []
      ensures this.frame == frame && this.scan == scan && this.image == image
    {
      ImageFits(frame, width, height, sampling, image);
      this.frame, this.scan, this.sel, this.image, this.across := frame, scan, sel, image,
        DivRoundUp(width, frame.maxH * DCTSIZE);
      iMcuRowNum, sent := 0, [];
      new;
      ScanImage(frame, image, this.across, sel, scan);
      StartIMcuRow();
    }

    /** compress_output of jctrans.c. */
    method CompressOutput(room: nat) returns (done: bool, left: nat)
      requires Valid() && iMcuRowNum < |image|
      modifies this
      ensures Valid() && iMcuRowNum == old(iMcuRowNum) + (if done then 1 else 0)
      ensures left <= room && |sent| == |old(sent)| + (room - left) && (!done ==> left == 0)
    {
      hide FrameImage, GoodScan, GoodStrip, AllMcus, McusTo, SentTo, Mcu;
      left := room;
      var yoffset: nat := mcuVertOffset;
      while yoffset < mcuRowsPerIMcuRow
        invariant iMcuRowNum == old(iMcuRowNum) && mcuRowsPerIMcuRow == McuRows(scan, iMcuRowNum)
        invariant yoffset <= mcuRowsPerIMcuRow && (yoffset < mcuRowsPerIMcuRow ==> mcuCtr < scan.mcusPerRow)
        invariant sent == SentTo(image, scan, iMcuRowNum, yoffset, if yoffset < mcuRowsPerIMcuRow then mcuCtr else 0)
        invariant left <= room && |sent| == |old(sent)| + (room - left)
        decreases mcuRowsPerIMcuRow - yoffset
      {
        var mcuColNum: nat := mcuCtr;
        while mcuColNum < scan.mcusPerRow
          invariant iMcuRowNum == old(iMcuRowNum) && mcuRowsPerIMcuRow == McuRows(scan, iMcuRowNum)
          invariant mcuColNum <= scan.mcusPerRow && sent == SentTo(image, scan, iMcuRowNum, yoffset, mcuColNum)
          invariant left <= room && |sent| == |old(sent)| + (room - left)
          decreases scan.mcusPerRow - mcuColNum
        {
          var mcu := CopyMcu(image[iMcuRowNum], scan, iMcuRowNum, yoffset, mcuColNum);
          SentNext(image, scan, iMcuRowNum, yoffset, mcuColNum);
          var ok;
          ok, left, sent := EncodeMcu(mcu, left, sent);
          if !ok {
            mcuVertOffset, mcuCtr := yoffset, mcuColNum;
            return false, left;
          }
          mcuColNum := mcuColNum + 1;
        }
        SentRow(image, scan, iMcuRowNum, yoffset);
        mcuCtr := 0;
        yoffset := yoffset + 1;
      }
      SentIMcuRow(image, scan, iMcuRowNum);
      iMcuRowNum := iMcuRowNum + 1;
      StartIMcuRow();
      done := true;
    }

    /** The pass that jpeg_finish_compress drives. */
    method OutputPass(room: nat) returns (ok: bool, left: nat)
      requires Valid() && iMcuRowNum == 0 && sent == []
      modifies this
      ensures Valid()
      ensures ok ==> sent == AllMcus(image, scan, |image|) && left == room - |sent|
      ensures !ok ==> |sent| == room
    {
      assert |image| == frame.totalIMcuRows;
      hide FrameImage, GoodScan, GoodStrip, AllMcus, McusTo, SentTo;
      left := room;
      for iMcuRow := 0 to frame.totalIMcuRows
        invariant Valid() && iMcuRowNum == iMcuRow
        invariant left <= room && |sent| == room - left
      {
        ok, left := CompressOutput(left);
        if !ok {
          return;
        }
      }
      ok := true;
    }
  }

  // ---- Before the last iMCU row is done, MCUs are missing ----

  lemma {:induction false} ColumnCount(strip: Strip, scan: Scan, i: nat, y: nat, x: nat)
    requires GoodStrip(strip, scan, i)
    ensures |McusTo(strip, scan, i, y, x)| == |McusTo(strip, scan, i, y, 0)| + x
    decreases x
  {
    hide GoodStrip, Mcu;
    if x > 0 {
      ColumnCount(strip, scan, i, y, x - 1);
    }
  }

  lemma {:induction false} RowsGrow(strip: Strip, scan: Scan, i: nat, y: nat, rows: nat)
    requires GoodStrip(strip, scan, i) && y <= rows
    ensures |McusTo(strip, scan, i, y, 0)| <= |McusTo(strip, scan, i, rows, 0)|
    decreases rows
  {
    hide GoodStrip, Mcu;
    if y < rows {
      RowsGrow(strip, scan, i, y, rows - 1);
      ColumnCount(strip, scan, i, rows - 1, scan.mcusPerRow);
      assert McusTo(strip, scan, i, rows, 0) == McusTo(strip, scan, i, rows - 1, scan.mcusPerRow);
    }
  }

  lemma {:induction false} AllGrow(image: seq<Strip>, scan: Scan, i: nat, n: nat)
    requires GoodImage(image, scan) && i <= n <= |image|
    ensures |AllMcus(image, scan, i)| <= |AllMcus(image, scan, n)|
    decreases n
  {
    hide GoodStrip, McusTo;
    if i < n {
      AllGrow(image, scan, i, n - 1);
    }
  }

  lemma Unfinished(image: seq<Strip>, scan: Scan, i: nat, rows: nat, y: nat, x: nat, sent: seq<seq<Block>>)
    requires GoodImage(image, scan) && i < |image| && Progress(image, scan, i, rows, y, x, sent)
    ensures |sent| < |AllMcus(image, scan, |image|)|
  {
    AllGrow(image, scan, i + 1, |image|);
    var strip := image[i];
    assert AllMcus(image, scan, i + 1) == AllMcus(image, scan, i) + McusTo(strip, scan, i, rows, 0);
    hide GoodStrip, AllMcus;
    ColumnCount(strip, scan, i, y, x);
    ColumnCount(strip, scan, i, y, scan.mcusPerRow);
    assert McusTo(strip, scan, i, y + 1, 0) == McusTo(strip, scan, i, y, scan.mcusPerRow);
    RowsGrow(strip, scan, i, y + 1, rows);
  }

  /** Three controllers, one stream: compress_data, compress_first_pass or a later
      output pass, and the transcoder have all sent the same MCUs when they are done
      with the same blocks and the same scan. */
  lemma OneStream(a: Controller, b: Controller, t: Transcoder)
    requires a.Valid() && b.Valid() && t.Valid()
    requires a.image == b.image == t.image && a.scan == b.scan == t.scan
    requires a.iMcuRowNum == b.iMcuRowNum == t.iMcuRowNum == |t.image|
    ensures a.sent == b.sent == t.sent == AllMcus(t.image, t.scan, |t.image|)
  {
    hide FrameImage, GoodScan, StoredUpto, GoodStrip, AllMcus, SentTo;
  }
}
