/** From scanlines to MCUs: jpeg_write_scanlines of jcapistd.c and the main controller
    of jcmainct.c, on top of the preprocessor and the coefficient controller. Neither
    the way in which the application cuts the image into calls nor the suspensions of
    the entropy coder change what is compressed. */
module ScanlineInput {
  import opened McuGeometry
  import opened RowPreprocessing
  import McuBlocks
  import Numbers
  import CoefControllers

  /** The row groups of iMCU row i. */
  function GroupsOf<Row>(image: seq<Row>, v: nat, context: bool, i: nat): (s: seq<RowGroup<Row>>)
    requires image != [] && v > 0
    ensures |s| == DCTSIZE
  {
    seq(DCTSIZE, g requires 0 <= g < DCTSIZE => GroupAt(image, v, context, DCTSIZE * i + g))
  }

  /** Row k that the downsampler sees for group g of iMCU row i, when that group starts in
      the image or there are context rows: group 8i + g of the image begins at its row
      (8i + g)v, and context rows begin v rows above. */
  lemma StripSees<Row>(image: seq<Row>, v: nat, context: bool, i: nat, g: nat, k: nat)
    requires image != [] && v > 0 && g < 8 && (context || (8 * i + g) * v < |image|)
    requires k < if context then 3 * v else v
    ensures var seen, y := GroupsOf(image, v, context, i)[g], (8 * i + g) * v + k - if context then v else 0;
            && seen.Downsampled? && k < |seen.seen|
            && seen.seen[k] == if y < 0 then image[0] else if y < |image| then image[y] else image[|image| - 1]
  {
    RowPreprocessing.GroupSees(image, v, context, 8 * i + g, k);
  }

  /** n row groups of v rows hold the image, and none of the last eight is superfluous
      altogether. */
  predicate Covered(n: nat, v: nat, height: nat) {
    n * v >= height > (n - DCTSIZE) * v
  }

  /** initial_setup counts the iMCU rows so that they cover the image. */
  lemma FrameCovers(f: Frame, width: nat, height: nat, sampling: seq<Sampling>)
    requires GoodFrame(f, width, height, sampling)
    ensures Covered(DCTSIZE * f.totalIMcuRows, f.maxV, height)
  {
    var q := f.totalIMcuRows;
    RoundUpBounds(height, f.maxV * DCTSIZE);
    hide DivRoundUp, GoodFrame;
    Numbers.MulAssoc(q, f.maxV, DCTSIZE);
    Numbers.MulAssoc(q, DCTSIZE, f.maxV);
    Numbers.Distribute(DCTSIZE * q, -DCTSIZE, f.maxV);
  }

  /** The rows that the application passes are those of the image from row `next` on. */
  ghost predicate Follows<Row(!new)>(input: seq<Row>, n: nat, image: seq<Row>, next: nat) {
    && n <= |input| && next + n <= |image|
    && forall j :: 0 <= j < n ==> input[j] == image[next + j]
  }

  class Compressor<Row(0,!new)> {
    const imageHeight: nat
    const totalIMcuRows: nat
    const multiPass: bool                             // the first pass of several
    const fdct: seq<RowGroup<Row>> -> McuBlocks.Strip // the DCT of an iMCU row
    const prep: PrepController<Row>
    const coef: CoefControllers.Controller
    const buffer: array<RowGroup<Row>>                // the strip buffer of the main controller

    var nextScanline: nat
    var curIMcuRow: nat
    var rowgroupCtr: nat
    var suspended: bool

    /** What never changes. */
    ghost predicate Fixed()
      reads this, prep, coef
    {
      && buffer.Length == DCTSIZE && buffer as object != prep.samples
      && imageHeight == |prep.image| > 0 && prep.v > 0
      && totalIMcuRows == |coef.image| && Covered(DCTSIZE * totalIMcuRows, prep.v, imageHeight)
      && forall i :: 0 <= i < totalIMcuRows ==> coef.image[i] == fdct(GroupsOf(prep.image, prep.v, prep.context, i))
    }

    /** The first n row groups of the current iMCU row are in the strip buffer. */
    ghost predicate Buffered()
      requires imageHeight == |prep.image| > 0 && prep.v > 0
      reads this, prep, buffer
    {
      && rowgroupCtr <= DCTSIZE == buffer.Length
      && forall g :: 0 <= g < rowgroupCtr ==>
                       buffer[g] == GroupAt(prep.image, prep.v, prep.context, DCTSIZE * curIMcuRow + g)
    }

    /** The three controllers agree. */
    ghost predicate Linked()
      reads this, prep, prep.samples, coef, buffer
    {
      && Fixed() && Buffered() && prep.Valid() && coef.Valid()
      && coef.iMcuRowNum == curIMcuRow <= totalIMcuRows
      && prep.groups == DCTSIZE * curIMcuRow + rowgroupCtr
      && (multiPass ==> coef.stored == curIMcuRow || coef.stored == curIMcuRow + 1)
    }

    /** Rows of the image that have been preprocessed. */
    ghost function Taken(): (n: int)
      reads this, prep
    {
      imageHeight - prep.rowsToGo
    }

    /** At the end of a call that has counted inRow rows. The last preprocessed row
        counts as not yet written while the compressor is suspended, so the image is
        never finished too early. */
    ghost predicate Stopped(inRow: int)
      reads this, prep, prep.samples, coef, buffer
    {
      && Linked() && nextScanline + inRow == Taken() - (if suspended then 1 else 0)
      && (suspended ==> curIMcuRow < totalIMcuRows && rowgroupCtr == DCTSIZE)
      && (!suspended && curIMcuRow < totalIMcuRows ==> rowgroupCtr < DCTSIZE && prep.rowsToGo > 0)
      && (curIMcuRow == totalIMcuRows ==> rowgroupCtr == 0 && prep.rowsToGo == 0)
    }

    ghost predicate Valid()
      reads this, prep, prep.samples, coef, buffer
    {
      Stopped(0)
    }

    /** jpeg_start_compress, as far as scanline input is concerned. */
    constructor (prep: PrepController<Row>, coef: CoefControllers.Controller, imageHeight: nat,
                 fdct: seq<RowGroup<Row>> -> McuBlocks.Strip, multiPass: bool, ghost width: nat,
                   ghost sampling: seq<Sampling>)
      requires GoodFrame(coef.frame, width, imageHeight, sampling) && prep.v == coef.frame.maxV
      requires prep.Valid() && coef.Valid() && prep.rowsToGo == |prep.image| == imageHeight && prep.groups == 0
      requires coef.iMcuRowNum == 0 && coef.stored == 0
      requires forall i :: 0 <= i < |coef.image| ==>
                 coef.image[i] == fdct(GroupsOf(prep.image, prep.v, prep.context, i))
      ensures Valid() && nextScanline == 0 && fresh(buffer)
      ensures this.prep == prep && this.coef == coef && this.multiPass == multiPass
      ensures this.imageHeight == imageHeight && !suspended
    {
      FrameCovers(coef.frame, width, imageHeight, sampling);
      this.prep, this.coef, this.imageHeight, this.fdct, this.multiPass := prep, coef, imageHeight, fdct, multiPass;
      totalIMcuRows := coef.frame.totalIMcuRows;
      buffer := new RowGroup<Row>[DCTSIZE](i => Downsampled([]));
      nextScanline, curIMcuRow, rowgroupCtr, suspended := 0, 0, 0, false;
    }

    /** "Read input data if we haven't filled the main buffer yet". */
    method FillBuffer(input: seq<Row>, inRowCtr: nat, inRowsAvail: nat) returns (inRow: nat)
      requires Linked() && prep.Supplies(input, inRowCtr, inRowsAvail) && rowgroupCtr < DCTSIZE
      modifies `rowgroupCtr, prep, prep.samples, buffer
      ensures Linked() && inRowCtr <= inRow && (inRow <= inRowsAvail || inRow == inRowCtr)
      ensures Taken() == old(Taken()) + (inRow - inRowCtr)
      ensures inRow == inRowCtr && old(prep.rowsToGo) > 0 ==> rowgroupCtr < DCTSIZE
      ensures rowgroupCtr == DCTSIZE || (inRow >= inRowsAvail
                                         && (prep.rowsToGo > 0 || (!prep.context && old(prep.rowsToGo) == 0)))
    {
      hide CoefControllers.Controller.Valid, PrepController.Valid, GroupAt;
      inRow, rowgroupCtr := prep.PreProcess(input, inRowCtr, inRowsAvail, buffer, rowgroupCtr, DCTSIZE);
    }

    /** coef->compress_data on a full strip buffer. */
    method SendRow(room: nat) returns (done: bool, left: nat)
      requires Linked() && rowgroupCtr == DCTSIZE && curIMcuRow < totalIMcuRows
      modifies coef
      ensures Fixed() && Buffered() && coef.Valid() && prep.Valid() && prep.groups == DCTSIZE * curIMcuRow + rowgroupCtr
      ensures coef.iMcuRowNum == curIMcuRow + (if done then 1 else 0)
      ensures multiPass ==> coef.stored == curIMcuRow + 1
      ensures left <= room && |coef.sent| == |old(coef.sent)| + (room - left) && (!done ==> left == 0)
      ensures coef.scan == old(coef.scan)
    {
      hide CoefControllers.Controller.Valid, PrepController.Valid, GroupAt;
      assert buffer[..] == GroupsOf(prep.image, prep.v, prep.context, curIMcuRow);
      var blocks := fdct(buffer[..]);
      if multiPass {
        done, left := coef.CompressFirstPass(blocks, room);
      } else {
        done, left := coef.CompressData(blocks, room);
      }
    }

    /** Before the strip buffer is filled again: rows are still to come unless the
        bottom of the image was reached in context mode. */
    ghost predicate Between(inRow: int)
      reads this, prep, prep.samples, coef, buffer
    {
      && Linked() && 0 <= inRow && nextScanline + inRow == Taken() - (if suspended then 1 else 0)
      && (if suspended then curIMcuRow < totalIMcuRows && rowgroupCtr == DCTSIZE
          else rowgroupCtr < DCTSIZE && (inRow == 0 && curIMcuRow < totalIMcuRows ==> prep.rowsToGo > 0))
      && (!prep.context && prep.rowsToGo == 0 && !suspended ==> curIMcuRow == totalIMcuRows)
      && (curIMcuRow == totalIMcuRows ==> rowgroupCtr == 0 && prep.rowsToGo == 0)
    }

    /** The strip buffer is full, and at least one row was taken in this call unless the
        call resumes. */
    ghost predicate Full(inRow: int)
      reads this, prep, prep.samples, coef, buffer
    {
      && Linked() && 0 <= inRow && nextScanline + inRow == Taken() - (if suspended then 1 else 0)
      && curIMcuRow < totalIMcuRows && rowgroupCtr == DCTSIZE && (!suspended ==> inRow > 0)
    }

    /** The first half of the loop body of process_data_simple_main. */
    method Refill(input: seq<Row>, inRowCtr: nat, inRowsAvail: nat) returns (inRow: nat)
      requires Between(inRowCtr) && Follows(input, inRowsAvail, prep.image, nextScanline) && curIMcuRow < totalIMcuRows
      modifies `rowgroupCtr, prep, prep.samples, buffer
      ensures rowgroupCtr == DCTSIZE ==> Full(inRow)
      ensures rowgroupCtr != DCTSIZE ==> Stopped(inRow) && !suspended && inRow >= inRowsAvail
      ensures inRowCtr <= inRow && (inRow <= inRowsAvail || inRow == inRowCtr) && rowgroupCtr <= DCTSIZE
      ensures suspended ==> inRow == inRowCtr
      ensures inRowsAvail == 0 ==> prep.rowsToGo == old(prep.rowsToGo)
    {
      hide CoefControllers.Controller.Valid, PrepController.Valid, GroupAt;
      inRow := inRowCtr;
      if rowgroupCtr < DCTSIZE {
        inRow := FillBuffer(input, inRow, inRowsAvail);
      }
    }

    /** compress_data was suspended. */
    method Suspend(inRowCtr: nat) returns (inRow: nat)
      requires Full(inRowCtr)
      modifies `suspended
      ensures Stopped(inRow) && suspended && inRow <= inRowCtr
    {
      hide CoefControllers.Controller.Valid, PrepController.Valid, GroupAt;
      inRow := inRowCtr;
      if !suspended {
        inRow := inRow - 1;
        suspended := true;
      }
    }

    /** The state after compress_data has finished an iMCU row. */
    ghost predicate Sent(inRow: int)
      reads this, prep, prep.samples, coef, buffer
    {
      && Fixed() && prep.Valid() && coef.Valid() && rowgroupCtr == DCTSIZE && curIMcuRow < totalIMcuRows
      && coef.iMcuRowNum == curIMcuRow + 1 && prep.groups == DCTSIZE * (curIMcuRow + 1)
      && (multiPass ==> coef.stored == curIMcuRow + 1)
      && 0 <= inRow && nextScanline + inRow == Taken() - (if suspended then 1 else 0) && (!suspended ==> inRow > 0)
    }

    /** All row groups have been delivered only when all rows have been taken; without
        context, all rows have been taken only in the last iMCU row. */
    lemma AllTaken()
      requires Fixed() && prep.Valid()
      ensures prep.groups >= DCTSIZE * totalIMcuRows ==> prep.rowsToGo == 0
      ensures !prep.context && prep.rowsToGo == 0 ==> prep.groups > DCTSIZE * totalIMcuRows - DCTSIZE
    {
      hide PrepController.Valid;
      prep.Complete(DCTSIZE * totalIMcuRows);
      if !prep.context && prep.rowsToGo == 0 {
        CancelLess(DCTSIZE * totalIMcuRows - DCTSIZE, prep.groups, prep.v);
      }
    }

    /** compress_data finished the iMCU row: the strip buffer is empty again. */
    method Finish(inRowCtr: nat) returns (inRow: nat)
      requires Sent(inRowCtr)
      modifies `suspended, `rowgroupCtr, `curIMcuRow
      ensures Between(inRow) && curIMcuRow == old(curIMcuRow) + 1 && !suspended
      ensures inRow == inRowCtr + (if old(suspended) then 1 else 0)
    {
      AllTaken();
      hide CoefControllers.Controller.Valid, PrepController.Valid, GroupAt, Covered;
      inRow := inRowCtr;
      if suspended {
        inRow := inRow + 1;
        suspended := false;
      }
      rowgroupCtr := 0;
      curIMcuRow := curIMcuRow + 1;
    }

    /** The second half of the loop body of process_data_simple_main. */
    method Send(inRowCtr: nat, room: nat) returns (inRow: nat, done: bool, left: nat)
      requires Full(inRowCtr)
      modifies `suspended, `rowgroupCtr, `curIMcuRow, coef
      ensures done ==> Between(inRow) && curIMcuRow == old(curIMcuRow) + 1
      ensures done ==> !suspended && inRow == inRowCtr + (if old(suspended) then 1 else 0)
      ensures !done ==> Stopped(inRow) && suspended && inRow <= inRowCtr && left == 0
      ensures left <= room && |coef.sent| == |old(coef.sent)| + (room - left) && coef.scan == old(coef.scan)
    {
      done, left := SendRow(room);
      hide CoefControllers.Controller.Valid, PrepController.Valid, GroupAt, Fixed, Buffered;
      if done {
        inRow := Finish(inRowCtr);
      } else {
        inRow := Suspend(inRowCtr);
      }
    }

    /** process_data_simple_main. `room` is how many MCUs the entropy coder accepts
        before it suspends. */
    method ProcessData(input: seq<Row>, inRowsAvail: nat, room: nat) returns (inRow: nat, left: nat)
      requires Valid() && Follows(input, inRowsAvail, prep.image, nextScanline)
      modifies `curIMcuRow, `rowgroupCtr, `suspended, prep, prep.samples, coef, buffer
      ensures Stopped(inRow) && left <= room && |coef.sent| == |old(coef.sent)| + (room - left)
              && coef.scan == old(coef.scan)
      ensures suspended ==> left == 0
      ensures !suspended && curIMcuRow < totalIMcuRows ==> inRow >= inRowsAvail
      ensures inRow <= (if old(suspended) && inRowsAvail == 0 then 1 else inRowsAvail)
      ensures inRowsAvail == 0 ==> prep.rowsToGo == old(prep.rowsToGo)
    {
      Entry();
      hide Between, Stopped, Full, Linked, Valid, Taken, Follows, CoefControllers.Controller.Valid,
           PrepController.Valid, GroupAt;
      inRow, left := 0, room;
      while curIMcuRow < totalIMcuRows
        invariant Between(inRow) && left <= room && |coef.sent| == |old(coef.sent)| + (room - left)
                  && coef.scan == old(coef.scan)
        invariant !suspended || (inRow == 0 && suspended == old(suspended))
        invariant inRow <= (if old(suspended) && inRowsAvail == 0 then 1 else inRowsAvail)
        invariant inRowsAvail == 0 ==> prep.rowsToGo == old(prep.rowsToGo)
        decreases totalIMcuRows - curIMcuRow
      {
        inRow := Refill(input, inRow, inRowsAvail);
        if rowgroupCtr != DCTSIZE {
          return;
        }
        var done;
        inRow, done, left := Send(inRow, left);
        if !done {
          return;
        }
      }
      Exit(inRow);
    }

    lemma Entry()
      requires Valid()
      ensures Between(0)
    {
      AllTaken();
      hide CoefControllers.Controller.Valid, PrepController.Valid, GroupAt, Covered;
    }

    /** What a call without rows counts when it resumes. */
    lemma Resumed(inRow: nat, toGo: nat)
      requires Stopped(inRow) && prep.rowsToGo == toGo && nextScanline + toGo == imageHeight - 1
      ensures inRow == if suspended then 0 else 1
    {
      hide CoefControllers.Controller.Valid, PrepController.Valid, GroupAt, Covered;
    }

    lemma OneRowUncounted()
      requires Valid() && suspended
      ensures nextScanline + prep.rowsToGo == imageHeight - 1
    {
      hide CoefControllers.Controller.Valid, PrepController.Valid, GroupAt, Covered;
    }

    lemma Exit(inRow: nat)
      requires Between(inRow) && curIMcuRow >= totalIMcuRows
      ensures Stopped(inRow) && !suspended && curIMcuRow == totalIMcuRows
    {
      hide CoefControllers.Controller.Valid, PrepController.Valid, GroupAt, Covered;
    }

    /** next_scanline reaches the image height only when the last iMCU row has been
        compressed. */
    lemma WrittenSoFar()
      requires Valid()
      ensures 0 <= nextScanline <= imageHeight
      ensures nextScanline == imageHeight <==> curIMcuRow == totalIMcuRows
    {
      TakenBounds();
      hide CoefControllers.Controller.Valid, PrepController.Valid, GroupAt, Covered;
    }

    lemma TakenBounds()
      requires Linked()
      ensures prep.rowsToGo <= imageHeight && (rowgroupCtr > 0 ==> Taken() > 0)
    {
      hide GroupAt, Covered;
    }

    method Advance(rows: nat)
      requires Stopped(rows)
      modifies `nextScanline
      ensures Valid() && nextScanline == old(nextScanline) + rows
    {
      hide CoefControllers.Controller.Valid, PrepController.Valid, GroupAt, Covered;
      nextScanline := nextScanline + rows;
    }

    /** The MCUs of the whole image. */
    ghost function Everything(): (mcus: seq<seq<McuBlocks.Block>>)
      requires coef.Valid()
      reads this, coef
    {
      McuBlocks.AllMcus(coef.image, coef.scan, |coef.image|)
    }

    lemma SomeMissing()
      requires Valid() && (suspended || nextScanline < imageHeight)
      ensures |coef.sent| < |Everything()|
    {
      WrittenSoFar();
      hide PrepController.Valid, GroupAt, Covered, CoefControllers.FrameImage, GoodScan, McuBlocks.AllMcus,
           CoefControllers.StoredUpto, McuBlocks.GoodStrip;
      CoefControllers.Unfinished(coef.image, coef.scan, coef.iMcuRowNum, coef.mcuRowsPerIMcuRow, coef.mcuVertOffset,
                                 coef.mcuCtr, coef.sent);
    }

    /** jpeg_write_scanlines. It returns the number of rows written: all rows that it is
        given and that the image still needs, unless the entropy coder suspends. It is
        never more than the rows given, except that a call without rows that ends a
        suspension returns 1, for the row that the suspended call had not counted. */
    method WriteScanlines(scanlines: seq<Row>, numLines: nat, room: nat) returns (written: nat)
      requires Valid() && numLines <= |scanlines|
      requires forall j :: 0 <= j < numLines && nextScanline + j < |prep.image| ==>
                 scanlines[j] == prep.image[nextScanline + j]
      modifies this, prep, prep.samples, coef, buffer
      ensures Valid() && coef.Valid() && nextScanline == old(nextScanline) + written <= imageHeight
      ensures nextScanline == imageHeight <==> curIMcuRow == totalIMcuRows
      ensures |coef.sent| - |old(coef.sent)| <= room && coef.scan == old(coef.scan)
      ensures !suspended ==> written >= numLines || nextScanline == imageHeight
      ensures suspended ==> |coef.sent| - |old(coef.sent)| == room && |coef.sent| < |Everything()|
      ensures written <= numLines || (old(suspended) && numLines == 0 && written == 1)
      ensures old(suspended) && numLines == 0 ==> written == if suspended then 0 else 1
    {
      WrittenSoFar();
      hide Stopped, Valid, Linked, CoefControllers.Controller.Valid, PrepController.Valid, GroupAt, Covered;
      var rowsLeft := imageHeight - nextScanline;
      var n := if numLines > rowsLeft then rowsLeft else numLines;
      ghost var resuming, toGo := suspended, prep.rowsToGo;
      if suspended {
        OneRowUncounted();
      }
      var left;
      written, left := ProcessData(scanlines, n, room);
      if resuming && numLines == 0 {
        Resumed(written, toGo);
      }
      Advance(written);
      WrittenSoFar();
      if suspended {
        SomeMissing();
      }
    }
  }

  /** When next_scanline has reached the image height, the entropy coder has accepted
      every MCU of the image, once and in order. */
  lemma ImageFinished<Row(0,!new)>(c: Compressor<Row>)
    requires c.Valid() && c.nextScanline == c.imageHeight
    ensures c.coef.sent == McuBlocks.AllMcus(c.coef.image, c.coef.scan, c.totalIMcuRows)
    ensures c.prep.rowsToGo == 0 && c.prep.groups == DCTSIZE * c.totalIMcuRows
  {
    c.WrittenSoFar();
    hide PrepController.Valid, GroupAt, Covered, CoefControllers.FrameImage, GoodScan, McuBlocks.AllMcus,
         CoefControllers.StoredUpto, McuBlocks.GoodStrip;
  }

  /** Two compressions of the same image with the same settings send the same MCUs,
      however the rows were divided into calls and whenever the entropy coder suspended
      them. */
  lemma ChunkingDoesNotMatter<Row(0,!new)>(a: Compressor<Row>, b: Compressor<Row>)
    requires a.Valid() && a.nextScanline == a.imageHeight && b.Valid() && b.nextScanline == b.imageHeight
    requires a.prep.image == b.prep.image && a.prep.v == b.prep.v && a.prep.context == b.prep.context
    requires a.fdct == b.fdct && a.coef.scan == b.coef.scan && a.totalIMcuRows == b.totalIMcuRows
    ensures a.coef.sent == b.coef.sent
  {
    ImageFinished(a);
    ImageFinished(b);
    SameBlocks(a, b);
  }

  lemma SameBlocks<Row(0,!new)>(a: Compressor<Row>, b: Compressor<Row>)
    requires a.Valid() && b.Valid()
    requires a.prep.image == b.prep.image && a.prep.v == b.prep.v && a.prep.context == b.prep.context
    requires a.fdct == b.fdct && a.totalIMcuRows == b.totalIMcuRows
    ensures a.coef.image == b.coef.image
  {
    hide PrepController.Valid, GroupAt, Covered, CoefControllers.Controller.Valid, GroupsOf;
    forall i | 0 <= i < a.totalIMcuRows ensures a.coef.image[i] == b.coef.image[i] {
      assert a.coef.image[i] == a.fdct(GroupsOf(a.prep.image, a.prep.v, a.prep.context, i));
    }
  }

  // ---- A call without rows that returns 1 ----

  function OneBlock(): McuBlocks.Strip { [[[McuBlocks.Block(0, [])]]] }

  /** An 8 by 8 image of one component is one block, whatever its sampling factors. */
  lemma OneBlockFrame(f: Frame, sampling: seq<Sampling>)
    requires GoodFrame(f, 8, 8, sampling) && sampling == [Sampling(1, 1)]
    ensures CoefControllers.ImageBlocks(f, [OneBlock()]) && f.maxV == 1 && |f.comps| == 1
  {
    assert f.maxH == 1 && f.maxV == 1;
    assert Sized(f.comps[0], sampling[0], 8, 8, 1, 1);
    EightByEight();
    hide DivRoundUp, LastPart;
    var c := f.comps[0];
    assert McuBlocks.BlockRows(c, 1, 0) == 1;
    assert CoefControllers.FramePlane(c, OneBlock()[0], 1, 0);
  }

  lemma EightByEight()
    ensures DivRoundUp(8, 8) == 1 && DivRoundUp(8 * 1, 1 * DCTSIZE) == 1 && LastPart(1, 1) == 1
  {
  }

  /** A compressor for an 8 by 8 image. */
  method SmallCompressor(rows: seq<int>) returns (c: Compressor<int>)
    requires |rows| == 8
    ensures c.Valid() && c.coef.Valid() && fresh(c) && fresh(c.prep) && fresh(c.prep.samples) && fresh(c.coef)
            && fresh(c.buffer)
    ensures c.prep.image == rows && c.nextScanline == 0 && c.imageHeight == 8 && c.coef.sent == [] && !c.suspended
  {
    hide CoefControllers.Controller.Valid, PrepController.Valid, GoodFrame, GoodScan, DivRoundUp,
         CoefControllers.ImageBlocks, Compressor.Valid;
    var sampling := [Sampling(1, 1)];
    var r := InitialSetup(8, 8, 1, 8, sampling);
    var f := r.value;
    OneBlockFrame(f, sampling);
    var setup := PerScanSetup(f, [0], 8, 8, 0, 0, sampling);
    var coef := new CoefControllers.Controller(f, setup.value.scan, [0], [OneBlock()], 8, 8, sampling);
    var prep := new PrepController<int>(rows, 8, 1, false);
    c := new Compressor<int>(prep, coef, 8, groups => OneBlock(), false, 8, sampling);
  }

  lemma SomethingToSend(c: Compressor<int>)
    requires c.Valid()
    ensures |c.Everything()| > 0
  {
    hide PrepController.Valid, GroupAt, CoefControllers.FrameImage, GoodScan, McuBlocks.AllMcus, McuBlocks.McusTo,
         CoefControllers.StoredUpto, McuBlocks.GoodStrip;
    var coef := c.coef;
    RowsOf(coef.image, coef.scan);
    CoefControllers.Unfinished(coef.image, coef.scan, 0, McuBlocks.McuRows(coef.scan, 0), 0, 0, []);
  }

  lemma AllSent(c: Compressor<int>)
    requires c.Valid() && c.coef.Valid() && c.nextScanline == c.imageHeight
    ensures c.coef.sent == c.Everything()
  {
    ImageFinished(c);
    hide PrepController.Valid, CoefControllers.Controller.Valid, GroupAt, McuBlocks.AllMcus, Covered;
  }

  lemma RowsOf(image: seq<McuBlocks.Strip>, scan: Scan)
    requires McuBlocks.GoodImage(image, scan) && ScanShape(scan)
    ensures CoefControllers.Progress(image, scan, 0, McuBlocks.McuRows(scan, 0), 0, 0, [])
  {
    CoefControllers.RowsPositive(scan, 0);
  }

  /** The entropy coder suspends at once, and then takes one MCU at a time; the calls
      that follow bring no rows, and the last of them returns 1. */
  method ResumeWithoutRows(rows: seq<int>) returns (first: nat, second: nat)
    requires |rows| == 8
    ensures first < 8 && second == 1
  {
    hide CoefControllers.Controller.Valid, PrepController.Valid, Compressor.Valid, McuBlocks.AllMcus;
    var c := SmallCompressor(rows);
    first := c.WriteScanlines(rows, 8, 0);
    SomethingToSend(c);
    if c.nextScanline == 8 {
      AllSent(c);
    }
    second := 0;
    while c.suspended
      invariant c.Valid() && c.coef.Valid() && fresh(c) && fresh(c.prep) && fresh(c.prep.samples) && fresh(c.coef)
                && fresh(c.buffer)
      invariant c.suspended || second == 1
      decreases c.suspended, |c.Everything()| - |c.coef.sent|
    {
      c.SomeMissing();
      second := c.WriteScanlines([], 0, 1);
    }
  }
}
