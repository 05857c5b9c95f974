/** Reading a whole progressive Huffman scan back, as jdphuff.c does: the MCU routines,
    end-of-band runs across MCUs, and restarts. */
module PhuffScan {
  import opened Numbers
  import opened ByteSource
  import opened BitPacking
  import opened HuffItems
  import opened HuffReading
  import opened PhuffReading
  import Binarisation
  import B = AcBand
  import M = McuCoding
  import P = PhuffItems
  import S = ScanCoding

  /** What the scan does to a block does not depend on how it is coded. */
  function Effect(sc: P.Scan): (m: M.Scan) {
    var kind := match sc.kind
      case DcFirst => M.DcFirst
      case AcFirst => M.AcFirst
      case DcRefine => M.DcRefine
      case AcRefine => M.AcRefine;
    var none := seq(Binarisation.NUM_ARITH_TBLS, t => 0);
    M.Scan(kind, sc.ly.dcTbl, sc.ly.acTbl, sc.ly.membership, none, none, none, sc.ss, sc.se, sc.al)
  }

  // ---- MCUs of DC scans ----

  datatype McuResult = Stuck | Progressed(blks: Mcu, last: seq<int>, left: nat, rest: seq<bit>)

  /** decode_mcu_DC_first and decode_mcu_DC_refine, from block i on. */
  ghost function ReadDcBlocks(cd: Codes, sc: P.Scan, x: seq<bit>, last: seq<int>, i: nat, curs: Mcu): (r: McuResult)
    requires GoodCodes(cd) && P.GoodScan(sc) && |last| == |sc.ly.dcTbl| && i <= |sc.ly.membership| == |curs|
    ensures r.Progressed? ==> |r.last| == |last|
    decreases |curs| - i
  {
    if i == |curs| then Progressed(curs, last, 0, x)
    else if sc.kind.DcRefine? then
      if x == [] then Stuck
      else ReadDcBlocks(cd, sc, x[1..], last, i + 1, curs[i := RefinedDc(curs[i], x[0], sc.al)])
    else
      var c := sc.ly.membership[i];
      var t := DcTable(sc.ly.dcTbl[c]);
      var o := ReadSymbol(cd.co[t], cd.si[t], x, 0);
      if o.NoSymbol? then Stuck
      else
        var d := ReadBits(o.rest, o.s);
        if d.NoBits? then Stuck
        else
          var v := last[c] + Extend(d.v, o.s);
          ReadDcBlocks(cd, sc, d.rest, last[c := v], i + 1, curs[i := FirstDc(curs[i], v, sc.al)])
  }

  function RefinedDc(cur: Block, c: bit, al: nat): (b: Block) {
    if c == 1 then cur[0 := M.OrBit(cur[0], al)] else cur
  }

  function FirstDc(cur: Block, v: int, al: nat): (b: Block) {
    cur[0 := v * Pow2(al)]
  }

  /** A DC difference is read back. */
  lemma DcDiffRead(cd: Codes, tbl: nat, v: int, more: seq<Item>, y: seq<bit>) returns (d: nat)
    requires tbl < NUM_HUFF_TBLS && Readable(cd, P.DcDiffItems(tbl, v) + more)
    ensures Readable(cd, more)
    ensures var n := NBits(Abs(v));
            && ReadSymbol(cd.co[DcTable(tbl)], cd.si[DcTable(tbl)], BitsFor(cd, P.DcDiffItems(tbl, v) + more) + y,
                          0).Found?
            && ReadSymbol(cd.co[DcTable(tbl)], cd.si[DcTable(tbl)], BitsFor(cd, P.DcDiffItems(tbl, v) + more) + y, 0).s
               == n
            && ReadBits(ReadSymbol(cd.co[DcTable(tbl)], cd.si[DcTable(tbl)],
                                   BitsFor(cd, P.DcDiffItems(tbl, v) + more) + y, 0).rest, n)
               == Bits(d, BitsFor(cd, more) + y)
            && Extend(d, n) == v
  {
    ExtendIs(v);
    hide BitsFor, NBits, ReadSymbol, ReadBits, LowBits, Extend, Legible;
    var n := NBits(Abs(v));
    d := LowBits(v, n);
    if v == 0 {
      NoBitsToRead(BitsFor(cd, more) + y);
      assert P.DcDiffItems(tbl, v) + more == [Symbol(DcTable(tbl), n)] + more;
      SymbolRead(cd, DcTable(tbl), n, more, y);
    } else {
      assert P.DcDiffItems(tbl, v) + more == [Symbol(DcTable(tbl), n)] + ([ValueItem(v)] + more);
      SymbolRead(cd, DcTable(tbl), n, [ValueItem(v)] + more, y);
      ExtraRead(cd, d, n, more, y);
    }
  }

  lemma NoBitsToRead(x: seq<bit>)
    ensures NBits(Abs(0)) == 0 && LowBits(0, 0) == 0 && ReadBits(x, 0) == Bits(0, x)
  {
    assert x[..0] == [] && x[0..] == x && Value([]) == 0;
    assert Pow2(0) == 1;
  }

  /** One block of a first DC scan. */
  lemma DcFirstStep(cd: Codes, sc: P.Scan, last: seq<int>, i: nat, mcu: Mcu, curs: Mcu, y: seq<bit>)
    requires P.GoodScan(sc) && sc.kind.DcFirst? && |last| == |sc.ly.dcTbl| && i < |sc.ly.membership| == |curs| == |mcu|
    requires Readable(cd, P.DcMcuItems(sc, last, i, mcu))
    ensures var v := M.DcShift(mcu[i][0], sc.al);
            var next := last[sc.ly.membership[i] := v];
            && Readable(cd, P.DcMcuItems(sc, next, i + 1, mcu))
            && ReadDcBlocks(cd, sc, BitsFor(cd, P.DcMcuItems(sc, last, i, mcu)) + y, last, i, curs)
               == ReadDcBlocks(cd, sc, BitsFor(cd, P.DcMcuItems(sc, next, i + 1, mcu)) + y, next, i + 1,
                               curs[i := FirstDc(curs[i], v, sc.al)])
  {
    DcTables(sc, i);
    hide P.DcMcuItems, P.DcDiffItems, M.DcShift, BitsFor, Legible, ReadSymbol, ReadBits, Extend, NBits, FirstDc,
         ReadDcBlocks, P.GoodScan;
    var c, v := sc.ly.membership[i], M.DcShift(mcu[i][0], sc.al);
    DcItemsAre(sc, last, i, mcu, c, v);
    var more := P.DcMcuItems(sc, last[c := v], i + 1, mcu);
    var d := DcDiffRead(cd, sc.ly.dcTbl[c], v - last[c], more, y);
    DcReadStep(cd, sc, BitsFor(cd, P.DcMcuItems(sc, last, i, mcu)) + y, last, i, curs, d, BitsFor(cd, more) + y, v);
  }

  lemma DcTables(sc: P.Scan, i: nat)
    requires P.GoodScan(sc) && i < |sc.ly.membership|
    ensures sc.ly.membership[i] < |sc.ly.dcTbl| && sc.ly.dcTbl[sc.ly.membership[i]] < NUM_HUFF_TBLS
  {
  }

  lemma DcItemsAre(sc: P.Scan, last: seq<int>, i: nat, mcu: Mcu, c: nat, v: int)
    requires P.GoodScan(sc) && sc.kind.DcFirst? && |last| == |sc.ly.dcTbl| && i < |sc.ly.membership| == |mcu|
    requires c == sc.ly.membership[i] < |last| && v == M.DcShift(mcu[i][0], sc.al)
    ensures P.DcMcuItems(sc, last, i, mcu)
            == P.DcDiffItems(sc.ly.dcTbl[c], v - last[c]) + P.DcMcuItems(sc, last[c := v], i + 1, mcu)
  {
    hide P.DcDiffItems, M.DcShift, P.GoodScan;
  }

  lemma DcReadStep(cd: Codes, sc: P.Scan, x: seq<bit>, last: seq<int>, i: nat, curs: Mcu, d: nat, y: seq<bit>, v: int)
    requires GoodCodes(cd) && P.GoodScan(sc) && sc.kind.DcFirst? && |last| == |sc.ly.dcTbl|
             && i < |sc.ly.membership| == |curs|
    requires var t := DcTable(sc.ly.dcTbl[sc.ly.membership[i]]);
             var o := ReadSymbol(cd.co[t], cd.si[t], x, 0);
             o.Found? && ReadBits(o.rest, o.s) == Bits(d, y) && v == last[sc.ly.membership[i]] + Extend(d, o.s)
    ensures ReadDcBlocks(cd, sc, x, last, i, curs)
            == ReadDcBlocks(cd, sc, y, last[sc.ly.membership[i] := v], i + 1, curs[i := FirstDc(curs[i], v, sc.al)])
  {
    hide ReadSymbol, ReadBits, Extend, FirstDc;
  }

  /** One block of a DC refinement scan. */
  lemma DcRefineStep(cd: Codes, sc: P.Scan, last: seq<int>, i: nat, mcu: Mcu, curs: Mcu, y: seq<bit>)
    requires P.GoodScan(sc) && sc.kind.DcRefine? && |last| == |sc.ly.dcTbl| && i < |sc.ly.membership| == |curs| == |mcu|
    requires Readable(cd, P.DcMcuItems(sc, last, i, mcu))
    ensures var c: bit := M.DcShift(mcu[i][0], sc.al) % 2;
            && Readable(cd, P.DcMcuItems(sc, last, i + 1, mcu))
            && ReadDcBlocks(cd, sc, BitsFor(cd, P.DcMcuItems(sc, last, i, mcu)) + y, last, i, curs)
               == ReadDcBlocks(cd, sc, BitsFor(cd, P.DcMcuItems(sc, last, i + 1, mcu)) + y, last, i + 1,
                               curs[i := RefinedDc(curs[i], c, sc.al)])
  {
    var c: bit := M.DcShift(mcu[i][0], sc.al) % 2;
    var more := P.DcMcuItems(sc, last, i + 1, mcu);
    assert P.DcMcuItems(sc, last, i, mcu) == [Extra(c, 1)] + more;
    hide P.DcMcuItems, M.DcShift, Legible, RefinedDc;
    PhuffReading.FirstBit(cd, c, more);
    ReadableSuffix(cd, [Extra(c, 1)], more);
    hide BitsFor;
    Associate([c], BitsFor(cd, more), y);
    var x := [c] + (BitsFor(cd, more) + y);
    assert x[0] == c && x[1..] == BitsFor(cd, more) + y;
  }

  lemma DcTarget(sc: P.Scan, x: Block, cur: Block)
    ensures sc.kind.DcFirst? ==> FirstDc(cur, M.DcShift(x[0], sc.al), sc.al) == M.Target(Effect(sc), x, cur)
    ensures sc.kind.DcRefine? && M.Prior(Effect(sc), x, cur)
            ==> RefinedDc(cur, M.DcShift(x[0], sc.al) % 2, sc.al) == M.Target(Effect(sc), x, cur)
  {
    M.DcBit(x[0], sc.al);
    hide Pow2, M.DcShift, M.OrBit;
  }

  /** All blocks from i on hold what the scan adds to them. */
  lemma {:induction false} DcBlocksRead(cd: Codes, sc: P.Scan, last: seq<int>, i: nat, mcu: Mcu, curs: Mcu, y: seq<bit>)
    requires P.GoodScan(sc) && P.IsDc(sc) && |last| == |sc.ly.dcTbl| && i <= |sc.ly.membership| == |curs| == |mcu|
    requires Readable(cd, P.DcMcuItems(sc, last, i, mcu))
    ensures var r := ReadDcBlocks(cd, sc, BitsFor(cd, P.DcMcuItems(sc, last, i, mcu)) + y, last, i, curs);
            && r.Progressed? && r.last == P.DcMcuLast(sc, last, i, mcu) && r.left == 0 && r.rest == y
            && |r.blks| == |curs| && r.blks[..i] == curs[..i] && M.Improved(Effect(sc), mcu, curs, r.blks, i)
    decreases |mcu| - i
  {
    hide BitsFor, Legible, M.DcShift, M.Prior, M.Target, FirstDc, RefinedDc, ReadDcBlocks, P.DcMcuItems, Effect;
    if i == |mcu| {
      DcEnd(cd, sc, last, mcu, curs, y);
    } else {
      DcTarget(sc, mcu[i], curs[i]);
      DcMcuLastStep(sc, last, i, mcu);
      hide P.DcMcuLast, P.GoodScan;
      if sc.kind.DcFirst? {
        DcFirstStep(cd, sc, last, i, mcu, curs, y);
        var v := M.DcShift(mcu[i][0], sc.al);
        DcBlocksRead(cd, sc, last[sc.ly.membership[i] := v], i + 1, mcu, curs[i := FirstDc(curs[i], v, sc.al)], y);
      } else {
        DcRefineStep(cd, sc, last, i, mcu, curs, y);
        DcBlocksRead(cd, sc, last, i + 1, mcu, curs[i := RefinedDc(curs[i], M.DcShift(mcu[i][0], sc.al) % 2, sc.al)],
                     y);
      }
    }
  }

  lemma DcEnd(cd: Codes, sc: P.Scan, last: seq<int>, mcu: Mcu, curs: Mcu, y: seq<bit>)
    requires GoodCodes(cd) && P.GoodScan(sc) && |last| == |sc.ly.dcTbl| && |sc.ly.membership| == |curs| == |mcu|
    ensures ReadDcBlocks(cd, sc, BitsFor(cd, P.DcMcuItems(sc, last, |mcu|, mcu)) + y, last, |mcu|, curs)
            == Progressed(curs, last, 0, y)
    ensures P.DcMcuLast(sc, last, |mcu|, mcu) == last
  {
    assert [] + y == y;
  }

  lemma DcMcuLastStep(sc: P.Scan, last: seq<int>, i: nat, mcu: Mcu)
    requires P.GoodScan(sc) && |last| == |sc.ly.dcTbl| && i < |mcu| == |sc.ly.membership| && P.IsDc(sc)
    ensures sc.ly.membership[i] < |last|
    ensures sc.kind.DcFirst? ==> P.DcMcuLast(sc, last, i, mcu)
                                 == P.DcMcuLast(sc, last[sc.ly.membership[i] := M.DcShift(mcu[i][0], sc.al)], i + 1,
                                                mcu)
    ensures sc.kind.DcRefine? ==> P.DcMcuLast(sc, last, i, mcu) == P.DcMcuLast(sc, last, i + 1, mcu)
  {
  }

  // ---- MCUs ----

  /** An MCU with the predictions `last`, when `left` blocks of an end-of-band run are
      still to come. */
  ghost function ReadMcu(cd: Codes, sc: P.Scan, x: seq<bit>, last: seq<int>, left: nat, curs: Mcu): (r: McuResult)
    requires GoodCodes(cd) && P.GoodScan(sc) && |last| == |sc.ly.dcTbl| && |sc.ly.membership| == |curs|
    ensures r.Progressed? ==> |r.last| == |last|
  {
    if P.IsDc(sc) then ReadDcBlocks(cd, sc, x, last, 0, curs)
    else
      var tbl := sc.ly.acTbl[0];
      var o := if sc.kind.AcFirst? then ReadFirstBlock(cd, tbl, sc.ss, sc.se, sc.al, left, x, curs[0])
               else ReadRefineBlock(cd, tbl, sc.ss, sc.se, sc.al, left, x, curs[0]);
      if o.BadBand? then Stuck else Progressed([o.b], last, o.left, o.rest)
  }

  /** The same, for an encoder that has e pending. */
  ghost function McuFrom(cd: Codes, sc: P.Scan, e: P.Eob, x: seq<bit>, last: seq<int>, curs: Mcu): (r: McuResult)
    requires GoodCodes(cd) && P.GoodScan(sc) && |last| == |sc.ly.dcTbl| && |sc.ly.membership| == |curs|
    ensures r.Progressed? ==> |r.last| == |last|
  {
    var h := Pending(cd, sc, e, x);
    if h.BadHead? then Stuck else ReadMcu(cd, sc, h.rest, last, h.left, curs)
  }

  /** The decoder between MCUs, when the encoder has e pending. */
  ghost function Pending(cd: Codes, sc: P.Scan, e: P.Eob, x: seq<bit>): (h: HeadOut)
    requires GoodCodes(cd) && P.GoodScan(sc)
  {
    Resume(cd, P.EobTable(sc), e, x)
  }

  ghost predicate Nameable(sc: P.Scan, mcu: Mcu)
    requires P.GoodScan(sc) && |mcu| == |sc.ly.membership|
  {
    sc.kind.AcFirst? ==> NameableBand(M.ShiftBlock(mcu[0], sc.al), sc.ss, sc.se)
  }

  /** What the decoder has after an MCU after which the encoder has e pending. */
  ghost predicate Reads(cd: Codes, sc: P.Scan, r: McuResult, mcu: Mcu, curs: Mcu, last: seq<int>, e: P.Eob, y: seq<bit>)
    requires GoodCodes(cd) && P.GoodScan(sc)
  {
    var h := Pending(cd, sc, e, y);
    h.Head? && r.Progressed? && r.last == last && r.left == h.left && r.rest == h.rest
    && M.Improved(Effect(sc), mcu, curs, r.blks, 0)
  }

  lemma AcTarget(sc: P.Scan, x: Block, cur: Block)
    requires P.GoodScan(sc) && M.Prior(Effect(sc), x, cur)
    ensures var t := M.ShiftBlock(x, sc.al);
            && (sc.kind.AcFirst? ==> B.Fill(cur, t, sc.ss, sc.se, sc.al) == M.Target(Effect(sc), x, cur))
            && (sc.kind.AcRefine? ==> HoldsFrom(cur, t, sc.ss, sc.se, sc.al)
                                      && PutUpto(cur, t, sc.ss, sc.se + 1, sc.al) == M.Target(Effect(sc), x, cur))
  {
    hide Pow2, M.AcShift, B.DropBit;
    var t := M.ShiftBlock(x, sc.al);
    if sc.kind.AcFirst? {
      M.FillIsPut(cur, t, sc.ss, sc.se, sc.al);
    } else if sc.kind.AcRefine? {
      forall j | sc.ss <= j <= sc.se && j < DCTSIZE2 ensures cur[j] == B.DropBit(t[j]) * Pow2(sc.al) {
        M.ShiftOnceMore(x[j], sc.al);
      }
    }
  }

  lemma AcShape(sc: P.Scan)
    requires P.GoodScan(sc) && !P.IsDc(sc)
    ensures 1 <= sc.ss <= sc.se < DCTSIZE2 && |sc.ly.acTbl| == 1 && |sc.ly.membership| == 1
            && sc.ly.acTbl[0] < NUM_HUFF_TBLS
  {
  }

  /** From a band to its MCU. */
  lemma BandReads(cd: Codes, sc: P.Scan, last: seq<int>, e: P.Eob, x: seq<bit>, mcu: Mcu, curs: Mcu, f: P.Eob,
                  y: seq<bit>, b: Block)
    requires GoodCodes(cd) && P.GoodScan(sc) && !P.IsDc(sc) && |last| == |sc.ly.dcTbl|
             && |mcu| == |curs| == |sc.ly.membership| == 1
    requires 1 <= sc.ss <= sc.se < DCTSIZE2 && |sc.ly.acTbl| == 1 && sc.ly.acTbl[0] < NUM_HUFF_TBLS
    requires b == M.Target(Effect(sc), mcu[0], curs[0]) && Pending(cd, sc, f, y).Head?
    requires (if sc.kind.AcFirst? then FirstBlockFrom(cd, sc.ly.acTbl[0], sc.ss, sc.se, sc.al, e, x, curs[0])
              else RefineBlockFrom(cd, sc.ly.acTbl[0], sc.ss, sc.se, sc.al, e, x, curs[0]))
             == Done(cd, sc.ly.acTbl[0], f, y, b)
    ensures Reads(cd, sc, McuFrom(cd, sc, e, x, last, curs), mcu, curs, last, f, y)
  {
    hide Resume, P.GoodScan, M.Target, M.Prior, Effect, ReadFirstBlock, ReadRefineBlock;
  }

  lemma AcMcuRead(cd: Codes, sc: P.Scan, last: seq<int>, e: P.Eob, mcu: Mcu, curs: Mcu, y: seq<bit>)
    requires P.GoodScan(sc) && !P.IsDc(sc) && |last| == |sc.ly.dcTbl| && |mcu| == |curs| == |sc.ly.membership|
             && P.Bounded(e)
    requires Nameable(sc, mcu) && M.Prior(Effect(sc), mcu[0], curs[0])
    requires var o := P.AcMcu(sc, e, mcu); Readable(cd, o.x) && Pending(cd, sc, o.e, y).Head?
    ensures var o := P.AcMcu(sc, e, mcu);
            Reads(cd, sc, McuFrom(cd, sc, e, BitsFor(cd, o.x) + y, last, curs), mcu, curs, last, o.e, y)
  {
    var t, tbl := M.ShiftBlock(mcu[0], sc.al), sc.ly.acTbl[0];
    AcTarget(sc, mcu[0], curs[0]);
    AcShape(sc);
    hide P.GoodScan, BitsFor, Legible, Resume, P.FirstFrom, P.RefineFrom, M.ShiftBlock, NameableBand, M.Prior, M.Target,
         B.Fill, PutUpto, HoldsFrom, Effect, P.LastNew, Reads, McuFrom, FirstBlockFrom, RefineBlockFrom, P.Bounded;
    var o := P.AcMcu(sc, e, mcu);
    if sc.kind.AcFirst? {
      FirstBlockRead(cd, tbl, sc.ss, sc.se, sc.al, t, e, curs[0], y);
    } else {
      RefineBlockRead(cd, tbl, sc.ss, sc.se, sc.al, t, e, curs[0], y);
    }
    BandReads(cd, sc, last, e, BitsFor(cd, o.x) + y, mcu, curs, o.e, y, M.Target(Effect(sc), mcu[0], curs[0]));
  }

  /** An MCU is read back, whatever is pending before and after it. */
  lemma McuRead(cd: Codes, sc: P.Scan, last: seq<int>, e: P.Eob, mcu: Mcu, curs: Mcu, y: seq<bit>)
    requires P.GoodScan(sc) && |last| == |sc.ly.dcTbl| && |mcu| == |curs| == |sc.ly.membership| && P.Bounded(e)
    requires (P.IsDc(sc) ==> e.run == 0) && Nameable(sc, mcu) && M.PriorMcu(Effect(sc), mcu, curs, 0)
    requires var c := P.McuCode(sc, last, e, mcu); Readable(cd, c.x) && Pending(cd, sc, c.e, y).Head?
    ensures var c := P.McuCode(sc, last, e, mcu);
            Reads(cd, sc, McuFrom(cd, sc, e, BitsFor(cd, c.x) + y, last, curs), mcu, curs, c.last, c.e, y)
  {
    hide BitsFor, Legible, P.DcMcuItems, P.DcMcuLast, P.AcMcu, Nameable, M.Prior, M.Improved, ReadDcBlocks,
         ReadRunLength;
    if P.IsDc(sc) {
      DcBlocksRead(cd, sc, last, 0, mcu, curs, y);
    } else {
      AcMcuRead(cd, sc, last, e, mcu, curs, y);
    }
  }

  // ---- Scans ----

  /** The decoder between MCUs. */
  datatype Spot = Spot(last: seq<int>, left: nat, togo: nat, num: nat)

  ghost predicate GoodSpot(sc: P.Scan, h: Spot) {
    |h.last| == |sc.ly.dcTbl| && h.num < 8
  }

  predicate SpotAtRestart(interval: nat, h: Spot) { interval > 0 && h.togo == 0 }

  function Togo(interval: nat, togo: nat): (n: nat) {
    if interval == 0 then togo else if togo == 0 then interval - 1 else togo - 1
  }

  function Num(interval: nat, togo: nat, num: nat): (n: nat) {
    if interval > 0 && togo == 0 then (num + 1) % 8 else num
  }

  /** The MCUs that go into curs: x are the bits left of the current restart interval,
      and `rest` are the bytes from the next marker on. process_restart forgets the
      predictions and the end-of-band run. */
  ghost function ReadScan(cd: Codes, sc: P.Scan, interval: nat, h: Spot, x: seq<bit>, rest: seq<byte>,
                          curs: seq<Mcu>): (r: ScanOut)
    requires GoodCodes(cd) && P.GoodScan(sc) && GoodSpot(sc, h) && P.Shaped(sc, curs)
    decreases |curs|
  {
    if curs == [] then ScanOut([])
    else if SpotAtRestart(interval, h) then
      if |rest| >= 2 && rest[..2] == RestartMarker(h.num) then
        var run := ReadRun(rest[2..]);
        ReadNext(cd, sc, interval, Spot(ResetLast(sc, h.last), 0, h.togo, h.num), BitsOf(run.u), run.rest, curs)
      else BadScan
    else ReadNext(cd, sc, interval, h, x, rest, curs)
  }

  function ResetLast(sc: P.Scan, last: seq<int>): (r: seq<int>) {
    if P.IsDc(sc) then seq(|sc.ly.dcTbl|, c => 0) else last
  }

  ghost function ReadNext(cd: Codes, sc: P.Scan, interval: nat, h: Spot, x: seq<bit>, rest: seq<byte>,
                          curs: seq<Mcu>): (r: ScanOut)
    requires GoodCodes(cd) && P.GoodScan(sc) && GoodSpot(sc, h) && P.Shaped(sc, curs) && curs != []
    decreases |curs|, 0
  {
    var o := ReadMcu(cd, sc, x, h.last, h.left, curs[0]);
    if o.Stuck? then BadScan
    else
      var next := Spot(o.last, o.left, Togo(interval, h.togo), Num(interval, h.togo, h.num));
      var more := ReadScan(cd, sc, interval, next, o.rest, rest, curs[1..]);
      if more.BadScan? then BadScan else ScanOut([o.blks] + more.mcus)
  }

  ghost predicate NameableScan(sc: P.Scan, mcus: seq<Mcu>)
    requires P.GoodScan(sc) && P.Shaped(sc, mcus)
  {
    forall i :: 0 <= i < |mcus| ==> Nameable(sc, mcus[i])
  }

  /** With the encoder at h, the decoder reads the bits x and then the bytes `rest`, and
      every block gets what the scan adds to it. */
  ghost predicate Continues(cd: Codes, sc: P.Scan, interval: nat, h: P.Progress, x: seq<bit>, rest: seq<byte>,
                            mcus: seq<Mcu>, curs: seq<Mcu>)
    requires GoodCodes(cd) && P.GoodScan(sc) && P.GoodProgress(sc, h) && P.Shaped(sc, curs)
  {
    var hd := Pending(cd, sc, h.e, x);
    hd.Head?
    && var o := ReadScan(cd, sc, interval, Spot(h.last, hd.left, h.togo, h.num), hd.rest, rest, curs);
       o.ScanOut? && S.ImprovedMcus(Effect(sc), mcus, curs, o.mcus)
  }

  /** The decoder, on the bytes s of a scan of which it has already read the bits xs. */
  ghost predicate ReadsBack(cd: Codes, sc: P.Scan, interval: nat, h: P.Progress, xs: seq<bit>, s: seq<byte>,
                            mcus: seq<Mcu>, curs: seq<Mcu>)
    requires GoodCodes(cd) && P.GoodScan(sc) && P.GoodProgress(sc, h) && P.Shaped(sc, curs)
  {
    var run := ReadRun(s);
    xs <= BitsOf(run.u) && Continues(cd, sc, interval, h, BitsOf(run.u)[|xs|..], run.rest, mcus, curs)
  }

  lemma ImprovedFirst(sc: M.Scan, mcus: seq<Mcu>, curs: seq<Mcu>, blks: Mcu, more: seq<Mcu>)
    requires mcus != [] && curs != [] && M.Improved(sc, mcus[0], curs[0], blks, 0)
    requires S.ImprovedMcus(sc, mcus[1..], curs[1..], more)
    ensures S.ImprovedMcus(sc, mcus, curs, [blks] + more)
  {
    hide M.Improved;
    forall i | 0 <= i < |mcus| ensures M.Improved(sc, mcus[i], curs[i], ([blks] + more)[i], 0) {
      if i > 0 {
        assert M.Improved(sc, mcus[1..][i - 1], curs[1..][i - 1], more[i - 1], 0);
      }
    }
  }

  /** The bits of the MCU after h. */
  ghost function McuBits(cd: Codes, sc: P.Scan, interval: nat, h: P.Progress, mcu: Mcu): (x: seq<bit>)
    requires P.GoodScan(sc) && P.GoodProgress(sc, h) && |mcu| == |sc.ly.membership|
  {
    BitsFor(cd, P.McuItems(sc, interval, h, mcu))
  }

  /** What the first MCU needs in order to be read. */
  ghost predicate FirstReadable(cd: Codes, sc: P.Scan, interval: nat, h: P.Progress, mcus: seq<Mcu>, curs: seq<Mcu>)
    requires P.GoodScan(sc) && P.GoodProgress(sc, h)
  {
    && mcus != [] && curs != [] && P.Shaped(sc, mcus) && P.Shaped(sc, curs) && (P.IsDc(sc) ==> h.e.run == 0)
    && Nameable(sc, mcus[0]) && M.PriorMcu(Effect(sc), mcus[0], curs[0], 0)
    && Readable(cd, P.McuItems(sc, interval, h, mcus[0]))
  }

  /** One MCU, then the rest of the scan. */
  lemma NextReads(cd: Codes, sc: P.Scan, interval: nat, h: P.Progress, y: seq<bit>, rest: seq<byte>, mcus: seq<Mcu>,
                  curs: seq<Mcu>)
    requires GoodCodes(cd) && P.GoodScan(sc) && P.GoodProgress(sc, h) && FirstReadable(cd, sc, interval, h, mcus, curs)
    requires P.Shaped(sc, curs[1..]) && Continues(cd, sc, interval, P.After(sc, interval, h, mcus[0]), y, rest,
                                                  mcus[1..], curs[1..])
    ensures var en := P.Entering(sc, interval, h);
            var hd := Pending(cd, sc, en.1, McuBits(cd, sc, interval, h, mcus[0]) + y);
            && hd.Head?
            && var o := ReadNext(cd, sc, interval, Spot(en.0, hd.left, h.togo, h.num), hd.rest, rest, curs);
               o.ScanOut? && S.ImprovedMcus(Effect(sc), mcus, curs, o.mcus)
  {
    var en, next := P.Entering(sc, interval, h), P.After(sc, interval, h, mcus[0]);
    AfterIs(sc, interval, h, mcus[0]);
    hide Readable, BitsFor, P.McuCode, P.GoodScan, Nameable, M.PriorMcu, M.Improved, S.ImprovedMcus, ReadMcu, ReadScan,
         Pending, P.After, P.Entering, P.Bounded, Effect;
    McuRead(cd, sc, en.0, en.1, mcus[0], curs[0], y);
    var hd := Pending(cd, sc, en.1, McuBits(cd, sc, interval, h, mcus[0]) + y);
    var o := ReadMcu(cd, sc, hd.rest, en.0, hd.left, curs[0]);
    var hn := Pending(cd, sc, next.e, y);
    var more := ReadScan(cd, sc, interval, Spot(next.last, hn.left, next.togo, next.num), hn.rest, rest, curs[1..]);
    ImprovedFirst(Effect(sc), mcus, curs, o.blks, more.mcus);
  }

  lemma AfterIs(sc: P.Scan, interval: nat, h: P.Progress, mcu: Mcu)
    requires P.GoodScan(sc) && P.GoodProgress(sc, h) && |mcu| == |sc.ly.membership|
    ensures var en, next := P.Entering(sc, interval, h), P.After(sc, interval, h, mcu);
            var c := P.McuCode(sc, en.0, en.1, mcu);
            && next == P.Progress(c.last, c.e, Togo(interval, h.togo), Num(interval, h.togo, h.num))
            && P.McuItems(sc, interval, h, mcu) == c.x && P.Bounded(en.1) && |en.0| == |sc.ly.dcTbl|
            && (P.IsDc(sc) && h.e.run == 0 ==> en.1.run == 0 && next.e.run == 0)
            && (if P.AtRestart(interval, h) then en == (ResetLast(sc, h.last), P.NO_EOB) else en == (h.last, h.e))
  {
    hide P.DcMcuItems, P.DcMcuLast, P.AcMcu;
  }

  lemma SameIntervalReads(cd: Codes, sc: P.Scan, interval: nat, h: P.Progress, xs: seq<bit>, s: seq<byte>,
                          mcus: seq<Mcu>, curs: seq<Mcu>)
    requires GoodCodes(cd) && P.GoodScan(sc) && P.GoodProgress(sc, h) && FirstReadable(cd, sc, interval, h, mcus, curs)
    requires !P.AtRestart(interval, h) && P.Shaped(sc, curs[1..])
    requires ReadsBack(cd, sc, interval, P.After(sc, interval, h, mcus[0]), xs + McuBits(cd, sc, interval, h, mcus[0]),
                       s, mcus[1..], curs[1..])
    ensures ReadsBack(cd, sc, interval, h, xs, s, mcus, curs)
  {
    AfterIs(sc, interval, h, mcus[0]);
    hide FirstReadable, P.GoodScan, S.ImprovedMcus, ReadNext, Pending, P.After, P.Entering, P.Bounded, Effect, McuBits,
         ReadRun, BitsOf, P.McuCode;
    var bits, u := McuBits(cd, sc, interval, h, mcus[0]), BitsOf(ReadRun(s).u);
    SkipBits(xs, bits, u);
    NextReads(cd, sc, interval, h, u[|xs + bits|..], ReadRun(s).rest, mcus, curs);
    assert curs != [] by { FirstThere(cd, sc, interval, h, mcus, curs); }
  }

  lemma FirstThere(cd: Codes, sc: P.Scan, interval: nat, h: P.Progress, mcus: seq<Mcu>, curs: seq<Mcu>)
    requires P.GoodScan(sc) && P.GoodProgress(sc, h) && FirstReadable(cd, sc, interval, h, mcus, curs)
    ensures mcus != [] && curs != [] && P.Shaped(sc, mcus) && P.Shaped(sc, curs)
  {
  }

  /** What is pending at the end of a run of bits is sent, and can be resumed. */
  lemma PendingSent(cd: Codes, sc: P.Scan, e: P.Eob, y: seq<bit>)
    requires P.GoodScan(sc) && P.Bounded(e) && Readable(cd, P.EobItems(P.EobTable(sc), e))
    ensures Pending(cd, sc, e, BitsFor(cd, P.EobItems(P.EobTable(sc), e)) + y).Head?
  {
    if e.run > 0 {
      hide BitsFor, Legible, Resume, P.EobItems, P.Bounded;
      var x := P.EobItems(P.EobTable(sc), e);
      assert x + [] == x;
      ResumeFlushed(cd, P.EobTable(sc), e, [], y);
    } else {
      hide ReadRunLength;
    }
  }

  /** At a restart marker the decoder starts anew with the bits behind it. */
  lemma RestartIs(cd: Codes, sc: P.Scan, interval: nat, h: P.Progress, x: seq<bit>, s: seq<byte>, mcus: seq<Mcu>,
                  curs: seq<Mcu>)
    requires GoodCodes(cd) && P.GoodScan(sc) && P.GoodProgress(sc, h) && P.AtRestart(interval, h) && P.Shaped(sc, curs)
             && curs != []
    requires Pending(cd, sc, h.e, x).Head?
    requires var o := ReadNext(cd, sc, interval, Spot(ResetLast(sc, h.last), 0, h.togo, h.num), BitsOf(ReadRun(s).u),
                               ReadRun(s).rest, curs);
             o.ScanOut? && S.ImprovedMcus(Effect(sc), mcus, curs, o.mcus)
    ensures Continues(cd, sc, interval, h, x, RestartMarker(h.num) + s, mcus, curs)
  {
    var tail := RestartMarker(h.num) + s;
    assert tail[2..] == s && tail[..2] == RestartMarker(h.num);
    hide P.GoodScan, S.ImprovedMcus, ReadNext, Effect, ReadRun, BitsOf, ResetLast, RestartMarker, Pending, P.Bounded;
  }

  /** After a restart nothing is pending. */
  lemma NextReadsAnew(cd: Codes, sc: P.Scan, interval: nat, h: P.Progress, u: seq<bit>, rest: seq<byte>, mcus: seq<Mcu>,
                      curs: seq<Mcu>)
    requires GoodCodes(cd) && P.GoodScan(sc) && P.GoodProgress(sc, h) && FirstReadable(cd, sc, interval, h, mcus, curs)
    requires P.AtRestart(interval, h) && P.Shaped(sc, curs[1..])
    requires var bits := McuBits(cd, sc, interval, h, mcus[0]);
             bits <= u && Continues(cd, sc, interval, P.After(sc, interval, h, mcus[0]), u[|bits|..], rest, mcus[1..],
                                    curs[1..])
    ensures curs != [] && P.Shaped(sc, curs)
    ensures var o := ReadNext(cd, sc, interval, Spot(ResetLast(sc, h.last), 0, h.togo, h.num), u, rest, curs);
            o.ScanOut? && S.ImprovedMcus(Effect(sc), mcus, curs, o.mcus)
  {
    AfterIs(sc, interval, h, mcus[0]);
    FirstThere(cd, sc, interval, h, mcus, curs);
    hide FirstReadable, P.GoodScan, S.ImprovedMcus, ReadNext, P.After, P.Entering, P.Bounded, Effect, McuBits,
         P.McuCode, ResetLast, Continues;
    var bits := McuBits(cd, sc, interval, h, mcus[0]);
    assert u == bits + u[|bits|..];
    NextReads(cd, sc, interval, h, u[|bits|..], rest, mcus, curs);
    ResumeNothing(cd, P.EobTable(sc), u);
    hide Resume;
  }

  lemma RestartReads(cd: Codes, sc: P.Scan, interval: nat, h: P.Progress, xs: seq<bit>, s: seq<byte>, mcus: seq<Mcu>,
                     curs: seq<Mcu>)
    requires GoodCodes(cd) && P.GoodScan(sc) && P.GoodProgress(sc, h) && FirstReadable(cd, sc, interval, h, mcus, curs)
    requires P.AtRestart(interval, h) && P.Shaped(sc, curs[1..]) && Readable(cd, P.EobItems(P.EobTable(sc), h.e))
    requires ReadsBack(cd, sc, interval, P.After(sc, interval, h, mcus[0]), McuBits(cd, sc, interval, h, mcus[0]), s,
                       mcus[1..], curs[1..])
    ensures P.Shaped(sc, curs)
    ensures ReadsBack(cd, sc, interval, h, xs,
                      RunBytes(xs + BitsFor(cd, P.EobItems(P.EobTable(sc), h.e))) + (RestartMarker(h.num) + s), mcus,
                      curs)
  {
    var tail := RestartMarker(h.num) + s;
    assert AtMarker(tail);
    assert P.Bounded(h.e);
    hide FirstReadable, P.GoodScan, P.After, P.Bounded, Effect, McuBits, Readable, ReadNext, S.ImprovedMcus,
         ReadRun, BitsOf, RunBytes, RestartMarker, AtMarker, BitsFor, P.EobItems, ResetLast, Continues, Pending;
    NextReadsAnew(cd, sc, interval, h, BitsOf(ReadRun(s).u), ReadRun(s).rest, mcus, curs);
    var eob := BitsFor(cd, P.EobItems(P.EobTable(sc), h.e));
    RunBytesRead(xs + eob, tail);
    var v := BitsOf(ReadRun(RunBytes(xs + eob) + tail).u);
    SkipBits(xs, eob, v);
    PendingSent(cd, sc, h.e, v[|xs + eob|..]);
    RestartIs(cd, sc, interval, h, v[|xs|..], s, mcus, curs);
  }

  lemma StreamIs(cd: Codes, sc: P.Scan, interval: nat, h: P.Progress, xs: seq<bit>, mcus: seq<Mcu>)
    requires P.GoodScan(sc) && P.GoodProgress(sc, h) && P.Shaped(sc, mcus) && mcus != []
    ensures var next, bits := P.After(sc, interval, h, mcus[0]), McuBits(cd, sc, interval, h, mcus[0]);
            P.Stream(cd, sc, interval, h, xs, mcus)
            == if P.AtRestart(interval, h)
               then RunBytes(xs + BitsFor(cd, P.EobItems(P.EobTable(sc), h.e)))
                    + (RestartMarker(h.num) + P.Stream(cd, sc, interval, next, bits, mcus[1..]))
               else P.Stream(cd, sc, interval, next, xs + bits, mcus[1..])
  {
    hide BitsFor, P.McuItems, RunBytes, P.GoodScan, P.EobItems;
    var next, bits := P.After(sc, interval, h, mcus[0]), McuBits(cd, sc, interval, h, mcus[0]);
    if P.AtRestart(interval, h) {
      Associate(RunBytes(xs + BitsFor(cd, P.EobItems(P.EobTable(sc), h.e))), RestartMarker(h.num),
                P.Stream(cd, sc, interval, next, bits, mcus[1..]));
    }
  }

  lemma EndReads(cd: Codes, sc: P.Scan, interval: nat, h: P.Progress, xs: seq<bit>)
    requires GoodCodes(cd) && P.GoodScan(sc) && P.GoodProgress(sc, h) && Readable(cd, P.EobItems(P.EobTable(sc), h.e))
    requires P.Shaped(sc, [])
    ensures ReadsBack(cd, sc, interval, h, xs, RunBytes(xs + BitsFor(cd, P.EobItems(P.EobTable(sc), h.e))), [], [])
  {
    assert P.Bounded(h.e);
    EndIsMarker();
    hide P.GoodScan, P.Bounded, Effect, Readable, ReadRun, BitsOf, RunBytes, AtMarker, BitsFor, P.EobItems, Resume;
    var eob := BitsFor(cd, P.EobItems(P.EobTable(sc), h.e));
    assert RunBytes(xs + eob) + [] == RunBytes(xs + eob);
    RunBytesRead(xs + eob, []);
    var v := BitsOf(ReadRun(RunBytes(xs + eob)).u);
    SkipBits(xs, eob, v);
    PendingSent(cd, sc, h.e, v[|xs + eob|..]);
  }

  /** What the scan needs in order to be read. */
  ghost predicate AllReadable(cd: Codes, sc: P.Scan, interval: nat, h: P.Progress, mcus: seq<Mcu>, curs: seq<Mcu>)
    requires P.GoodScan(sc) && P.GoodProgress(sc, h)
  {
    && P.Shaped(sc, mcus) && P.Shaped(sc, curs) && (P.IsDc(sc) ==> h.e.run == 0)
    && NameableScan(sc, mcus) && S.PriorMcus(Effect(sc), mcus, curs) && Readable(cd, P.ScanItems(sc, interval, h, mcus))
  }

  lemma ReadableRest(cd: Codes, sc: P.Scan, interval: nat, h: P.Progress, mcus: seq<Mcu>, curs: seq<Mcu>)
    requires P.GoodScan(sc) && P.GoodProgress(sc, h) && AllReadable(cd, sc, interval, h, mcus, curs) && mcus != []
    ensures FirstReadable(cd, sc, interval, h, mcus, curs)
    ensures P.AtRestart(interval, h) ==> Readable(cd, P.EobItems(P.EobTable(sc), h.e))
    ensures AllReadable(cd, sc, interval, P.After(sc, interval, h, mcus[0]), mcus[1..], curs[1..])
  {
    AfterIs(sc, interval, h, mcus[0]);
    var pre, items, next := P.Before(sc, interval, h), P.McuItems(sc, interval, h, mcus[0]),
      P.After(sc, interval, h, mcus[0]);
    var more := P.ScanItems(sc, interval, next, mcus[1..]);
    assert P.ScanItems(sc, interval, h, mcus) == pre + (items + more);
    hide P.ScanItems, P.McuItems, P.After, P.GoodScan, Legible, Nameable, M.PriorMcu, P.EobItems, P.Entering, Effect,
         P.McuCode, P.Bounded;
    ReadableParts(cd, pre, items + more);
    ReadableParts(cd, items, more);
    assert forall i :: 0 <= i < |mcus| - 1 ==> mcus[1..][i] == mcus[i + 1] && curs[1..][i] == curs[i + 1];
  }

  lemma {:induction false} StreamReads(cd: Codes, sc: P.Scan, interval: nat, h: P.Progress, xs: seq<bit>,
                                       mcus: seq<Mcu>, curs: seq<Mcu>)
    requires GoodCodes(cd) && P.GoodScan(sc) && P.GoodProgress(sc, h) && AllReadable(cd, sc, interval, h, mcus, curs)
    ensures P.Shaped(sc, mcus) && P.Shaped(sc, curs)
    ensures ReadsBack(cd, sc, interval, h, xs, P.Stream(cd, sc, interval, h, xs, mcus), mcus, curs)
    decreases |mcus|
  {
    hide BitsFor, Legible, P.GoodScan, RunBytes, P.EobItems, Nameable, M.PriorMcu, Effect, P.McuItems, P.After;
    if mcus == [] {
      EndReads(cd, sc, interval, h, xs);
    } else {
      StreamIs(cd, sc, interval, h, xs, mcus);
      ReadableRest(cd, sc, interval, h, mcus, curs);
      var next, bits := P.After(sc, interval, h, mcus[0]), McuBits(cd, sc, interval, h, mcus[0]);
      hide P.Stream, ReadsBack, McuBits, FirstReadable, AllReadable, P.GoodProgress;
      if P.AtRestart(interval, h) {
        StreamReads(cd, sc, interval, next, bits, mcus[1..], curs[1..]);
        RestartReads(cd, sc, interval, h, xs, P.Stream(cd, sc, interval, next, bits, mcus[1..]), mcus, curs);
      } else {
        StreamReads(cd, sc, interval, next, xs + bits, mcus[1..], curs[1..]);
        SameIntervalReads(cd, sc, interval, h, xs, P.Stream(cd, sc, interval, next, xs + bits, mcus[1..]), mcus, curs);
      }
    }
  }

  /** Decoding a scan from its first byte, into the blocks curs. */
  ghost function DecodeScan(cd: Codes, sc: P.Scan, interval: nat, s: seq<byte>, curs: seq<Mcu>): (r: ScanOut)
    requires GoodCodes(cd) && P.GoodScan(sc) && P.Shaped(sc, curs)
  {
    var run := ReadRun(s);
    ReadScan(cd, sc, interval, Spot(seq(|sc.ly.dcTbl|, c => 0), 0, interval, 0), BitsOf(run.u), run.rest, curs)
  }

  /** Progressive Huffman coding keeps its promise: decoding the bytes of a scan, for all
      four kinds and every restart interval, adds exactly the scan's bits to every block
      that held what the scans before it had sent. */
  lemma PhuffScanRoundTrip(cd: Codes, sc: P.Scan, interval: nat, mcus: seq<Mcu>, curs: seq<Mcu>)
    requires GoodCodes(cd) && P.GoodScan(sc) && P.Shaped(sc, mcus) && P.Shaped(sc, curs)
    requires NameableScan(sc, mcus) && S.PriorMcus(Effect(sc), mcus, curs)
    requires Readable(cd, P.ScanItems(sc, interval, P.StartProgress(sc, interval), mcus))
    ensures var r := DecodeScan(cd, sc, interval, P.Stream(cd, sc, interval, P.StartProgress(sc, interval), [], mcus),
                                curs);
            r.ScanOut? && S.ImprovedMcus(Effect(sc), mcus, curs, r.mcus)
  {
    var h := P.StartProgress(sc, interval);
    assert P.GoodProgress(sc, h);
    hide Readable, ReadScan, P.Stream, NameableScan, S.PriorMcus, S.ImprovedMcus, Effect, P.GoodScan, P.ScanItems,
         P.Shaped;
    StreamReads(cd, sc, interval, h, [], mcus, curs);
    var u := BitsOf(ReadRun(P.Stream(cd, sc, interval, h, [], mcus)).u);
    assert u[0..] == u;
    ResumeNothing(cd, P.EobTable(sc), u);
    hide Resume;
  }
}
