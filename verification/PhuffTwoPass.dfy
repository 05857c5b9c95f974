/** Progressive Huffman optimisation: with tables made from the gathered counts the
    missing-code error of emit_bits cannot occur. */
module PhuffTwoPass {
  import opened Numbers
  import opened HuffItems
  import opened Sums
  import opened HuffmanTree
  import opened HuffmanTable
  import opened PhuffEncoder
  import opened PhuffReading
  import opened HuffTwoPass
  import D = PhuffScan
  import P = PhuffItems
  import M = McuCoding
  import R = HuffReading
  import S = ScanCoding

  lemma BitsRegular(ly: Layout, b: seq<bit>)
    ensures AllRegular(ly, P.BitItems(b))
  {
  }

  lemma EobRegular(ly: Layout, tbl: nat, e: P.Eob)
    requires tbl < NUM_HUFF_TBLS && e.run <= P.MAX_EOBRUN && (e.run > 0 ==> TableInUse(ly, AcTable(tbl)))
    ensures AllRegular(ly, P.EobItems(tbl, e))
  {
    hide NBits, TableInUse;
    if e.run > 0 {
      P.EobRunFits(e.run);
      var n := NBits(e.run) - 1;
      DivModUnique(n * 16, 16, n, 0);
      BitsRegular(ly, e.bits);
    }
  }

  lemma EndBandRegular(ly: Layout, tbl: nat, e: P.Eob, b: seq<bit>)
    requires tbl < NUM_HUFF_TBLS && TableInUse(ly, AcTable(tbl)) && P.Bounded(e)
    ensures AllRegular(ly, P.EndBand(tbl, e, b).x)
  {
    hide TableInUse, P.EobItems, AllRegular;
    EobRegular(ly, tbl, P.Eob(e.run + 1, e.bits + b));
    NoneRegular(ly);
  }

  lemma {:induction false} FirstRegular(ly: Layout, tbl: nat, t: Block, ss: nat, k: nat, se: nat, r: nat, e: P.Eob)
    requires ss <= k <= se + 1 && se < DCTSIZE2 && P.Bounded(e) && P.FirstInRange(t, ss, se)
    requires tbl < NUM_HUFF_TBLS && TableInUse(ly, AcTable(tbl))
    ensures AllRegular(ly, P.FirstFrom(tbl, t, k, se, r, e).x)
    decreases se + 1 - k
  {
    hide TableInUse, P.EobItems, AllRegular, CoefItems, NBits, P.EndBand;
    if k > se {
      EndBandRegular(ly, tbl, e, []);
      NoneRegular(ly);
    } else if t[k] == 0 {
      FirstRegular(ly, tbl, t, ss, k + 1, se, r + 1, e);
    } else {
      var more := P.FirstFrom(tbl, t, k + 1, se, 0, P.NO_EOB).x;
      FirstRegular(ly, tbl, t, ss, k + 1, se, 0, P.NO_EOB);
      CoefRegular(ly, tbl, r, t[k]);
      EobRegular(ly, tbl, e);
      RegularConcat(ly, CoefItems(tbl, r, t[k]), more);
      RegularConcat(ly, P.EobItems(tbl, e), CoefItems(tbl, r, t[k]) + more);
    }
  }

  lemma {:induction false} RunsRegular(ly: Layout, tbl: nat, r: nat, b: seq<bit>, e: P.Eob)
    requires tbl < NUM_HUFF_TBLS && TableInUse(ly, AcTable(tbl)) && P.Bounded(e)
    ensures AllRegular(ly, P.RefineRuns(tbl, r, b, e))
    decreases r
  {
    hide TableInUse, P.EobItems, AllRegular;
    if r > 15 {
      RunsRegular(ly, tbl, r - 16, [], P.NO_EOB);
      EobRegular(ly, tbl, e);
      BitsRegular(ly, b);
      SymbolRegular(ly, AcTable(tbl), 0xF0);
      var z := [Symbol(AcTable(tbl), 0xF0)];
      RegularConcat(ly, z, P.BitItems(b));
      RegularConcat(ly, z + P.BitItems(b), P.RefineRuns(tbl, r - 16, [], P.NO_EOB));
      RegularConcat(ly, P.EobItems(tbl, e), z + P.BitItems(b) + P.RefineRuns(tbl, r - 16, [], P.NO_EOB));
    } else {
      NoneRegular(ly);
    }
  }

  lemma SymbolRegular(ly: Layout, t: nat, sym: nat)
    requires TableInUse(ly, t) && NUM_HUFF_TBLS <= t < 2 * NUM_HUFF_TBLS && sym < 256 && sym % 16 <= MAX_COEF_BITS + 1
    ensures AllRegular(ly, [Symbol(t, sym)])
  {
    hide TableInUse;
  }

  lemma NewRegular(ly: Layout, tbl: nat, r: nat, v: int, b: seq<bit>, e: P.Eob)
    requires tbl < NUM_HUFF_TBLS && TableInUse(ly, AcTable(tbl)) && P.Bounded(e) && r <= 15
    ensures AllRegular(ly, P.NewItems(tbl, r, v, b, e))
  {
    hide TableInUse, P.EobItems, AllRegular;
    EobRegular(ly, tbl, e);
    BitsRegular(ly, b);
    DivModUnique(r * 16 + 1, 16, r, 1);
    SymbolRegular(ly, AcTable(tbl), r * 16 + 1);
    var y, s := [Symbol(AcTable(tbl), r * 16 + 1)], [Extra(if v < 0 then 0 else 1, 1)];
    assert AllRegular(ly, s) by { ExtraRegular(ly, if v < 0 then 0 else 1); }
    RegularConcat(ly, y, s);
    RegularConcat(ly, y + s, P.BitItems(b));
    RegularConcat(ly, P.EobItems(tbl, e), y + s + P.BitItems(b));
  }

  lemma ExtraRegular(ly: Layout, v: nat)
    ensures AllRegular(ly, [Extra(v, 1)])
  {
  }

  /** The position EOB covers every newly nonzero coefficient. */
  ghost predicate Covered(t: Block, k: nat, se: nat, eob: nat) {
    forall j :: k <= j <= se && j < DCTSIZE2 && Abs(t[j]) == 1 ==> j <= eob
  }

  lemma {:induction false} RefineRegular(ly: Layout, tbl: nat, t: Block, k: nat, se: nat, eob: nat, r: nat, b: seq<bit>,
                                         e: P.Eob)
    requires k <= se + 1 && se < DCTSIZE2 && P.Bounded(e) && Covered(t, k, se, eob)
    requires tbl < NUM_HUFF_TBLS && TableInUse(ly, AcTable(tbl))
    ensures AllRegular(ly, P.RefineFrom(tbl, t, k, se, eob, r, b, e).x)
    decreases se + 1 - k
  {
    hide TableInUse, AllRegular, P.RefineRuns, P.EndBand, P.RefineCoef;
    if k > se {
      EndBandRegular(ly, tbl, e, b);
      NoneRegular(ly);
    } else if t[k] == 0 {
      RefineRegular(ly, tbl, t, k + 1, se, eob, r + 1, b, e);
    } else if r > 15 && k <= eob {
      RunsRegular(ly, tbl, r, b, e);
      RefineCoefRegular(ly, tbl, t, k, se, eob, r % 16, [], P.NO_EOB);
      RegularConcat(ly, P.RefineRuns(tbl, r, b, e), P.RefineCoef(tbl, t, k, se, eob, r % 16, [], P.NO_EOB).x);
    } else {
      RefineCoefRegular(ly, tbl, t, k, se, eob, r, b, e);
    }
  }

  lemma {:induction false} RefineCoefRegular(ly: Layout, tbl: nat, t: Block, k: nat, se: nat, eob: nat, r: nat,
                                             b: seq<bit>, e: P.Eob)
    requires k <= se < DCTSIZE2 && P.Bounded(e) && Covered(t, k, se, eob) && t[k] != 0 && (k <= eob ==> r <= 15)
    requires tbl < NUM_HUFF_TBLS && TableInUse(ly, AcTable(tbl))
    ensures AllRegular(ly, P.RefineCoef(tbl, t, k, se, eob, r, b, e).x)
    decreases se + 1 - k, 0
  {
    hide TableInUse, AllRegular, P.NewItems, P.RefineFrom;
    if Abs(t[k]) > 1 {
      RefineRegular(ly, tbl, t, k + 1, se, eob, r, b + [Abs(t[k]) % 2], e);
    } else {
      var more := P.RefineFrom(tbl, t, k + 1, se, eob, 0, [], P.NO_EOB).x;
      RefineRegular(ly, tbl, t, k + 1, se, eob, 0, [], P.NO_EOB);
      NewRegular(ly, tbl, r, t[k], b, e);
      RegularConcat(ly, P.NewItems(tbl, r, t[k], b, e), more);
    }
  }

  lemma {:induction false} DcRegularBlocks(sc: P.Scan, last: seq<int>, i: nat, mcu: Mcu)
    requires P.GoodScan(sc) && |last| == |sc.ly.dcTbl| && i <= |mcu| == |sc.ly.membership|
    requires P.DcMcuInRange(sc, last, i, mcu)
    ensures AllRegular(sc.ly, P.DcMcuItems(sc, last, i, mcu))
    decreases |mcu| - i
  {
    hide AllRegular, P.DcDiffItems, M.DcShift;
    if i == |mcu| {
      NoneRegular(sc.ly);
    } else if sc.kind.DcRefine? {
      ExtraRegular(sc.ly, M.DcShift(mcu[i][0], sc.al) % 2);
      DcRegularBlocks(sc, last, i + 1, mcu);
      RegularConcat(sc.ly, [Extra(M.DcShift(mcu[i][0], sc.al) % 2, 1)], P.DcMcuItems(sc, last, i + 1, mcu));
    } else {
      var c := sc.ly.membership[i];
      var v := M.DcShift(mcu[i][0], sc.al);
      assert TableInUse(sc.ly, DcTable(sc.ly.dcTbl[c]));
      DcDiffRegular(sc.ly, sc.ly.dcTbl[c], v - last[c]);
      DcRegularBlocks(sc, last[c := v], i + 1, mcu);
      RegularConcat(sc.ly, P.DcDiffItems(sc.ly.dcTbl[c], v - last[c]), P.DcMcuItems(sc, last[c := v], i + 1, mcu));
    }
  }

  lemma DcDiffRegular(ly: Layout, tbl: nat, v: int)
    requires tbl < NUM_HUFF_TBLS && TableInUse(ly, DcTable(tbl)) && NBits(Abs(v)) <= MAX_COEF_BITS + 1
    ensures AllRegular(ly, P.DcDiffItems(tbl, v))
  {
    hide NBits, LowBits, TableInUse;
  }

  lemma McuRegular(sc: P.Scan, last: seq<int>, e: P.Eob, mcu: Mcu)
    requires P.GoodScan(sc) && |last| == |sc.ly.dcTbl| && |mcu| == |sc.ly.membership|
    requires P.Bounded(e) && P.McuInRange(sc, last, mcu)
    ensures AllRegular(sc.ly, P.McuCode(sc, last, e, mcu).x)
  {
    hide AllRegular, P.FirstFrom, P.RefineFrom, P.DcMcuItems, P.DcMcuInRange, M.ShiftBlock, P.LastNew;
    if P.IsDc(sc) {
      if sc.kind.DcRefine? {
        RefineInRange(sc, last, mcu);
      }
      DcRegularBlocks(sc, last, 0, mcu);
    } else {
      var t := M.ShiftBlock(mcu[0], sc.al);
      assert TableInUse(sc.ly, AcTable(sc.ly.acTbl[0]));
      if sc.kind.AcFirst? {
        FirstRegular(sc.ly, sc.ly.acTbl[0], t, sc.ss, sc.ss, sc.se, 0, e);
      } else {
        RefineRegular(sc.ly, sc.ly.acTbl[0], t, sc.ss, sc.se, P.LastNew(t, sc.ss, sc.se + 1), 0, [], e);
      }
    }
  }

  lemma RefineInRange(sc: P.Scan, last: seq<int>, mcu: Mcu)
    requires P.GoodScan(sc) && |last| == |sc.ly.dcTbl| && |mcu| == |sc.ly.membership| && sc.kind.DcRefine?
    ensures P.DcMcuInRange(sc, last, 0, mcu)
  {
  }

  /** A DC scan never has an end-of-band run pending. */
  ghost predicate NoRun(sc: P.Scan, h: P.Progress) {
    P.IsDc(sc) ==> h.e.run == 0
  }

  lemma PendingRegular(sc: P.Scan, h: P.Progress)
    requires P.GoodScan(sc) && P.GoodProgress(sc, h) && NoRun(sc, h)
    ensures AllRegular(sc.ly, P.EobItems(P.EobTable(sc), h.e))
  {
    hide AllRegular, P.EobItems;
    if !P.IsDc(sc) {
      assert TableInUse(sc.ly, AcTable(sc.ly.acTbl[0]));
    }
    EobRegular(sc.ly, P.EobTable(sc), h.e);
  }

  /** A scan that passes the range checks uses regular symbols only. */
  lemma {:induction false} ScanRegular(sc: P.Scan, interval: nat, h: P.Progress, mcus: seq<Mcu>)
    requires P.GoodScan(sc) && P.GoodProgress(sc, h) && NoRun(sc, h)
    requires P.Shaped(sc, mcus) && P.ScanInRange(sc, interval, h, mcus)
    ensures AllRegular(sc.ly, P.ScanItems(sc, interval, h, mcus))
    decreases |mcus|
  {
    hide AllRegular, P.McuCode, P.McuInRange, P.GoodScan, P.EobItems;
    PendingRegular(sc, h);
    if mcus != [] {
      var en := P.Entering(sc, interval, h);
      McuRegular(sc, en.0, en.1, mcus[0]);
      assert NoRun(sc, P.After(sc, interval, h, mcus[0])) by { StillNoRun(sc, interval, h, mcus[0]); }
      var pre, items := P.Before(sc, interval, h), P.McuItems(sc, interval, h, mcus[0]);
      var more := P.ScanItems(sc, interval, P.After(sc, interval, h, mcus[0]), mcus[1..]);
      ScanRegular(sc, interval, P.After(sc, interval, h, mcus[0]), mcus[1..]);
      NoneRegular(sc.ly);
      RegularConcat(sc.ly, items, more);
      RegularConcat(sc.ly, pre, items + more);
    }
  }

  lemma StillNoRun(sc: P.Scan, interval: nat, h: P.Progress, mcu: Mcu)
    requires P.GoodScan(sc) && P.GoodProgress(sc, h) && NoRun(sc, h) && |mcu| == |sc.ly.membership|
    ensures NoRun(sc, P.After(sc, interval, h, mcu))
  {
  }

  // ---- The tables that a scan uses ----

  /** A DC refinement scan uses no table, a first DC scan those of its components, and an
      AC scan one. */
  ghost predicate UsesTable(sc: P.Scan, t: nat) {
    match sc.kind
    case DcFirst => exists c :: 0 <= c < |sc.ly.dcTbl| && t == DcTable(sc.ly.dcTbl[c])
    case DcRefine => false
    case _ => |sc.ly.acTbl| > 0 && t == AcTable(sc.ly.acTbl[0])
  }

  ghost predicate AllUsed(sc: P.Scan, x: seq<Item>) {
    forall i :: 0 <= i < |x| && x[i].Symbol? ==> UsesTable(sc, x[i].tbl)
  }

  lemma UsedConcat(sc: P.Scan, x: seq<Item>, y: seq<Item>)
    requires AllUsed(sc, x) && AllUsed(sc, y)
    ensures AllUsed(sc, x + y)
  {
    hide UsesTable;
    forall i | 0 <= i < |x + y| && (x + y)[i].Symbol? ensures UsesTable(sc, (x + y)[i].tbl) {
      assert (x + y)[i] == if i < |x| then x[i] else y[i - |x|];
    }
  }

  lemma NoneUsed(sc: P.Scan)
    ensures AllUsed(sc, [])
  {
  }

  lemma BitsUsed(sc: P.Scan, b: seq<bit>)
    ensures AllUsed(sc, P.BitItems(b))
  {
  }

  lemma SymbolUsed(sc: P.Scan, t: nat, sym: nat)
    requires UsesTable(sc, t)
    ensures AllUsed(sc, [Symbol(t, sym)])
  {
    hide UsesTable;
  }

  lemma ExtraUsed(sc: P.Scan, v: nat, n: nat)
    ensures AllUsed(sc, [Extra(v, n)])
  {
  }

  lemma EobUsed(sc: P.Scan, tbl: nat, e: P.Eob)
    requires e.run > 0 ==> UsesTable(sc, AcTable(tbl))
    ensures AllUsed(sc, P.EobItems(tbl, e))
  {
    hide UsesTable, NBits;
    if e.run > 0 {
      BitsUsed(sc, e.bits);
    }
  }

  lemma {:induction false} ZeroRunsUsed(sc: P.Scan, tbl: nat, r: nat)
    requires UsesTable(sc, AcTable(tbl))
    ensures AllUsed(sc, ZeroRuns(tbl, r))
    decreases r
  {
    hide UsesTable;
    if r > 15 {
      ZeroRunsUsed(sc, tbl, r - 16);
    }
  }

  lemma CoefUsed(sc: P.Scan, tbl: nat, r: nat, v: int)
    requires UsesTable(sc, AcTable(tbl))
    ensures AllUsed(sc, CoefItems(tbl, r, v))
  {
    ZeroRunsUsed(sc, tbl, r);
    hide UsesTable, ZeroRuns, NBits, LowBits;
    UsedConcat(sc, ZeroRuns(tbl, r), [Symbol(AcTable(tbl), r % 16 * 16 + NBits(Abs(v))), ValueItem(v)]);
  }

  lemma EndBandUsed(sc: P.Scan, tbl: nat, e: P.Eob, b: seq<bit>)
    requires UsesTable(sc, AcTable(tbl))
    ensures AllUsed(sc, P.EndBand(tbl, e, b).x)
  {
    hide UsesTable, P.EobItems, AllUsed;
    EobUsed(sc, tbl, P.Eob(e.run + 1, e.bits + b));
    NoneUsed(sc);
  }

  lemma {:induction false} FirstUsed(sc: P.Scan, tbl: nat, t: Block, k: nat, se: nat, r: nat, e: P.Eob)
    requires k <= se + 1 && se < DCTSIZE2 && UsesTable(sc, AcTable(tbl))
    ensures AllUsed(sc, P.FirstFrom(tbl, t, k, se, r, e).x)
    decreases se + 1 - k
  {
    hide UsesTable, P.EobItems, AllUsed, CoefItems, P.EndBand;
    if k > se {
      EndBandUsed(sc, tbl, e, []);
      NoneUsed(sc);
    } else if t[k] == 0 {
      FirstUsed(sc, tbl, t, k + 1, se, r + 1, e);
    } else {
      var more := P.FirstFrom(tbl, t, k + 1, se, 0, P.NO_EOB).x;
      FirstUsed(sc, tbl, t, k + 1, se, 0, P.NO_EOB);
      CoefUsed(sc, tbl, r, t[k]);
      EobUsed(sc, tbl, e);
      UsedConcat(sc, CoefItems(tbl, r, t[k]), more);
      UsedConcat(sc, P.EobItems(tbl, e), CoefItems(tbl, r, t[k]) + more);
    }
  }

  lemma {:induction false} RunsUsed(sc: P.Scan, tbl: nat, r: nat, b: seq<bit>, e: P.Eob)
    requires UsesTable(sc, AcTable(tbl))
    ensures AllUsed(sc, P.RefineRuns(tbl, r, b, e))
    decreases r
  {
    hide UsesTable, P.EobItems, AllUsed;
    if r > 15 {
      RunsUsed(sc, tbl, r - 16, [], P.NO_EOB);
      EobUsed(sc, tbl, e);
      BitsUsed(sc, b);
      SymbolUsed(sc, AcTable(tbl), 0xF0);
      var z := [Symbol(AcTable(tbl), 0xF0)];
      UsedConcat(sc, z, P.BitItems(b));
      UsedConcat(sc, z + P.BitItems(b), P.RefineRuns(tbl, r - 16, [], P.NO_EOB));
      UsedConcat(sc, P.EobItems(tbl, e), z + P.BitItems(b) + P.RefineRuns(tbl, r - 16, [], P.NO_EOB));
    } else {
      NoneUsed(sc);
    }
  }

  lemma NewUsed(sc: P.Scan, tbl: nat, r: nat, v: int, b: seq<bit>, e: P.Eob)
    requires UsesTable(sc, AcTable(tbl))
    ensures AllUsed(sc, P.NewItems(tbl, r, v, b, e))
  {
    hide UsesTable, P.EobItems, AllUsed;
    EobUsed(sc, tbl, e);
    BitsUsed(sc, b);
    SymbolUsed(sc, AcTable(tbl), r * 16 + 1);
    ExtraUsed(sc, if v < 0 then 0 else 1, 1);
    var y, s := [Symbol(AcTable(tbl), r * 16 + 1)], [Extra(if v < 0 then 0 else 1, 1)];
    UsedConcat(sc, y, s);
    UsedConcat(sc, y + s, P.BitItems(b));
    UsedConcat(sc, P.EobItems(tbl, e), y + s + P.BitItems(b));
  }

  lemma {:induction false} RefineUsed(sc: P.Scan, tbl: nat, t: Block, k: nat, se: nat, eob: nat, r: nat, b: seq<bit>,
                                      e: P.Eob)
    requires k <= se + 1 && se < DCTSIZE2 && UsesTable(sc, AcTable(tbl))
    ensures AllUsed(sc, P.RefineFrom(tbl, t, k, se, eob, r, b, e).x)
    decreases se + 1 - k
  {
    hide UsesTable, AllUsed, P.RefineRuns, P.EndBand, P.RefineCoef;
    if k > se {
      EndBandUsed(sc, tbl, e, b);
      NoneUsed(sc);
    } else if t[k] == 0 {
      RefineUsed(sc, tbl, t, k + 1, se, eob, r + 1, b, e);
    } else if r > 15 && k <= eob {
      RunsUsed(sc, tbl, r, b, e);
      RefineCoefUsed(sc, tbl, t, k, se, eob, r % 16, [], P.NO_EOB);
      UsedConcat(sc, P.RefineRuns(tbl, r, b, e), P.RefineCoef(tbl, t, k, se, eob, r % 16, [], P.NO_EOB).x);
    } else {
      RefineCoefUsed(sc, tbl, t, k, se, eob, r, b, e);
    }
  }

  lemma {:induction false} RefineCoefUsed(sc: P.Scan, tbl: nat, t: Block, k: nat, se: nat, eob: nat, r: nat,
                                          b: seq<bit>, e: P.Eob)
    requires k <= se < DCTSIZE2 && UsesTable(sc, AcTable(tbl))
    ensures AllUsed(sc, P.RefineCoef(tbl, t, k, se, eob, r, b, e).x)
    decreases se + 1 - k, 0
  {
    hide UsesTable, AllUsed, P.NewItems, P.RefineFrom;
    if Abs(t[k]) > 1 {
      RefineUsed(sc, tbl, t, k + 1, se, eob, r, b + [Abs(t[k]) % 2], e);
    } else {
      var more := P.RefineFrom(tbl, t, k + 1, se, eob, 0, [], P.NO_EOB).x;
      RefineUsed(sc, tbl, t, k + 1, se, eob, 0, [], P.NO_EOB);
      NewUsed(sc, tbl, r, t[k], b, e);
      UsedConcat(sc, P.NewItems(tbl, r, t[k], b, e), more);
    }
  }

  lemma DcDiffUsed(sc: P.Scan, tbl: nat, v: int)
    requires UsesTable(sc, DcTable(tbl))
    ensures AllUsed(sc, P.DcDiffItems(tbl, v))
  {
    hide UsesTable, NBits, LowBits;
  }

  lemma {:induction false} DcUsed(sc: P.Scan, last: seq<int>, i: nat, mcu: Mcu)
    requires P.GoodScan(sc) && P.IsDc(sc) && |last| == |sc.ly.dcTbl| && i <= |mcu| == |sc.ly.membership|
    ensures AllUsed(sc, P.DcMcuItems(sc, last, i, mcu))
    decreases |mcu| - i
  {
    hide AllUsed, P.DcDiffItems, M.DcShift;
    if i == |mcu| {
      NoneUsed(sc);
    } else if sc.kind.DcRefine? {
      ExtraUsed(sc, M.DcShift(mcu[i][0], sc.al) % 2, 1);
      DcUsed(sc, last, i + 1, mcu);
      UsedConcat(sc, [Extra(M.DcShift(mcu[i][0], sc.al) % 2, 1)], P.DcMcuItems(sc, last, i + 1, mcu));
    } else {
      var c := sc.ly.membership[i];
      var v := M.DcShift(mcu[i][0], sc.al);
      assert UsesTable(sc, DcTable(sc.ly.dcTbl[c]));
      DcDiffUsed(sc, sc.ly.dcTbl[c], v - last[c]);
      DcUsed(sc, last[c := v], i + 1, mcu);
      UsedConcat(sc, P.DcDiffItems(sc.ly.dcTbl[c], v - last[c]), P.DcMcuItems(sc, last[c := v], i + 1, mcu));
    }
  }

  lemma McuUsed(sc: P.Scan, last: seq<int>, e: P.Eob, mcu: Mcu)
    requires P.GoodScan(sc) && |last| == |sc.ly.dcTbl| && |mcu| == |sc.ly.membership|
    ensures AllUsed(sc, P.McuCode(sc, last, e, mcu).x)
  {
    hide AllUsed, P.FirstFrom, P.RefineFrom, P.DcMcuItems, M.ShiftBlock, P.LastNew;
    if P.IsDc(sc) {
      DcUsed(sc, last, 0, mcu);
    } else {
      var t := M.ShiftBlock(mcu[0], sc.al);
      if sc.kind.AcFirst? {
        FirstUsed(sc, sc.ly.acTbl[0], t, sc.ss, sc.se, 0, e);
      } else {
        RefineUsed(sc, sc.ly.acTbl[0], t, sc.ss, sc.se, P.LastNew(t, sc.ss, sc.se + 1), 0, [], e);
      }
    }
  }

  lemma PendingUsed(sc: P.Scan, h: P.Progress)
    requires P.GoodScan(sc) && NoRun(sc, h)
    ensures AllUsed(sc, P.EobItems(P.EobTable(sc), h.e))
  {
    hide AllUsed, P.EobItems;
    EobUsed(sc, P.EobTable(sc), h.e);
  }

  /** A scan uses its own tables only. */
  lemma {:induction false} ScanUsed(sc: P.Scan, interval: nat, h: P.Progress, mcus: seq<Mcu>)
    requires P.GoodScan(sc) && P.GoodProgress(sc, h) && NoRun(sc, h) && P.Shaped(sc, mcus)
    ensures AllUsed(sc, P.ScanItems(sc, interval, h, mcus))
    decreases |mcus|
  {
    hide AllUsed, P.McuCode, P.GoodScan, P.EobItems;
    PendingUsed(sc, h);
    if mcus != [] {
      var en := P.Entering(sc, interval, h);
      McuUsed(sc, en.0, en.1, mcus[0]);
      assert NoRun(sc, P.After(sc, interval, h, mcus[0])) by { StillNoRun(sc, interval, h, mcus[0]); }
      var pre, items := P.Before(sc, interval, h), P.McuItems(sc, interval, h, mcus[0]);
      var more := P.ScanItems(sc, interval, P.After(sc, interval, h, mcus[0]), mcus[1..]);
      ScanUsed(sc, interval, P.After(sc, interval, h, mcus[0]), mcus[1..]);
      NoneUsed(sc);
      UsedConcat(sc, items, more);
      UsedConcat(sc, pre, items + more);
    }
  }

  lemma MentionedUsed(sc: P.Scan, x: seq<Item>, t: nat)
    requires AllUsed(sc, x) && Mentions(x, t)
    ensures UsesTable(sc, t)
  {
    hide UsesTable;
    var i :| 0 <= i < |x| && x[i].Symbol? && x[i].tbl == t;
    assert UsesTable(sc, x[i].tbl);
  }

  // ---- Every table that a scan uses gets a symbol ----

  lemma EobMentions(tbl: nat, e: P.Eob)
    requires e.run > 0
    ensures Mentions(P.EobItems(tbl, e), AcTable(tbl))
  {
    hide NBits, P.BitItems;
    var x := P.EobItems(tbl, e);
    assert x[0].Symbol? && x[0].tbl == AcTable(tbl);
  }

  /** The table is mentioned, or will be when what is pending is sent. */
  ghost predicate Due(tbl: nat, o: P.Out) {
    Mentions(o.x, AcTable(tbl)) || o.e.run > 0
  }

  lemma EndBandDue(tbl: nat, e: P.Eob, b: seq<bit>)
    ensures Due(tbl, P.EndBand(tbl, e, b))
  {
    hide P.EobItems, Mentions;
    EobMentions(tbl, P.Eob(e.run + 1, e.bits + b));
  }

  lemma CoefMentions(tbl: nat, r: nat, v: int)
    ensures Mentions(CoefItems(tbl, r, v), AcTable(tbl))
  {
    hide ZeroRuns, NBits, LowBits;
    var z, tail := ZeroRuns(tbl, r), [Symbol(AcTable(tbl), r % 16 * 16 + NBits(Abs(v))), ValueItem(v)];
    assert tail[0].Symbol? && tail[0].tbl == AcTable(tbl);
    MentionsConcat(z, tail, AcTable(tbl));
  }

  lemma {:induction false} FirstDue(tbl: nat, t: Block, k: nat, se: nat, r: nat, e: P.Eob)
    requires k <= se + 1 && se < DCTSIZE2 && (k <= se || r > 0 || e.run > 0)
    ensures Due(tbl, P.FirstFrom(tbl, t, k, se, r, e))
    decreases se + 1 - k
  {
    hide P.EobItems, CoefItems, P.EndBand, Mentions;
    if k > se {
      EndBandDue(tbl, e, []);
    } else if t[k] == 0 {
      FirstDue(tbl, t, k + 1, se, r + 1, e);
    } else {
      var more := P.FirstFrom(tbl, t, k + 1, se, 0, P.NO_EOB).x;
      CoefMentions(tbl, r, t[k]);
      MentionsConcat(CoefItems(tbl, r, t[k]), more, AcTable(tbl));
      MentionsConcat(P.EobItems(tbl, e), CoefItems(tbl, r, t[k]) + more, AcTable(tbl));
    }
  }

  lemma NewMentions(tbl: nat, r: nat, v: int, b: seq<bit>, e: P.Eob)
    ensures Mentions(P.NewItems(tbl, r, v, b, e), AcTable(tbl))
  {
    hide P.EobItems, P.BitItems;
    var y := [Symbol(AcTable(tbl), r * 16 + 1)] + [Extra(if v < 0 then 0 else 1, 1)] + P.BitItems(b);
    assert y[0].Symbol? && y[0].tbl == AcTable(tbl);
    MentionsConcat(P.EobItems(tbl, e), y, AcTable(tbl));
  }

  lemma RunsMention(tbl: nat, r: nat, b: seq<bit>, e: P.Eob)
    requires r > 15
    ensures Mentions(P.RefineRuns(tbl, r, b, e), AcTable(tbl))
  {
    hide P.EobItems, P.BitItems;
    var y := [Symbol(AcTable(tbl), 0xF0)] + P.BitItems(b) + P.RefineRuns(tbl, r - 16, [], P.NO_EOB);
    assert y[0].Symbol? && y[0].tbl == AcTable(tbl);
    MentionsConcat(P.EobItems(tbl, e), y, AcTable(tbl));
  }

  lemma {:induction false} RefineDue(tbl: nat, t: Block, k: nat, se: nat, eob: nat, r: nat, b: seq<bit>, e: P.Eob)
    requires k <= se + 1 && se < DCTSIZE2 && (k <= se || r > 0 || b != [] || e.run > 0)
    ensures Due(tbl, P.RefineFrom(tbl, t, k, se, eob, r, b, e))
    decreases se + 1 - k
  {
    hide P.RefineRuns, P.EndBand, P.NewItems, Mentions, P.RefineCoef;
    if k > se {
      EndBandDue(tbl, e, b);
    } else if t[k] == 0 {
      RefineDue(tbl, t, k + 1, se, eob, r + 1, b, e);
    } else if r > 15 && k <= eob {
      RunsMention(tbl, r, b, e);
      MentionsConcat(P.RefineRuns(tbl, r, b, e), P.RefineCoef(tbl, t, k, se, eob, r % 16, [], P.NO_EOB).x,
                     AcTable(tbl));
    } else {
      CoefDue(tbl, t, k, se, eob, r, b, e);
    }
  }

  lemma {:induction false} CoefDue(tbl: nat, t: Block, k: nat, se: nat, eob: nat, r: nat, b: seq<bit>, e: P.Eob)
    requires k <= se < DCTSIZE2
    ensures Due(tbl, P.RefineCoef(tbl, t, k, se, eob, r, b, e))
    decreases se + 1 - k, 0
  {
    hide P.NewItems, Mentions, P.RefineFrom;
    if Abs(t[k]) > 1 {
      RefineDue(tbl, t, k + 1, se, eob, r, b + [Abs(t[k]) % 2], e);
    } else {
      NewMentions(tbl, r, t[k], b, e);
      MentionsConcat(P.NewItems(tbl, r, t[k], b, e), P.RefineFrom(tbl, t, k + 1, se, eob, 0, [], P.NO_EOB).x,
                     AcTable(tbl));
    }
  }

  lemma AcMcuDue(sc: P.Scan, last: seq<int>, e: P.Eob, mcu: Mcu)
    requires P.GoodScan(sc) && !P.IsDc(sc) && |last| == |sc.ly.dcTbl| && |mcu| == |sc.ly.membership|
    ensures var c := P.McuCode(sc, last, e, mcu);
            Mentions(c.x, AcTable(P.EobTable(sc))) || c.e.run > 0
  {
    hide P.FirstFrom, P.RefineFrom, Mentions, M.ShiftBlock, P.LastNew;
    var t := M.ShiftBlock(mcu[0], sc.al);
    if sc.kind.AcFirst? {
      FirstDue(sc.ly.acTbl[0], t, sc.ss, sc.se, 0, e);
    } else {
      RefineDue(sc.ly.acTbl[0], t, sc.ss, sc.se, P.LastNew(t, sc.ss, sc.se + 1), 0, [], e);
    }
  }

  lemma {:induction false} AcScanMentions(sc: P.Scan, interval: nat, h: P.Progress, mcus: seq<Mcu>)
    requires P.GoodScan(sc) && P.GoodProgress(sc, h) && !P.IsDc(sc) && P.Shaped(sc, mcus) && (mcus != [] || h.e.run > 0)
    ensures Mentions(P.ScanItems(sc, interval, h, mcus), AcTable(P.EobTable(sc)))
    decreases |mcus|
  {
    hide P.GoodScan, P.EobItems, Mentions, P.McuCode, P.EobTable;
    var t := AcTable(P.EobTable(sc));
    if mcus == [] {
      EobMentions(P.EobTable(sc), h.e);
    } else {
      var en := P.Entering(sc, interval, h);
      AcMcuDue(sc, en.0, en.1, mcus[0]);
      var pre, items, next := P.Before(sc, interval, h), P.McuItems(sc, interval, h, mcus[0]),
        P.After(sc, interval, h, mcus[0]);
      var more := P.ScanItems(sc, interval, next, mcus[1..]);
      if next.e.run > 0 {
        AcScanMentions(sc, interval, next, mcus[1..]);
      }
      MentionsConcat(items, more, t);
      MentionsConcat(pre, items + more, t);
    }
  }

  lemma DcDiffMentions(tbl: nat, v: int)
    ensures Mentions(P.DcDiffItems(tbl, v), DcTable(tbl))
  {
    assert P.DcDiffItems(tbl, v)[0].Symbol?;
  }

  lemma {:induction false} DcMcuMentions(sc: P.Scan, last: seq<int>, i: nat, mcu: Mcu, j: nat)
    requires P.GoodScan(sc) && sc.kind.DcFirst? && |last| == |sc.ly.dcTbl| && i <= j < |mcu| == |sc.ly.membership|
    ensures Mentions(P.DcMcuItems(sc, last, i, mcu), DcTable(sc.ly.dcTbl[sc.ly.membership[j]]))
    decreases |mcu| - i
  {
    hide P.DcDiffItems, Mentions, M.DcShift;
    var c, v := sc.ly.membership[i], M.DcShift(mcu[i][0], sc.al);
    var t := DcTable(sc.ly.dcTbl[sc.ly.membership[j]]);
    var dc, more := P.DcDiffItems(sc.ly.dcTbl[c], v - last[c]), P.DcMcuItems(sc, last[c := v], i + 1, mcu);
    if i == j {
      DcDiffMentions(sc.ly.dcTbl[c], v - last[c]);
    } else {
      DcMcuMentions(sc, last[c := v], i + 1, mcu, j);
    }
    MentionsConcat(dc, more, t);
  }

  /** Each table that the scan uses is mentioned. */
  lemma ScanMentionsAll(sc: P.Scan, interval: nat, h: P.Progress, mcus: seq<Mcu>, t: nat)
    requires P.GoodScan(sc) && P.GoodProgress(sc, h) && P.Shaped(sc, mcus) && mcus != [] && Populated(sc.ly)
             && UsesTable(sc, t)
    ensures Mentions(P.ScanItems(sc, interval, h, mcus), t)
  {
    if !P.IsDc(sc) {
      hide Mentions;
      AcScanMentions(sc, interval, h, mcus);
    } else {
      hide Mentions, P.DcMcuItems, P.EobItems;
      var c: nat :| c < |sc.ly.dcTbl| && t == DcTable(sc.ly.dcTbl[c]);
      assert c in sc.ly.membership;
      var j :| 0 <= j < |sc.ly.membership| && sc.ly.membership[j] == c;
      DcMcuMentions(sc, P.Entering(sc, interval, h).0, 0, mcus[0], j);
      var items, next := P.McuItems(sc, interval, h, mcus[0]), P.After(sc, interval, h, mcus[0]);
      MentionsConcat(items, P.ScanItems(sc, interval, next, mcus[1..]), t);
      MentionsConcat(P.Before(sc, interval, h), items + P.ScanItems(sc, interval, next, mcus[1..]), t);
    }
  }

  // ---- The two passes ----

  /** Huffman's algorithm gives no symbol of the scan more than 32 bits. */
  ghost predicate AllCodable(sc: P.Scan, x: seq<Item>) {
    forall t: nat :: t < 2 * NUM_HUFF_TBLS && UsesTable(sc, t) ==> Codable(Counted(UseRow(x, t)))
  }

  /** A scan of fewer than 9227465 symbols to a table is always codable. */
  lemma SafeScan(sc: P.Scan, x: seq<Item>)
    requires forall t: nat :: t < 2 * NUM_HUFF_TBLS && UsesTable(sc, t) ==> Sum(Counted(UseRow(x, t))) < SAFE_COUNT
    ensures AllCodable(sc, x)
  {
    hide UsesTable, Sum, Codable;
    forall t: nat | t < 2 * NUM_HUFF_TBLS && UsesTable(sc, t) ensures Codable(Counted(UseRow(x, t))) {
      SafeIsCodable(Counted(UseRow(x, t)));
    }
  }

  /** What the gathering pass leaves behind. */
  ghost predicate Countable(sc: P.Scan, x: seq<Item>) {
    && AllRegular(sc.ly, x) && AllUsed(sc, x)
    && forall t: nat :: t < 2 * NUM_HUFF_TBLS && UsesTable(sc, t) ==>
         Mentions(x, t) && Sum(Counted(UseRow(x, t))) <= MAX_COUNT
  }

  /** finish_pass_gather_phuff, after the last run was counted: an optimal table for each
      table of the scan, once. */
  method FinishPassGather(e: Encoder, ghost x: seq<Item>) returns (ok: bool)
    requires e.Shape() && Gathered(e.counts, x) && Countable(e.sc, x)
    modifies e`codes
    ensures ok <==> AllCodable(e.sc, x)
    ensures ok ==> GoodCodes(e.codes) && AllSendable(e.codes, x) && R.Readable(e.codes, x)
  {
    hide R.Readable, Serves, Regular, Sum, AllSendable, Codable, Mentions, P.GoodScan;
    var did := seq(2 * NUM_HUFF_TBLS, t => false);
    var cd := Codes(seq(2 * NUM_HUFF_TBLS, t => Nothing()), seq(2 * NUM_HUFF_TBLS, t => Nothing()));
    TablesInRange(e.sc);
    for ci := 0 to |e.sc.ly.dcTbl|
      invariant Partly(x, did, cd)
      invariant !e.sc.kind.DcRefine? ==> forall c :: 0 <= c < ci ==> did[TableOf(e.sc, c)]
    {
      if !e.sc.kind.DcRefine? {
        assert UsesTable(e.sc, TableOf(e.sc, ci)) by { TableUsed(e.sc, ci); }
        ok, did, cd := OptimiseTable(e.counts, TableOf(e.sc, ci), did, cd, e.sc.ly, x);
        if !ok {
          return;
        }
      }
    }
    PartlyGood(x, did, cd);
    forall t: nat | t < 2 * NUM_HUFF_TBLS && UsesTable(e.sc, t)
      ensures Serves(UseRow(x, t), cd.co[t], cd.si[t]) && Codable(Counted(UseRow(x, t)))
    {
      TableFound(e.sc, t, did);
    }
    forall t: nat | t < 2 * NUM_HUFF_TBLS && Mentions(x, t) ensures Serves(UseRow(x, t), cd.co[t], cd.si[t]) {
      MentionedUsed(e.sc, x, t);
    }
    ScanSendable(e.sc.ly, x, cd);
    e.codes := cd;
    ok := true;
  }

  /** The table of component c: dc_tbl_no in a DC scan, ac_tbl_no in an AC scan. */
  function TableOf(sc: P.Scan, c: nat): (t: nat)
    requires c < |sc.ly.dcTbl| && c < |sc.ly.acTbl|
  {
    if P.IsDc(sc) then DcTable(sc.ly.dcTbl[c]) else AcTable(sc.ly.acTbl[c])
  }

  lemma TablesInRange(sc: P.Scan)
    requires P.GoodScan(sc)
    ensures |sc.ly.acTbl| == |sc.ly.dcTbl| && (!P.IsDc(sc) ==> |sc.ly.acTbl| == 1)
    ensures forall c :: 0 <= c < |sc.ly.dcTbl| ==> TableOf(sc, c) < 2 * NUM_HUFF_TBLS
  {
  }

  lemma TableUsed(sc: P.Scan, c: nat)
    requires c < |sc.ly.dcTbl| == |sc.ly.acTbl| && !sc.kind.DcRefine? && (!P.IsDc(sc) ==> |sc.ly.acTbl| == 1)
    ensures UsesTable(sc, TableOf(sc, c))
  {
  }

  lemma TableFound(sc: P.Scan, t: nat, did: seq<bool>)
    requires |sc.ly.dcTbl| == |sc.ly.acTbl| && |did| == 2 * NUM_HUFF_TBLS && t < |did| && UsesTable(sc, t)
    requires !sc.kind.DcRefine? ==> forall c :: 0 <= c < |sc.ly.dcTbl| ==> TableOf(sc, c) < |did| && did[TableOf(sc, c)]
    ensures did[t]
  {
    if sc.kind.DcFirst? {
      var c: nat :| c < |sc.ly.dcTbl| && t == DcTable(sc.ly.dcTbl[c]);
      assert TableOf(sc, c) == t;
    } else {
      assert TableOf(sc, 0) == t;
    }
  }

  lemma NameableFirst(t: Block, ss: nat, se: nat)
    requires P.FirstInRange(t, ss, se)
    ensures NameableBand(t, ss, se)
  {
    hide NBits;
  }

  /** Coefficients that pass the range check have categories that a symbol can name. */
  lemma {:induction false} NameableInRange(sc: P.Scan, interval: nat, h: P.Progress, mcus: seq<Mcu>)
    requires P.GoodScan(sc) && P.GoodProgress(sc, h) && P.Shaped(sc, mcus) && P.ScanInRange(sc, interval, h, mcus)
    ensures D.NameableScan(sc, mcus)
    decreases |mcus|
  {
    hide P.FirstInRange, P.GoodScan, P.DcMcuInRange, P.McuCode, M.ShiftBlock, NameableBand;
    if mcus != [] {
      NameableInRange(sc, interval, P.After(sc, interval, h, mcus[0]), mcus[1..]);
      if sc.kind.AcFirst? {
        D.AcShape(sc);
        NameableFirst(M.ShiftBlock(mcus[0][0], sc.al), sc.ss, sc.se);
      }
      forall i | 0 <= i < |mcus| ensures D.Nameable(sc, mcus[i]) {
        assert i > 0 ==> mcus[i] == mcus[1..][i - 1];
      }
    }
  }

  lemma StartClean(sc: P.Scan, interval: nat)
    requires P.GoodScan(sc)
    ensures P.GoodProgress(sc, P.StartProgress(sc, interval)) && NoRun(sc, P.StartProgress(sc, interval))
  {
  }

  lemma CountedScan(sc: P.Scan, interval: nat, mcus: seq<Mcu>)
    requires P.GoodScan(sc) && P.Shaped(sc, mcus) && mcus != [] && Populated(sc.ly)
    requires P.ScanInRange(sc, interval, P.StartProgress(sc, interval), mcus)
    requires var x := P.ScanItems(sc, interval, P.StartProgress(sc, interval), mcus);
             forall t: nat :: t < 2 * NUM_HUFF_TBLS ==> Sum(Counted(UseRow(x, t))) <= MAX_COUNT
    ensures Countable(sc, P.ScanItems(sc, interval, P.StartProgress(sc, interval), mcus))
  {
    StartClean(sc, interval);
    hide P.GoodScan, P.ScanItems, P.ScanInRange, AllRegular, AllUsed, UsesTable, Mentions, Sum, NoRun, P.GoodProgress;
    var h := P.StartProgress(sc, interval);
    ScanRegular(sc, interval, h, mcus);
    ScanUsed(sc, interval, h, mcus);
    forall t: nat | t < 2 * NUM_HUFF_TBLS && UsesTable(sc, t) ensures Mentions(P.ScanItems(sc, interval, h, mcus), t) {
      ScanMentionsAll(sc, interval, h, mcus, t);
    }
  }

  /** A DC refinement scan sends bits only. */
  lemma BitsSendable(sc: P.Scan, x: seq<Item>, cd: Codes)
    requires sc.kind.DcRefine? && AllUsed(sc, x) && GoodCodes(cd)
    ensures AllSendable(cd, x) && R.Readable(cd, x) && AllCodable(sc, x)
  {
    hide GoodCodes;
  }

  function NoCodes(): (cd: Codes) {
    Codes(seq(2 * NUM_HUFF_TBLS, t => Nothing()), seq(2 * NUM_HUFF_TBLS, t => Nothing()))
  }

  lemma NoCodesGood()
    ensures GoodCodes(NoCodes())
  {
  }

  /** Both passes over a progressive scan (the output pass only, for a DC refinement
      scan). They succeed if and only if the coefficients are in range and Huffman's
      algorithm gives no symbol more than 32 bits. Then the output pass never meets a
      symbol without a code, and writes bytes from which the decoder gets the scan's
      contribution to every block. */
  method OptimisedScan(e: Encoder, mcus: seq<Mcu>, ghost curs: seq<Mcu>) returns (ok: bool)
    requires e.Shape() && P.Shaped(e.sc, mcus) && mcus != [] && Populated(e.sc.ly)
    requires P.Shaped(e.sc, curs) && S.PriorMcus(D.Effect(e.sc), mcus, curs)
    requires var x := P.ScanItems(e.sc, e.interval, P.StartProgress(e.sc, e.interval), mcus);
             forall t: nat :: t < 2 * NUM_HUFF_TBLS ==> Sum(Counted(UseRow(x, t))) <= MAX_COUNT
    modifies e, e.bitBuffer, e.lastDc, e.counts, e.w
    ensures var h := P.StartProgress(e.sc, e.interval);
            ok <==> P.ScanInRange(e.sc, e.interval, h, mcus) && AllCodable(e.sc, P.ScanItems(e.sc, e.interval, h, mcus))
    ensures var h := P.StartProgress(e.sc, e.interval);
            ok ==> && GoodCodes(e.codes) && AllSendable(e.codes, P.ScanItems(e.sc, e.interval, h, mcus))
                   && R.Readable(e.codes, P.ScanItems(e.sc, e.interval, h, mcus))
                   && e.w.out == old(e.w.out) + P.Stream(e.codes, e.sc, e.interval, h, [], mcus)
    ensures ok ==> var r := D.DecodeScan(e.codes, e.sc, e.interval, e.w.out[|old(e.w.out)|..], curs);
                   r.ScanOut? && S.ImprovedMcus(D.Effect(e.sc), mcus, curs, r.mcus)
  {
    hide P.ScanItems, P.ScanInRange, P.Stream, P.GoodScan, AllSendable, GoodCodes, Sum, AllCodable, Countable,
         UsesTable, R.Readable, D.DecodeScan, S.PriorMcus, S.ImprovedMcus, D.NameableScan, D.Effect, NoRun,
         P.GoodProgress, NoCodes;
    ghost var h := P.StartProgress(e.sc, e.interval);
    StartClean(e.sc, e.interval);
    ghost var x := P.ScanItems(e.sc, e.interval, h, mcus);
    if e.sc.kind.DcRefine? {
      ScanUsed(e.sc, e.interval, h, mcus);
      NoCodesGood();
      BitsSendable(e.sc, x, NoCodes());
      e.codes := NoCodes();
    } else {
      ok := e.EncodeScan(mcus, true);
      if !ok {
        return;
      }
      CountedScan(e.sc, e.interval, mcus);
      ok := FinishPassGather(e, x);
      if !ok {
        return;
      }
    }
    ok := e.EncodeScan(mcus, false);
    if ok {
      NameableInRange(e.sc, e.interval, h, mcus);
      D.PhuffScanRoundTrip(e.codes, e.sc, e.interval, mcus, curs);
      ghost var written := P.Stream(e.codes, e.sc, e.interval, h, [], mcus);
      assert (old(e.w.out) + written)[|old(e.w.out)|..] == written;
    }
  }
}
