/** Every decision of a codable block uses a bin inside the statistics area of its
    table: below 49 for DC, below 245 for AC (T.81 F.1.4.4.1.3 and F.1.4.4.2). */
module ScriptBins {
  import opened Numbers
  import opened ProbabilityTable
  import opened IntervalCoder
  import opened Binarisation
  import opened AcBand
  import opened McuCoding

  const DC_BINS := 49
  const AC_BINS := 245

  /** All bins of x lie in lo .. hi - 1, or are the fixed bin. */
  ghost predicate Within(x: seq<Decision>, lo: nat, hi: nat) {
    forall i :: 0 <= i < |x| ==> lo <= x[i].bin < hi || x[i].bin == FIXED_BIN
  }

  lemma {:induction false} UnaryWithin(st: nat, n: nat, lo: nat, hi: nat)
    requires lo <= st && st + n < hi
    ensures Within(Unary(st, n), lo, hi)
    decreases n
  {
    if n > 0 {
      UnaryWithin(st + 1, n - 1, lo, hi);
    }
  }

  lemma {:induction false} PatternWithin(st: nat, w: nat, m: nat, lo: nat, hi: nat)
    requires lo <= st < hi
    ensures Within(Pattern(st, w, m), lo, hi)
    decreases m
  {
    if m / 2 != 0 {
      PatternWithin(st, w, m / 2, lo, hi);
    }
  }

  lemma DcMagnitudeWithin(base: nat, st: nat, w: nat)
    requires w < 0x8000 && base <= st < base + 20
    ensures Within(DcMagnitude(st, base + 20, w), base, base + DC_BINS)
  {
    if w > 0 {
      Log2Fits(w);
      UnaryWithin(base + 20, Log2(w), base, base + DC_BINS);
      PatternWithin(base + 20 + Log2(w) + 14, w, Pow2(Log2(w)), base, base + DC_BINS);
    }
  }

  lemma DcWithin(base: nat, ctx: nat, v: int)
    requires Abs(v) <= 0x8000 && ctx <= 16
    ensures Within(DcDecisions(base, ctx, v), base, base + DC_BINS)
  {
    hide DcMagnitude;
    if v != 0 {
      DcMagnitudeWithin(base, base + ctx + 2 + SignBit(v), Abs(v) - 1);
    }
  }

  lemma AcMagnitudeWithin(base: nat, st: nat, x: nat, w: nat)
    requires w < 0x8000 && base <= st < base + 189 && base <= x <= base + 217
    ensures Within(AcMagnitude(st, x, w), base, base + AC_BINS)
  {
    hide Log2, Unary, Pattern, Pow2;
    if w > 1 {
      Log2Fits(w);
      var n: nat := Log2(w) - 1;
      UnaryWithin(x, n, base, base + AC_BINS);
      PatternWithin(x + n + 14, w, Pow2(Log2(w)), base, base + AC_BINS);
    }
  }

  lemma {:induction false} AcFromWithin(bd: Band, t: Block, k: nat, ke: nat)
    requires GoodBand(bd) && 1 <= k && ke <= bd.se && (ke > 0 ==> t[ke] != 0) && InRange(t)
    ensures Within(AcFrom(bd, t, k, ke), bd.base, bd.base + AC_BINS)
    decreases DCTSIZE2 - k, 1
  {
    if k <= ke {
      AcRunWithin(bd, t, k, ke);
    }
  }

  lemma {:induction false} AcRunWithin(bd: Band, t: Block, k: nat, ke: nat)
    requires GoodBand(bd) && 1 <= k <= ke <= bd.se && t[ke] != 0 && InRange(t)
    ensures Within(AcRun(bd, t, k, ke), bd.base, bd.base + AC_BINS)
    decreases DCTSIZE2 - k, 0
  {
    hide AcMagnitude, AcFrom;
    if t[k] == 0 {
      AcRunWithin(bd, t, k + 1, ke);
    } else {
      InRangeAt(t, k);
      AcMagnitudeWithin(bd.base, At(bd, k) + 2, X2(bd, k), Abs(t[k]) - 1);
      AcFromWithin(bd, t, k + 1, ke);
    }
  }

  lemma {:induction false} RefFromWithin(bd: Band, t: Block, k: nat, ke: nat, kex: nat)
    requires GoodBand(bd) && 1 <= k && ke <= bd.se && (ke > 0 ==> t[ke] != 0)
    ensures Within(RefFrom(bd, t, k, ke, kex), bd.base, bd.base + AC_BINS)
    decreases DCTSIZE2 - k, 1
  {
    if k <= ke {
      RefRunWithin(bd, t, k, ke, kex);
    }
  }

  lemma {:induction false} RefRunWithin(bd: Band, t: Block, k: nat, ke: nat, kex: nat)
    requires GoodBand(bd) && 1 <= k <= ke <= bd.se && t[ke] != 0
    ensures Within(RefRun(bd, t, k, ke, kex), bd.base, bd.base + AC_BINS)
    decreases DCTSIZE2 - k, 0
  {
    hide RefFrom;
    if t[k] == 0 {
      RefRunWithin(bd, t, k + 1, ke, kex);
    } else {
      RefFromWithin(bd, t, k + 1, ke, kex);
    }
  }

  lemma WithinValid(x: seq<Decision>, lo: nat, hi: nat)
    requires Within(x, lo, hi) && hi <= FIXED_BIN
    ensures ValidScript(x, BINS)
  {
  }

  lemma DcScriptWithin(sc: Scan, p: Pred, i: nat, x: Block)
    requires GoodScan(sc) && GoodPred(sc, p) && i < |sc.membership|
    requires Abs(DcValue(sc, x) - p.last[sc.membership[i]]) <= 0x8000
    ensures var base := DcBase(sc.dcTbl[sc.membership[i]]);
            Within(DcScript(sc, p, i, x), base, base + DC_BINS) && base + DC_STAT_BINS <= AcBase(0)
  {
    hide DcDecisions, Within;
    var c := sc.membership[i];
    DcWithin(DcBase(sc.dcTbl[c]), p.ctx[c], DcValue(sc, x) - p.last[c]);
  }

  lemma AcScriptWithin(sc: Scan, i: nat, x: Block)
    requires GoodScan(sc) && i < |sc.membership| && !sc.kind.DcFirst? && !sc.kind.DcRefine?
    requires !sc.kind.AcRefine? ==> InRange(x)
    ensures var base := AcBase(sc.acTbl[sc.membership[i]]);
            Within(AcScript(sc, i, x), base, base + AC_BINS) && base + AC_STAT_BINS <= FIXED_BIN
  {
    hide AcFrom, RefFrom, InRange;
    BandGood(sc, i);
    var bd := BandOf(sc, i);
    var t := ShiftBlock(x, sc.al);
    var ke := LastNonzero(t, bd.se);
    if sc.kind.AcFirst? {
      ShiftShrinks(x, sc.al);
      AcFromWithin(bd, t, bd.ss, ke);
    } else if sc.kind.AcRefine? {
      RefFromWithin(bd, t, bd.ss, ke, LastNonzero(ShiftBlock(x, sc.al + 1), ke));
    } else {
      AcFromWithin(bd, x, 1, LastNonzero(x, DCTSIZE2 - 1));
    }
  }

  lemma BlockScriptValid(sc: Scan, p: Pred, i: nat, x: Block)
    requires GoodScan(sc) && GoodPred(sc, p) && i < |sc.membership| && Codable(sc, p, i, x)
    ensures ValidScript(BlockScript(sc, p, i, x), BINS)
  {
    hide DcScript, AcScript, Within, InRange, DcValue;
    var dc, ac := DcBase(sc.dcTbl[sc.membership[i]]), AcBase(sc.acTbl[sc.membership[i]]);
    if sc.kind.Sequential? || sc.kind.DcFirst? {
      DcScriptWithin(sc, p, i, x);
      WithinValid(DcScript(sc, p, i, x), dc, dc + DC_BINS);
    }
    if !sc.kind.DcFirst? && !sc.kind.DcRefine? {
      AcScriptWithin(sc, i, x);
      WithinValid(AcScript(sc, i, x), ac, ac + AC_BINS);
    }
  }

  lemma {:induction false} McuScriptValid(sc: Scan, p: Pred, i: nat, xs: Mcu)
    requires GoodScan(sc) && GoodPred(sc, p) && i <= |sc.membership| == |xs| && CodableMcu(sc, p, i, xs)
    ensures ValidScript(McuScript(sc, p, i, xs), BINS)
    decreases |xs| - i
  {
    hide BlockScript, Codable, NextPred, GoodScan, GoodPred;
    if i < |xs| {
      BlockScriptValid(sc, p, i, xs[i]);
      McuScriptValid(sc, NextPred(sc, p, i, xs[i]), i + 1, xs);
    }
  }
}
