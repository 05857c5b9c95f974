/** End-of-band runs as jcphuff.c builds them: every band that ends in zeros (or, in a
    refinement scan, in correction bits) extends the pending run, and a run is forced out
    only when EOBRUN reaches 0x7FFF or more than 937 correction bits are waiting. */
module EobRules {
  import opened Numbers
  import opened HuffItems
  import opened PhuffItems
  import opened PhuffReading
  import M = McuCoding

  // ---- One band ----

  /** What is pending after one more end of band: the run is longer by one and the bits
      come behind those that wait, unless that fills the run or the buffer. */
  predicate Joined(e: Eob, b: seq<bit>, f: Eob) {
    if e.run + 1 == 0x7FFF || |e.bits| + |b| > 937 then f.run == 0 && f.bits == []
    else f.run == e.run + 1 && f.bits == e.bits + b
  }

  /** What is sent for it. */
  predicate Forced(tbl: nat, e: Eob, b: seq<bit>, x: seq<Item>) {
    x == if e.run + 1 == 0x7FFF || |e.bits| + |b| > 937 then EobItems(tbl, Eob(e.run + 1, e.bits + b)) else []
  }

  lemma {:induction false} FirstZeros(tbl: nat, t: Block, k: nat, se: nat, r: nat, e: Eob)
    requires k <= se + 1 && se < DCTSIZE2 && (r > 0 || k <= se) && forall j :: k <= j <= se ==> t[j] == 0
    ensures var o := FirstFrom(tbl, t, k, se, r, e); Joined(e, [], o.e) && Forced(tbl, e, [], o.x)
    decreases se + 1 - k
  {
    hide EobItems;
    if k <= se {
      FirstZeros(tbl, t, k + 1, se, r + 1, e);
    }
  }

  /** A first scan after the last coefficient that is not zero. */
  lemma {:induction false} FirstEnds(tbl: nat, t: Block, k: nat, se: nat, r: nat, e: Eob, last: nat)
    requires k <= last <= se < DCTSIZE2 && t[last] != 0 && forall j :: last < j <= se ==> t[j] == 0
    ensures FirstFrom(tbl, t, k, se, r, e).e == if last == se then NO_EOB else Eob(1, [])
    decreases last - k
  {
    hide CoefItems, EobItems;
    if k < last {
      FirstEnds(tbl, t, k + 1, se, if t[k] == 0 then r + 1 else 0, if t[k] == 0 then e else NO_EOB, last);
    } else if last < se {
      FirstZeros(tbl, t, last + 1, se, 0, NO_EOB);
    }
  }

  lemma CorrectionsFirst(t: Block, p: nat, k: nat)
    requires p < k <= DCTSIZE2
    ensures Corrections(t, p, k) == (if Abs(t[p]) > 1 then [Abs(t[p]) % 2] else []) + Corrections(t, p + 1, k)
  {
  }

  /** A refinement scan behind the last newly nonzero coefficient: nothing is sent there,
      and the correction bits wait with the run. */
  lemma {:induction false} RefineZeros(tbl: nat, t: Block, k: nat, se: nat, eob: nat, r: nat, b: seq<bit>, e: Eob)
    requires eob < k <= se + 1 && se < DCTSIZE2 && (r > 0 || b != [] || k <= se)
    requires forall j :: k <= j <= se ==> Abs(t[j]) != 1
    ensures var o, c := RefineFrom(tbl, t, k, se, eob, r, b, e), b + Corrections(t, k, se + 1);
            Joined(e, c, o.e) && Forced(tbl, e, c, o.x)
    decreases se + 1 - k
  {
    hide EobItems, RefineRuns, NewItems, Joined, Forced, Corrections, EndBand;
    RefineZerosStep(tbl, t, k, se, eob, r, b, e);
    if k > se {
      NoCorrections(t, k);
      assert b + [] == b;
      BandEnds(tbl, e, b);
    } else {
      CorrectionsFirst(t, k, se + 1);
      if t[k] == 0 {
        RefineZeros(tbl, t, k + 1, se, eob, r + 1, b, e);
        assert [] + Corrections(t, k + 1, se + 1) == Corrections(t, k + 1, se + 1);
      } else {
        var c := b + [Abs(t[k]) % 2];
        RefineZeros(tbl, t, k + 1, se, eob, r, c, e);
        assert c + Corrections(t, k + 1, se + 1) == b + ([Abs(t[k]) % 2] + Corrections(t, k + 1, se + 1));
      }
    }
  }

  lemma BandEnds(tbl: nat, e: Eob, b: seq<bit>)
    ensures var o := EndBand(tbl, e, b); Joined(e, b, o.e) && Forced(tbl, e, b, o.x)
  {
    hide EobItems;
  }

  lemma RefineZerosStep(tbl: nat, t: Block, k: nat, se: nat, eob: nat, r: nat, b: seq<bit>, e: Eob)
    requires eob < k <= se + 1 && se < DCTSIZE2 && (r > 0 || b != [] || k <= se) && (k <= se ==> Abs(t[k]) != 1)
    ensures RefineFrom(tbl, t, k, se, eob, r, b, e)
         == if k > se then EndBand(tbl, e, b)
            else if t[k] == 0 then RefineFrom(tbl, t, k + 1, se, eob, r + 1, b, e)
            else RefineFrom(tbl, t, k + 1, se, eob, r, b + [Abs(t[k]) % 2], e)
  {
    hide EobItems, RefineRuns, NewItems, EndBand;
  }

  /** A refinement scan after its last newly nonzero coefficient. */
  lemma {:induction false} RefineEnds(tbl: nat, t: Block, k: nat, se: nat, r: nat, b: seq<bit>, e: Eob, last: nat)
    requires k <= last <= se < DCTSIZE2 && Abs(t[last]) == 1 && forall j :: last < j <= se ==> Abs(t[j]) != 1
    ensures RefineFrom(tbl, t, k, se, last, r, b, e).e
         == if last == se then NO_EOB else Eob(1, Corrections(t, last + 1, se + 1))
    decreases last - k, 1
  {
    hide RefineRuns, RefineCoef, NewItems, EobItems;
    if t[k] == 0 {
      RefineEnds(tbl, t, k + 1, se, r + 1, b, e, last);
    } else if r > 15 {
      RefineCoefEnds(tbl, t, k, se, r % 16, [], NO_EOB, last);
    } else {
      RefineCoefEnds(tbl, t, k, se, r, b, e, last);
    }
  }

  lemma {:induction false} RefineCoefEnds(tbl: nat, t: Block, k: nat, se: nat, r: nat, b: seq<bit>, e: Eob, last: nat)
    requires k <= last <= se < DCTSIZE2 && Abs(t[last]) == 1 && t[k] != 0
    requires forall j :: last < j <= se ==> Abs(t[j]) != 1
    ensures RefineCoef(tbl, t, k, se, last, r, b, e).e
         == if last == se then NO_EOB else Eob(1, Corrections(t, last + 1, se + 1))
    decreases last - k, 0
  {
    hide NewItems, RefineFrom;
    if Abs(t[k]) > 1 {
      RefineEnds(tbl, t, k + 1, se, r, b + [Abs(t[k]) % 2], e, last);
    } else if k < last {
      RefineEnds(tbl, t, k + 1, se, 0, [], NO_EOB, last);
    } else if last < se {
      RefineZeros(tbl, t, last + 1, se, last, 0, [], NO_EOB);
    } else {
      NothingBehind(tbl, t, se, last);
    }
  }

  lemma NothingBehind(tbl: nat, t: Block, se: nat, eob: nat)
    requires se < DCTSIZE2
    ensures RefineFrom(tbl, t, se + 1, se, eob, 0, [], NO_EOB).e == NO_EOB
  {
  }

  lemma {:induction false} LastNewIs(t: Block, ss: nat, k: nat, last: nat)
    requires ss <= last < k <= DCTSIZE2 && Abs(t[last]) == 1 && forall j :: last < j < k ==> Abs(t[j]) != 1
    ensures LastNew(t, ss, k) == last
    decreases k
  {
    if k - 1 > last {
      LastNewIs(t, ss, k - 1, last);
    }
  }

  lemma {:induction false} LastNewNone(t: Block, ss: nat, k: nat)
    requires k <= DCTSIZE2 && forall j :: ss <= j < k ==> Abs(t[j]) != 1
    ensures LastNew(t, ss, k) == 0
    decreases k
  {
    if k > ss {
      LastNewNone(t, ss, k - 1);
    }
  }

  // ---- One MCU ----

  /** A band of zeros, or one without a newly nonzero coefficient: the MCU only extends
      the pending run, and sends nothing unless that is full. */
  lemma McuOnlyExtends(sc: Scan, last: seq<int>, e: Eob, mcu: Mcu)
    requires GoodScan(sc) && |last| == |sc.ly.dcTbl| && |mcu| == |sc.ly.membership| && !IsDc(sc)
    requires forall j :: sc.ss <= j <= sc.se ==>
               if sc.kind.AcFirst? then M.ShiftBlock(mcu[0], sc.al)[j] == 0
               else Abs(M.ShiftBlock(mcu[0], sc.al)[j]) != 1
    ensures var c := McuCode(sc, last, e, mcu);
            var b := if sc.kind.AcFirst? then [] else Corrections(M.ShiftBlock(mcu[0], sc.al), sc.ss, sc.se + 1);
            Joined(e, b, c.e) && Forced(sc.ly.acTbl[0], e, b, c.x) && c.last == last
  {
    var t := M.ShiftBlock(mcu[0], sc.al);
    hide M.ShiftBlock, FirstFrom, RefineFrom, LastNew, Joined, Forced, Corrections;
    if sc.kind.AcFirst? {
      FirstZeros(sc.ly.acTbl[0], t, sc.ss, sc.se, 0, e);
    } else {
      NothingRefined(sc.ly.acTbl[0], t, sc.ss, sc.se, e);
    }
  }

  lemma NothingRefined(tbl: nat, t: Block, ss: nat, se: nat, e: Eob)
    requires 1 <= ss <= se < DCTSIZE2 && forall j :: ss <= j <= se ==> Abs(t[j]) != 1
    ensures var o := RefineFrom(tbl, t, ss, se, LastNew(t, ss, se + 1), 0, [], e);
            var b := Corrections(t, ss, se + 1);
            Joined(e, b, o.e) && Forced(tbl, e, b, o.x)
  {
    LastNewNone(t, ss, se + 1);
    hide RefineFrom, LastNew, Joined, Forced, Corrections;
    RefineZeros(tbl, t, ss, se, 0, 0, [], e);
    assert [] + Corrections(t, ss, se + 1) == Corrections(t, ss, se + 1);
  }

  /** With the last (newly) nonzero coefficient at index n, a run of one is pending
      afterwards, with the correction bits behind n; none if n ends the band. */
  lemma McuStartsRun(sc: Scan, last: seq<int>, e: Eob, mcu: Mcu, n: nat)
    requires GoodScan(sc) && |last| == |sc.ly.dcTbl| && |mcu| == |sc.ly.membership| && !IsDc(sc) && sc.ss <= n <= sc.se
    requires var t := M.ShiftBlock(mcu[0], sc.al);
             if sc.kind.AcFirst? then t[n] != 0 && forall j :: n < j <= sc.se ==> t[j] == 0
             else Abs(t[n]) == 1 && forall j :: n < j <= sc.se ==> Abs(t[j]) != 1
    ensures var c := McuCode(sc, last, e, mcu);
            c.e == if n == sc.se then Eob(0, [])
                   else Eob(1, if sc.kind.AcFirst? then []
                            else Corrections(M.ShiftBlock(mcu[0], sc.al), n + 1, sc.se + 1))
  {
    var t := M.ShiftBlock(mcu[0], sc.al);
    hide M.ShiftBlock, FirstFrom, RefineFrom, LastNew, Corrections;
    if sc.kind.AcFirst? {
      FirstEnds(sc.ly.acTbl[0], t, sc.ss, sc.se, 0, e, n);
    } else {
      LastNewIs(t, sc.ss, sc.se + 1, n);
      RefineEnds(sc.ly.acTbl[0], t, sc.ss, sc.se, 0, [], e, n);
    }
  }

  // ---- A scan of zero bands ----

  predicate ZeroBand(sc: Scan, mcu: Mcu)
    requires |mcu| == 1 && sc.se < DCTSIZE2
  {
    forall j :: sc.ss <= j <= sc.se ==> M.ShiftBlock(mcu[0], sc.al)[j] == 0
  }

  /** What n ends of band are sent as, when r of them are already pending: full runs, and
      one for the rest. */
  function JoinedRuns(tbl: nat, r: nat, n: nat): (x: seq<Item>)
    decreases n
  {
    if n == 0 then EobItems(tbl, Eob(r, []))
    else if r + 1 == 0x7FFF then EobItems(tbl, Eob(0x7FFF, [])) + JoinedRuns(tbl, 0, n - 1)
    else JoinedRuns(tbl, r + 1, n - 1)
  }

  lemma {:induction false} ShortRun(tbl: nat, r: nat, n: nat)
    requires r + n < 0x7FFF
    ensures JoinedRuns(tbl, r, n) == EobItems(tbl, Eob(r + n, []))
    decreases n
  {
    if n > 0 {
      ShortRun(tbl, r + 1, n - 1);
    }
  }

  lemma {:induction false} ZeroScan(sc: Scan, interval: nat, h: Progress, mcus: seq<Mcu>)
    requires GoodScan(sc) && GoodProgress(sc, h) && PhuffItems.Shaped(sc, mcus) && sc.kind.AcFirst? && h.e.bits == []
    requires (interval == 0 || |mcus| <= h.togo) && forall i :: 0 <= i < |mcus| ==> ZeroBand(sc, mcus[i])
    ensures PhuffItems.ScanItems(sc, interval, h, mcus) == JoinedRuns(sc.ly.acTbl[0], h.e.run, |mcus|)
    decreases |mcus|
  {
    hide ZeroBand, EobItems, GoodLayout;
    if mcus != [] {
      assert ZeroBand(sc, mcus[0]);
      ZeroMcu(sc, h.last, h.e, mcus[0]);
      hide McuCode;
      var next := PhuffItems.After(sc, interval, h, mcus[0]);
      ZeroScan(sc, interval, next, mcus[1..]);
    }
  }

  lemma ZeroMcu(sc: Scan, last: seq<int>, e: Eob, mcu: Mcu)
    requires GoodScan(sc) && |last| == |sc.ly.dcTbl| && |mcu| == |sc.ly.membership| && sc.kind.AcFirst?
    requires ZeroBand(sc, mcu) && Bounded(e) && e.bits == []
    ensures var c := McuCode(sc, last, e, mcu);
            && c.e == (if e.run + 1 == 0x7FFF then NO_EOB else Eob(e.run + 1, []))
            && c.x == if e.run + 1 == 0x7FFF then EobItems(sc.ly.acTbl[0], Eob(0x7FFF, [])) else []
  {
    McuOnlyExtends(sc, last, e, mcu);
    hide EobItems, McuCode;
  }

  /** A whole scan of fewer than 0x7FFF zero bands is a single run. */
  lemma OneRun(sc: Scan, interval: nat, mcus: seq<Mcu>)
    requires GoodScan(sc) && PhuffItems.Shaped(sc, mcus) && sc.kind.AcFirst? && |mcus| < 0x7FFF
    requires (interval == 0 || |mcus| <= interval) && forall i :: 0 <= i < |mcus| ==> ZeroBand(sc, mcus[i])
    ensures PhuffItems.ScanItems(sc, interval, StartProgress(sc, interval), mcus)
         == EobItems(sc.ly.acTbl[0], Eob(|mcus|, []))
  {
    ZeroScan(sc, interval, StartProgress(sc, interval), mcus);
    ShortRun(sc.ly.acTbl[0], 0, |mcus|);
  }

  /** How a run of n is sent: the symbol names the position m of its top bit, and m bits
      follow, and then the correction bits. */
  lemma RunSymbol(tbl: nat, e: Eob, m: nat)
    requires Pow2(m) <= e.run < 2 * Pow2(m)
    ensures var x := EobItems(tbl, e);
            && |x| == (if m == 0 then 1 else 2) + |e.bits|
            && x[0] == Symbol(AcTable(tbl), 16 * m) && (m > 0 ==> x[1] == Extra(e.run - Pow2(m), m))
            && forall i :: 0 <= i < |e.bits| ==> x[|x| - |e.bits| + i] == Extra(e.bits[i], 1)
  {
    TopBit(e.run, m);
    PowPositive(m);
    hide NBits, Pow2;
    DivModUnique(e.run, Pow2(m), 1, e.run - Pow2(m));
  }

  lemma PowPositive(m: nat)
    ensures Pow2(m) > 0 && (m == 0 ==> Pow2(m) == 1)
  {
  }

  lemma TopBit(v: nat, m: nat)
    requires Pow2(m) <= v < 2 * Pow2(m)
    ensures NBits(v) == m + 1
  {
    var n := NBits(v);
    hide NBits;
    if n > m + 1 {
      Pow2Twice(m);
      Pow2Mono(m + 1, n - 1);
    } else if n < m + 1 {
      Pow2Mono(n, m);
    }
  }
}
