/** The range of DC differences that arithmetic coding brings back, exactly: a segment is
    decoded without error if and only if all of them are within 2^15, and a segment of
    16-bit coefficients that is not. */
module ExactRange {
  import opened Numbers
  import opened ProbabilityTable
  import opened IntervalCoder
  import opened ByteSource
  import opened Binarisation
  import opened AcBand
  import opened McuCoding
  import opened ScanCoding
  import opened ScriptBins
  import opened CoderRoundTrip
  import Dec = DecoderRegisters
  import Enc = EncoderRegisters

  /** All coefficients are 16-bit values, as JCOEF makes them. */
  ghost predicate ShortMcus(xs: seq<Mcu>) {
    forall i :: 0 <= i < |xs| ==> ShortMcu(xs[i])
  }

  ghost predicate ShortMcu(xs: Mcu) {
    forall j :: 0 <= j < |xs| ==> InRange(xs[j])
  }

  ghost predicate ShortPred(p: Pred) {
    forall c :: 0 <= c < |p.last| ==> Abs(p.last[c]) <= 0x8000
  }

  // ---- 16-bit coefficients stay inside the statistics ----

  /** A difference of 17 bits still stays in the 64 bins of its table. */
  lemma WideWithin(base: nat, ctx: nat, v: int)
    requires Abs(v) <= 0x10000 && ctx <= 16
    ensures Within(DcDecisions(base, ctx, v), base, base + DC_STAT_BINS)
  {
    hide DcMagnitude;
    if v != 0 {
      WideMagnitude(base, base + ctx + 2 + SignBit(v), Abs(v) - 1);
    }
  }

  lemma WideMagnitude(base: nat, st: nat, w: nat)
    requires w < 0x10000 && base <= st < base + 20
    ensures Within(DcMagnitude(st, base + 20, w), base, base + DC_STAT_BINS)
  {
    hide Unary, Pattern;
    if w > 0 {
      Log2Wide(w);
      hide Log2, Pow2;
      UnaryWithin(base + 20, Log2(w), base, base + DC_STAT_BINS);
      PatternWithin(base + 20 + Log2(w) + 14, w, Pow2(Log2(w)), base, base + DC_STAT_BINS);
    }
  }

  lemma Log2Wide(w: nat)
    requires 0 < w < 0x10000
    ensures Log2(w) <= 15
  {
    Pow2Values();
    if Log2(w) >= 16 {
      Pow2Mono(16, Log2(w));
    }
  }

  lemma ShortBlock(sc: Scan, p: Pred, i: nat, x: Block)
    requires GoodScan(sc) && GoodPred(sc, p) && i < |sc.membership| && ShortPred(p) && InRange(x)
    ensures ValidScript(BlockScript(sc, p, i, x), BINS) && ShortPred(NextPred(sc, p, i, x))
  {
    hide DcDecisions, AcScript, Within, DcContext, DcShift;
    InRangeAt(x, 0);
    DcShiftBounded(x[0], sc.al, 0x8000);
    hide InRange;
    var c := sc.membership[i];
    var dc, ac := DcBase(sc.dcTbl[c]), AcBase(sc.acTbl[c]);
    if sc.kind.Sequential? || sc.kind.DcFirst? {
      WideWithin(dc, p.ctx[c], DcValue(sc, x) - p.last[c]);
      WithinValid(DcScript(sc, p, i, x), dc, dc + DC_STAT_BINS);
    }
    if !sc.kind.DcFirst? && !sc.kind.DcRefine? {
      AcScriptWithin(sc, i, x);
      WithinValid(AcScript(sc, i, x), ac, ac + AC_BINS);
    }
  }

  lemma {:induction false} ShortMcuValid(sc: Scan, p: Pred, i: nat, xs: Mcu)
    requires GoodScan(sc) && GoodPred(sc, p) && i <= |sc.membership| == |xs| && ShortPred(p) && ShortMcu(xs)
    ensures ValidScript(McuScript(sc, p, i, xs), BINS) && ShortPred(McuPred(sc, p, i, xs))
    decreases |xs| - i
  {
    hide BlockScript, NextPred, GoodScan, GoodPred, InRange, ShortPred;
    if i < |xs| {
      ShortBlock(sc, p, i, xs[i]);
      ShortMcuValid(sc, NextPred(sc, p, i, xs[i]), i + 1, xs);
    }
  }

  /** The decisions of 16-bit coefficients use bins of the statistics areas, also where
      their differences are out of range. */
  lemma {:induction false} ShortScript(sc: Scan, p: Pred, xs: seq<Mcu>)
    requires GoodScan(sc) && GoodPred(sc, p) && ShapedMcus(sc, xs) && ShortPred(p) && ShortMcus(xs)
    ensures ValidScript(McusScript(sc, p, xs), BINS)
    decreases |xs|
  {
    hide GoodScan, GoodPred, McuScript, McuPred, ShortMcu, ShortPred;
    if xs != [] {
      ShortMcuValid(sc, p, 0, xs[0]);
      ShortScript(sc, McuPred(sc, p, 0, xs[0]), xs[1..]);
    }
  }

  /** What the encoder writes for one segment, and what follows it. */
  ghost function CodedSegment(tab: seq<nat>, sc: Scan, stats: seq<byte>, p: Pred, xs: seq<Mcu>, m: byte,
                              tail: seq<byte>):
      (s: seq<byte>)
    requires ValidTable(tab) && |tab| > 0 && ValidStats(tab, stats) && |stats| == BINS
    requires GoodScan(sc) && GoodPred(sc, p) && ShapedMcus(sc, xs) && ShortPred(p) && ShortMcus(xs)
  {
    ShortScript(sc, p, xs);
    Segment(CodeString(tab, stats, McusScript(sc, p, xs)), m, tail)
  }

  // ---- Reading a segment ----

  /** "if error do nothing": once in error, the decoder stays so up to the next restart. */
  lemma {:induction false} StaysBad(tab: seq<nat>, sc: Scan, interval: nat, ds: DecScan, curs: seq<Mcu>)
    requires ds.DecScan? && GoodDec(tab, sc, ds) && ds.bad && ShapedMcus(sc, curs)
             && (interval == 0 || |curs| <= ds.togo)
    ensures var r := DecodeMcus(tab, sc, interval, ds, curs); r.0.DecScan? && r.0.bad
    decreases |curs|
  {
    hide GoodScan, GoodPred, ReadMcu, Dec.ValidState;
    if curs != [] {
      StaysBad(tab, sc, interval, DecodeMcu(tab, sc, interval, ds, curs[0]).ds, curs[1..]);
    }
  }

  /** The MCUs of a segment. */
  lemma {:induction false} SegmentExactly(tab: seq<nat>, sc: Scan, interval: nat, ds: DecScan, xs: seq<Mcu>,
                                          curs: seq<Mcu>, end: seq<byte>)
    requires ds.DecScan? && GoodDec(tab, sc, ds) && !ds.bad
    requires ShapedMcus(sc, xs) && ShapedMcus(sc, curs) && PriorMcus(sc, xs, curs) && ShortMcus(xs)
    requires interval == 0 || |xs| <= ds.togo
    requires Follows(tab, ds.s, McusScript(sc, ds.p, xs), end)
    ensures var r := DecodeMcus(tab, sc, interval, ds, curs);
            r.0.DecScan? && (!r.0.bad <==> CodableMcus(sc, ds.p, xs))
    decreases |xs|
  {
    hide Follows, GoodScan, GoodPred, McuScript, McuPred, CodableMcu, ReadMcu, PriorMcu, Improved, NextMarker,
         Dec.ValidState, InRange;
    FollowsReady(tab, ds.s, McusScript(sc, ds.p, xs), end);
    if xs != [] {
      var p' := McuPred(sc, ds.p, 0, xs[0]);
      assert ShortMcu(xs[0]) && ShortAc(sc, xs[0], 0);
      McuReadsExactly(tab, ds.s, sc, ds.p, 0, xs[0], curs[0], McusScript(sc, p', xs[1..]), end);
      var first := DecodeMcu(tab, sc, interval, ds, curs[0]);
      if CodableMcu(sc, ds.p, 0, xs[0]) {
        McuReads(tab, ds.s, sc, ds.p, 0, xs[0], curs[0], McusScript(sc, p', xs[1..]), end);
        SegmentExactly(tab, sc, interval, first.ds, xs[1..], curs[1..], end);
      } else {
        StaysBad(tab, sc, interval, first.ds, curs[1..]);
      }
    }
  }

  /** A segment of 16-bit coefficients, of any kind of scan, from its first byte. */
  lemma SegmentReadsExactly(tab: seq<nat>, sc: Scan, interval: nat, ds: DecScan, xs: seq<Mcu>, curs: seq<Mcu>,
                            m: byte, tail: seq<byte>)
    requires ds.DecScan? && GoodDec(tab, sc, ds) && !ds.bad && ValidTable(tab)
    requires ValidStats(tab, ds.s.stats) && |ds.s.stats| == BINS
    requires ShapedMcus(sc, xs) && ShapedMcus(sc, curs) && PriorMcus(sc, xs, curs) && ShortPred(ds.p) && ShortMcus(xs)
    requires (interval == 0 || |xs| <= ds.togo) && m != 0 && m != 0xFF
    requires ds.s.d == Dec.Start(Source(CodedSegment(tab, sc, ds.s.stats, ds.p, xs, m, tail), 0))
    ensures var r := DecodeMcus(tab, sc, interval, ds, curs);
            r.0.DecScan? && (!r.0.bad <==> CodableMcus(sc, ds.p, xs))
  {
    hide GoodScan, GoodPred, McuScript, Dec.Synced, Enc.EncodeAll, NextMarker, Segment, CodableMcus, PriorMcus,
         ShortMcus, ShortPred;
    ShortScript(sc, ds.p, xs);
    var script := McusScript(sc, ds.p, xs);
    StartSynced(tab, ds.s.stats, script, m, tail);
    SegmentExactly(tab, sc, interval, ds, xs, curs, Enc.EncodeAll(tab, Enc.State(Enc.START, ds.s.stats), script).stats);
  }

  // ---- A segment of 16-bit coefficients that does not come back ----

  /** One component, one block to an MCU. */
  function PlainScan(): (sc: Scan) {
    var none := seq(NUM_ARITH_TBLS, t => 0);
    Scan(Sequential, [0], [0], [0], none, none, none, 0, DCTSIZE2 - 1, 0)
  }

  function DcOnly(v: int): (b: Block) {
    seq(DCTSIZE2, k => if k == 0 then v else 0)
  }

  /** The lowest and the highest DC value, one after the other. */
  function Extremes(): (xs: seq<Mcu>) { [[DcOnly(-0x8000)], [DcOnly(0x7FFF)]] }

  function Blank(): (curs: seq<Mcu>) { [[DcOnly(0)], [DcOnly(0)]] }

  lemma ExtremesShape()
    ensures GoodScan(PlainScan()) && ShapedMcus(PlainScan(), Extremes()) && ShortMcus(Extremes())
    ensures ShapedMcus(PlainScan(), Blank()) && PriorMcus(PlainScan(), Extremes(), Blank())
    ensures GoodPred(PlainScan(), ZeroPred(PlainScan())) && ShortPred(ZeroPred(PlainScan()))
  {
  }

  lemma ExtremesNotCodable()
    ensures GoodScan(PlainScan()) && GoodPred(PlainScan(), ZeroPred(PlainScan())) && ShapedMcus(PlainScan(), Extremes())
    ensures !CodableMcus(PlainScan(), ZeroPred(PlainScan()), Extremes())
  {
    ExtremesShape();
    var sc, p, xs := PlainScan(), ZeroPred(PlainScan()), Extremes();
    hide DcContext, InRange, Pow2;
    var q := McuPred(sc, p, 0, xs[0]);
    assert NextPred(sc, p, 0, xs[0][0]).last == [-0x8000];
    assert q == McuPred(sc, NextPred(sc, p, 0, xs[0][0]), 1, xs[0]);
    assert q.last == [-0x8000];
    assert !Codable(sc, q, 0, xs[1][0]);
    assert !CodableMcu(sc, q, 0, xs[1]);
    assert xs[1..][0] == xs[1];
    assert !CodableMcus(sc, q, xs[1..]);
  }

  /** A new decoder at the start of a scan. */
  function NewDecoder(sc: Scan, data: seq<byte>): (ds: DecScan) {
    DecScan(Dec.State(Dec.Start(Source(data, 0)), InitialStats()), ZeroPred(sc), 0, 0, false)
  }

  lemma NewDecoderGood(sc: Scan, data: seq<byte>)
    requires GoodScan(sc)
    ensures ValidTable(JPEG_ARITAB) && |JPEG_ARITAB| > 0 && ValidStats(JPEG_ARITAB, InitialStats())
            && |InitialStats()| == BINS
    ensures GoodDec(JPEG_ARITAB, sc, NewDecoder(sc, data))
  {
    AritabValid();
    hide JPEG_ARITAB, ValidTable;
    Dec.StartValid(Source(data, 0));
  }

  /** With 16-bit coefficients an image can be beyond the coder: the lowest DC value
      followed by the highest is written, but a new decoder ends in error. */
  lemma ExtremesFail(m: byte, tail: seq<byte>)
    requires m != 0 && m != 0xFF
    ensures GoodScan(PlainScan()) && GoodPred(PlainScan(), ZeroPred(PlainScan())) && ShortPred(ZeroPred(PlainScan()))
    ensures ShapedMcus(PlainScan(), Extremes()) && ShortMcus(Extremes()) && ShapedMcus(PlainScan(), Blank())
    ensures ValidTable(JPEG_ARITAB) && |JPEG_ARITAB| > 0 && ValidStats(JPEG_ARITAB, InitialStats())
            && |InitialStats()| == BINS
    ensures var sc := PlainScan();
            var ds := NewDecoder(sc, CodedSegment(JPEG_ARITAB, sc, InitialStats(), ZeroPred(sc), Extremes(), m, tail));
            && GoodDec(JPEG_ARITAB, sc, ds)
            && var r := DecodeMcus(JPEG_ARITAB, sc, 0, ds, Blank());
               r.0.DecScan? && r.0.bad
  {
    hide PlainScan, Extremes, Blank, ZeroPred, DecodeMcus, CodableMcus, ShortMcus, PriorMcus, GoodScan, Segment,
         McusScript, ValidTable, ValidStats, InitialStats, ShortPred, CodedSegment;
    ExtremesShape();
    var sc := PlainScan();
    NewDecoderGood(sc, []);
    var data := CodedSegment(JPEG_ARITAB, sc, InitialStats(), ZeroPred(sc), Extremes(), m, tail);
    NewDecoderGood(sc, data);
    ExtremesNotCodable();
    SegmentReadsExactly(JPEG_ARITAB, sc, 0, NewDecoder(sc, data), Extremes(), Blank(), m, tail);
  }
}
