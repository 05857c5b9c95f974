/** Which statistics bins the decoder of jdarith.c uses, on any input at all: below 49
    in the area of a DC table, below 245 in that of an AC table, and the fixed bin
    (T.81 F.1.4.4.1.3 and F.1.4.4.2). */
module DecoderBins {
  import opened Numbers
  import opened ProbabilityTable
  import opened IntervalCoder
  import opened DecoderRegisters
  import opened Binarisation
  import opened AcBand
  import opened McuCoding
  import opened ScriptBins
  import S = ScanCoding

  // ---- Using nothing but a set of bins ----

  /** The same registers, and the same statistics in the bins of g. */
  ghost predicate Alike(s: State, t: State, g: iset<nat>) {
    s.d == t.d && |s.stats| == |t.stats| && forall i: nat :: i < |s.stats| && i in g ==> s.stats[i] == t.stats[i]
  }

  /** The statistics differ in the bins of g only. */
  ghost predicate OnlyIn(s: State, r: State, g: iset<nat>) {
    |s.stats| == |r.stats| && forall i: nat :: i < |s.stats| && i !in g ==> r.stats[i] == s.stats[i]
  }

  /** The decoding step from s to r, and from t to q, did not look at a bin outside g,
      or change one. */
  ghost predicate Confined(s: State, r: State, t: State, q: State, g: iset<nat>) {
    Alike(r, q, g) && OnlyIn(s, r, g) && OnlyIn(t, q, g)
  }

  lemma Stay(s: State, t: State, g: iset<nat>)
    requires Alike(s, t, g)
    ensures Confined(s, s, t, t, g)
  {
  }

  lemma Chain(s: State, r: State, r2: State, t: State, q: State, q2: State, g: iset<nat>)
    requires Confined(s, r, t, q, g) && Confined(r, r2, q, q2, g)
    ensures Confined(s, r2, t, q2, g)
  {
  }

  lemma DecodeConfined(tab: seq<nat>, s: State, t: State, bin: nat, g: iset<nat>)
    requires Ready(tab, s) && Ready(tab, t) && Alike(s, t, g) && bin < BINS && bin in g
    ensures var d, e := Decode(tab, s, bin), Decode(tab, t, bin);
            d.val == e.val && Confined(s, d.s, t, e.s, g)
  {
    hide DecodeChoice, Renorm, Qe, ValidTable, ValidStats, Valid, Pow2;
  }

  // ---- The decoder's loops ----

  lemma {:induction false} UnaryConfined(tab: seq<nat>, s: State, t: State, st: nat, n: nat, g: iset<nat>)
    requires Ready(tab, s) && Ready(tab, t) && Alike(s, t, g) && n <= 14 && st + 14 - n < BINS
    requires forall i: nat :: st <= i <= st + 14 - n ==> i in g
    ensures var r, q := ReadUnary(tab, s, st, n), ReadUnary(tab, t, st, n);
            r == q.(s := r.s) && Confined(s, r.s, t, q.s, g)
    decreases 15 - n
  {
    hide Decode, ValidState, SameMarker, Alike, Confined, Pow2;
    DecodeConfined(tab, s, t, st, g);
    var d, e := Decode(tab, s, st), Decode(tab, t, st);
    assert Alike(d.s, e.s, g) by { ConfinedAlike(s, d.s, t, e.s, g); }
    if d.val != 0 && n + 1 != 15 {
      UnaryConfined(tab, d.s, e.s, st + 1, n + 1, g);
      var r, q := ReadUnary(tab, d.s, st + 1, n + 1), ReadUnary(tab, e.s, st + 1, n + 1);
      Chain(s, d.s, r.s, t, e.s, q.s, g);
    }
  }

  lemma ConfinedAlike(s: State, r: State, t: State, q: State, g: iset<nat>)
    requires Confined(s, r, t, q, g)
    ensures Alike(r, q, g)
  {
  }

  lemma {:induction false} PatternConfined(tab: seq<nat>, s: State, t: State, st: nat, m: nat, v: nat, g: iset<nat>)
    requires Ready(tab, s) && Ready(tab, t) && Alike(s, t, g) && st < BINS && (m / 2 != 0 ==> st in g)
    ensures var r, q := ReadPattern(tab, s, st, m, v), ReadPattern(tab, t, st, m, v);
            r.v == q.v && Confined(s, r.s, t, q.s, g)
    decreases m
  {
    hide Decode, ValidState, SameMarker, Alike, Confined, SetBit;
    if m / 2 == 0 {
      Stay(s, t, g);
    } else {
      DecodeConfined(tab, s, t, st, g);
      var d, e := Decode(tab, s, st), Decode(tab, t, st);
      ConfinedAlike(s, d.s, t, e.s, g);
      var w := if d.val == 1 then SetBit(v, m / 2) else v;
      PatternConfined(tab, d.s, e.s, st, m / 2, w, g);
      Chain(s, d.s, ReadPattern(tab, d.s, st, m / 2, w).s, t, e.s, ReadPattern(tab, e.s, st, m / 2, w).s, g);
    }
  }

  lemma ValueConfined(tab: seq<nat>, a: Mag, b: Mag, sign: bit, g: iset<nat>)
    requires Ready(tab, a.s) && Ready(tab, b.s) && Alike(a.s, b.s, g) && a == b.(s := a.s)
    requires a.st + 14 < BINS && (a.ok && a.m / 2 != 0 ==> a.st + 14 in g)
    ensures var r, q := ReadValue(tab, a, sign), ReadValue(tab, b, sign);
            r == q.(s := r.s) && Confined(a.s, r.s, b.s, q.s, g)
  {
    hide ReadPattern, ValidState, SameMarker, Alike, Confined;
    if a.ok {
      PatternConfined(tab, a.s, b.s, a.st + 14, a.m, a.m, g);
    } else {
      Stay(a.s, b.s, g);
    }
  }

  ghost predicate DcArea(base: nat, g: iset<nat>) {
    forall i: nat :: base <= i < base + DC_BINS ==> i in g
  }

  ghost predicate AcArea(base: nat, g: iset<nat>) {
    (forall i: nat :: base <= i < base + AC_BINS ==> i in g) && FIXED_BIN in g
  }

  lemma DcMagnitudeConfined(tab: seq<nat>, s: State, t: State, base: nat, st: nat, g: iset<nat>)
    requires Ready(tab, s) && Ready(tab, t) && Alike(s, t, g) && base + 48 < BINS && base <= st < base + 20
             && DcArea(base, g)
    ensures var r, q := ReadDcMagnitude(tab, s, st, base + 20), ReadDcMagnitude(tab, t, st, base + 20);
            r == q.(s := r.s) && Confined(s, r.s, t, q.s, g) && (r.ok && r.m / 2 != 0 ==> r.st + 14 in g)
  {
    hide Decode, ValidState, SameMarker, Alike, Confined, ReadUnary;
    DecodeConfined(tab, s, t, st, g);
    var d, e := Decode(tab, s, st), Decode(tab, t, st);
    if d.val != 0 {
      ConfinedAlike(s, d.s, t, e.s, g);
      UnaryConfined(tab, d.s, e.s, base + 20, 0, g);
      Chain(s, d.s, ReadUnary(tab, d.s, base + 20, 0).s, t, e.s, ReadUnary(tab, e.s, base + 20, 0).s, g);
    }
  }

  /** Decode_DC_DIFF stays below 49 in the area of its table. */
  lemma DcConfined(tab: seq<nat>, s: State, t: State, base: nat, ctx: nat, lower: nat, upper: nat, g: iset<nat>)
    requires Ready(tab, s) && Ready(tab, t) && Alike(s, t, g) && base + 48 < BINS && ctx <= 16 && DcArea(base, g)
    ensures var r, q := ReadDc(tab, s, base, ctx, lower, upper), ReadDc(tab, t, base, ctx, lower, upper);
            r == q.(s := r.s) && Confined(s, r.s, t, q.s, g)
  {
    hide Decode, ValidState, SameMarker, Alike, Confined, ReadDcMagnitude, ReadValue, ContextOf;
    DecodeConfined(tab, s, t, base + ctx, g);
    var d0, e0 := Decode(tab, s, base + ctx), Decode(tab, t, base + ctx);
    if d0.val != 0 {
      ConfinedAlike(s, d0.s, t, e0.s, g);
      DecodeConfined(tab, d0.s, e0.s, base + ctx + 1, g);
      var d1, e1 := Decode(tab, d0.s, base + ctx + 1), Decode(tab, e0.s, base + ctx + 1);
      ConfinedAlike(d0.s, d1.s, e0.s, e1.s, g);
      DcMagnitudeConfined(tab, d1.s, e1.s, base, base + ctx + 2 + d1.val, g);
      var a, b := ReadDcMagnitude(tab, d1.s, base + ctx + 2 + d1.val, base + 20),
        ReadDcMagnitude(tab, e1.s, base + ctx + 2 + d1.val, base + 20);
      ConfinedAlike(d1.s, a.s, e1.s, b.s, g);
      ValueConfined(tab, a, b, d1.val, g);
      Chain(s, d0.s, d1.s, t, e0.s, e1.s, g);
      Chain(s, d1.s, a.s, t, e1.s, b.s, g);
      Chain(s, a.s, ReadValue(tab, a, d1.val).s, t, b.s, ReadValue(tab, b, d1.val).s, g);
    }
  }

  lemma AcMagnitudeConfined(tab: seq<nat>, s: State, t: State, base: nat, st: nat, x: nat, g: iset<nat>)
    requires Ready(tab, s) && Ready(tab, t) && Alike(s, t, g) && base + AC_BINS <= BINS && AcArea(base, g)
    requires base <= st < base + 189 && base <= x <= base + 217
    ensures var r, q := ReadAcMagnitude(tab, s, st, x), ReadAcMagnitude(tab, t, st, x);
            r == q.(s := r.s) && Confined(s, r.s, t, q.s, g) && (r.ok && r.m / 2 != 0 ==> r.st + 14 in g)
  {
    hide Decode, ValidState, SameMarker, Alike, Confined, ReadUnary;
    DecodeConfined(tab, s, t, st, g);
    var d0, e0 := Decode(tab, s, st), Decode(tab, t, st);
    if d0.val != 0 {
      ConfinedAlike(s, d0.s, t, e0.s, g);
      DecodeConfined(tab, d0.s, e0.s, st, g);
      var d1, e1 := Decode(tab, d0.s, st), Decode(tab, e0.s, st);
      Chain(s, d0.s, d1.s, t, e0.s, e1.s, g);
      if d1.val != 0 {
        ConfinedAlike(d0.s, d1.s, e0.s, e1.s, g);
        UnaryConfined(tab, d1.s, e1.s, x, 1, g);
        Chain(s, d1.s, ReadUnary(tab, d1.s, x, 1).s, t, e1.s, ReadUnary(tab, e1.s, x, 1).s, g);
      }
    }
  }

  // ---- Bands ----

  lemma CoefConfined(tab: seq<nat>, s: State, t: State, bd: Band, k: nat, g: iset<nat>)
    requires Ready(tab, s) && Ready(tab, t) && Alike(s, t, g) && GoodBand(bd) && 1 <= k <= bd.se && AcArea(bd.base, g)
    ensures var r, q := ReadAcCoef(tab, s, bd, k), ReadAcCoef(tab, t, bd, k);
            r == q.(s := r.s) && Confined(s, r.s, t, q.s, g)
  {
    hide Decode, ValidState, SameMarker, Alike, Confined, ReadAcMagnitude, ReadValue;
    DecodeConfined(tab, s, t, FIXED_BIN, g);
    var d, e := Decode(tab, s, FIXED_BIN), Decode(tab, t, FIXED_BIN);
    ConfinedAlike(s, d.s, t, e.s, g);
    AcMagnitudeConfined(tab, d.s, e.s, bd.base, At(bd, k) + 2, X2(bd, k), g);
    var a, b := ReadAcMagnitude(tab, d.s, At(bd, k) + 2, X2(bd, k)),
      ReadAcMagnitude(tab, e.s, At(bd, k) + 2, X2(bd, k));
    ConfinedAlike(d.s, a.s, e.s, b.s, g);
    ValueConfined(tab, a, b, d.val, g);
    Chain(s, d.s, a.s, t, e.s, b.s, g);
    Chain(s, a.s, ReadValue(tab, a, d.val).s, t, b.s, ReadValue(tab, b, d.val).s, g);
  }

  /** The loops of a first scan stay below 245 in the area of their table, or use the
      fixed bin. */
  lemma {:induction false} AcFromConfined(tab: seq<nat>, s: State, t: State, bd: Band, al: nat, blk: Block, k: nat,
                                          g: iset<nat>)
    requires Ready(tab, s) && Ready(tab, t) && Alike(s, t, g) && GoodBand(bd) && k >= 1 && AcArea(bd.base, g)
    ensures var r, q := ReadAcFrom(tab, s, bd, al, blk, k), ReadAcFrom(tab, t, bd, al, blk, k);
            r == q.(s := r.s) && Confined(s, r.s, t, q.s, g)
    decreases DCTSIZE2 - k, 1
  {
    hide Decode, ValidState, SameMarker, Alike, Confined, ReadAcRun;
    if k > bd.se {
      Stay(s, t, g);
    } else {
      DecodeConfined(tab, s, t, At(bd, k), g);
      var d, e := Decode(tab, s, At(bd, k)), Decode(tab, t, At(bd, k));
      if d.val != 1 {
        ConfinedAlike(s, d.s, t, e.s, g);
        AcRunConfined(tab, d.s, e.s, bd, al, blk, k, g);
        Chain(s, d.s, ReadAcRun(tab, d.s, bd, al, blk, k).s, t, e.s, ReadAcRun(tab, e.s, bd, al, blk, k).s, g);
      }
    }
  }

  lemma {:induction false} AcRunConfined(tab: seq<nat>, s: State, t: State, bd: Band, al: nat, blk: Block, k: nat,
                                         g: iset<nat>)
    requires Ready(tab, s) && Ready(tab, t) && Alike(s, t, g) && GoodBand(bd) && 1 <= k <= bd.se && AcArea(bd.base, g)
    ensures var r, q := ReadAcRun(tab, s, bd, al, blk, k), ReadAcRun(tab, t, bd, al, blk, k);
            r == q.(s := r.s) && Confined(s, r.s, t, q.s, g)
    decreases DCTSIZE2 - k, 0
  {
    hide Decode, ValidState, SameMarker, Alike, Confined, ReadAcFrom, ReadAcCoef, Pow2;
    DecodeConfined(tab, s, t, At(bd, k) + 1, g);
    var d, e := Decode(tab, s, At(bd, k) + 1), Decode(tab, t, At(bd, k) + 1);
    ConfinedAlike(s, d.s, t, e.s, g);
    if d.val == 0 {
      if k + 1 <= bd.se {
        AcRunConfined(tab, d.s, e.s, bd, al, blk, k + 1, g);
        Chain(s, d.s, ReadAcRun(tab, d.s, bd, al, blk, k + 1).s, t, e.s, ReadAcRun(tab, e.s, bd, al, blk, k + 1).s, g);
      }
    } else {
      CoefConfined(tab, d.s, e.s, bd, k, g);
      var c, b := ReadAcCoef(tab, d.s, bd, k), ReadAcCoef(tab, e.s, bd, k);
      Chain(s, d.s, c.s, t, e.s, b.s, g);
      if c.ok {
        ConfinedAlike(d.s, c.s, e.s, b.s, g);
        var blk1 := blk[k := c.v * Pow2(al)];
        AcFromConfined(tab, c.s, b.s, bd, al, blk1, k + 1, g);
        Chain(s, c.s, ReadAcFrom(tab, c.s, bd, al, blk1, k + 1).s, t, b.s, ReadAcFrom(tab, b.s, bd, al, blk1, k + 1).s,
              g);
      }
    }
  }

  /** So do the loops of a refinement scan. */
  lemma {:induction false} RefFromConfined(tab: seq<nat>, s: State, t: State, bd: Band, al: nat, blk: Block, k: nat,
                                           kex: nat, g: iset<nat>)
    requires Ready(tab, s) && Ready(tab, t) && Alike(s, t, g) && GoodBand(bd) && k >= 1 && AcArea(bd.base, g)
    ensures var r, q := ReadRefFrom(tab, s, bd, al, blk, k, kex), ReadRefFrom(tab, t, bd, al, blk, k, kex);
            r == q.(s := r.s) && Confined(s, r.s, t, q.s, g)
    decreases DCTSIZE2 - k, 1
  {
    hide Decode, ValidState, SameMarker, Alike, Confined, ReadRefRun;
    if k > bd.se {
      Stay(s, t, g);
    } else if k > kex {
      DecodeConfined(tab, s, t, At(bd, k), g);
      var d, e := Decode(tab, s, At(bd, k)), Decode(tab, t, At(bd, k));
      if d.val != 1 {
        ConfinedAlike(s, d.s, t, e.s, g);
        RefRunConfined(tab, d.s, e.s, bd, al, blk, k, kex, g);
        Chain(s, d.s, ReadRefRun(tab, d.s, bd, al, blk, k, kex).s, t, e.s, ReadRefRun(tab, e.s, bd, al, blk, k, kex).s,
              g);
      }
    } else {
      RefRunConfined(tab, s, t, bd, al, blk, k, kex, g);
    }
  }

  lemma {:induction false} RefRunConfined(tab: seq<nat>, s: State, t: State, bd: Band, al: nat, blk: Block, k: nat,
                                          kex: nat, g: iset<nat>)
    requires Ready(tab, s) && Ready(tab, t) && Alike(s, t, g) && GoodBand(bd) && 1 <= k <= bd.se && AcArea(bd.base, g)
    ensures var r, q := ReadRefRun(tab, s, bd, al, blk, k, kex), ReadRefRun(tab, t, bd, al, blk, k, kex);
            r == q.(s := r.s) && Confined(s, r.s, t, q.s, g)
    decreases DCTSIZE2 - k, 0
  {
    hide Decode, ValidState, SameMarker, Alike, Confined, ReadRefFrom, Pow2;
    var p1: int := Pow2(al);
    var bin := if blk[k] != 0 then At(bd, k) + 2 else At(bd, k) + 1;
    DecodeConfined(tab, s, t, bin, g);
    var d, e := Decode(tab, s, bin), Decode(tab, t, bin);
    ConfinedAlike(s, d.s, t, e.s, g);
    if blk[k] != 0 {
      var blk1 := blk[k := if d.val == 0 then blk[k] else if blk[k] < 0 then blk[k] - p1 else blk[k] + p1];
      RefFromConfined(tab, d.s, e.s, bd, al, blk1, k + 1, kex, g);
      Chain(s, d.s, ReadRefFrom(tab, d.s, bd, al, blk1, k + 1, kex).s, t, e.s,
            ReadRefFrom(tab, e.s, bd, al, blk1, k + 1, kex).s, g);
    } else if d.val == 1 {
      DecodeConfined(tab, d.s, e.s, FIXED_BIN, g);
      var d2, e2 := Decode(tab, d.s, FIXED_BIN), Decode(tab, e.s, FIXED_BIN);
      ConfinedAlike(d.s, d2.s, e.s, e2.s, g);
      Chain(s, d.s, d2.s, t, e.s, e2.s, g);
      var blk1 := blk[k := if d2.val == 1 then -p1 else p1];
      RefFromConfined(tab, d2.s, e2.s, bd, al, blk1, k + 1, kex, g);
      Chain(s, d2.s, ReadRefFrom(tab, d2.s, bd, al, blk1, k + 1, kex).s, t, e2.s,
            ReadRefFrom(tab, e2.s, bd, al, blk1, k + 1, kex).s, g);
    } else if k + 1 <= bd.se {
      RefRunConfined(tab, d.s, e.s, bd, al, blk, k + 1, kex, g);
      Chain(s, d.s, ReadRefRun(tab, d.s, bd, al, blk, k + 1, kex).s, t, e.s,
            ReadRefRun(tab, e.s, bd, al, blk, k + 1, kex).s, g);
    }
  }

  // ---- MCUs ----

  /** The bins that the scan may use: 49 of each of its DC tables, 245 of each of its AC
      tables, and the fixed bin. */
  ghost predicate MayUse(sc: Scan, i: nat) {
    || (exists c: nat :: c < |sc.dcTbl| && S.UsesDc(sc) && DcBase(sc.dcTbl[c]) <= i < DcBase(sc.dcTbl[c]) + DC_BINS)
    || (exists c: nat :: c < |sc.acTbl| && S.UsesAc(sc) && AcBase(sc.acTbl[c]) <= i < AcBase(sc.acTbl[c]) + AC_BINS)
    || (i == FIXED_BIN && !sc.kind.DcFirst?)
  }

  ghost function BinsOf(sc: Scan): (g: iset<nat>) {
    iset i: nat | MayUse(sc, i)
  }

  lemma DcBinsOf(sc: Scan, c: nat)
    requires c < |sc.dcTbl| && S.UsesDc(sc)
    ensures DcArea(DcBase(sc.dcTbl[c]), BinsOf(sc))
  {
  }

  lemma AcBinsOf(sc: Scan, c: nat)
    requires c < |sc.acTbl| && S.UsesAc(sc)
    ensures AcArea(AcBase(sc.acTbl[c]), BinsOf(sc))
  {
  }

  lemma DcPartConfined(tab: seq<nat>, s: State, t: State, sc: Scan, p: Pred, i: nat, cur: Block)
    requires Ready(tab, s) && Ready(tab, t) && Alike(s, t, BinsOf(sc)) && GoodScan(sc) && GoodPred(sc, p)
    requires i < |sc.membership| && S.UsesDc(sc)
    ensures var r, q := ReadDcPart(tab, s, sc, p, i, cur), ReadDcPart(tab, t, sc, p, i, cur);
            r == q.(s := r.s) && Confined(s, r.s, t, q.s, BinsOf(sc))
  {
    hide ReadDc, ValidState, SameMarker, Alike, Confined, Pow2, BinsOf, DcArea;
    var c := sc.membership[i];
    DcBinsOf(sc, c);
    DcConfined(tab, s, t, DcBase(sc.dcTbl[c]), p.ctx[c], sc.lower[sc.dcTbl[c]], sc.upper[sc.dcTbl[c]], BinsOf(sc));
  }

  lemma AcPartConfined(tab: seq<nat>, s: State, t: State, sc: Scan, p: Pred, i: nat, cur: Block)
    requires Ready(tab, s) && Ready(tab, t) && Alike(s, t, BinsOf(sc)) && GoodScan(sc) && GoodPred(sc, p)
    requires i < |sc.membership| && S.UsesAc(sc)
    ensures var r, q := ReadAcPart(tab, s, sc, p, i, cur), ReadAcPart(tab, t, sc, p, i, cur);
            r == q.(s := r.s) && Confined(s, r.s, t, q.s, BinsOf(sc))
  {
    hide ReadAcFrom, ReadRefFrom, ValidState, SameMarker, Alike, Confined, BinsOf, AcArea;
    BandGood(sc, i);
    var bd, g := BandOf(sc, i), BinsOf(sc);
    AcBinsOf(sc, sc.membership[i]);
    if sc.kind.AcFirst? {
      AcFromConfined(tab, s, t, bd, sc.al, cur, bd.ss, g);
    } else if sc.kind.AcRefine? {
      RefFromConfined(tab, s, t, bd, sc.al, cur, bd.ss, LastNonzero(cur, bd.se), g);
    } else {
      AcFromConfined(tab, s, t, bd, 0, cur, 1, g);
    }
  }

  lemma BlockConfined(tab: seq<nat>, s: State, t: State, sc: Scan, p: Pred, i: nat, cur: Block)
    requires Ready(tab, s) && Ready(tab, t) && Alike(s, t, BinsOf(sc)) && GoodScan(sc) && GoodPred(sc, p)
             && i < |sc.membership|
    ensures var r, q := McuCoding.ReadBlock(tab, s, sc, p, i, cur), McuCoding.ReadBlock(tab, t, sc, p, i, cur);
            r == q.(s := r.s) && Confined(s, r.s, t, q.s, BinsOf(sc))
  {
    hide ReadDcPart, ReadAcPart, Decode, ValidState, SameMarker, Alike, Confined, GoodScan, GoodPred, OrBit;
    match sc.kind
    case Sequential =>
      DcPartConfined(tab, s, t, sc, p, i, cur);
      var d, e := ReadDcPart(tab, s, sc, p, i, cur), ReadDcPart(tab, t, sc, p, i, cur);
      if d.ok {
        ConfinedAlike(s, d.s, t, e.s, BinsOf(sc));
        AcPartConfined(tab, d.s, e.s, sc, d.p, i, d.blk);
        Chain(s, d.s, ReadAcPart(tab, d.s, sc, d.p, i, d.blk).s, t, e.s, ReadAcPart(tab, e.s, sc, d.p, i, d.blk).s,
              BinsOf(sc));
      }
    case DcFirst => DcPartConfined(tab, s, t, sc, p, i, cur);
    case DcRefine => DecodeConfined(tab, s, t, FIXED_BIN, BinsOf(sc));
    case _ => AcPartConfined(tab, s, t, sc, p, i, cur);
  }

  lemma {:induction false} McuConfined(tab: seq<nat>, s: State, t: State, sc: Scan, p: Pred, i: nat, curs: Mcu)
    requires Ready(tab, s) && Ready(tab, t) && Alike(s, t, BinsOf(sc)) && GoodScan(sc) && GoodPred(sc, p)
    requires i <= |sc.membership| == |curs|
    ensures var r, q := ReadMcu(tab, s, sc, p, i, curs), ReadMcu(tab, t, sc, p, i, curs);
            r == q.(s := r.s) && Confined(s, r.s, t, q.s, BinsOf(sc))
    decreases |curs| - i
  {
    hide McuCoding.ReadBlock, ValidState, SameMarker, Alike, Confined, GoodScan, GoodPred, BinsOf;
    if i == |curs| {
      Stay(s, t, BinsOf(sc));
    } else {
      BlockConfined(tab, s, t, sc, p, i, curs[i]);
      var b, c := McuCoding.ReadBlock(tab, s, sc, p, i, curs[i]), McuCoding.ReadBlock(tab, t, sc, p, i, curs[i]);
      if b.ok {
        ConfinedAlike(s, b.s, t, c.s, BinsOf(sc));
        McuConfined(tab, b.s, c.s, sc, b.p, i + 1, curs[i := b.blk]);
        Chain(s, b.s, ReadMcu(tab, b.s, sc, b.p, i + 1, curs[i := b.blk]).s,
              t, c.s, ReadMcu(tab, c.s, sc, b.p, i + 1, curs[i := b.blk]).s, BinsOf(sc));
      }
    }
  }

  /** decode_mcu and its progressive versions, on any input, without a restart: the bins
      that the scan does not use are neither looked at nor changed. */
  lemma DecodeMcuConfined(tab: seq<nat>, sc: Scan, interval: nat, ds: S.DecScan, es: S.DecScan, curs: Mcu)
    requires ds.DecScan? && S.GoodDec(tab, sc, ds) && es.DecScan? && S.GoodDec(tab, sc, es) && |curs| == |sc.membership|
    requires es == ds.(s := es.s) && Alike(ds.s, es.s, BinsOf(sc)) && !(interval > 0 && ds.togo == 0)
    ensures var r, q := S.DecodeMcu(tab, sc, interval, ds, curs), S.DecodeMcu(tab, sc, interval, es, curs);
            && r.ds.DecScan? && q.ds == r.ds.(s := q.ds.s) && q.blks == r.blks
            && Alike(r.ds.s, q.ds.s, BinsOf(sc))
            && forall i: nat :: i < BINS && !MayUse(sc, i) ==> r.ds.s.stats[i] == ds.s.stats[i]
  {
    hide ReadMcu, ValidState, SameMarker, GoodScan, GoodPred, MayUse;
    Stay(ds.s, es.s, BinsOf(sc));
    McuConfined(tab, ds.s, es.s, sc, ds.p, 0, curs);
  }
}
