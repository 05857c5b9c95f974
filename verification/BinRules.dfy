/** Which statistics bins the decisions of a coefficient use and in which order, written
    out by position: Tables F.4 and F.5, figures F.4 to F.9 and section F.1.4.4.1.2 of
    T.81. */
module BinRules {
  import opened Numbers
  import opened ProbabilityTable
  import opened IntervalCoder
  import opened ByteSource
  import opened Binarisation
  import opened AcBand
  import opened McuCoding
  import opened ScanCoding
  import Enc = EncoderRegisters
  import Dec = DecoderRegisters

  // ---- Magnitudes ----

  lemma {:induction false} UnaryIs(st: nat, n: nat, i: nat)
    requires i <= n
    ensures |Unary(st, n)| == n + 1 && Unary(st, n)[i] == Decision(st + i, if i < n then 1 else 0)
    decreases n
  {
    if n > 0 {
      UnaryIs(st + 1, n - 1, if i == 0 then 0 else i - 1);
    }
  }

  lemma {:induction false} PatternIs(st: nat, w: nat, n: nat, i: nat)
    requires i < n
    ensures |Pattern(st, w, Pow2(n))| == n && Pattern(st, w, Pow2(n))[i] == Decision(st, w / Pow2(n - 1 - i) % 2)
    decreases n
  {
    PatternLength(st, w, n);
    PatternLength(st, w, n - 1);
    HalfPower(n);
    hide Pow2;
    if i > 0 {
      PatternIs(st, w, n - 1, i - 1);
    }
  }

  lemma HalfPower(n: nat)
    requires n > 0
    ensures Pow2(n) / 2 == Pow2(n - 1) > 0
  {
  }

  lemma {:induction false} PatternLength(st: nat, w: nat, n: nat)
    ensures |Pattern(st, w, Pow2(n))| == n
    decreases n
  {
    if n > 0 {
      HalfPower(n);
      hide Pow2;
      PatternLength(st, w, n - 1);
    }
  }

  lemma {:induction false} TopBit(w: nat, m: nat)
    requires Pow2(m) <= w < 2 * Pow2(m)
    ensures w > 0 && Log2(w) == m
    decreases m
  {
    if m > 0 {
      HalfPower(m);
      TopBit(w / 2, m - 1);
    }
  }

  /** n ones and a zero in successive bins from x on, and then the n low bits of w, most
      significant first, all in the bin 14 behind the last of these. */
  ghost predicate Tree(d: seq<Decision>, x: nat, n: nat, w: nat, bits: nat) {
    && |d| == n + 1 + bits
    && (forall i :: 0 <= i <= n ==> TreeStep(d, x, n, i))
    && forall i :: 0 <= i < bits ==> TreeBit(d, x, n, w, bits, i)
  }

  predicate TreeStep(d: seq<Decision>, x: nat, n: nat, i: nat)
    requires i <= n < |d|
  {
    d[i] == Decision(x + i, if i < n then 1 else 0)
  }

  predicate TreeBit(d: seq<Decision>, x: nat, n: nat, w: nat, bits: nat, i: nat)
    requires i < bits && n + 1 + bits <= |d|
  {
    d[n + 1 + i] == Decision(x + n + 14, w / Pow2(bits - 1 - i) % 2)
  }

  lemma TreeIs(x: nat, n: nat, w: nat, bits: nat)
    ensures var d := Unary(x, n) + Pattern(x + n + 14, w, Pow2(bits)); d != [] && Tree(d, x, n, w, bits)
  {
    UnaryIs(x, n, 0);
    PatternLength(x + n + 14, w, bits);
    hide Unary, Pattern, Pow2;
    var d := Unary(x, n) + Pattern(x + n + 14, w, Pow2(bits));
    forall i | 0 <= i <= n ensures TreeStep(d, x, n, i) {
      UnaryIs(x, n, i);
    }
    forall i | 0 <= i < bits ensures TreeBit(d, x, n, w, bits, i) {
      PatternIs(x + n + 14, w, bits, i);
    }
  }

  /** A DC difference v, in the area `base` with the conditioning category ctx: the zero
      bin, the sign bin, SP or SN, and for magnitudes over 1 the tree at X1 = 20; m is the
      position of the top bit of |v| - 1. */
  ghost predicate DcTree(d: seq<Decision>, base: nat, ctx: nat, v: int, m: nat) {
    var s := if v < 0 then 1 else 0;
    && |d| >= 1 && d[0] == Decision(base + ctx, if v == 0 then 0 else 1)
    && (v == 0 ==> |d| == 1)
    && (v != 0 ==> && |d| >= 3 && d[1] == Decision(base + ctx + 1, s)
                   && d[2] == Decision(base + ctx + 2 + s, if Abs(v) > 1 then 1 else 0))
    && (Abs(v) == 1 ==> |d| == 3)
    && (Abs(v) > 1 ==> Tree(d[3..], base + 20, m, Abs(v) - 1, m))
  }

  lemma DcTreeIs(base: nat, ctx: nat, v: int, m: nat)
    requires Abs(v) > 1 ==> Pow2(m) <= Abs(v) - 1 < 2 * Pow2(m)
    ensures DcTree(DcDecisions(base, ctx, v), base, ctx, v, m)
  {
    var s := SignBit(v);
    if Abs(v) > 1 {
      var w: nat := Abs(v) - 1;
      BigDifference(base + ctx + 2 + s, base + 20, w, m);
      DcTreeParts(base, ctx, v, m, DcMagnitude(base + ctx + 2 + s, base + 20, w));
    }
    hide DcMagnitude, Tree, Pow2;
  }

  lemma DcTreeParts(base: nat, ctx: nat, v: int, m: nat, x: seq<Decision>)
    requires Abs(v) > 1 && |x| > 1 && x[0] == Decision(base + ctx + 2 + SignBit(v), 1)
    requires Tree(x[1..], base + 20, m, Abs(v) - 1, m)
    ensures DcTree([Decision(base + ctx, 1)] + ([Decision(base + ctx + 1, SignBit(v))] + x), base, ctx, v, m)
  {
    hide Tree;
    Behind(Decision(base + ctx, 1), Decision(base + ctx + 1, SignBit(v)), x);
  }

  lemma Behind(a: Decision, b: Decision, x: seq<Decision>)
    requires |x| > 0
    ensures var d := [a] + ([b] + x); d[0] == a && d[1] == b && d[2] == x[0] && d[3..] == x[1..]
  {
  }

  lemma BigDifference(st: nat, x1: nat, w: nat, m: nat)
    requires Pow2(m) <= w < 2 * Pow2(m)
    ensures var d := DcMagnitude(st, x1, w);
            |d| > 1 && d[0] == Decision(st, 1) && Tree(d[1..], x1, m, w, m)
  {
    hide Tree, Unary, Pattern, Pow2, Log2;
    TopBit(w, m);
    TreeIs(x1, m, w, m);
    var tree := Unary(x1, m) + Pattern(x1 + m + 14, w, Pow2(m));
    assert DcMagnitude(st, x1, w) == [Decision(st, 1)] + tree;
    hide DcMagnitude;
    assert ([Decision(st, 1)] + tree)[1..] == tree;
  }

  /** The conditioning category after v: zero or small, positive or negative, large. A
      difference is small up to 2^L / 2, and large above 2^U. */
  lemma ContextIs(v: int, lower: nat, upper: nat)
    ensures DcContext(v, lower, upper)
         == if v == 0 || Abs(v) - 1 < Pow2(lower) / 2 then 0
            else if Abs(v) - 1 >= Pow2(upper) then (if v > 0 then 12 else 16)
            else (if v > 0 then 4 else 8)
  {
    if v != 0 {
      CategoryBounds(Abs(v) - 1, lower, upper);
      hide Category, Pow2;
    }
  }

  lemma CategoryBounds(w: nat, lower: nat, upper: nat)
    ensures Category(w) < Pow2(lower) / 2 <==> w < Pow2(lower) / 2
    ensures Category(w) > Pow2(upper) / 2 <==> w >= Pow2(upper)
  {
    if w > 0 {
      var n := Log2(w);
      hide Log2;
      Compare(n, w, lower);
      Compare(n, w, upper);
    }
  }

  lemma Compare(n: nat, w: nat, k: nat)
    requires Pow2(n) <= w < 2 * Pow2(n)
    ensures Pow2(n) < Pow2(k) / 2 <==> w < Pow2(k) / 2
    ensures Pow2(n) > Pow2(k) / 2 <==> w >= Pow2(k)
  {
    hide Pow2;
    if k <= n {
      Pow2Mono(k, n);
      Positive(k);
    } else {
      HalfPower(k);
      Pow2Twice(n);
      Pow2Mono(n, k - 1);
      if n + 1 < k {
        Pow2Mono(n + 1, k - 1);
      }
    }
  }

  lemma Positive(k: nat)
    ensures Pow2(k) > 0
  {
  }

  /** An AC coefficient t at index k, in the area `base`: its sign in the fixed bin, then
      the bin 3k - 1, twice for magnitudes over 2, and for those the tree at X2, which is
      189 up to the conditioning value Kx and 217 above. */
  ghost predicate AcTree(d: seq<Decision>, base: nat, kx: nat, k: nat, t: int, m: nat)
    requires k > 0
  {
    var sp: nat, x := base + 3 * k - 1, base + if k <= kx then 189 else 217;
    && |d| >= 2 && d[0] == Decision(FIXED_BIN, if t < 0 then 1 else 0)
    && d[1] == Decision(sp, if Abs(t) > 1 then 1 else 0)
    && (Abs(t) == 1 ==> |d| == 2)
    && (Abs(t) == 2 ==> |d| == 3 && d[2] == Decision(sp, 0))
    && (Abs(t) > 2 ==> |d| > 3 && d[2] == Decision(sp, 1) && m > 0 && Tree(d[3..], x, m - 1, Abs(t) - 1, m))
  }

  function CoefDecisions(bd: Band, t: Block, k: nat): (d: seq<Decision>)
    requires 1 <= k < DCTSIZE2 && t[k] != 0
  {
    [Decision(FIXED_BIN, SignBit(t[k]))] + AcMagnitude(At(bd, k) + 2, X2(bd, k), Abs(t[k]) - 1)
  }

  lemma AcTreeIs(bd: Band, t: Block, k: nat, m: nat)
    requires 1 <= k < DCTSIZE2 && t[k] != 0 && (Abs(t[k]) > 2 ==> Pow2(m) <= Abs(t[k]) - 1 < 2 * Pow2(m))
    ensures AcTree(CoefDecisions(bd, t, k), bd.base, bd.kx, k, t[k], m)
  {
    if Abs(t[k]) > 2 {
      var w, sp, x := Abs(t[k]) - 1, At(bd, k) + 2, X2(bd, k);
      assert m > 0 by { assert m == 0 ==> Pow2(m) == 1; }
      BigMagnitude(sp, x, w, m);
      hide Tree, AcMagnitude, Pow2;
      assert CoefDecisions(bd, t, k)[3..] == AcMagnitude(sp, x, w)[2..];
    }
  }

  lemma BigMagnitude(sp: nat, x: nat, w: nat, m: nat)
    requires w > 1 && m > 0 && Pow2(m) <= w < 2 * Pow2(m)
    ensures var d := AcMagnitude(sp, x, w);
            |d| > 2 && d[0] == d[1] == Decision(sp, 1) && Tree(d[2..], x, m - 1, w, m)
  {
    hide Tree, Unary, Pattern, Pow2, Log2;
    TopBit(w, m);
    var n: nat := m - 1;
    TreeIs(x, n, w, m);
    var tree := Unary(x, n) + Pattern(x + n + 14, w, Pow2(m));
    assert AcMagnitude(sp, x, w) == [Decision(sp, 1)] + ([Decision(sp, 1)] + tree);
    hide AcMagnitude;
    TwoMore(Decision(sp, 1), tree);
  }

  lemma TwoMore(a: Decision, x: seq<Decision>)
    ensures ([a] + ([a] + x))[2..] == x
  {
  }

  // ---- The coefficients of a band ----

  /** The zeros at k .. n - 1. */
  function ZeroRun(base: nat, k: nat, n: nat): (d: seq<Decision>)
    requires 1 <= k <= n
  {
    seq(n - k, i requires 0 <= i < n - k => ZeroAt(base, k + i))
  }

  function ZeroAt(base: nat, k: nat): (d: Decision)
    requires k >= 1
  {
    Decision(base + 3 * (k - 1) + 1, 0)
  }

  lemma ZeroRunFirst(base: nat, k: nat, n: nat)
    requires 1 <= k < n
    ensures ZeroRun(base, k, n) == [ZeroAt(base, k)] + ZeroRun(base, k + 1, n)
  {
  }

  lemma {:induction false} RunIs(bd: Band, t: Block, k: nat, n: nat, ke: nat)
    requires 1 <= k <= n <= ke < DCTSIZE2 && t[n] != 0 && t[ke] != 0 && forall j :: k <= j < n ==> t[j] == 0
    ensures AcRun(bd, t, k, ke)
         == ZeroRun(bd.base, k, n) + ([Decision(bd.base + 3 * (n - 1) + 1, 1)]
                                      + (CoefDecisions(bd, t, n) + AcFrom(bd, t, n + 1, ke)))
    decreases n - k
  {
    hide AcMagnitude, AcFrom, X2;
    if k < n {
      RunIs(bd, t, k + 1, n, ke);
      ZeroRunFirst(bd.base, k, n);
    } else {
      assert ZeroRun(bd.base, k, n) == [];
    }
  }

  /** "Not the end of the band" at k, zeros up to n, a coefficient at n, and the rest. */
  function UpTo(bd: Band, t: Block, k: nat, n: nat, rest: seq<Decision>): (d: seq<Decision>)
    requires 1 <= k <= n < DCTSIZE2 && t[n] != 0
  {
    [Decision(bd.base + 3 * (k - 1), 0)]
    + (ZeroRun(bd.base, k, n) + ([Decision(bd.base + 3 * (n - 1) + 1, 1)] + (CoefDecisions(bd, t, n) + rest)))
  }

  /** At index k of a first or sequential scan, when n is the next coefficient that is not
      zero. */
  lemma BandStep(bd: Band, t: Block, k: nat, n: nat, ke: nat)
    requires 1 <= k <= n <= ke < DCTSIZE2 && t[n] != 0 && t[ke] != 0 && forall j :: k <= j < n ==> t[j] == 0
    ensures AcFrom(bd, t, k, ke) == UpTo(bd, t, k, n, AcFrom(bd, t, n + 1, ke))
  {
    RunIs(bd, t, k, n, ke);
    hide AcRun, ZeroRun, CoefDecisions;
  }

  /** "End of band" at index k, if that is within the band. */
  function EndAt(bd: Band, k: nat): (d: seq<Decision>)
    requires k >= 1
  {
    if k <= bd.se then [Decision(bd.base + 3 * (k - 1), 1)] else []
  }

  /** At index k, when there is no such coefficient. */
  lemma BandEnd(bd: Band, t: Block, k: nat, ke: nat)
    requires 1 <= k && ke < k && ke < DCTSIZE2 && (ke > 0 ==> t[ke] != 0)
    ensures AcFrom(bd, t, k, ke) == EndAt(bd, k)
  {
  }

  /** What a refinement scan sends for a coefficient: its next bit, or that it becomes
      nonzero and with which sign. */
  function RefinedAt(base: nat, n: nat, t: int): (d: seq<Decision>)
    requires n >= 1
  {
    if Abs(t) > 1 then [Decision(base + 3 * (n - 1) + 2, Abs(t) % 2)]
    else [Decision(base + 3 * (n - 1) + 1, 1), Decision(FIXED_BIN, if t < 0 then 1 else 0)]
  }

  lemma {:induction false} RefineRunIs(bd: Band, t: Block, k: nat, n: nat, ke: nat, kex: nat)
    requires 1 <= k <= n <= ke < DCTSIZE2 && t[n] != 0 && t[ke] != 0 && forall j :: k <= j < n ==> t[j] == 0
    ensures RefRun(bd, t, k, ke, kex)
         == ZeroRun(bd.base, k, n) + (RefinedAt(bd.base, n, t[n]) + RefFrom(bd, t, n + 1, ke, kex))
    decreases n - k
  {
    hide RefFrom;
    if k < n {
      RefineRunIs(bd, t, k + 1, n, ke, kex);
      ZeroRunFirst(bd.base, k, n);
    } else {
      assert ZeroRun(bd.base, k, n) == [];
    }
  }

  /** At index k of a refinement scan; up to kex no end of the band is possible, and none
      is coded. */
  lemma RefineStep(bd: Band, t: Block, k: nat, n: nat, ke: nat, kex: nat)
    requires 1 <= k <= n <= ke < DCTSIZE2 && t[n] != 0 && t[ke] != 0 && forall j :: k <= j < n ==> t[j] == 0
    ensures RefFrom(bd, t, k, ke, kex)
         == (if k > kex then [Decision(bd.base + 3 * (k - 1), 0)] else [])
            + (ZeroRun(bd.base, k, n) + (RefinedAt(bd.base, n, t[n]) + RefFrom(bd, t, n + 1, ke, kex)))
  {
    RefineRunIs(bd, t, k, n, ke, kex);
    hide RefRun, ZeroRun, RefinedAt;
  }

  // ---- Blocks ----

  /** The point transforms: rounding down for DC, towards zero for AC. */
  lemma ShiftsRound(x: int, al: nat)
    ensures var v, p := DcShift(x, al), Pow2(al); v * p <= x < v * p + p
    ensures var v, p := AcShift(x, al), Pow2(al);
            Abs(v) * p <= Abs(x) < Abs(v) * p + p && (v > 0 ==> x > 0) && (v < 0 ==> x < 0)
  {
    hide Pow2;
    Quotient(x, Pow2(al));
    Quotient(Abs(x), Pow2(al));
  }

  lemma Quotient(x: int, p: nat)
    requires p > 0
    ensures x / p * p <= x < x / p * p + p
  {
  }

  /** The area and the Kx of the component's AC table, and the band from Ss to Se; all AC
      coefficients in a sequential scan. */
  function BandOfTable(sc: Scan, i: nat): (bd: Band)
    requires i < |sc.membership| && sc.membership[i] < |sc.acTbl| && sc.acTbl[sc.membership[i]] < |sc.kx|
  {
    var tbl := sc.acTbl[sc.membership[i]];
    if sc.kind.Sequential? then Band(1024 + 256 * tbl, sc.kx[tbl], 1, 63)
    else Band(1024 + 256 * tbl, sc.kx[tbl], sc.ss, sc.se)
  }

  /** The coefficients that the scan codes. */
  function Coded(sc: Scan, x: Block): (t: Block) {
    if sc.kind.Sequential? then x else ShiftBlock(x, sc.al)
  }

  lemma OnlyInBand(bd: Band, t: Block, n: nat)
    requires 1 <= bd.ss <= n <= bd.se < DCTSIZE2 && t[n] != 0 && forall j :: bd.ss <= j < n ==> t[j] == 0
    ensures AcFrom(bd, t, bd.ss, n) == UpTo(bd, t, bd.ss, n, EndAt(bd, n + 1))
  {
    hide AcFrom, UpTo, EndAt;
    BandStep(bd, t, bd.ss, n, n);
    BandEnd(bd, t, n + 1, n);
  }

  /** A block whose only coefficient in the band is at index n. */
  lemma SingleCoefficient(sc: Scan, i: nat, x: Block, n: nat)
    requires GoodScan(sc) && i < |sc.membership| && (sc.kind.Sequential? || sc.kind.AcFirst?)
    requires var bd, t := BandOfTable(sc, i), Coded(sc, x);
             bd.ss <= n <= bd.se && t[n] != 0 && forall j :: bd.ss <= j <= bd.se && j != n ==> t[j] == 0
    ensures var bd, t := BandOfTable(sc, i), Coded(sc, x);
            1 <= bd.ss <= bd.se < DCTSIZE2 && AcScript(sc, i, x) == UpTo(bd, t, bd.ss, n, EndAt(bd, n + 1))
  {
    ScriptOfBand(sc, i, x);
    hide AcScript, BandOfTable, Coded, AcFrom, UpTo, EndAt, LastNonzero;
    LastIs(Coded(sc, x), BandOfTable(sc, i).se, n);
    OnlyInBand(BandOfTable(sc, i), Coded(sc, x), n);
  }

  lemma ScriptOfBand(sc: Scan, i: nat, x: Block)
    requires GoodScan(sc) && i < |sc.membership| && (sc.kind.Sequential? || sc.kind.AcFirst?)
    ensures var bd, t := BandOfTable(sc, i), Coded(sc, x);
            && 1 <= bd.ss <= bd.se < DCTSIZE2
            && AcScript(sc, i, x) == AcFrom(bd, t, bd.ss, LastNonzero(t, bd.se))
  {
    hide AcFrom, LastNonzero, ShiftBlock;
  }

  lemma LastIs(t: Block, se: nat, n: nat)
    requires 0 < n <= se < DCTSIZE2 && t[n] != 0 && forall j :: n < j <= se ==> t[j] == 0
    ensures LastNonzero(t, se) == n
  {
  }

  /** In a refinement scan the end of the band is first coded behind the last coefficient
      that was nonzero before the scan. */
  lemma RefineScript(sc: Scan, i: nat, x: Block) returns (ke: nat, kex: nat)
    requires GoodScan(sc) && i < |sc.membership| && sc.kind.AcRefine?
    ensures var bd, t := BandOfTable(sc, i), Coded(sc, x);
            && ke <= bd.se < DCTSIZE2 && (ke > 0 ==> t[ke] != 0) && (forall j :: ke < j <= bd.se ==> t[j] == 0)
            && kex <= ke && (kex > 0 ==> Abs(t[kex]) > 1) && (forall j :: kex < j <= bd.se ==> Abs(t[j]) <= 1)
            && 1 <= bd.ss && AcScript(sc, i, x) == RefFrom(bd, t, bd.ss, ke, kex)
  {
    hide RefFrom, LastNonzero, ShiftBlock;
    var t, u := ShiftBlock(x, sc.al), ShiftBlock(x, sc.al + 1);
    ke, kex := LastNonzero(t, sc.se), LastNonzero(u, LastNonzero(t, sc.se));
    forall j | 0 <= j < DCTSIZE2 ensures u[j] != 0 <==> Abs(t[j]) > 1 {
      HighBits(x, sc.al, j);
    }
  }

  lemma HighBits(x: Block, al: nat, j: nat)
    requires j < DCTSIZE2
    ensures ShiftBlock(x, al + 1)[j] != 0 <==> Abs(ShiftBlock(x, al)[j]) > 1
  {
    DivTwice(Abs(x[j]), al);
    hide Pow2;
  }

  /** The DC part of a block: the area of the component's DC table, its category, and the
      difference to the component's last value. Afterwards the value is the prediction,
      and the difference decides the category, with the table's L and U. */
  lemma DcOfBlock(sc: Scan, p: Pred, i: nat, x: Block)
    requires GoodScan(sc) && GoodPred(sc, p) && i < |sc.membership| && (sc.kind.Sequential? || sc.kind.DcFirst?)
    ensures var c := sc.membership[i];
            var tbl, x0 := sc.dcTbl[c], if sc.kind.DcFirst? then x[0] / Pow2(sc.al) else x[0];
            var v, q := x0 - p.last[c], NextPred(sc, p, i, x);
            && DcScript(sc, p, i, x) == DcDecisions(64 * tbl, p.ctx[c], v)
            && q.last == p.last[c := x0] && q.ctx == p.ctx[c := DcContext(v, sc.lower[tbl], sc.upper[tbl])]
  {
    hide DcDecisions, DcContext;
  }

  // ---- A new segment ----

  /** start_pass and each restart zero exactly the areas of the tables that the scan uses:
      64 bins for each DC table of a scan with DC values, 256 bins for each AC table of a
      scan with AC coefficients. */
  lemma SegmentStarts(sc: Scan, stats: seq<byte>, i: nat)
    requires GoodScan(sc) && i < |stats|
    ensures var dc := sc.kind.Sequential? || sc.kind.DcFirst?;
            var ac := sc.kind.Sequential? || sc.kind.AcFirst? || sc.kind.AcRefine?;
            var used := exists c ::
              0 <= c < |sc.dcTbl| && ((dc && 64 * sc.dcTbl[c] <= i < 64 * sc.dcTbl[c] + 64)
                                      || (ac && 1024 + 256 * sc.acTbl[c] <= i < 1280 + 256 * sc.acTbl[c]));
            ResetStats(sc, stats)[i] == if used then 0 else stats[i]
  {
    var n := |sc.dcTbl|;
    if InUse(sc, n, i) {
      var c :| 0 <= c < n && (InDcArea(sc, c, i) || InAcArea(sc, c, i));
      assert sc.dcTbl[c] < NUM_ARITH_TBLS;
    }
    forall c | 0 <= c < n
      ensures InDcArea(sc, c, i) <==> UsesDc(sc) && 64 * sc.dcTbl[c] <= i < 64 * sc.dcTbl[c] + 64
      ensures InAcArea(sc, c, i) <==> UsesAc(sc) && 1024 + 256 * sc.acTbl[c] <= i < 1280 + 256 * sc.acTbl[c]
    {
    }
  }

  /** Predictions and categories start from zero in the scans that have DC values. */
  lemma PredictionsStart(sc: Scan, p: Pred, c: nat)
    requires GoodScan(sc) && GoodPred(sc, p) && c < |sc.dcTbl|
    ensures var q := ResetPred(sc, p);
            |q.last| == |q.ctx| == |sc.dcTbl|
            && (if sc.kind.Sequential? || sc.kind.DcFirst? then q.last[c] == 0 && q.ctx[c] == 0
                else q.last[c] == p.last[c] && q.ctx[c] == p.ctx[c])
  {
  }

  /** A scan starts with empty registers, no restart behind it and the first interval ahead:
      Initenc and Initdec of annex D of T.81. */
  lemma ScanStarts(tab: seq<nat>, sc: Scan, interval: nat, stats: seq<byte>, p: Pred, data: seq<byte>)
    requires ValidTable(tab) && |tab| > 0 && ValidStats(tab, stats) && |stats| == BINS
    requires GoodScan(sc) && GoodPred(sc, p)
    ensures var e := StartEncoder(tab, sc, interval, stats, p);
            && e.num == 0 && e.togo == interval && e.out == [] && e.st.e == Enc.Regs(0, 0x10000, 0, 0, 11, -1, [])
            && e.st.stats == ResetStats(sc, stats) && e.p == ResetPred(sc, p)
    ensures var d := StartDecoder(tab, sc, interval, stats, p, data);
            && d.DecScan? && d.num == 0 && d.togo == interval && !d.bad && d.s.d == Dec.Regs(0, 0, -16, Source(data, 0))
            && d.s.stats == ResetStats(sc, stats) && d.p == ResetPred(sc, p)
  {
    hide GoodScan, GoodPred, ResetStats, ResetPred;
  }
}
