/** The five MCU routines of jcarith.c and jdarith.c (sequential; first and
    refinement scans of DC and of AC) on top of the block coders, with the DC
    prediction and conditioning state that both sides keep. */
module McuCoding {
  import opened Numbers
  import opened ProbabilityTable
  import opened IntervalCoder
  import opened DecoderRegisters
  import opened Binarisation
  import opened AcBand

  datatype Kind = Sequential | DcFirst | AcFirst | DcRefine | AcRefine

  /** What a scan fixes: the routine, the tables of each component in the scan,
      the component of each block of an MCU, the conditioning parameters per
      table, the band and the point transform Al (Ah is Al + 1 when refining). */
  datatype Scan = Scan(kind: Kind, dcTbl: seq<nat>, acTbl: seq<nat>, membership: seq<nat>,
                       lower: seq<nat>, upper: seq<nat>, kx: seq<nat>, ss: nat, se: nat, al: nat)

  ghost predicate GoodScan(sc: Scan) {
    && |sc.dcTbl| == |sc.acTbl|
    && (forall c :: 0 <= c < |sc.dcTbl| ==> sc.dcTbl[c] < NUM_ARITH_TBLS && sc.acTbl[c] < NUM_ARITH_TBLS)
    && (forall b :: 0 <= b < |sc.membership| ==> sc.membership[b] < |sc.dcTbl|)
    && |sc.lower| == |sc.upper| == |sc.kx| == NUM_ARITH_TBLS
    && (sc.kind.AcFirst? || sc.kind.AcRefine? ==> 1 <= sc.ss <= sc.se < DCTSIZE2)
  }

  /** last_dc_val and dc_context, per component of the scan. */
  datatype Pred = Pred(last: seq<int>, ctx: seq<nat>)

  ghost predicate GoodPred(sc: Scan, p: Pred) {
    && |p.last| == |p.ctx| == |sc.dcTbl|
    && forall c :: 0 <= c < |p.ctx| ==> p.ctx[c] <= 16
  }

  function ZeroPred(sc: Scan): (p: Pred) {
    Pred(seq(|sc.dcTbl|, i => 0), seq(|sc.dcTbl|, i => 0))
  }

  /** Point transforms: an arithmetic shift for DC, rounding toward zero for AC. */
  function DcShift(x: int, al: nat): int { x / Pow2(al) }

  function AcShift(x: int, al: nat): int {
    if x < 0 then -(Abs(x) / Pow2(al)) else Abs(x) / Pow2(al)
  }

  function ShiftBlock(x: Block, al: nat): (t: Block) {
    seq(DCTSIZE2, j requires 0 <= j < DCTSIZE2 => AcShift(x[j], al))
  }

  ghost function BandOf(sc: Scan, i: nat): (bd: Band)
    requires GoodScan(sc) && i < |sc.membership|
  {
    var tbl := sc.acTbl[sc.membership[i]];
    if sc.kind.Sequential? then Band(AcBase(tbl), sc.kx[tbl], 1, DCTSIZE2 - 1)
    else Band(AcBase(tbl), sc.kx[tbl], sc.ss, sc.se)
  }

  lemma BandGood(sc: Scan, i: nat)
    requires GoodScan(sc) && i < |sc.membership| && !sc.kind.DcFirst? && !sc.kind.DcRefine?
    ensures GoodBand(BandOf(sc, i))
  {
  }

  /** The DC value that the scan codes for a block. */
  function DcValue(sc: Scan, x: Block): int {
    if sc.kind.DcFirst? then DcShift(x[0], sc.al) else x[0]
  }

  ghost function DcScript(sc: Scan, p: Pred, i: nat, x: Block): (script: seq<Decision>)
    requires GoodScan(sc) && GoodPred(sc, p) && i < |sc.membership|
  {
    var c := sc.membership[i];
    DcDecisions(DcBase(sc.dcTbl[c]), p.ctx[c], DcValue(sc, x) - p.last[c])
  }

  ghost function AcScript(sc: Scan, i: nat, x: Block): (script: seq<Decision>)
    requires GoodScan(sc) && i < |sc.membership| && !sc.kind.DcFirst? && !sc.kind.DcRefine?
  {
    var bd := BandOf(sc, i);
    if sc.kind.AcFirst? then
      var t := ShiftBlock(x, sc.al);
      AcFrom(bd, t, bd.ss, LastNonzero(t, bd.se))
    else if sc.kind.AcRefine? then
      var t := ShiftBlock(x, sc.al);
      var ke := LastNonzero(t, bd.se);
      RefFrom(bd, t, bd.ss, ke, LastNonzero(ShiftBlock(x, sc.al + 1), ke))
    else
      AcFrom(bd, x, 1, LastNonzero(x, DCTSIZE2 - 1))
  }

  /** The decisions that encode block i of an MCU. */
  ghost function BlockScript(sc: Scan, p: Pred, i: nat, x: Block): (script: seq<Decision>)
    requires GoodScan(sc) && GoodPred(sc, p) && i < |sc.membership|
  {
    match sc.kind
    case Sequential => DcScript(sc, p, i, x) + AcScript(sc, i, x)
    case DcFirst => DcScript(sc, p, i, x)
    case DcRefine => [Decision(FIXED_BIN, DcShift(x[0], sc.al) % 2)]
    case _ => AcScript(sc, i, x)
  }

  /** The prediction state after block i. */
  ghost function NextPred(sc: Scan, p: Pred, i: nat, x: Block): (r: Pred)
    requires GoodScan(sc) && GoodPred(sc, p) && i < |sc.membership|
    ensures GoodPred(sc, r)
  {
    if sc.kind.Sequential? || sc.kind.DcFirst? then
      var c := sc.membership[i];
      var tbl := sc.dcTbl[c];
      var v := DcValue(sc, x) - p.last[c];
      Pred(p.last[c := DcValue(sc, x)], p.ctx[c := DcContext(v, sc.lower[tbl], sc.upper[tbl])])
    else p
  }

  // ---- The decoder ----

  datatype BlockRead = BlockRead(ok: bool, blk: Block, p: Pred, s: State)

  ghost function ReadDcPart(tab: seq<nat>, s: State, sc: Scan, p: Pred, i: nat, cur: Block): (r: BlockRead)
    requires Ready(tab, s) && GoodScan(sc) && GoodPred(sc, p) && i < |sc.membership|
    ensures Ready(tab, r.s) && SameMarker(s, r.s) && GoodPred(sc, r.p)
  {
    var c := sc.membership[i];
    var tbl := sc.dcTbl[c];
    var d := ReadDc(tab, s, DcBase(tbl), p.ctx[c], sc.lower[tbl], sc.upper[tbl]);
    if !d.ok then BlockRead(false, cur, p, d.s)
    else
      var last := p.last[c] + d.v;
      var q := Pred(p.last[c := last], p.ctx[c := d.ctx]);
      BlockRead(true, cur[0 := if sc.kind.DcFirst? then last * Pow2(sc.al) else last], q, d.s)
  }

  ghost function ReadAcPart(tab: seq<nat>, s: State, sc: Scan, p: Pred, i: nat, cur: Block): (r: BlockRead)
    requires Ready(tab, s) && GoodScan(sc) && GoodPred(sc, p) && i < |sc.membership|
    requires !sc.kind.DcFirst? && !sc.kind.DcRefine?
    ensures Ready(tab, r.s) && SameMarker(s, r.s) && r.p == p
  {
    BandGood(sc, i);
    var bd := BandOf(sc, i);
    var o :=
      if sc.kind.AcFirst? then ReadAcFrom(tab, s, bd, sc.al, cur, bd.ss)
      else if sc.kind.AcRefine? then ReadRefFrom(tab, s, bd, sc.al, cur, bd.ss, LastNonzero(cur, bd.se))
      else ReadAcFrom(tab, s, bd, 0, cur, 1);
    BlockRead(o.ok, o.blk, p, o.s)
  }

  /** MCU_data[blkn][0][0] |= p1, on a two's complement number. */
  function OrBit(x: int, al: nat): int {
    if x / Pow2(al) % 2 == 1 then x else x + Pow2(al)
  }

  ghost function ReadBlock(tab: seq<nat>, s: State, sc: Scan, p: Pred, i: nat, cur: Block): (r: BlockRead)
    requires Ready(tab, s) && GoodScan(sc) && GoodPred(sc, p) && i < |sc.membership|
    ensures Ready(tab, r.s) && SameMarker(s, r.s) && GoodPred(sc, r.p)
  {
    match sc.kind
    case Sequential =>
      var d := ReadDcPart(tab, s, sc, p, i, cur);
      if !d.ok then d else ReadAcPart(tab, d.s, sc, d.p, i, d.blk)
    case DcFirst => ReadDcPart(tab, s, sc, p, i, cur)
    case DcRefine =>
      var d := Decode(tab, s, FIXED_BIN);
      BlockRead(true, if d.val == 1 then cur[0 := OrBit(cur[0], sc.al)] else cur, p, d.s)
    case _ => ReadAcPart(tab, s, sc, p, i, cur)
  }

  // ---- What a scan promises for one block ----

  /** What block i holds before the scan, given its true coefficients x. */
  ghost predicate Prior(sc: Scan, x: Block, cur: Block) {
    match sc.kind
    case Sequential => forall j :: 1 <= j < DCTSIZE2 ==> cur[j] == 0
    case DcFirst => true
    case AcFirst => forall j :: sc.ss <= j <= sc.se && j < DCTSIZE2 ==> cur[j] == 0
    case DcRefine => cur[0] == DcShift(x[0], sc.al + 1) * Pow2(sc.al + 1)
    case AcRefine => forall j :: sc.ss <= j <= sc.se && j < DCTSIZE2 ==>
                       cur[j] == AcShift(x[j], sc.al + 1) * Pow2(sc.al + 1)
  }

  /** What it holds afterwards. */
  function Target(sc: Scan, x: Block, cur: Block): (r: Block) {
    match sc.kind
    case Sequential => x
    case DcFirst => cur[0 := DcShift(x[0], sc.al) * Pow2(sc.al)]
    case DcRefine => cur[0 := DcShift(x[0], sc.al) * Pow2(sc.al)]
    case _ => Put(cur, ShiftBlock(x, sc.al), sc.ss, sc.se, sc.al)
  }

  /** Coefficients that the magnitude categories can express. */
  ghost predicate Codable(sc: Scan, p: Pred, i: nat, x: Block)
    requires GoodScan(sc) && GoodPred(sc, p) && i < |sc.membership|
  {
    && (sc.kind.Sequential? || sc.kind.DcFirst? ==> Abs(DcValue(sc, x) - p.last[sc.membership[i]]) <= 0x8000)
    && (sc.kind.Sequential? || sc.kind.AcFirst? ==> InRange(x))
  }

  // ---- Number facts about the point transforms ----

  lemma DcShiftBounded(x: int, al: nat, b: nat)
    requires Abs(x) <= b
    ensures Abs(DcShift(x, al)) <= b
  {
    var p := Pow2(al);
    hide Pow2;
    assert x == p * (x / p) + x % p;
    QuotientBounded(x, p, x / p, x % p);
  }

  lemma QuotientBounded(x: int, p: nat, q: int, r: nat)
    requires p > 0 && x == p * q + r && r < p
    ensures Abs(q) <= Abs(x)
  {
    if q >= 0 {
      MulMono(1, p, q);
    } else {
      MulMono(1, p, -q - 1);
      assert p * (-q - 1) == -(p * q) - p;
    }
  }

  lemma DivTwice(a: nat, al: nat)
    ensures a / Pow2(al) / 2 == a / Pow2(al + 1)
  {
    var p := Pow2(al);
    var q, r := a / p, a % p;
    assert a == p * q + r;
    assert q == 2 * (q / 2) + q % 2;
    HalfStep(p, q / 2, q % 2, r, a);
    DivModUnique(a, 2 * p, q / 2, p * (q % 2) + r);
  }

  lemma HalfStep(p: nat, h: nat, b: nat, r: nat, a: nat)
    requires b <= 1 && r < p && a == p * (2 * h + b) + r
    ensures a == 2 * p * h + (p * b + r) && p * b + r < 2 * p
  {
    assert p * (2 * h + b) == 2 * p * h + p * b;
  }

  lemma ShiftOnceMore(x: int, al: nat)
    ensures DropBit(AcShift(x, al)) * Pow2(al) == AcShift(x, al + 1) * Pow2(al + 1)
    ensures Abs(AcShift(x, al)) / 2 == Abs(AcShift(x, al + 1))
  {
    hide Pow2, DropBit;
    DivTwice(Abs(x), al);
    Pow2Twice(al);
    var q := Abs(x) / Pow2(al);
    DropSigned(q, x < 0);
    MulTwo(if x < 0 then -(q / 2) else q / 2, Pow2(al));
  }

  lemma DropSigned(q: int, negative: bool)
    requires q >= 0
    ensures DropBit(if negative then -q else q) == 2 * if negative then -(q / 2) else q / 2
  {
  }

  lemma HalvedIsNextShift(x: Block, al: nat)
    ensures Halved(ShiftBlock(x, al)) == ShiftBlock(x, al + 1)
  {
    forall j | 0 <= j < DCTSIZE2
      ensures Halved(ShiftBlock(x, al))[j] == ShiftBlock(x, al + 1)[j]
    {
      ShiftOnceMore(x[j], al);
    }
  }

  lemma ShiftShrinks(x: Block, al: nat)
    requires InRange(x)
    ensures InRange(ShiftBlock(x, al))
  {
    forall j | 0 <= j < DCTSIZE2
      ensures Abs(ShiftBlock(x, al)[j]) <= 0x8000
    {
      DivShrinks(Abs(x[j]), Pow2(al));
    }
  }

  lemma DivShrinks(a: nat, p: nat)
    requires p > 0
    ensures a / p <= a
  {
    var q, r := a / p, a % p;
    assert a == p * q + r;
    MulMono(1, p, q);
  }

  /** One more bit of a DC value: floor division splits off its lowest bit. */
  lemma DcBit(x: int, al: nat)
    ensures var hi := DcShift(x, al + 1) * Pow2(al + 1);
            DcShift(x, al) * Pow2(al) == if DcShift(x, al) % 2 == 1 then OrBit(hi, al) else hi
  {
    var p := Pow2(al);
    var q, r := x / p, x % p;
    assert x == p * q + r;
    var h, b := q / 2, q % 2;
    assert q == 2 * h + b;
    assert x == 2 * p * h + (p * b + r) by { assert p * (2 * h + b) == 2 * p * h + p * b; }
    assert p * b + r < 2 * p && p * b >= 0;
    DivModUnique(x, 2 * p, h, p * b + r);
    assert DcShift(x, al + 1) == h;
    var hi := h * (2 * p);
    assert hi == p * (2 * h);
    DivModUnique(hi, p, 2 * h, 0);
    assert q * p == 2 * h * p + b * p by { Distribute(2 * h, b, p); }
    MulTwo(h, p);
  }

  // ---- Reading a block back ----

  lemma DcPartRead(tab: seq<nat>, s: State, sc: Scan, p: Pred, i: nat, x: Block, cur: Block,
                   rest: seq<Decision>, end: seq<byte>)
    requires GoodScan(sc) && GoodPred(sc, p) && i < |sc.membership|
    requires sc.kind.Sequential? || sc.kind.DcFirst?
    requires Abs(DcValue(sc, x) - p.last[sc.membership[i]]) <= 0x8000
    requires Follows(tab, s, DcScript(sc, p, i, x) + rest, end)
    ensures Ready(tab, s)
    ensures var r := ReadDcPart(tab, s, sc, p, i, cur);
            && r.ok && r.p == NextPred(sc, p, i, x) && Follows(tab, r.s, rest, end)
            && r.blk == cur[0 := if sc.kind.DcFirst? then DcValue(sc, x) * Pow2(sc.al) else x[0]]
  {
    hide Follows, ValidState, SameMarker, DcDecisions, ReadDc, DcContext, Pow2;
    var c := sc.membership[i];
    var tbl := sc.dcTbl[c];
    FollowsReady(tab, s, DcScript(sc, p, i, x) + rest, end);
    DcRead(tab, s, DcBase(tbl), p.ctx[c], DcValue(sc, x) - p.last[c], sc.lower[tbl], sc.upper[tbl], rest, end);
  }

  lemma AcFirstRead(tab: seq<nat>, s: State, sc: Scan, p: Pred, i: nat, x: Block, cur: Block,
                    rest: seq<Decision>, end: seq<byte>)
    requires GoodScan(sc) && GoodPred(sc, p) && i < |sc.membership| && sc.kind.AcFirst?
    requires InRange(x) && Prior(sc, x, cur)
    requires Follows(tab, s, AcScript(sc, i, x) + rest, end)
    ensures Ready(tab, s)
    ensures var r := ReadAcPart(tab, s, sc, p, i, cur);
            r.ok && r.blk == Target(sc, x, cur) && Follows(tab, r.s, rest, end)
  {
    hide Follows, ValidState, SameMarker, AcFrom, ReadAcFrom, InRange, Pow2, ShiftBlock;
    BandGood(sc, i);
    var bd := BandOf(sc, i);
    var t := ShiftBlock(x, sc.al);
    ShiftShrinks(x, sc.al);
    AcFromRead(tab, s, bd, sc.al, cur, t, bd.ss, LastNonzero(t, bd.se), rest, end);
    FillIsPut(cur, t, bd.ss, bd.se, sc.al);
  }

  lemma FillIsPut(blk: Block, t: Block, k: nat, se: nat, al: nat)
    requires forall j :: k <= j <= se && j < DCTSIZE2 ==> blk[j] == 0
    ensures Fill(blk, t, k, se, al) == Put(blk, t, k, se, al)
  {
  }

  lemma AcSequentialRead(tab: seq<nat>, s: State, sc: Scan, p: Pred, i: nat, x: Block, cur: Block,
                         rest: seq<Decision>, end: seq<byte>)
    requires GoodScan(sc) && GoodPred(sc, p) && i < |sc.membership| && sc.kind.Sequential?
    requires InRange(x) && cur[0] == x[0] && forall j :: 1 <= j < DCTSIZE2 ==> cur[j] == 0
    requires Follows(tab, s, AcScript(sc, i, x) + rest, end)
    ensures Ready(tab, s)
    ensures var r := ReadAcPart(tab, s, sc, p, i, cur);
            r.ok && r.blk == x && Follows(tab, r.s, rest, end)
  {
    hide Follows, ValidState, SameMarker, AcFrom, ReadAcFrom, InRange;
    BandGood(sc, i);
    var bd := BandOf(sc, i);
    AcFromRead(tab, s, bd, 0, cur, x, 1, LastNonzero(x, bd.se), rest, end);
    assert Pow2(0) == 1;
    assert Fill(cur, x, 1, bd.se, 0) == x;
  }

  lemma AcRefineRead(tab: seq<nat>, s: State, sc: Scan, p: Pred, i: nat, x: Block, cur: Block,
                     rest: seq<Decision>, end: seq<byte>)
    requires GoodScan(sc) && GoodPred(sc, p) && i < |sc.membership| && sc.kind.AcRefine?
    requires Prior(sc, x, cur)
    requires Follows(tab, s, AcScript(sc, i, x) + rest, end)
    ensures Ready(tab, s)
    ensures var r := ReadAcPart(tab, s, sc, p, i, cur);
            r.ok && r.blk == Target(sc, x, cur) && Follows(tab, r.s, rest, end)
  {
    hide Follows, ValidState, SameMarker, RefFrom, ReadRefFrom, Pow2, Put;
    BandGood(sc, i);
    var bd := BandOf(sc, i);
    var t := ShiftBlock(x, sc.al);
    var ke := LastNonzero(t, bd.se);
    HalvedIsNextShift(x, sc.al);
    RefineHolds(sc, x, cur, bd);
    EobAgrees(bd, cur, t, sc.al, ke);
    RefFromRead(tab, s, bd, sc.al, cur, t, bd.ss, ke, LastNonzero(Halved(t), ke), LastNonzero(cur, bd.se),
                rest, end);
  }

  lemma RefineHolds(sc: Scan, x: Block, cur: Block, bd: Band)
    requires sc.kind.AcRefine? && Prior(sc, x, cur) && bd.ss == sc.ss && bd.se == sc.se < DCTSIZE2
    ensures HoldsHigh(bd, cur, ShiftBlock(x, sc.al), bd.ss, sc.al)
  {
    hide AcShift, DropBit;
    forall j | bd.ss <= j <= bd.se
      ensures cur[j] == DropBit(ShiftBlock(x, sc.al)[j]) * Pow2(sc.al)
    {
      ShiftOnceMore(x[j], sc.al);
    }
  }

  /** Block i comes back, up to the precision of the scan. */
  lemma BlockReads(tab: seq<nat>, s: State, sc: Scan, p: Pred, i: nat, x: Block, cur: Block,
                   rest: seq<Decision>, end: seq<byte>)
    requires GoodScan(sc) && GoodPred(sc, p) && i < |sc.membership|
    requires Codable(sc, p, i, x)
    requires sc.kind.DcRefine? || Prior(sc, x, cur)
    requires Follows(tab, s, BlockScript(sc, p, i, x) + rest, end)
    ensures Ready(tab, s)
    ensures var r := ReadBlock(tab, s, sc, p, i, cur);
            && r.ok && r.p == NextPred(sc, p, i, x) && Follows(tab, r.s, rest, end)
            && (Prior(sc, x, cur) ==> r.blk == Target(sc, x, cur))
  {
    hide Follows, ValidState, SameMarker, ReadDcPart, ReadAcPart, DcScript, AcScript, Decode, Put, InRange, OrBit,
         DcShift;
    FollowsReady(tab, s, BlockScript(sc, p, i, x) + rest, end);
    match sc.kind
    case Sequential =>
      var dc, ac := DcScript(sc, p, i, x), AcScript(sc, i, x);
      assert dc + ac + rest == dc + (ac + rest);
      DcPartRead(tab, s, sc, p, i, x, cur, ac + rest, end);
      var d := ReadDcPart(tab, s, sc, p, i, cur);
      AcSequentialRead(tab, d.s, sc, d.p, i, x, d.blk, rest, end);
    case DcFirst =>
      DcPartRead(tab, s, sc, p, i, x, cur, rest, end);
    case DcRefine =>
      Last(tab, s, Decision(FIXED_BIN, DcShift(x[0], sc.al) % 2), rest, end);
      DcBit(x[0], sc.al);
    case AcFirst =>
      AcFirstRead(tab, s, sc, p, i, x, cur, rest, end);
    case AcRefine =>
      AcRefineRead(tab, s, sc, p, i, x, cur, rest, end);
  }

  // ---- A whole MCU, and MCUs in a row ----

  type Mcu = seq<Block>

  /** The decisions for blocks i and on. */
  ghost function McuScript(sc: Scan, p: Pred, i: nat, xs: Mcu): (script: seq<Decision>)
    requires GoodScan(sc) && GoodPred(sc, p) && i <= |sc.membership| == |xs|
    decreases |xs| - i
  {
    if i == |xs| then []
    else BlockScript(sc, p, i, xs[i]) + McuScript(sc, NextPred(sc, p, i, xs[i]), i + 1, xs)
  }

  ghost function McuPred(sc: Scan, p: Pred, i: nat, xs: Mcu): (r: Pred)
    requires GoodScan(sc) && GoodPred(sc, p) && i <= |sc.membership| == |xs|
    ensures GoodPred(sc, r)
    decreases |xs| - i
  {
    if i == |xs| then p else McuPred(sc, NextPred(sc, p, i, xs[i]), i + 1, xs)
  }

  ghost predicate CodableMcu(sc: Scan, p: Pred, i: nat, xs: Mcu)
    requires GoodScan(sc) && GoodPred(sc, p) && i <= |sc.membership| == |xs|
    decreases |xs| - i
  {
    i == |xs| || (Codable(sc, p, i, xs[i]) && CodableMcu(sc, NextPred(sc, p, i, xs[i]), i + 1, xs))
  }

  datatype McuOut = McuOut(ok: bool, blks: Mcu, p: Pred, s: State)

  /** decode_mcu and its four progressive versions, from block i on. */
  ghost function ReadMcu(tab: seq<nat>, s: State, sc: Scan, p: Pred, i: nat, curs: Mcu): (r: McuOut)
    requires Ready(tab, s) && GoodScan(sc) && GoodPred(sc, p) && i <= |sc.membership| == |curs|
    ensures Ready(tab, r.s) && SameMarker(s, r.s) && GoodPred(sc, r.p) && |r.blks| == |curs|
    decreases |curs| - i
  {
    if i == |curs| then McuOut(true, curs, p, s)
    else
      var b := ReadBlock(tab, s, sc, p, i, curs[i]);
      if !b.ok then McuOut(false, curs[i := b.blk], b.p, b.s)
      else ReadMcu(tab, b.s, sc, b.p, i + 1, curs[i := b.blk])
  }

  /** Fit for reading an MCU from block i on: everything but a DC refinement
      needs to know what the blocks hold. */
  ghost predicate PriorMcu(sc: Scan, xs: Mcu, curs: Mcu, i: nat) {
    |xs| == |curs| && forall j :: i <= j < |xs| ==> sc.kind.DcRefine? || Prior(sc, xs[j], curs[j])
  }

  /** From block i on, every block that held its prior value now holds its target. */
  ghost predicate Improved(sc: Scan, xs: Mcu, curs: Mcu, out: Mcu, i: nat) {
    && |xs| == |curs| == |out|
    && forall j :: i <= j < |xs| ==> (Prior(sc, xs[j], curs[j]) ==> out[j] == Target(sc, xs[j], curs[j]))
  }

  lemma {:induction false} McuReads(tab: seq<nat>, s: State, sc: Scan, p: Pred, i: nat, xs: Mcu, curs: Mcu,
                                    rest: seq<Decision>, end: seq<byte>)
    requires GoodScan(sc) && GoodPred(sc, p) && i <= |sc.membership| == |xs|
    requires CodableMcu(sc, p, i, xs) && PriorMcu(sc, xs, curs, i)
    requires Follows(tab, s, McuScript(sc, p, i, xs) + rest, end)
    ensures Ready(tab, s)
    ensures var r := ReadMcu(tab, s, sc, p, i, curs);
            && r.ok && r.p == McuPred(sc, p, i, xs) && Follows(tab, r.s, rest, end)
            && (forall j :: 0 <= j < i ==> r.blks[j] == curs[j])
            && Improved(sc, xs, curs, r.blks, i)
    decreases |xs| - i
  {
    hide Follows, ValidState, SameMarker, ReadBlock, BlockScript, NextPred, Prior, Target, Codable, GoodScan, GoodPred;
    FollowsReady(tab, s, McuScript(sc, p, i, xs) + rest, end);
    if i == |xs| {
      assert [] + rest == rest;
    } else {
      var first, q := BlockScript(sc, p, i, xs[i]), NextPred(sc, p, i, xs[i]);
      var more := McuScript(sc, q, i + 1, xs);
      assert first + more + rest == first + (more + rest);
      BlockReads(tab, s, sc, p, i, xs[i], curs[i], more + rest, end);
      var b := ReadBlock(tab, s, sc, p, i, curs[i]);
      McuReads(tab, b.s, sc, q, i + 1, xs, curs[i := b.blk], rest, end);
    }
  }

  // ---- When an MCU does not come back ----

  /** All AC coefficients are 16-bit values, as JCOEF makes them. */
  ghost predicate ShortAc(sc: Scan, xs: Mcu, i: nat) {
    forall j :: i <= j < |xs| ==> (sc.kind.Sequential? || sc.kind.AcFirst? ==> InRange(xs[j]))
  }

  lemma BlockOverflows(tab: seq<nat>, s: State, sc: Scan, p: Pred, i: nat, x: Block, cur: Block,
                       rest: seq<Decision>, end: seq<byte>)
    requires GoodScan(sc) && GoodPred(sc, p) && i < |sc.membership| && !Codable(sc, p, i, x)
    requires sc.kind.Sequential? || sc.kind.AcFirst? ==> InRange(x)
    requires Follows(tab, s, BlockScript(sc, p, i, x) + rest, end)
    ensures Ready(tab, s) && !ReadBlock(tab, s, sc, p, i, cur).ok
  {
    hide Follows, ValidState, SameMarker, ReadAcPart, AcScript, Decode, InRange, DcDecisions, ReadDc;
    var c := sc.membership[i];
    var tbl := sc.dcTbl[c];
    var v := DcValue(sc, x) - p.last[c];
    var more := if sc.kind.Sequential? then AcScript(sc, i, x) else [];
    assert BlockScript(sc, p, i, x) + rest == DcScript(sc, p, i, x) + (more + rest);
    DcOverflows(tab, s, DcBase(tbl), p.ctx[c], v, sc.lower[tbl], sc.upper[tbl], more + rest, end);
  }

  /** The condition of McuReads is exact: an MCU of 16-bit coefficients is decoded
      without error if and only if every DC difference is within 2^15. */
  lemma {:induction false} McuReadsExactly(tab: seq<nat>, s: State, sc: Scan, p: Pred, i: nat, xs: Mcu, curs: Mcu,
                                           rest: seq<Decision>, end: seq<byte>)
    requires GoodScan(sc) && GoodPred(sc, p) && i <= |sc.membership| == |xs|
    requires PriorMcu(sc, xs, curs, i) && ShortAc(sc, xs, i)
    requires Follows(tab, s, McuScript(sc, p, i, xs) + rest, end)
    ensures Ready(tab, s)
    ensures ReadMcu(tab, s, sc, p, i, curs).ok <==> CodableMcu(sc, p, i, xs)
    decreases |xs| - i
  {
    hide Follows, ValidState, SameMarker, ReadBlock, BlockScript, NextPred, Prior, Target, Codable, GoodScan, GoodPred,
         InRange;
    FollowsReady(tab, s, McuScript(sc, p, i, xs) + rest, end);
    if i < |xs| {
      var first, q := BlockScript(sc, p, i, xs[i]), NextPred(sc, p, i, xs[i]);
      var more := McuScript(sc, q, i + 1, xs);
      assert first + more + rest == first + (more + rest);
      if Codable(sc, p, i, xs[i]) {
        BlockReads(tab, s, sc, p, i, xs[i], curs[i], more + rest, end);
        var b := ReadBlock(tab, s, sc, p, i, curs[i]);
        McuReadsExactly(tab, b.s, sc, q, i + 1, xs, curs[i := b.blk], rest, end);
      } else {
        BlockOverflows(tab, s, sc, p, i, xs[i], curs[i], more + rest, end);
      }
    }
  }
}
