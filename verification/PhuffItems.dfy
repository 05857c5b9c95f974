/** What a progressive Huffman scan consists of (section G.1.2 of T.81): symbols,
    extra bits, end-of-band runs and buffered correction bits. */
module PhuffItems {
  import opened Numbers
  import opened BitPacking
  import opened HuffItems
  import M = McuCoding

  const MAX_CORR_BITS := 1000
  const MAX_EOBRUN := 0x7FFF

  /** EOBRUN and the BE buffered correction bits. */
  datatype Eob = Eob(run: nat, bits: seq<bit>)

  const NO_EOB := Eob(0, [])

  /** What holds between MCUs: the run fits 14 bits, and the 63 bits that the next
      MCU may add still fit the buffer. */
  predicate Bounded(e: Eob) {
    && e.run < MAX_EOBRUN && |e.bits| <= MAX_CORR_BITS - DCTSIZE2 + 1
    && (e.bits != [] ==> e.run > 0)
  }

  function BitItems(b: seq<bit>): (x: seq<Item>) {
    seq(|b|, i requires 0 <= i < |b| => Extra(b[i], 1))
  }

  /** emit_eobrun. */
  function EobItems(tbl: nat, e: Eob): (x: seq<Item>) {
    if e.run == 0 then []
    else
      var n := NBits(e.run) - 1;
      [Symbol(AcTable(tbl), n * 16)] + (if n == 0 then [] else [Extra(e.run % Pow2(n), n)]) + BitItems(e.bits)
  }

  datatype Out = Out(x: seq<Item>, e: Eob)

  /** One more end of band, with the correction bits b; forced out when the run or
      the buffer is full. */
  function EndBand(tbl: nat, e: Eob, b: seq<bit>): (o: Out) {
    var f := Eob(e.run + 1, e.bits + b);
    if f.run == MAX_EOBRUN || |f.bits| > MAX_CORR_BITS - DCTSIZE2 + 1 then Out(EobItems(tbl, f), NO_EOB)
    else Out([], f)
  }

  // ---- First scan of a band ----

  function FirstFrom(tbl: nat, t: Block, k: nat, se: nat, r: nat, e: Eob): (o: Out)
    requires k <= se + 1 && se < DCTSIZE2
    decreases se + 1 - k
  {
    if k > se then if r > 0 then EndBand(tbl, e, []) else Out([], e)
    else if t[k] == 0 then FirstFrom(tbl, t, k + 1, se, r + 1, e)
    else
      var o := FirstFrom(tbl, t, k + 1, se, 0, NO_EOB);
      Out(EobItems(tbl, e) + (CoefItems(tbl, r, t[k]) + o.x), o.e)
  }

  predicate FirstInRange(t: Block, ss: nat, se: nat) {
    forall k :: ss <= k <= se && k < DCTSIZE2 ==> NBits(Abs(t[k])) <= MAX_COEF_BITS
  }

  // ---- Refinement of a band ----

  /** EOB: the index of the last newly nonzero coefficient before k. */
  function LastNew(t: Block, ss: nat, k: nat): (eob: nat)
    requires k <= DCTSIZE2
    ensures forall j :: ss <= j < k && Abs(t[j]) == 1 ==> j <= eob
    decreases k
  {
    if k <= ss then 0
    else if Abs(t[k - 1]) == 1 then k - 1
    else LastNew(t, ss, k - 1)
  }

  /** The ZRL loop: pending bits go out with the first symbol of each round. */
  function RefineRuns(tbl: nat, r: nat, b: seq<bit>, e: Eob): (x: seq<Item>)
    decreases r
  {
    if r > 15 then
      EobItems(tbl, e) + ([Symbol(AcTable(tbl), 0xF0)] + BitItems(b) + RefineRuns(tbl, r - 16, [], NO_EOB))
    else []
  }

  /** A newly nonzero coefficient. */
  function NewItems(tbl: nat, r: nat, v: int, b: seq<bit>, e: Eob): (x: seq<Item>) {
    EobItems(tbl, e) + ([Symbol(AcTable(tbl), r * 16 + 1)] + [Extra(if v < 0 then 0 else 1, 1)] + BitItems(b))
  }

  function RefineFrom(tbl: nat, t: Block, k: nat, se: nat, eob: nat, r: nat, b: seq<bit>, e: Eob): (o: Out)
    requires k <= se + 1 && se < DCTSIZE2
    decreases se + 1 - k
  {
    if k > se then if r > 0 || b != [] then EndBand(tbl, e, b) else Out([], e)
    else if t[k] == 0 then RefineFrom(tbl, t, k + 1, se, eob, r + 1, b, e)
    else if r > 15 && k <= eob then
      var o := RefineCoef(tbl, t, k, se, eob, r % 16, [], NO_EOB);
      Out(RefineRuns(tbl, r, b, e) + o.x, o.e)
    else
      RefineCoef(tbl, t, k, se, eob, r, b, e)
  }

  function RefineCoef(tbl: nat, t: Block, k: nat, se: nat, eob: nat, r: nat, b: seq<bit>, e: Eob): (o: Out)
    requires k <= se < DCTSIZE2
    decreases se + 1 - k, 0
  {
    if Abs(t[k]) > 1 then
      RefineFrom(tbl, t, k + 1, se, eob, r, b + [Abs(t[k]) % 2], e)
    else
      var o := RefineFrom(tbl, t, k + 1, se, eob, 0, [], NO_EOB);
      Out(NewItems(tbl, r, t[k], b, e) + o.x, o.e)
  }

  // ---- The bounds ----

  lemma EndBandBounded(tbl: nat, e: Eob, b: seq<bit>)
    requires Bounded(e)
    ensures Bounded(EndBand(tbl, e, b).e)
  {
  }

  lemma {:induction false} FirstBounded(tbl: nat, t: Block, k: nat, se: nat, r: nat, e: Eob)
    requires k <= se + 1 && se < DCTSIZE2 && Bounded(e)
    ensures Bounded(FirstFrom(tbl, t, k, se, r, e).e)
    decreases se + 1 - k
  {
    hide EobItems, CoefItems;
    if k > se {
      EndBandBounded(tbl, e, []);
    } else if t[k] == 0 {
      FirstBounded(tbl, t, k + 1, se, r + 1, e);
    } else {
      FirstBounded(tbl, t, k + 1, se, 0, NO_EOB);
    }
  }

  lemma {:induction false} RefineBounded(tbl: nat, t: Block, k: nat, se: nat, eob: nat, r: nat, b: seq<bit>, e: Eob)
    requires k <= se + 1 && se < DCTSIZE2 && Bounded(e)
    ensures Bounded(RefineFrom(tbl, t, k, se, eob, r, b, e).e)
    decreases se + 1 - k
  {
    hide EobItems, RefineRuns, NewItems, EndBand;
    if k > se {
      EndBandBounded(tbl, e, b);
    } else if t[k] == 0 {
      RefineBounded(tbl, t, k + 1, se, eob, r + 1, b, e);
    } else if r > 15 && k <= eob {
      RefineCoefBounded(tbl, t, k, se, eob, r % 16, [], NO_EOB);
    } else {
      RefineCoefBounded(tbl, t, k, se, eob, r, b, e);
    }
  }

  lemma {:induction false} RefineCoefBounded(tbl: nat, t: Block, k: nat, se: nat, eob: nat, r: nat, b: seq<bit>, e: Eob)
    requires k <= se < DCTSIZE2 && Bounded(e)
    ensures Bounded(RefineCoef(tbl, t, k, se, eob, r, b, e).e)
    decreases se + 1 - k, 0
  {
    hide NewItems;
    if Abs(t[k]) > 1 {
      RefineBounded(tbl, t, k + 1, se, eob, r, b + [Abs(t[k]) % 2], e);
    } else {
      RefineBounded(tbl, t, k + 1, se, eob, 0, [], NO_EOB);
    }
  }

  /** So the check for more than 14 bits in emit_eobrun never fires. */
  lemma EobRunFits(run: nat)
    requires 0 < run <= MAX_EOBRUN
    ensures NBits(run) - 1 <= 14
  {
    hide Pow2;
    Pow2Values();
    Pow2Twice(15);
    if NBits(run) > 15 {
      Pow2Mono(15, NBits(run) - 1);
    }
  }

  // ---- MCUs and scans ----

  datatype Kind = DcFirst | AcFirst | DcRefine | AcRefine

  datatype Scan = Scan(kind: Kind, ly: Layout, ss: nat, se: nat, al: nat)

  ghost predicate GoodScan(sc: Scan) {
    && GoodLayout(sc.ly)
    && (sc.kind.AcFirst? || sc.kind.AcRefine? ==>
          1 <= sc.ss <= sc.se < DCTSIZE2 && |sc.ly.acTbl| == 1 && sc.ly.membership == [0])
  }

  /** What the encoder carries from MCU to MCU. */
  datatype Progress = Progress(last: seq<int>, e: Eob, togo: nat, num: nat)

  ghost predicate GoodProgress(sc: Scan, h: Progress) {
    |h.last| == |sc.ly.dcTbl| && Bounded(h.e) && h.num < 8
  }

  function StartProgress(sc: Scan, interval: nat): Progress {
    Progress(seq(|sc.ly.dcTbl|, c => 0), NO_EOB, interval, 0)
  }

  predicate AtRestart(interval: nat, h: Progress) { interval > 0 && h.togo == 0 }

  /** The blocks of a DC scan from i on. */
  ghost function DcMcuItems(sc: Scan, last: seq<int>, i: nat, mcu: Mcu): (x: seq<Item>)
    requires GoodScan(sc) && |last| == |sc.ly.dcTbl| && i <= |mcu| == |sc.ly.membership|
    decreases |mcu| - i
  {
    if i == |mcu| then []
    else if sc.kind.DcRefine? then [Extra(M.DcShift(mcu[i][0], sc.al) % 2, 1)] + DcMcuItems(sc, last, i + 1, mcu)
    else
      var c := sc.ly.membership[i];
      var v := M.DcShift(mcu[i][0], sc.al);
      DcDiffItems(sc.ly.dcTbl[c], v - last[c]) + DcMcuItems(sc, last[c := v], i + 1, mcu)
  }

  /** emit_bits is not called for a size of 0. */
  function DcDiffItems(tbl: nat, v: int): (x: seq<Item>) {
    [Symbol(DcTable(tbl), NBits(Abs(v)))] + if v == 0 then [] else [ValueItem(v)]
  }

  ghost function DcMcuLast(sc: Scan, last: seq<int>, i: nat, mcu: Mcu): (r: seq<int>)
    requires GoodScan(sc) && |last| == |sc.ly.dcTbl| && i <= |mcu| == |sc.ly.membership|
    ensures |r| == |last|
    decreases |mcu| - i
  {
    if i == |mcu| || sc.kind.DcRefine? then last
    else DcMcuLast(sc, last[sc.ly.membership[i] := M.DcShift(mcu[i][0], sc.al)], i + 1, mcu)
  }

  ghost predicate DcMcuInRange(sc: Scan, last: seq<int>, i: nat, mcu: Mcu)
    requires GoodScan(sc) && |last| == |sc.ly.dcTbl| && i <= |mcu| == |sc.ly.membership|
    decreases |mcu| - i
  {
    i == |mcu| || sc.kind.DcRefine?
    || (var c := sc.ly.membership[i];
        var v := M.DcShift(mcu[i][0], sc.al);
        NBits(Abs(v - last[c])) <= MAX_COEF_BITS + 1 && DcMcuInRange(sc, last[c := v], i + 1, mcu))
  }

  /** The MCU of an AC scan, whose single block starts with the pending e. */
  ghost function AcMcu(sc: Scan, e: Eob, mcu: Mcu): (o: Out)
    requires GoodScan(sc) && (sc.kind.AcFirst? || sc.kind.AcRefine?) && |mcu| == 1
  {
    var t := M.ShiftBlock(mcu[0], sc.al);
    if sc.kind.AcFirst? then FirstFrom(sc.ly.acTbl[0], t, sc.ss, sc.se, 0, e)
    else RefineFrom(sc.ly.acTbl[0], t, sc.ss, sc.se, LastNew(t, sc.ss, sc.se + 1), 0, [], e)
  }

  predicate IsDc(sc: Scan) { sc.kind.DcFirst? || sc.kind.DcRefine? }

  /** What an MCU sends once any restart is done, with the state it leaves. */
  datatype Coded = Coded(x: seq<Item>, last: seq<int>, e: Eob)

  ghost function McuCode(sc: Scan, last: seq<int>, e: Eob, mcu: Mcu): (r: Coded)
    requires GoodScan(sc) && |last| == |sc.ly.dcTbl| && |mcu| == |sc.ly.membership|
    ensures |r.last| == |last|
  {
    if IsDc(sc) then Coded(DcMcuItems(sc, last, 0, mcu), DcMcuLast(sc, last, 0, mcu), e)
    else
      var o := AcMcu(sc, e, mcu);
      Coded(o.x, last, o.e)
  }

  ghost predicate McuInRange(sc: Scan, last: seq<int>, mcu: Mcu)
    requires GoodScan(sc) && |last| == |sc.ly.dcTbl| && |mcu| == |sc.ly.membership|
  {
    match sc.kind
    case AcFirst => FirstInRange(M.ShiftBlock(mcu[0], sc.al), sc.ss, sc.se)
    case AcRefine => true
    case _ => DcMcuInRange(sc, last, 0, mcu)
  }

  lemma McuCodeBounded(sc: Scan, last: seq<int>, e: Eob, mcu: Mcu)
    requires GoodScan(sc) && |last| == |sc.ly.dcTbl| && |mcu| == |sc.ly.membership| && Bounded(e)
    ensures Bounded(McuCode(sc, last, e, mcu).e)
  {
    hide FirstFrom, RefineFrom, DcMcuItems;
    if !IsDc(sc) {
      var t := M.ShiftBlock(mcu[0], sc.al);
      FirstBounded(sc.ly.acTbl[0], t, sc.ss, sc.se, 0, e);
      RefineBounded(sc.ly.acTbl[0], t, sc.ss, sc.se, LastNew(t, sc.ss, sc.se + 1), 0, [], e);
    }
  }

  /** The predictions and the pending run with which the MCU after h is coded. */
  ghost function Entering(sc: Scan, interval: nat, h: Progress): (r: (seq<int>, Eob))
    requires GoodScan(sc) && GoodProgress(sc, h)
    ensures |r.0| == |sc.ly.dcTbl| && Bounded(r.1)
  {
    if AtRestart(interval, h) then (if IsDc(sc) then seq(|sc.ly.dcTbl|, c => 0) else h.last, NO_EOB)
    else (h.last, h.e)
  }

  ghost function After(sc: Scan, interval: nat, h: Progress, mcu: Mcu): (r: Progress)
    requires GoodScan(sc) && GoodProgress(sc, h) && |mcu| == |sc.ly.membership|
    ensures GoodProgress(sc, r)
  {
    var en := Entering(sc, interval, h);
    McuCodeBounded(sc, en.0, en.1, mcu);
    var c := McuCode(sc, en.0, en.1, mcu);
    if interval == 0 then Progress(c.last, c.e, h.togo, h.num)
    else if h.togo == 0 then Progress(c.last, c.e, interval - 1, (h.num + 1) % 8)
    else Progress(c.last, c.e, h.togo - 1, h.num)
  }

  ghost predicate Shaped(sc: Scan, mcus: seq<Mcu>) {
    forall i :: 0 <= i < |mcus| ==> |mcus[i]| == |sc.ly.membership|
  }

  /** The table that a pending run is coded with. */
  function EobTable(sc: Scan): nat {
    if |sc.ly.acTbl| > 0 then sc.ly.acTbl[0] else 0
  }

  /** What the MCU after h sends: before a restart marker, and after it. */
  ghost function Before(sc: Scan, interval: nat, h: Progress): (x: seq<Item>) {
    if AtRestart(interval, h) then EobItems(EobTable(sc), h.e) else []
  }

  ghost function McuItems(sc: Scan, interval: nat, h: Progress, mcu: Mcu): (x: seq<Item>)
    requires GoodScan(sc) && GoodProgress(sc, h) && |mcu| == |sc.ly.membership|
  {
    var en := Entering(sc, interval, h);
    McuCode(sc, en.0, en.1, mcu).x
  }

  /** Everything that a scan sends from h on, the final emit_eobrun included. */
  ghost function ScanItems(sc: Scan, interval: nat, h: Progress, mcus: seq<Mcu>): (x: seq<Item>)
    requires GoodScan(sc) && GoodProgress(sc, h) && Shaped(sc, mcus)
    decreases |mcus|
  {
    if mcus == [] then EobItems(EobTable(sc), h.e)
    else
      Before(sc, interval, h) + (McuItems(sc, interval, h, mcus[0])
                                 + ScanItems(sc, interval, After(sc, interval, h, mcus[0]), mcus[1..]))
  }

  ghost predicate ScanInRange(sc: Scan, interval: nat, h: Progress, mcus: seq<Mcu>)
    requires GoodScan(sc) && GoodProgress(sc, h) && Shaped(sc, mcus)
    decreases |mcus|
  {
    mcus == []
    || (McuInRange(sc, Entering(sc, interval, h).0, mcus[0])
        && ScanInRange(sc, interval, After(sc, interval, h, mcus[0]), mcus[1..]))
  }

  /** The bytes of the scan from h on, when x has been sent since the last restart. */
  ghost function Stream(cd: Codes, sc: Scan, interval: nat, h: Progress, x: seq<bit>, mcus: seq<Mcu>): (s: seq<byte>)
    requires GoodScan(sc) && GoodProgress(sc, h) && Shaped(sc, mcus)
    decreases |mcus|
  {
    if mcus == [] then RunBytes(x + BitsFor(cd, EobItems(EobTable(sc), h.e)))
    else
      var pre, items := Before(sc, interval, h), McuItems(sc, interval, h, mcus[0]);
      var next := After(sc, interval, h, mcus[0]);
      if AtRestart(interval, h) then
        RunBytes(x + BitsFor(cd, pre)) + RestartMarker(h.num)
        + Stream(cd, sc, interval, next, BitsFor(cd, items), mcus[1..])
      else
        Stream(cd, sc, interval, next, x + BitsFor(cd, items), mcus[1..])
  }
}
