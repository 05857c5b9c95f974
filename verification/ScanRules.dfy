/** A Huffman-coded scan as a row of segments: every `interval` MCUs the bits are padded
    with ones, a marker RST0 .. RST7 follows, and predictions and end-of-band runs start
    anew (F.1.2.3, G.1.2 and B.2.1 of T.81); which value predicts each DC value; and the
    symbols of a block of a sequential scan. */
module ScanRules {
  import opened Numbers
  import opened BitPacking
  import opened HuffItems
  import P = PhuffItems

  /** Up to seven ones are added, and none to a whole number of bytes. */
  lemma PadsWithOnes(x: seq<bit>)
    ensures |x| <= |Padded(x)| < |x| + 8 && |Padded(x)| % 8 == 0
    ensures forall i :: 0 <= i < |Padded(x)| ==> Padded(x)[i] == if i < |x| then x[i] else 1
  {
  }

  /** The predictions at the start of a segment. */
  function Zeros(n: nat): (z: seq<int>)
    ensures |z| == n
  {
    seq(n, c => 0)
  }

  /** A restart marker stands within n MCUs: none comes behind the last one. */
  predicate Divided(interval: nat, n: nat) { 0 < interval < n }

  function Marker(num: nat): (s: seq<byte>)
    ensures s == [0xFF, 0xD0 + num % 8]
  {
    [0xFF, 0xD0 + num % 8]
  }

  // ---- Sequential scans ----

  /** MCUs that are coded without a restart, from the predictions `last`. */
  ghost function Run(ly: Layout, last: seq<int>, mcus: seq<Mcu>): (x: seq<Item>)
    requires GoodLayout(ly) && |last| == |ly.dcTbl| && Shaped(ly, mcus)
    decreases |mcus|
  {
    if mcus == [] then []
    else HuffItems.McuItems(ly, last, 0, mcus[0]) + Run(ly, McuLast(ly, last, 0, mcus[0]), mcus[1..])
  }

  ghost function RunOf(cd: Codes, ly: Layout, mcus: seq<Mcu>): (s: seq<byte>)
    requires GoodLayout(ly) && Shaped(ly, mcus)
  {
    RunBytes(BitsFor(cd, Run(ly, Zeros(|ly.dcTbl|), mcus)))
  }

  ghost function Segments(cd: Codes, ly: Layout, interval: nat, num: nat, mcus: seq<Mcu>): (s: seq<byte>)
    requires GoodLayout(ly) && Shaped(ly, mcus)
    decreases |mcus|
  {
    if Divided(interval, |mcus|) then
      RunOf(cd, ly, mcus[..interval]) + Marker(num) + Segments(cd, ly, interval, num + 1, mcus[interval..])
    else RunOf(cd, ly, mcus)
  }

  lemma {:induction false} LastRun(cd: Codes, ly: Layout, interval: nat, h: Place, x: seq<bit>, mcus: seq<Mcu>)
    requires GoodLayout(ly) && GoodPlace(ly, h) && Shaped(ly, mcus) && (interval == 0 || |mcus| <= h.togo)
    ensures Stream(cd, ly, interval, h, x, mcus) == RunBytes(x + BitsFor(cd, Run(ly, h.last, mcus)))
    decreases |mcus|
  {
    hide GoodLayout, HuffItems.McuItems, McuLast, RunBytes, BitsFor;
    if mcus == [] {
      NoBits(cd, x);
    } else {
      var next, items := After(ly, interval, h, mcus[0]), HuffItems.McuItems(ly, h.last, 0, mcus[0]);
      LastRun(cd, ly, interval, next, x + BitsFor(cd, items), mcus[1..]);
      BitsForConcat(cd, items, Run(ly, next.last, mcus[1..]));
      Associative(x, BitsFor(cd, items), BitsFor(cd, Run(ly, next.last, mcus[1..])));
    }
  }

  lemma NoBits(cd: Codes, x: seq<bit>)
    ensures x + BitsFor(cd, []) == x
  {
  }

  lemma Associative<T>(x: seq<T>, y: seq<T>, z: seq<T>)
    ensures x + (y + z) == x + y + z
  {
  }

  function Fresh(ly: Layout, interval: nat, num: nat): (h: Place) {
    Place(Zeros(|ly.dcTbl|), interval, num % 8)
  }

  lemma {:induction false} RunToMarker(cd: Codes, ly: Layout, interval: nat, h: Place, x: seq<bit>, mcus: seq<Mcu>)
    requires GoodLayout(ly) && GoodPlace(ly, h) && Shaped(ly, mcus) && interval > 0 && |mcus| > h.togo
    ensures Stream(cd, ly, interval, h, x, mcus)
         == RunBytes(x + BitsFor(cd, Run(ly, h.last, mcus[..h.togo]))) + [0xFF, 0xD0 + h.num]
            + Stream(cd, ly, interval, Fresh(ly, interval, h.num + 1), [], mcus[h.togo..])
    decreases h.togo
  {
    hide GoodLayout, HuffItems.McuItems, McuLast, RunBytes, BitsFor;
    if h.togo == 0 {
      NoBits(cd, x);
      Restarted(cd, ly, interval, h, x, mcus);
    } else {
      var next, items := After(ly, interval, h, mcus[0]), HuffItems.McuItems(ly, h.last, 0, mcus[0]);
      var more := mcus[1..][..next.togo];
      assert more == mcus[..h.togo][1..] && mcus[1..][next.togo..] == mcus[h.togo..];
      RunToMarker(cd, ly, interval, next, x + BitsFor(cd, items), mcus[1..]);
      BitsForConcat(cd, items, Run(ly, next.last, more));
      Associative(x, BitsFor(cd, items), BitsFor(cd, Run(ly, next.last, more)));
    }
  }

  lemma Restarted(cd: Codes, ly: Layout, interval: nat, h: Place, x: seq<bit>, mcus: seq<Mcu>)
    requires GoodLayout(ly) && GoodPlace(ly, h) && Shaped(ly, mcus) && interval > 0 && mcus != [] && h.togo == 0
    ensures Stream(cd, ly, interval, h, x, mcus)
         == RunBytes(x) + [0xFF, 0xD0 + h.num] + Stream(cd, ly, interval, Fresh(ly, interval, h.num + 1), [], mcus)
  {
    hide GoodLayout, HuffItems.McuItems, McuLast, RunBytes, BitsFor;
    var anew := Fresh(ly, interval, h.num + 1);
    assert Entering(ly, interval, h) == anew.last == Entering(ly, interval, anew);
    assert After(ly, interval, h, mcus[0]) == After(ly, interval, anew, mcus[0]);
    var bits := BitsFor(cd, HuffItems.McuItems(ly, anew.last, 0, mcus[0]));
    assert [] + bits == bits;
  }

  /** A sequential scan is the row of its segments. */
  lemma {:induction false} ScanIsSegments(cd: Codes, ly: Layout, interval: nat, num: nat, mcus: seq<Mcu>)
    requires GoodLayout(ly) && Shaped(ly, mcus)
    ensures StartPlace(ly, interval) == Fresh(ly, interval, 0)
    ensures Stream(cd, ly, interval, Fresh(ly, interval, num), [], mcus) == Segments(cd, ly, interval, num, mcus)
    decreases |mcus|
  {
    hide GoodLayout, Run, RunBytes, BitsFor, Stream;
    var h := Fresh(ly, interval, num);
    if Divided(interval, |mcus|) {
      Empty(BitsFor(cd, Run(ly, h.last, mcus[..interval])));
      RunToMarker(cd, ly, interval, h, [], mcus);
      ScanIsSegments(cd, ly, interval, num + 1, mcus[interval..]);
      assert Fresh(ly, interval, h.num + 1) == Fresh(ly, interval, num + 1);
    } else {
      Empty(BitsFor(cd, Run(ly, h.last, mcus)));
      LastRun(cd, ly, interval, h, [], mcus);
    }
  }

  lemma Empty<T>(x: seq<T>)
    ensures [] + x == x
  {
  }

  // ---- Predictions ----

  /** The DC value before block i of an MCU in its component, where v are the values of all
      blocks: that of the last such block, or the prediction at the start of the MCU. */
  function Previous(ly: Layout, last: seq<int>, v: seq<int>, i: nat, c: nat): (p: int)
    requires i <= |v| && i <= |ly.membership| && c < |last|
  {
    if i == 0 then last[c]
    else if ly.membership[i - 1] == c then v[i - 1]
    else Previous(ly, last, v, i - 1, c)
  }

  ghost predicate Latest(ly: Layout, last: seq<int>, v: seq<int>, i: nat, now: seq<int>)
    requires i <= |v| && i <= |ly.membership|
  {
    |now| == |last| && forall c :: 0 <= c < |last| ==> now[c] == Previous(ly, last, v, i, c)
  }

  lemma LatestNext(ly: Layout, last: seq<int>, v: seq<int>, i: nat, now: seq<int>)
    requires i < |v| == |ly.membership| && ly.membership[i] < |last| && Latest(ly, last, v, i, now)
    ensures Latest(ly, last, v, i + 1, now[ly.membership[i] := v[i]])
  {
  }

  function DcValues(mcu: Mcu, al: nat): (v: seq<int>)
    ensures |v| == |mcu|
  {
    seq(|mcu|, i requires 0 <= i < |mcu| => mcu[i][0] / Pow2(al))
  }

  /** The first n blocks of an MCU, each with the tables of its component and predicted
      from the block before it in the component. */
  ghost function FirstBlocks(ly: Layout, last: seq<int>, mcu: Mcu, n: nat): (x: seq<Item>)
    requires GoodLayout(ly) && |last| == |ly.dcTbl| && n <= |mcu| == |ly.membership|
  {
    if n == 0 then []
    else
      var c := ly.membership[n - 1];
      FirstBlocks(ly, last, mcu, n - 1)
      + BlockItems(ly.dcTbl[c], ly.acTbl[c], mcu[n - 1], Previous(ly, last, DcValues(mcu, 0), n - 1, c))
  }

  lemma McuPredicted(ly: Layout, last: seq<int>, mcu: Mcu)
    requires GoodLayout(ly) && |last| == |ly.dcTbl| && |mcu| == |ly.membership|
    ensures HuffItems.McuItems(ly, last, 0, mcu) == FirstBlocks(ly, last, mcu, |mcu|)
    ensures Latest(ly, last, DcValues(mcu, 0), |mcu|, McuLast(ly, last, 0, mcu))
  {
    Empty(HuffItems.McuItems(ly, last, 0, mcu));
    Predicted(ly, last, last, mcu, 0);
  }

  lemma {:induction false} Predicted(ly: Layout, last: seq<int>, now: seq<int>, mcu: Mcu, i: nat)
    requires GoodLayout(ly) && |last| == |ly.dcTbl| && i <= |mcu| == |ly.membership|
    requires Latest(ly, last, DcValues(mcu, 0), i, now)
    ensures FirstBlocks(ly, last, mcu, |mcu|) == FirstBlocks(ly, last, mcu, i) + HuffItems.McuItems(ly, now, i, mcu)
    ensures Latest(ly, last, DcValues(mcu, 0), |mcu|, McuLast(ly, now, i, mcu))
    decreases |mcu| - i
  {
    hide BlockItems, Previous;
    if i < |mcu| {
      var c := ly.membership[i];
      assert Pow2(0) == 1 && DcValues(mcu, 0)[i] == mcu[i][0];
      LatestNext(ly, last, DcValues(mcu, 0), i, now);
      Predicted(ly, last, now[c := mcu[i][0]], mcu, i + 1);
    }
  }

  // ---- Progressive scans ----

  /** MCUs that are coded without a restart, from the predictions `last` and with e pending;
      what is pending at the end is sent then. */
  ghost function Band(sc: P.Scan, last: seq<int>, e: P.Eob, mcus: seq<Mcu>): (x: seq<Item>)
    requires P.GoodScan(sc) && |last| == |sc.ly.dcTbl| && P.Shaped(sc, mcus)
    decreases |mcus|
  {
    if mcus == [] then P.EobItems(P.EobTable(sc), e)
    else
      var c := P.McuCode(sc, last, e, mcus[0]);
      c.x + Band(sc, c.last, c.e, mcus[1..])
  }

  ghost function BandOf(cd: Codes, sc: P.Scan, mcus: seq<Mcu>): (s: seq<byte>)
    requires P.GoodScan(sc) && P.Shaped(sc, mcus)
  {
    RunBytes(BitsFor(cd, Band(sc, Zeros(|sc.ly.dcTbl|), P.NO_EOB, mcus)))
  }

  ghost function BandSegments(cd: Codes, sc: P.Scan, interval: nat, num: nat, mcus: seq<Mcu>): (s: seq<byte>)
    requires P.GoodScan(sc) && P.Shaped(sc, mcus)
    decreases |mcus|
  {
    if Divided(interval, |mcus|) then
      BandOf(cd, sc, mcus[..interval]) + Marker(num)
      + BandSegments(cd, sc, interval, num + 1, mcus[interval..])
    else BandOf(cd, sc, mcus)
  }

  /** AC scans make no use of the predictions. */
  lemma {:induction false} AcBand(sc: P.Scan, a: seq<int>, b: seq<int>, e: P.Eob, mcus: seq<Mcu>)
    requires P.GoodScan(sc) && |a| == |b| == |sc.ly.dcTbl| && P.Shaped(sc, mcus) && !P.IsDc(sc)
    ensures Band(sc, a, e, mcus) == Band(sc, b, e, mcus)
    decreases |mcus|
  {
    hide P.GoodScan, P.AcMcu;
    if mcus != [] {
      AcBand(sc, a, b, P.McuCode(sc, a, e, mcus[0]).e, mcus[1..]);
    }
  }

  lemma {:induction false} LastBand(cd: Codes, sc: P.Scan, interval: nat, h: P.Progress, x: seq<bit>, mcus: seq<Mcu>)
    requires P.GoodScan(sc) && P.GoodProgress(sc, h) && P.Shaped(sc, mcus) && (interval == 0 || |mcus| <= h.togo)
    ensures P.Stream(cd, sc, interval, h, x, mcus) == RunBytes(x + BitsFor(cd, Band(sc, h.last, h.e, mcus)))
    decreases |mcus|
  {
    hide P.GoodScan, P.McuCode, P.EobItems, RunBytes, BitsFor;
    if mcus != [] {
      var next, items := P.After(sc, interval, h, mcus[0]), P.McuItems(sc, interval, h, mcus[0]);
      LastBand(cd, sc, interval, next, x + BitsFor(cd, items), mcus[1..]);
      BitsForConcat(cd, items, Band(sc, next.last, next.e, mcus[1..]));
      Associative(x, BitsFor(cd, items), BitsFor(cd, Band(sc, next.last, next.e, mcus[1..])));
    }
  }

  /** Where a segment starts; an AC scan keeps its unused predictions. */
  ghost function Start(sc: P.Scan, last: seq<int>, interval: nat, num: nat): (h: P.Progress)
    requires |last| == |sc.ly.dcTbl|
    ensures P.GoodProgress(sc, h)
  {
    P.Progress(if P.IsDc(sc) then Zeros(|sc.ly.dcTbl|) else last, P.NO_EOB, interval, num % 8)
  }

  lemma {:induction false} BandToMarker(cd: Codes, sc: P.Scan, interval: nat, h: P.Progress, x: seq<bit>,
                                        mcus: seq<Mcu>) returns (last: seq<int>)
    requires P.GoodScan(sc) && P.GoodProgress(sc, h) && P.Shaped(sc, mcus) && interval > 0 && |mcus| > h.togo
    ensures |last| == |sc.ly.dcTbl|
    ensures P.Stream(cd, sc, interval, h, x, mcus)
         == RunBytes(x + BitsFor(cd, Band(sc, h.last, h.e, mcus[..h.togo]))) + [0xFF, 0xD0 + h.num]
            + P.Stream(cd, sc, interval, Start(sc, last, interval, h.num + 1), [], mcus[h.togo..])
    decreases h.togo
  {
    hide P.GoodScan, P.McuCode, P.EobItems, RunBytes, BitsFor;
    if h.togo == 0 {
      last := h.last;
      BandRestarted(cd, sc, interval, h, x, mcus);
    } else {
      var next, items := P.After(sc, interval, h, mcus[0]), P.McuItems(sc, interval, h, mcus[0]);
      var more := mcus[1..][..next.togo];
      assert more == mcus[..h.togo][1..] && mcus[1..][next.togo..] == mcus[h.togo..];
      last := BandToMarker(cd, sc, interval, next, x + BitsFor(cd, items), mcus[1..]);
      BitsForConcat(cd, items, Band(sc, next.last, next.e, more));
      Associative(x, BitsFor(cd, items), BitsFor(cd, Band(sc, next.last, next.e, more)));
    }
  }

  lemma BandRestarted(cd: Codes, sc: P.Scan, interval: nat, h: P.Progress, x: seq<bit>, mcus: seq<Mcu>)
    requires P.GoodScan(sc) && P.GoodProgress(sc, h) && P.Shaped(sc, mcus) && interval > 0 && mcus != [] && h.togo == 0
    ensures P.Stream(cd, sc, interval, h, x, mcus)
         == RunBytes(x + BitsFor(cd, P.EobItems(P.EobTable(sc), h.e))) + [0xFF, 0xD0 + h.num]
            + P.Stream(cd, sc, interval, Start(sc, h.last, interval, h.num + 1), [], mcus)
  {
    hide P.GoodScan, P.McuCode, P.EobItems, RunBytes, BitsFor;
    var anew := Start(sc, h.last, interval, h.num + 1);
    assert P.Entering(sc, interval, h) == (anew.last, anew.e) == P.Entering(sc, interval, anew);
    assert P.After(sc, interval, h, mcus[0]) == P.After(sc, interval, anew, mcus[0]);
    var bits := BitsFor(cd, P.McuItems(sc, interval, anew, mcus[0]));
    assert [] + bits == bits;
  }

  /** So is a progressive scan of each kind. */
  lemma {:induction false} ProgressiveIsSegments(cd: Codes, sc: P.Scan, interval: nat, num: nat, last: seq<int>,
                                                 mcus: seq<Mcu>)
    requires P.GoodScan(sc) && P.Shaped(sc, mcus) && |last| == |sc.ly.dcTbl|
    ensures P.StartProgress(sc, interval) == Start(sc, Zeros(|sc.ly.dcTbl|), interval, 0)
    ensures P.Stream(cd, sc, interval, Start(sc, last, interval, num), [], mcus)
         == BandSegments(cd, sc, interval, num, mcus)
    decreases |mcus|
  {
    hide P.GoodScan, Band, RunBytes, BitsFor, P.Stream;
    var h, zeros := Start(sc, last, interval, num), Zeros(|sc.ly.dcTbl|);
    if !P.IsDc(sc) {
      AcBand(sc, h.last, zeros, h.e, mcus);
      AcBand(sc, h.last, zeros, h.e, if Divided(interval, |mcus|) then mcus[..interval] else []);
    }
    if Divided(interval, |mcus|) {
      Empty(BitsFor(cd, Band(sc, h.last, h.e, mcus[..interval])));
      var l := BandToMarker(cd, sc, interval, h, [], mcus);
      ProgressiveIsSegments(cd, sc, interval, num + 1, l, mcus[interval..]);
      assert Start(sc, l, interval, h.num + 1) == Start(sc, l, interval, num + 1);
    } else {
      Empty(BitsFor(cd, Band(sc, h.last, h.e, mcus)));
      LastBand(cd, sc, interval, h, [], mcus);
    }
  }

  /** The first n blocks of an MCU of a first DC scan. */
  ghost function FirstDcs(sc: P.Scan, last: seq<int>, mcu: Mcu, n: nat): (x: seq<Item>)
    requires P.GoodScan(sc) && |last| == |sc.ly.dcTbl| && n <= |mcu| == |sc.ly.membership|
  {
    if n == 0 then []
    else
      var c, v := sc.ly.membership[n - 1], DcValues(mcu, sc.al);
      FirstDcs(sc, last, mcu, n - 1)
      + P.DcDiffItems(sc.ly.dcTbl[c], v[n - 1] - Previous(sc.ly, last, v, n - 1, c))
  }

  lemma DcMcuPredicted(sc: P.Scan, last: seq<int>, e: P.Eob, mcu: Mcu)
    requires P.GoodScan(sc) && sc.kind.DcFirst? && |last| == |sc.ly.dcTbl| && |mcu| == |sc.ly.membership|
    ensures var r := P.McuCode(sc, last, e, mcu);
            && r.x == FirstDcs(sc, last, mcu, |mcu|) && r.e == e
            && Latest(sc.ly, last, DcValues(mcu, sc.al), |mcu|, r.last)
  {
    Empty(P.DcMcuItems(sc, last, 0, mcu));
    DcPredicted(sc, last, last, mcu, 0);
  }

  lemma {:induction false} DcPredicted(sc: P.Scan, last: seq<int>, now: seq<int>, mcu: Mcu, i: nat)
    requires P.GoodScan(sc) && sc.kind.DcFirst? && |last| == |sc.ly.dcTbl| && i <= |mcu| == |sc.ly.membership|
    requires Latest(sc.ly, last, DcValues(mcu, sc.al), i, now)
    ensures FirstDcs(sc, last, mcu, |mcu|) == FirstDcs(sc, last, mcu, i) + P.DcMcuItems(sc, now, i, mcu)
    ensures Latest(sc.ly, last, DcValues(mcu, sc.al), |mcu|, P.DcMcuLast(sc, now, i, mcu))
    decreases |mcu| - i
  {
    hide P.DcDiffItems, Previous;
    if i < |mcu| {
      var v := DcValues(mcu, sc.al);
      LatestNext(sc.ly, last, v, i, now);
      DcPredicted(sc, last, now[sc.ly.membership[i] := v[i]], mcu, i + 1);
    }
  }

  // ---- Counts ----

  function Places(x: seq<Item>, tbl: nat, sym: nat): (p: set<int>) {
    set i | 0 <= i < |x| && x[i] == Symbol(tbl, sym)
  }

  /** The gathering pass counts every occurrence of a symbol once. */
  lemma {:induction false} UsesAre(x: seq<Item>, tbl: nat, sym: nat)
    ensures Uses(x, tbl, sym) == |Places(x, tbl, sym)|
    decreases |x|
  {
    if x != [] {
      var n := |x| - 1;
      UsesAre(x[..n], tbl, sym);
      assert Places(x, tbl, sym) == Places(x[..n], tbl, sym) + if x[n] == Symbol(tbl, sym) then {n} else {};
    }
  }

  // ---- The symbols of a block ----

  /** n run-length-16 symbols. */
  function SixteenZeros(tbl: nat, n: nat): (x: seq<Item>)
    requires tbl < 4
    ensures |x| == n && forall i :: 0 <= i < n ==> x[i] == Symbol(4 + tbl, 0xF0)
  {
    seq(n, i => Symbol(4 + tbl, 0xF0))
  }

  lemma {:induction false} ZeroRunsAre(tbl: nat, r: nat)
    requires tbl < 4
    ensures ZeroRuns(tbl, r) == SixteenZeros(tbl, r / 16)
    decreases r
  {
    if r > 15 {
      ZeroRunsAre(tbl, r - 16);
    }
  }

  lemma CoefIs(tbl: nat, r: nat, v: int, size: nat)
    requires tbl < 4 && v != 0 && size > 0 && Pow2(size - 1) <= Abs(v) < Pow2(size)
    ensures CoefItems(tbl, r, v)
         == SixteenZeros(tbl, r / 16)
            + [Symbol(4 + tbl, r % 16 * 16 + size), Extra((if v < 0 then v - 1 else v) % Pow2(size), size)]
  {
    ZeroRunsAre(tbl, r);
    SizeIs(Abs(v), size);
    hide Pow2, ZeroRuns, SixteenZeros;
  }

  lemma SizeIs(w: nat, size: nat)
    requires size > 0 && Pow2(size - 1) <= w < Pow2(size)
    ensures NBits(w) == size
  {
    var n := NBits(w);
    Pow2Mono(0, size - 1);
    if n < size {
      Pow2Mono(n, size - 1);
    } else if n > size {
      Pow2Mono(size, n - 1);
    }
  }

  /** At index k after r zeros, when n is the next coefficient that is not zero. */
  lemma {:induction false} NextCoef(tbl: nat, b: Block, k: nat, n: nat, r: nat)
    requires k <= n < DCTSIZE2 && b[n] != 0 && forall j :: k <= j < n ==> b[j] == 0
    ensures AcItems(tbl, b, k, r) == CoefItems(tbl, r + n - k, b[n]) + AcItems(tbl, b, n + 1, 0)
    decreases n - k
  {
    hide CoefItems;
    if k < n {
      NextCoef(tbl, b, k + 1, n, r + 1);
    }
  }

  /** Zeros at the end of a block are one symbol. */
  lemma {:induction false} EndOfBlock(tbl: nat, b: Block, k: nat, r: nat)
    requires k <= DCTSIZE2 && forall j :: k <= j < DCTSIZE2 ==> b[j] == 0
    ensures AcItems(tbl, b, k, r) == if r == 0 && k == 64 then [] else [Symbol(AcTable(tbl), 0)]
    decreases DCTSIZE2 - k
  {
    hide CoefItems;
    if k < DCTSIZE2 {
      EndOfBlock(tbl, b, k + 1, r + 1);
    }
  }
}
