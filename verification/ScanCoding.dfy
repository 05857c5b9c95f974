/** A whole arithmetic-coded scan: MCU after MCU, with restart markers that cut
    the data into independently coded segments. */
module ScanCoding {
  import opened Numbers
  import opened ProbabilityTable
  import opened IntervalCoder
  import opened ByteSource
  import opened Binarisation
  import opened AcBand
  import opened McuCoding
  import opened ScriptBins
  import opened CoderRoundTrip
  import Enc = EncoderRegisters
  import Dec = DecoderRegisters

  // ---- Resetting at the start of a segment ----

  /** The statistics of a new coder: all areas zero, the fixed bin at 0.5. */
  function InitialStats(): (stats: seq<byte>) {
    seq(BINS, i => if i == FIXED_BIN then FIXED_STATE else 0)
  }

  predicate UsesDc(sc: Scan) { sc.kind.Sequential? || sc.kind.DcFirst? }

  predicate UsesAc(sc: Scan) { sc.kind.Sequential? || sc.kind.AcFirst? || sc.kind.AcRefine? }

  predicate InDcArea(sc: Scan, c: nat, i: nat)
    requires c < |sc.dcTbl|
  {
    UsesDc(sc) && DcBase(sc.dcTbl[c]) <= i < DcBase(sc.dcTbl[c]) + DC_STAT_BINS
  }

  predicate InAcArea(sc: Scan, c: nat, i: nat)
    requires c < |sc.acTbl|
  {
    UsesAc(sc) && AcBase(sc.acTbl[c]) <= i < AcBase(sc.acTbl[c]) + AC_STAT_BINS
  }

  /** The bins that start_pass, emit_restart and process_restart zero for the
      first n components of the scan. */
  ghost predicate InUse(sc: Scan, n: nat, i: nat) {
    exists c :: 0 <= c < n && c < |sc.dcTbl| && c < |sc.acTbl| && (InDcArea(sc, c, i) || InAcArea(sc, c, i))
  }

  ghost function ResetStats(sc: Scan, stats: seq<byte>): (r: seq<byte>)
    ensures |r| == |stats|
  {
    seq(|stats|, i requires 0 <= i < |stats| => if InUse(sc, |sc.dcTbl|, i) then 0 else stats[i])
  }

  /** DC predictions are reset by the scans that use them. */
  ghost function ResetPred(sc: Scan, p: Pred): (r: Pred) {
    if UsesDc(sc) then ZeroPred(sc) else p
  }

  lemma ResetGood(tab: seq<nat>, sc: Scan, stats: seq<byte>, p: Pred)
    requires ValidStats(tab, stats) && |tab| > 0 && GoodScan(sc) && GoodPred(sc, p)
    ensures ValidStats(tab, ResetStats(sc, stats)) && GoodPred(sc, ResetPred(sc, p))
  {
  }

  // ---- MCUs in a row, inside one segment ----

  ghost predicate ShapedMcus(sc: Scan, mcus: seq<Mcu>) {
    forall i :: 0 <= i < |mcus| ==> |mcus[i]| == |sc.membership|
  }

  ghost function McusScript(sc: Scan, p: Pred, mcus: seq<Mcu>): (script: seq<Decision>)
    requires GoodScan(sc) && GoodPred(sc, p) && ShapedMcus(sc, mcus)
    decreases |mcus|
  {
    if mcus == [] then []
    else McuScript(sc, p, 0, mcus[0]) + McusScript(sc, McuPred(sc, p, 0, mcus[0]), mcus[1..])
  }

  ghost function McusPred(sc: Scan, p: Pred, mcus: seq<Mcu>): (r: Pred)
    requires GoodScan(sc) && GoodPred(sc, p) && ShapedMcus(sc, mcus)
    ensures GoodPred(sc, r)
    decreases |mcus|
  {
    if mcus == [] then p else McusPred(sc, McuPred(sc, p, 0, mcus[0]), mcus[1..])
  }

  ghost predicate CodableMcus(sc: Scan, p: Pred, mcus: seq<Mcu>)
    requires GoodScan(sc) && GoodPred(sc, p) && ShapedMcus(sc, mcus)
    decreases |mcus|
  {
    mcus == [] || (CodableMcu(sc, p, 0, mcus[0]) && CodableMcus(sc, McuPred(sc, p, 0, mcus[0]), mcus[1..]))
  }

  lemma {:induction false} McusScriptValid(sc: Scan, p: Pred, mcus: seq<Mcu>)
    requires GoodScan(sc) && GoodPred(sc, p) && ShapedMcus(sc, mcus) && CodableMcus(sc, p, mcus)
    ensures ValidScript(McusScript(sc, p, mcus), BINS)
    decreases |mcus|
  {
    hide GoodScan, GoodPred, McuScript, CodableMcu, McuPred;
    if mcus != [] {
      McuScriptValid(sc, p, 0, mcus[0]);
      McusScriptValid(sc, McuPred(sc, p, 0, mcus[0]), mcus[1..]);
    }
  }

  // ---- The reference: a scan is a row of segments ----

  /** How many MCUs go into the segment that starts here. */
  function SegmentLength(interval: nat, n: nat): (k: nat)
    ensures k <= n && (n > 0 ==> k > 0)
  {
    if interval == 0 || n <= interval then n else interval
  }

  ghost predicate CodableScan(sc: Scan, interval: nat, p: Pred, mcus: seq<Mcu>)
    requires GoodScan(sc) && GoodPred(sc, p) && ShapedMcus(sc, mcus)
    decreases |mcus|
  {
    var n := SegmentLength(interval, |mcus|);
    && CodableMcus(sc, p, mcus[..n])
    && (n < |mcus| ==>
          var q := ResetPred(sc, McusPred(sc, p, mcus[..n]));
          GoodPred(sc, q) && CodableScan(sc, interval, q, mcus[n..]))
  }

  /** The bytes of a scan from the start of a segment on: the MCUs up to the next
      restart coded on their own, the restart marker, and so on; the marker m and
      `tail` follow the scan. */
  ghost function Stream(tab: seq<nat>, sc: Scan, interval: nat, stats: seq<byte>, p: Pred, num: nat,
                        mcus: seq<Mcu>, m: byte, tail: seq<byte>): (s: seq<byte>)
    requires ValidTable(tab) && |tab| > 0 && ValidStats(tab, stats) && |stats| == BINS
    requires GoodScan(sc) && GoodPred(sc, p) && ShapedMcus(sc, mcus) && CodableScan(sc, interval, p, mcus)
    requires num < 8
    decreases |mcus|
  {
    var n := SegmentLength(interval, |mcus|);
    McusScriptValid(sc, p, mcus[..n]);
    var script := McusScript(sc, p, mcus[..n]);
    var u := CodeString(tab, stats, script);
    if n == |mcus| then Segment(u, m, tail)
    else
      var stats' := Enc.EncodeAll(tab, Enc.State(Enc.START, stats), script).stats;
      var p' := McusPred(sc, p, mcus[..n]);
      ResetGood(tab, sc, stats', p');
      Segment(u, RST0 + num,
              Stream(tab, sc, interval, ResetStats(sc, stats'), ResetPred(sc, p'), (num + 1) % 8, mcus[n..], m, tail))
  }

  /** The statistics and the prediction state at the end of the scan. */
  ghost function StreamEnd(tab: seq<nat>, sc: Scan, interval: nat, stats: seq<byte>, p: Pred,
                           mcus: seq<Mcu>): (r: (seq<byte>, Pred))
    requires ValidTable(tab) && |tab| > 0 && ValidStats(tab, stats) && |stats| == BINS
    requires GoodScan(sc) && GoodPred(sc, p) && ShapedMcus(sc, mcus) && CodableScan(sc, interval, p, mcus)
    decreases |mcus|
  {
    var n := SegmentLength(interval, |mcus|);
    McusScriptValid(sc, p, mcus[..n]);
    var stats' := Enc.EncodeAll(tab, Enc.State(Enc.START, stats), McusScript(sc, p, mcus[..n])).stats;
    var p' := McusPred(sc, p, mcus[..n]);
    ResetGood(tab, sc, stats', p');
    if n == |mcus| then (stats', p')
    else StreamEnd(tab, sc, interval, ResetStats(sc, stats'), ResetPred(sc, p'), mcus[n..])
  }

  // ---- The decoder ----

  /** The decoder between MCUs. `bad` is ct == -1; Lost means that the restart
      marker found was not the expected one. */
  datatype DecScan = Lost | DecScan(s: Dec.State, p: Pred, togo: nat, num: nat, bad: bool)

  ghost predicate GoodDec(tab: seq<nat>, sc: Scan, ds: DecScan) {
    && GoodScan(sc) && |tab| > 0
    && (ds.DecScan? ==> Ready(tab, ds.s) && GoodPred(sc, ds.p) && ds.num < 8)
  }

  /** process_restart, with read_restart_marker reduced to finding the next marker. */
  ghost function ProcessRestart(tab: seq<nat>, sc: Scan, interval: nat, ds: DecScan): (r: DecScan)
    requires ds.DecScan? && GoodDec(tab, sc, ds)
    ensures GoodDec(tab, sc, r)
  {
    var found := NextMarker(ds.s.d.src);
    if found.b != RST0 + ds.num then Lost
    else
      ResetGood(tab, sc, ds.s.stats, ds.p);
      DecScan(Dec.State(Dec.Start(Source(found.data, 0)), ResetStats(sc, ds.s.stats)),
              ResetPred(sc, ds.p), interval, (ds.num + 1) % 8, false)
  }

  datatype McuStep = McuStep(ds: DecScan, blks: Mcu)

  /** decode_mcu and its progressive versions, with the restart counter. */
  ghost function DecodeMcu(tab: seq<nat>, sc: Scan, interval: nat, ds: DecScan, curs: Mcu): (r: McuStep)
    requires ds.DecScan? && GoodDec(tab, sc, ds) && |curs| == |sc.membership|
    ensures GoodDec(tab, sc, r.ds)
  {
    var d1 := if interval > 0 && ds.togo == 0 then ProcessRestart(tab, sc, interval, ds) else ds;
    if d1.Lost? then McuStep(Lost, curs)
    else
      var togo := if interval > 0 then d1.togo - 1 else d1.togo;
      if d1.bad && !sc.kind.DcRefine? then McuStep(d1.(togo := togo), curs)
      else
        var o := ReadMcu(tab, d1.s, sc, d1.p, 0, curs);
        McuStep(DecScan(o.s, o.p, togo, d1.num, d1.bad || !o.ok), o.blks)
  }

  ghost function DecodeMcus(tab: seq<nat>, sc: Scan, interval: nat, ds: DecScan,
                            curs: seq<Mcu>): (r: (DecScan, seq<Mcu>))
    requires GoodDec(tab, sc, ds) && ShapedMcus(sc, curs)
    ensures GoodDec(tab, sc, r.0) && |r.1| == |curs|
    decreases |curs|
  {
    if curs == [] then (ds, [])
    else if ds.Lost? then (Lost, curs)
    else
      var first := DecodeMcu(tab, sc, interval, ds, curs[0]);
      var rest := DecodeMcus(tab, sc, interval, first.ds, curs[1..]);
      (rest.0, [first.blks] + rest.1)
  }

  // ---- Reading a segment ----

  ghost predicate PriorMcus(sc: Scan, xs: seq<Mcu>, curs: seq<Mcu>) {
    |xs| == |curs| && forall i :: 0 <= i < |xs| ==> PriorMcu(sc, xs[i], curs[i], 0)
  }

  ghost predicate ImprovedMcus(sc: Scan, xs: seq<Mcu>, curs: seq<Mcu>, outs: seq<Mcu>) {
    |xs| == |curs| == |outs| && forall i :: 0 <= i < |xs| ==> Improved(sc, xs[i], curs[i], outs[i], 0)
  }

  lemma {:induction false} SegmentReads(tab: seq<nat>, sc: Scan, interval: nat, ds: DecScan,
                                        xs: seq<Mcu>, curs: seq<Mcu>, end: seq<byte>)
    requires ds.DecScan? && GoodDec(tab, sc, ds) && !ds.bad
    requires ShapedMcus(sc, xs) && ShapedMcus(sc, curs) && CodableMcus(sc, ds.p, xs) && PriorMcus(sc, xs, curs)
    requires interval == 0 || |xs| <= ds.togo
    requires Follows(tab, ds.s, McusScript(sc, ds.p, xs), end)
    ensures var r := DecodeMcus(tab, sc, interval, ds, curs);
            && r.0.DecScan? && !r.0.bad && r.0.num == ds.num
            && r.0.p == McusPred(sc, ds.p, xs) && r.0.s.stats == end
            && r.0.togo == (if interval == 0 then ds.togo else ds.togo - |xs|)
            && NextMarker(r.0.s.d.src) == NextMarker(ds.s.d.src)
            && ImprovedMcus(sc, xs, curs, r.1)
    decreases |xs|
  {
    hide Follows, GoodScan, GoodPred, McuScript, McuPred, CodableMcu, ReadMcu, PriorMcu, Improved, NextMarker,
         Dec.ValidState;
    FollowsReady(tab, ds.s, McusScript(sc, ds.p, xs), end);
    if xs != [] {
      var p' := McuPred(sc, ds.p, 0, xs[0]);
      McuReads(tab, ds.s, sc, ds.p, 0, xs[0], curs[0], McusScript(sc, p', xs[1..]), end);
      var first := DecodeMcu(tab, sc, interval, ds, curs[0]);
      SegmentReads(tab, sc, interval, first.ds, xs[1..], curs[1..], end);
    }
  }

  lemma DecodeFirst(tab: seq<nat>, sc: Scan, interval: nat, ds: DecScan, x: Mcu, rest: seq<Mcu>, xs: seq<Mcu>)
    requires GoodDec(tab, sc, ds) && ds.DecScan? && ShapedMcus(sc, xs) && xs != [] && xs[0] == x && xs[1..] == rest
    ensures var first := DecodeMcu(tab, sc, interval, ds, x);
            var r := DecodeMcus(tab, sc, interval, first.ds, rest);
            DecodeMcus(tab, sc, interval, ds, xs) == (r.0, [first.blks] + r.1)
  {
    hide GoodScan, GoodPred, DecodeMcu;
  }

  lemma {:induction false} DecodeMcusConcat(tab: seq<nat>, sc: Scan, interval: nat, ds: DecScan,
                                            a: seq<Mcu>, b: seq<Mcu>)
    requires GoodDec(tab, sc, ds) && ShapedMcus(sc, a) && ShapedMcus(sc, b)
    requires DecodeMcus(tab, sc, interval, ds, a).0.DecScan?
    ensures ShapedMcus(sc, a + b)
    ensures var r := DecodeMcus(tab, sc, interval, ds, a);
            var t := DecodeMcus(tab, sc, interval, r.0, b);
            DecodeMcus(tab, sc, interval, ds, a + b) == (t.0, r.1 + t.1)
    decreases |a|
  {
    hide GoodScan, GoodPred, GoodDec, DecodeMcu;
    if a == [] {
      assert a + b == b;
      assert [] + DecodeMcus(tab, sc, interval, ds, b).1 == DecodeMcus(tab, sc, interval, ds, b).1;
    } else {
      var x, rest := a[0], a[1..];
      assert (a + b)[0] == x && (a + b)[1..] == rest + b;
      assert ShapedMcus(sc, rest) && ShapedMcus(sc, a + b);
      DecodeFirst(tab, sc, interval, ds, x, rest, a);
      DecodeFirst(tab, sc, interval, ds, x, rest + b, a + b);
      hide ShapedMcus;
      var first := DecodeMcu(tab, sc, interval, ds, x);
      LostStays(tab, sc, interval, first.ds, rest);
      hide DecodeMcus;
      DecodeMcusConcat(tab, sc, interval, first.ds, rest, b);
      var r := DecodeMcus(tab, sc, interval, first.ds, rest);
      var t := DecodeMcus(tab, sc, interval, r.0, b);
      assert [first.blks] + (r.1 + t.1) == [first.blks] + r.1 + t.1;
    }
  }

  lemma LostStays(tab: seq<nat>, sc: Scan, interval: nat, ds: DecScan, a: seq<Mcu>)
    requires GoodDec(tab, sc, ds) && ShapedMcus(sc, a)
    ensures ds.Lost? ==> DecodeMcus(tab, sc, interval, ds, a).0 == Lost || a == []
  {
  }

  /** A decoder at the start of a segment. */
  ghost predicate AtSegment(tab: seq<nat>, sc: Scan, interval: nat, ds: DecScan, stats: seq<byte>, p: Pred,
                            num: nat, data: seq<byte>) {
    && ds.DecScan? && !ds.bad && ds.togo == interval && ds.num == num && ds.p == p
    && ds.s == Dec.State(Dec.Start(Source(data, 0)), stats)
  }

  /** The first segment of a stream is read back, and its marker is next. */
  lemma FirstSegmentReads(tab: seq<nat>, sc: Scan, interval: nat, ds: DecScan, xs: seq<Mcu>, curs: seq<Mcu>,
                          u: seq<byte>, m: byte, tail: seq<byte>)
    requires ds.DecScan? && GoodDec(tab, sc, ds) && !ds.bad && ValidTable(tab)
    requires ShapedMcus(sc, xs) && ShapedMcus(sc, curs) && CodableMcus(sc, ds.p, xs) && PriorMcus(sc, xs, curs)
    requires (interval == 0 || |xs| <= ds.togo) && m != 0 && m != 0xFF
    requires ValidStats(tab, ds.s.stats) && |ds.s.stats| == BINS
    requires ValidScript(McusScript(sc, ds.p, xs), BINS)
    requires u == CodeString(tab, ds.s.stats, McusScript(sc, ds.p, xs))
    requires ds.s.d == Dec.Start(Source(Segment(u, m, tail), 0))
    ensures var r := DecodeMcus(tab, sc, interval, ds, curs);
            && r.0.DecScan? && !r.0.bad && r.0.num == ds.num
            && r.0.p == McusPred(sc, ds.p, xs)
            && r.0.s.stats == Enc.EncodeAll(tab, Enc.State(Enc.START, ds.s.stats), McusScript(sc, ds.p, xs)).stats
            && r.0.togo == (if interval == 0 then ds.togo else ds.togo - |xs|)
            && NextMarker(r.0.s.d.src) == Read(m, tail)
            && ImprovedMcus(sc, xs, curs, r.1)
  {
    hide GoodScan, GoodPred, McuScript, Dec.Synced, Enc.EncodeAll, NextMarker, Segment, CodableMcus, PriorMcus,
         ImprovedMcus;
    var script := McusScript(sc, ds.p, xs);
    StartSynced(tab, ds.s.stats, script, m, tail);
    SegmentReads(tab, sc, interval, ds, xs, curs,
                 Enc.EncodeAll(tab, Enc.State(Enc.START, ds.s.stats), script).stats);
  }

  lemma TakePrior(sc: Scan, xs: seq<Mcu>, curs: seq<Mcu>, n: nat)
    requires PriorMcus(sc, xs, curs) && n <= |xs|
    ensures PriorMcus(sc, xs[..n], curs[..n]) && PriorMcus(sc, xs[n..], curs[n..])
  {
    hide PriorMcu;
  }

  lemma JoinImproved(sc: Scan, xs: seq<Mcu>, curs: seq<Mcu>, a: seq<Mcu>, b: seq<Mcu>, n: nat)
    requires n <= |xs| == |curs|
    requires ImprovedMcus(sc, xs[..n], curs[..n], a) && ImprovedMcus(sc, xs[n..], curs[n..], b)
    ensures ImprovedMcus(sc, xs, curs, a + b)
  {
    hide Improved;
    forall i | 0 <= i < |xs|
      ensures Improved(sc, xs[i], curs[i], (a + b)[i], 0)
    {
      if i < n {
        assert xs[..n][i] == xs[i] && curs[..n][i] == curs[i];
      } else {
        assert xs[n..][i - n] == xs[i] && curs[n..][i - n] == curs[i];
      }
    }
  }

  /** Restarting joins the segments: one MCU that begins with a restart. */
  lemma RestartJoins(tab: seq<nat>, sc: Scan, interval: nat, ds: DecScan, curs: seq<Mcu>)
    requires ds.DecScan? && GoodDec(tab, sc, ds) && interval > 0 && ds.togo == 0 && curs != [] && ShapedMcus(sc, curs)
    requires ProcessRestart(tab, sc, interval, ds).DecScan?
    ensures DecodeMcus(tab, sc, interval, ds, curs)
         == DecodeMcus(tab, sc, interval, ProcessRestart(tab, sc, interval, ds), curs)
  {
    hide GoodScan, GoodPred, ReadMcu;
  }

  /** The round trip of a scan: decoding the stream of a scan, whatever the
      restart interval, brings every block to its target. */
  lemma {:induction false} StreamReads(tab: seq<nat>, sc: Scan, interval: nat, ds: DecScan, stats: seq<byte>,
                                       p: Pred, num: nat, xs: seq<Mcu>, curs: seq<Mcu>, m: byte, tail: seq<byte>)
    requires ValidTable(tab) && |tab| > 0 && ValidStats(tab, stats) && |stats| == BINS
    requires GoodScan(sc) && GoodPred(sc, p) && num < 8 && m != 0 && m != 0xFF
    requires ShapedMcus(sc, xs) && ShapedMcus(sc, curs) && CodableScan(sc, interval, p, xs) && PriorMcus(sc, xs, curs)
    requires GoodDec(tab, sc, ds)
    requires AtSegment(tab, sc, interval, ds, stats, p, num, Stream(tab, sc, interval, stats, p, num, xs, m, tail))
    ensures var r := DecodeMcus(tab, sc, interval, ds, curs);
            && r.0.DecScan? && !r.0.bad && NextMarker(r.0.s.d.src) == Read(m, tail)
            && (r.0.s.stats, r.0.p) == StreamEnd(tab, sc, interval, stats, p, xs)
            && ImprovedMcus(sc, xs, curs, r.1)
    decreases |xs|
  {
    hide GoodScan, GoodPred, McuScript, Enc.EncodeAll, NextMarker, Segment, CodeString, PriorMcus, ImprovedMcus,
         ResetStats;
    hide CodableMcus, McusScript, McusPred, ValidStats, ValidTable, Dec.ValidState, DecodeMcus;
    var n := SegmentLength(interval, |xs|);
    assert |xs| == |curs| by { PriorLength(sc, xs, curs); }
    TakePrior(sc, xs, curs, n);
    McusScriptValid(sc, p, xs[..n]);
    var script := McusScript(sc, p, xs[..n]);
    var u := CodeString(tab, stats, script);
    if n == |xs| {
      assert xs[..n] == xs && curs[..n] == curs;
      FirstSegmentReads(tab, sc, interval, ds, xs, curs, u, m, tail);
    } else {
      var stats' := Enc.EncodeAll(tab, Enc.State(Enc.START, stats), script).stats;
      var p' := McusPred(sc, p, xs[..n]);
      ResetGood(tab, sc, stats', p');
      var more := Stream(tab, sc, interval, ResetStats(sc, stats'), ResetPred(sc, p'), (num + 1) % 8, xs[n..], m, tail);
      FirstSegmentReads(tab, sc, interval, ds, xs[..n], curs[..n], u, RST0 + num, more);
      var r := DecodeMcus(tab, sc, interval, ds, curs[..n]);
      var ds' := ProcessRestart(tab, sc, interval, r.0);
      RestartJoins(tab, sc, interval, r.0, curs[n..]);
      StreamReads(tab, sc, interval, ds', ResetStats(sc, stats'), ResetPred(sc, p'), (num + 1) % 8,
                  xs[n..], curs[n..], m, tail);
      assert curs == curs[..n] + curs[n..];
      DecodeMcusConcat(tab, sc, interval, ds, curs[..n], curs[n..]);
      JoinImproved(sc, xs, curs, r.1, DecodeMcus(tab, sc, interval, ds', curs[n..]).1, n);
    }
  }

  lemma PriorLength(sc: Scan, xs: seq<Mcu>, curs: seq<Mcu>)
    requires PriorMcus(sc, xs, curs)
    ensures |xs| == |curs|
  {
  }

  // ---- The encoder ----

  /** The encoder between MCUs: registers and statistics, predictions, the bytes
      of the finished segments, and the restart counters. */
  datatype EncScan = EncScan(st: Enc.State, p: Pred, out: seq<byte>, togo: nat, num: nat)

  ghost predicate GoodEnc(tab: seq<nat>, sc: Scan, es: EncScan) {
    && GoodScan(sc) && |tab| > 0
    && Enc.ValidState(tab, es.st) && |es.st.stats| == BINS && GoodPred(sc, es.p) && es.num < 8
  }

  /** emit_restart. */
  ghost function EmitRestart(tab: seq<nat>, sc: Scan, interval: nat, es: EncScan): (r: EncScan)
    requires GoodEnc(tab, sc, es)
    ensures GoodEnc(tab, sc, r)
  {
    ResetGood(tab, sc, es.st.stats, es.p);
    EncScan(Enc.State(Enc.START, ResetStats(sc, es.st.stats)), ResetPred(sc, es.p),
            es.out + Stuff(Enc.Finish(es.st.e)) + [0xFF, RST0 + es.num], interval, (es.num + 1) % 8)
  }

  ghost function BeforeMcu(tab: seq<nat>, sc: Scan, interval: nat, es: EncScan): (r: EncScan)
    requires GoodEnc(tab, sc, es)
    ensures GoodEnc(tab, sc, r)
    ensures r.p == if interval > 0 && es.togo == 0 then ResetPred(sc, es.p) else es.p
    ensures r.togo == if interval > 0 && es.togo == 0 then interval else es.togo
  {
    if interval > 0 && es.togo == 0 then EmitRestart(tab, sc, interval, es) else es
  }

  /** encode_mcu and its progressive versions, with the restart counter. */
  ghost function EncodeMcu(tab: seq<nat>, sc: Scan, interval: nat, es: EncScan, xs: Mcu): (r: EncScan)
    requires GoodEnc(tab, sc, es) && |xs| == |sc.membership|
    requires CodableMcu(sc, BeforeMcu(tab, sc, interval, es).p, 0, xs)
    ensures GoodEnc(tab, sc, r)
    ensures var e1 := BeforeMcu(tab, sc, interval, es);
            && r.p == McuPred(sc, e1.p, 0, xs)
            && r.togo == if interval > 0 then e1.togo - 1 else e1.togo
  {
    var e1 := BeforeMcu(tab, sc, interval, es);
    McuScriptValid(sc, e1.p, 0, xs);
    EncScan(Enc.EncodeAll(tab, e1.st, McuScript(sc, e1.p, 0, xs)), McuPred(sc, e1.p, 0, xs), e1.out,
            if interval > 0 then e1.togo - 1 else e1.togo, e1.num)
  }

  /** Codable one MCU at a time, as the restart counter runs. */
  ghost predicate CodableFrom(sc: Scan, interval: nat, p: Pred, togo: nat, mcus: seq<Mcu>)
    requires GoodScan(sc) && GoodPred(sc, p) && ShapedMcus(sc, mcus)
    decreases |mcus|
  {
    mcus == [] ||
    var restart := interval > 0 && togo == 0;
    var q := if restart then ResetPred(sc, p) else p;
    var t := if restart then interval else togo;
    && GoodPred(sc, q) && CodableMcu(sc, q, 0, mcus[0])
    && CodableFrom(sc, interval, McuPred(sc, q, 0, mcus[0]), if interval > 0 then t - 1 else t, mcus[1..])
  }

  lemma FirstCodable(tab: seq<nat>, sc: Scan, interval: nat, es: EncScan, mcus: seq<Mcu>)
    requires GoodEnc(tab, sc, es) && ShapedMcus(sc, mcus) && CodableFrom(sc, interval, es.p, es.togo, mcus)
             && mcus != []
    ensures |mcus[0]| == |sc.membership| && ShapedMcus(sc, mcus[1..])
    ensures CodableMcu(sc, BeforeMcu(tab, sc, interval, es).p, 0, mcus[0])
    ensures var r := EncodeMcu(tab, sc, interval, es, mcus[0]);
            GoodEnc(tab, sc, r) && CodableFrom(sc, interval, r.p, r.togo, mcus[1..])
  {
    hide GoodScan, GoodPred, CodableMcu, McuPred, Enc.ValidState, McuScript;
  }

  ghost function EncodeMcus(tab: seq<nat>, sc: Scan, interval: nat, es: EncScan, mcus: seq<Mcu>): (r: EncScan)
    requires GoodEnc(tab, sc, es) && ShapedMcus(sc, mcus) && CodableFrom(sc, interval, es.p, es.togo, mcus)
    ensures GoodEnc(tab, sc, r)
    decreases |mcus|
  {
    if mcus == [] then es
    else
      FirstCodable(tab, sc, interval, es, mcus);
      EncodeMcus(tab, sc, interval, EncodeMcu(tab, sc, interval, es, mcus[0]), mcus[1..])
  }

  /** What has been written once finish_pass has run. */
  ghost function Written(tab: seq<nat>, sc: Scan, es: EncScan): (s: seq<byte>)
    requires GoodEnc(tab, sc, es)
  {
    es.out + Stuff(Enc.Finish(es.st.e))
  }

  lemma {:induction false} CodableSplit(sc: Scan, interval: nat, p: Pred, togo: nat, mcus: seq<Mcu>, n: nat)
    requires GoodScan(sc) && GoodPred(sc, p) && ShapedMcus(sc, mcus) && CodableFrom(sc, interval, p, togo, mcus)
    requires n <= |mcus| && (interval == 0 || n <= togo)
    ensures CodableMcus(sc, p, mcus[..n])
    ensures CodableFrom(sc, interval, McusPred(sc, p, mcus[..n]), if interval == 0 then togo else togo - n, mcus[n..])
    decreases n
  {
    hide GoodScan, GoodPred, CodableMcu, McuPred;
    if n == 0 {
      assert mcus[..0] == [] && mcus[0..] == mcus;
    } else {
      assert mcus[..n][0] == mcus[0] && mcus[..n][1..] == mcus[1..][..n - 1] && mcus[1..][n - 1..] == mcus[n..];
      CodableSplit(sc, interval, McuPred(sc, p, 0, mcus[0]),
                   if interval == 0 then togo else togo - 1, mcus[1..], n - 1);
    }
  }

  /** So a scan that is codable MCU by MCU is codable segment by segment. */
  lemma {:induction false} CodableSegments(sc: Scan, interval: nat, p: Pred, mcus: seq<Mcu>)
    requires GoodScan(sc) && GoodPred(sc, p) && ShapedMcus(sc, mcus)
    requires CodableFrom(sc, interval, p, interval, mcus)
    ensures CodableScan(sc, interval, p, mcus)
    decreases |mcus|
  {
    hide GoodScan, GoodPred, CodableMcu, McuPred, CodableMcus, ResetPred;
    var n := SegmentLength(interval, |mcus|);
    CodableSplit(sc, interval, p, interval, mcus, n);
    if n < |mcus| {
      var q := ResetPred(sc, McusPred(sc, p, mcus[..n]));
      CodableRestart(sc, interval, McusPred(sc, p, mcus[..n]), mcus[n..]);
      CodableSegments(sc, interval, q, mcus[n..]);
    }
  }

  lemma CodableRestart(sc: Scan, interval: nat, p: Pred, mcus: seq<Mcu>)
    requires GoodScan(sc) && GoodPred(sc, p) && ShapedMcus(sc, mcus) && interval > 0 && mcus != []
    requires CodableFrom(sc, interval, p, 0, mcus)
    ensures GoodPred(sc, ResetPred(sc, p)) && CodableFrom(sc, interval, ResetPred(sc, p), interval, mcus)
  {
    hide CodableMcu, McuPred;
  }

  // ---- The encoder writes the stream ----

  lemma {:induction false} EncodeAllConcat(tab: seq<nat>, s: Enc.State, x: seq<Decision>, y: seq<Decision>)
    requires Enc.ValidState(tab, s) && ValidScript(x, |s.stats|) && ValidScript(y, |s.stats|)
    ensures ValidScript(x + y, |s.stats|)
    ensures Enc.EncodeAll(tab, s, x + y) == Enc.EncodeAll(tab, Enc.EncodeAll(tab, s, x), y)
    decreases |x|
  {
    hide Enc.Encode, Enc.ValidState;
    if x == [] {
      assert x + y == y;
    } else {
      assert (x + y)[0] == x[0] && (x + y)[1..] == x[1..] + y;
      EncodeAllConcat(tab, Enc.Encode(tab, s, x[0]), x[1..], y);
    }
  }

  /** Inside a segment the encoder just codes the decisions one after the other. */
  lemma {:induction false} SegmentWritten(tab: seq<nat>, sc: Scan, interval: nat, es: EncScan,
                                          a: seq<Mcu>, b: seq<Mcu>)
    requires GoodEnc(tab, sc, es) && ShapedMcus(sc, a) && ShapedMcus(sc, b) && ShapedMcus(sc, a + b)
    requires CodableFrom(sc, interval, es.p, es.togo, a + b) && (interval == 0 || |a| <= es.togo)
    ensures ValidScript(McusScript(sc, es.p, a), BINS)
    ensures var es' := EncScan(Enc.EncodeAll(tab, es.st, McusScript(sc, es.p, a)), McusPred(sc, es.p, a), es.out,
                               if interval == 0 then es.togo else es.togo - |a|, es.num);
            && GoodEnc(tab, sc, es') && CodableFrom(sc, interval, es'.p, es'.togo, b)
            && EncodeMcus(tab, sc, interval, es, a + b) == EncodeMcus(tab, sc, interval, es', b)
    decreases |a|
  {
    hide GoodScan, GoodPred, McuScript, McuPred, CodableMcu, Enc.ValidState, Enc.EncodeAll;
    if a == [] {
      assert a + b == b;
      assert Enc.EncodeAll(tab, es.st, []) == es.st by { EncodeNothing(tab, es.st); }
    } else {
      var c := a + b;
      assert c[0] == a[0] && c[1..] == a[1..] + b;
      McuScriptValid(sc, es.p, 0, a[0]);
      var e1 := EncodeMcu(tab, sc, interval, es, a[0]);
      SegmentWritten(tab, sc, interval, e1, a[1..], b);
      EncodeAllConcat(tab, es.st, McuScript(sc, es.p, 0, a[0]), McusScript(sc, e1.p, a[1..]));
    }
  }

  lemma EncodeNothing(tab: seq<nat>, s: Enc.State)
    requires Enc.ValidState(tab, s)
    ensures Enc.EncodeAll(tab, s, []) == s
  {
  }

  lemma RestartWritten(tab: seq<nat>, sc: Scan, interval: nat, es: EncScan, mcus: seq<Mcu>)
    requires GoodEnc(tab, sc, es) && ShapedMcus(sc, mcus) && interval > 0 && es.togo == 0 && mcus != []
    requires CodableFrom(sc, interval, es.p, 0, mcus)
    ensures var e1 := EmitRestart(tab, sc, interval, es);
            && CodableFrom(sc, interval, e1.p, interval, mcus)
            && EncodeMcus(tab, sc, interval, es, mcus) == EncodeMcus(tab, sc, interval, e1, mcus)
  {
    hide GoodScan, GoodPred, McuScript, McuPred, CodableMcu, Enc.ValidState, Enc.EncodeAll;
  }

  /** The encoder's output is the stream of segments, and it ends with the same
      statistics and predictions. */
  lemma {:induction false} EncoderWritesStream(tab: seq<nat>, sc: Scan, interval: nat, es: EncScan, mcus: seq<Mcu>,
                                               m: byte, tail: seq<byte>)
    requires GoodEnc(tab, sc, es) && ShapedMcus(sc, mcus) && CodableFrom(sc, interval, es.p, interval, mcus)
    requires es.st.e == Enc.START && es.togo == interval
    ensures CodableScan(sc, interval, es.p, mcus)
    ensures var r := EncodeMcus(tab, sc, interval, es, mcus);
            && Written(tab, sc, r) + [0xFF, m] + tail
               == es.out + Stream(tab, sc, interval, es.st.stats, es.p, es.num, mcus, m, tail)
            && (r.st.stats, r.p) == StreamEnd(tab, sc, interval, es.st.stats, es.p, mcus)
    decreases |mcus|
  {
    hide GoodScan, GoodPred, McuScript, CodableMcu, Enc.EncodeAll, Enc.Finish, Stuff, EncodeMcus, ResetPred, ResetStats;
    hide CodableFrom, McusScript, McusPred, CodableMcus;
    CodableSegments(sc, interval, es.p, mcus);
    var n := SegmentLength(interval, |mcus|);
    var a, b := mcus[..n], mcus[n..];
    assert mcus == a + b;
    SegmentWritten(tab, sc, interval, es, a, b);
    var script := McusScript(sc, es.p, a);
    var e1 := EncScan(Enc.EncodeAll(tab, es.st, script), McusPred(sc, es.p, a), es.out,
                      if interval == 0 then es.togo else es.togo - n, es.num);
    if n == |mcus| {
      assert b == [];
      NoMcus(tab, sc, interval, e1);
    } else {
      RestartWritten(tab, sc, interval, e1, b);
      EncoderWritesStream(tab, sc, interval, EmitRestart(tab, sc, interval, e1), b, m, tail);
    }
  }

  lemma NoMcus(tab: seq<nat>, sc: Scan, interval: nat, es: EncScan)
    requires GoodEnc(tab, sc, es)
    ensures CodableFrom(sc, interval, es.p, es.togo, []) && EncodeMcus(tab, sc, interval, es, []) == es
  {
  }

  // ---- The round trip of a scan ----

  /** start_pass on the encoder's side. */
  ghost function StartEncoder(tab: seq<nat>, sc: Scan, interval: nat, stats: seq<byte>, p: Pred): (r: EncScan)
    requires ValidTable(tab) && |tab| > 0 && ValidStats(tab, stats) && |stats| == BINS
    requires GoodScan(sc) && GoodPred(sc, p)
    ensures GoodEnc(tab, sc, r)
  {
    ResetGood(tab, sc, stats, p);
    EncScan(Enc.State(Enc.START, ResetStats(sc, stats)), ResetPred(sc, p), [], interval, 0)
  }

  /** start_pass on the decoder's side, reading from `data`. */
  ghost function StartDecoder(tab: seq<nat>, sc: Scan, interval: nat, stats: seq<byte>, p: Pred,
                              data: seq<byte>): (r: DecScan)
    requires ValidTable(tab) && |tab| > 0 && ValidStats(tab, stats) && |stats| == BINS
    requires GoodScan(sc) && GoodPred(sc, p)
    ensures GoodDec(tab, sc, r)
  {
    ResetGood(tab, sc, stats, p);
    DecScan(Dec.State(Dec.Start(Source(data, 0)), ResetStats(sc, stats)), ResetPred(sc, p), interval, 0, false)
  }

  /** For every scan, restart interval and codable list of MCUs, and whatever
      marker and data follow: decoding what was written brings every block that
      held its prior value to its target, stops before the marker, and leaves both
      sides with the same statistics and the same DC predictions and contexts. */
  lemma ScanRoundTrip(tab: seq<nat>, sc: Scan, interval: nat, stats: seq<byte>, p: Pred,
                      xs: seq<Mcu>, curs: seq<Mcu>, m: byte, tail: seq<byte>)
    requires ValidTable(tab) && |tab| > 0 && ValidStats(tab, stats) && |stats| == BINS
    requires GoodScan(sc) && GoodPred(sc, p) && m != 0 && m != 0xFF
    requires ShapedMcus(sc, xs) && ShapedMcus(sc, curs) && PriorMcus(sc, xs, curs)
    requires CodableFrom(sc, interval, StartEncoder(tab, sc, interval, stats, p).p, interval, xs)
    ensures var e := EncodeMcus(tab, sc, interval, StartEncoder(tab, sc, interval, stats, p), xs);
            var data := Written(tab, sc, e) + [0xFF, m] + tail;
            var d := DecodeMcus(tab, sc, interval, StartDecoder(tab, sc, interval, stats, p, data), curs);
            && d.0.DecScan? && !d.0.bad
            && ImprovedMcus(sc, xs, curs, d.1)
            && d.0.s.stats == e.st.stats && d.0.p == e.p
            && NextMarker(d.0.s.d.src) == Read(m, tail)
  {
    hide GoodScan, GoodPred, EncodeMcus, DecodeMcus, Stream, CodableFrom, ImprovedMcus, PriorMcus, ResetStats,
         ResetPred;
    hide Written, NextMarker;
    var es := StartEncoder(tab, sc, interval, stats, p);
    EncoderWritesStream(tab, sc, interval, es, xs, m, tail);
    var data := Stream(tab, sc, interval, es.st.stats, es.p, 0, xs, m, tail);
    assert [] + data == data;
    StreamReads(tab, sc, interval, StartDecoder(tab, sc, interval, stats, p, data), es.st.stats, es.p, 0,
                xs, curs, m, tail);
  }
}
