/** Successive approximation over a whole script: every scan of an accepted
    progressive script, coded and decoded arithmetically, leaves each coefficient
    at exactly the precision that the script has reached. */
module Progression {
  import opened Numbers
  import opened ProbabilityTable
  import opened ByteSource
  import opened Binarisation
  import opened AcBand
  import opened McuCoding
  import opened ScanCoding
  import Script = ScanScript

  /** All blocks of an image (dummy padding blocks included), the component of
      each, and which of them are visited by every scan of their component. */
  datatype Image = Image(x: seq<Block>, comp: seq<nat>, inside: set<nat>)

  ghost predicate GoodImage(img: Image) {
    && |img.comp| == |img.x|
    && forall b :: b in img.inside ==> b < |img.x|
  }

  /** One scan: its script entry, the tables and conditioning it is coded with,
      the restart interval, the blocks of its MCUs in order, and what follows it. */
  datatype Job = Job(info: Script.ScanInfo, sc: Scan, interval: nat, order: seq<seq<nat>>, m: byte, tail: seq<byte>)

  /** The routine that start_pass selects from progressive_mode, Ss and Ah: a script that
      sends all coefficients at once is not progressive. */
  function KindOf(info: Script.ScanInfo): Kind {
    if info.ss == 0 && info.se == DCTSIZE2 - 1 then Sequential
    else if info.ah == 0 then (if info.ss == 0 then DcFirst else AcFirst)
    else (if info.ss == 0 then DcRefine else AcRefine)
  }

  ghost predicate Visits(order: seq<seq<nat>>, b: nat) {
    exists i, j :: 0 <= i < |order| && 0 <= j < |order[i]| && order[i][j] == b
  }

  ghost predicate Distinct(order: seq<seq<nat>>) {
    forall i, j, i2, j2 ::
      (0 <= i < |order| && 0 <= j < |order[i]| && 0 <= i2 < |order| && 0 <= j2 < |order[i2]|
       && order[i][j] == order[i2][j2]) ==> i == i2 && j == j2
  }

  /** The geometry of a scan: each MCU has one block per membership entry, of the
      right component, no block comes twice, all real blocks of the scan's
      components come, and AC scans visit nothing else. */
  ghost predicate GoodOrder(img: Image, job: Job)
    requires GoodImage(img)
  {
    && (forall i :: 0 <= i < |job.order| ==> |job.order[i]| == |job.sc.membership|)
    && (forall i, j :: 0 <= i < |job.order| && 0 <= j < |job.order[i]| ==>
          job.order[i][j] < |img.x| && img.comp[job.order[i][j]] in job.info.comps)
    && Distinct(job.order)
    && (forall b :: b in img.inside && img.comp[b] in job.info.comps ==> Visits(job.order, b))
    && (job.info.ss > 0 ==> forall i, j :: 0 <= i < |job.order| && 0 <= j < |job.order[i]| ==>
          job.order[i][j] in img.inside)
  }

  ghost predicate GoodJob(img: Image, job: Job) {
    && GoodImage(img) && GoodScan(job.sc) && GoodOrder(img, job)
    && job.sc.kind == KindOf(job.info)
    && 0 <= job.info.ss <= job.info.se < DCTSIZE2 && job.info.al >= 0
    && job.sc.ss == job.info.ss && job.sc.se == job.info.se && job.sc.al == job.info.al
    && job.m != 0 && job.m != 0xFF
  }

  // ---- Moving blocks between the image and the MCUs ----

  function GatherMcu(blocks: seq<Block>, ids: seq<nat>): (mcu: Mcu)
    requires forall j :: 0 <= j < |ids| ==> ids[j] < |blocks|
  {
    seq(|ids|, j requires 0 <= j < |ids| => blocks[ids[j]])
  }

  function Gather(blocks: seq<Block>, order: seq<seq<nat>>): (mcus: seq<Mcu>)
    requires forall i, j :: 0 <= i < |order| && 0 <= j < |order[i]| ==> order[i][j] < |blocks|
  {
    seq(|order|, i requires 0 <= i < |order| => GatherMcu(blocks, order[i]))
  }

  /** The blocks after the decoder has written its MCUs back. */
  ghost function Scatter(blocks: seq<Block>, order: seq<seq<nat>>, outs: seq<Mcu>): (r: seq<Block>)
    requires |outs| == |order| && forall i :: 0 <= i < |order| ==> |outs[i]| == |order[i]|
    ensures |r| == |blocks|
  {
    seq(|blocks|, b requires 0 <= b < |blocks| =>
      if Visits(order, b) then
        var i, j :| 0 <= i < |order| && 0 <= j < |order[i]| && order[i][j] == b;
        outs[i][j]
      else blocks[b])
  }

  // ---- What a block holds at a given point of the script ----

  /** Coefficient k sent down to bit position pos (-1: not yet sent). */
  function Approx(x: int, k: nat, pos: int): int {
    if pos < 0 then 0
    else if k == 0 then DcShift(x, pos) * Pow2(pos)
    else AcShift(x, pos) * Pow2(pos)
  }

  lemma ApproxExact(x: int, k: nat)
    ensures Approx(x, k, 0) == x
  {
    assert Pow2(0) == 1;
  }

  /** Every real block holds what the scans so far have sent of it. */
  ghost predicate Holds(img: Image, cur: seq<Block>, done: seq<Script.ScanInfo>)
    requires GoodImage(img)
  {
    && |cur| == |img.x|
    && forall b :: b in img.inside ==> BlockHolds(img.x[b], cur[b], img.comp[b], done)
  }

  ghost predicate BlockHolds(x: Block, cur: Block, comp: int, done: seq<Script.ScanInfo>) {
    forall k :: 0 <= k < DCTSIZE2 ==> cur[k] == Approx(x[k], k, Script.LastPos(done, comp, k))
  }

  /** A block that holds what was sent is ready for the next scan ... */
  lemma HoldsIsPrior(job: Job, x: Block, cur: Block, comp: int, done: seq<Script.ScanInfo>)
    requires BlockHolds(x, cur, comp, done)
    requires comp in job.info.comps && Script.MayFollow(done, job.info) && Script.GoodBounds(job.info)
    requires job.sc.kind == KindOf(job.info)
    requires job.sc.ss == job.info.ss && job.sc.se == job.info.se && job.sc.al == job.info.al
    ensures Prior(job.sc, x, cur)
  {
    hide DcShift, AcShift, Pow2;
    assert Script.CompMayFollow(done, job.info, comp, job.info.se + 1);
    forall k | job.info.ss <= k <= job.info.se
      ensures Script.GoodStep(job.info, Script.LastPos(done, comp, k))
      ensures cur[k] == Approx(x[k], k, Script.LastPos(done, comp, k))
    {
    }
  }

  /** ... and its target is what has been sent afterwards. */
  lemma TargetHolds(job: Job, x: Block, cur: Block, comp: int, done: seq<Script.ScanInfo>)
    requires BlockHolds(x, cur, comp, done)
    requires comp in job.info.comps && Script.GoodBounds(job.info)
    requires job.sc.kind == KindOf(job.info)
    requires job.sc.ss == job.info.ss && job.sc.se == job.info.se && job.sc.al == job.info.al
    ensures BlockHolds(x, Target(job.sc, x, cur), comp, done + [job.info])
  {
    hide DcShift, AcShift, Pow2, Script.LastPos;
    var t := Target(job.sc, x, cur);
    forall k | 0 <= k < DCTSIZE2
      ensures t[k] == Approx(x[k], k, Script.LastPos(done + [job.info], comp, k))
    {
      Script.LastPosSnoc(done, job.info, comp, k);
    }
  }

  lemma UntouchedHolds(info: Script.ScanInfo, x: Block, cur: Block, comp: int, done: seq<Script.ScanInfo>)
    requires BlockHolds(x, cur, comp, done) && comp !in info.comps
    ensures BlockHolds(x, cur, comp, done + [info])
  {
    hide Approx, Script.LastPos;
    forall k | 0 <= k < DCTSIZE2
      ensures cur[k] == Approx(x[k], k, Script.LastPos(done + [info], comp, k))
    {
      Script.LastPosSnoc(done, info, comp, k);
    }
  }

  // ---- One scan ----

  /** The encoder's side of a scan: final state, and all that the decoder will see. */
  ghost function EncodeJob(tab: seq<nat>, stats: seq<byte>, img: Image, job: Job): (r: EncScan)
    requires ValidTable(tab) && |tab| > 0 && ValidStats(tab, stats) && |stats| == BINS
    requires GoodImage(img) && GoodJob(img, job) && CodableJob(img, job)
    ensures GoodEnc(tab, job.sc, r)
  {
    EncodeMcus(tab, job.sc, job.interval,
               StartEncoder(tab, job.sc, job.interval, stats, ZeroPred(job.sc)), Gather(img.x, job.order))
  }

  ghost predicate CodableJob(img: Image, job: Job)
    requires GoodImage(img) && GoodJob(img, job)
  {
    CodableFrom(job.sc, job.interval, ZeroPred(job.sc), job.interval, Gather(img.x, job.order))
  }

  /** The decoder's side: it has its own statistics and its own blocks. */
  ghost function DecodeJob(tab: seq<nat>, stats: seq<byte>, img: Image, job: Job, data: seq<byte>,
                           cur: seq<Block>): (r: (DecScan, seq<Block>))
    requires ValidTable(tab) && |tab| > 0 && ValidStats(tab, stats) && |stats| == BINS
    requires GoodImage(img) && GoodJob(img, job) && |cur| == |img.x|
    ensures GoodDec(tab, job.sc, r.0) && |r.1| == |img.x|
  {
    var start := StartDecoder(tab, job.sc, job.interval, stats, ZeroPred(job.sc), data);
    var d := DecodeMcus(tab, job.sc, job.interval, start, Gather(cur, job.order));
    (d.0, if forall i :: 0 <= i < |job.order| ==> |d.1[i]| == |job.order[i]| then Scatter(cur, job.order, d.1) else cur)
  }

  /** Before the scan, the visited blocks are ready for it. */
  lemma JobPrior(img: Image, job: Job, cur: seq<Block>, done: seq<Script.ScanInfo>)
    requires GoodImage(img) && GoodJob(img, job) && Holds(img, cur, done)
    requires Script.MayFollow(done, job.info) && Script.GoodBounds(job.info)
    ensures PriorMcus(job.sc, Gather(img.x, job.order), Gather(cur, job.order))
    ensures forall b :: b in img.inside && img.comp[b] in job.info.comps ==> Prior(job.sc, img.x[b], cur[b])
  {
    hide Prior, BlockHolds, GoodScan;
    forall b | b in img.inside && img.comp[b] in job.info.comps
      ensures Prior(job.sc, img.x[b], cur[b])
    {
      HoldsIsPrior(job, img.x[b], cur[b], img.comp[b], done);
    }
    var xs, curs := Gather(img.x, job.order), Gather(cur, job.order);
    forall i | 0 <= i < |xs|
      ensures PriorMcu(job.sc, xs[i], curs[i], 0)
    {
      forall j | 0 <= j < |xs[i]|
        ensures job.sc.kind.DcRefine? || Prior(job.sc, xs[i][j], curs[i][j])
      {
        var b := job.order[i][j];
        if job.info.ss > 0 {
          assert b in img.inside;
        } else {
          DcFirstNeedsNothing(job.sc, xs[i][j], curs[i][j]);
        }
      }
    }
  }

  lemma DcFirstNeedsNothing(sc: Scan, x: Block, cur: Block)
    ensures sc.kind.DcFirst? ==> Prior(sc, x, cur)
  {
  }

  /** After it, the written-back blocks hold one scan more. */
  lemma JobImproves(img: Image, job: Job, cur: seq<Block>, done: seq<Script.ScanInfo>, outs: seq<Mcu>)
    requires GoodImage(img) && GoodJob(img, job) && Holds(img, cur, done) && Script.GoodBounds(job.info)
    requires forall b :: b in img.inside && img.comp[b] in job.info.comps ==> Prior(job.sc, img.x[b], cur[b])
    requires ImprovedMcus(job.sc, Gather(img.x, job.order), Gather(cur, job.order), outs)
    ensures |outs| == |job.order| && forall i :: 0 <= i < |job.order| ==> |outs[i]| == |job.order[i]|
    ensures Holds(img, Scatter(cur, job.order, outs), done + [job.info])
  {
    hide Prior, BlockHolds, GoodScan, Target, Scatter;
    var xs, curs := Gather(img.x, job.order), Gather(cur, job.order);
    forall i | 0 <= i < |job.order|
      ensures Improved(job.sc, xs[i], curs[i], outs[i], 0) && |outs[i]| == |job.order[i]|
    {
    }
    forall b | b in img.inside
      ensures BlockHolds(img.x[b], Scatter(cur, job.order, outs)[b], img.comp[b], done + [job.info])
    {
      if img.comp[b] in job.info.comps {
        var i, j :| 0 <= i < |job.order| && 0 <= j < |job.order[i]| && job.order[i][j] == b;
        ScatterAt(cur, job.order, outs, b, i, j);
        assert outs[i][j] == Target(job.sc, xs[i][j], curs[i][j]);
        TargetHolds(job, img.x[b], cur[b], img.comp[b], done);
      } else {
        assert !Visits(job.order, b);
        ScatterElsewhere(cur, job.order, outs, b);
        UntouchedHolds(job.info, img.x[b], cur[b], img.comp[b], done);
      }
    }
  }

  lemma ScatterAt(blocks: seq<Block>, order: seq<seq<nat>>, outs: seq<Mcu>, b: nat, i: nat, j: nat)
    requires |outs| == |order| && forall i :: 0 <= i < |order| ==> |outs[i]| == |order[i]|
    requires Distinct(order)
    requires b < |blocks| && i < |order| && j < |order[i]| && order[i][j] == b
    ensures Scatter(blocks, order, outs)[b] == outs[i][j]
  {
    assert Visits(order, b);
  }

  lemma ScatterElsewhere(blocks: seq<Block>, order: seq<seq<nat>>, outs: seq<Mcu>, b: nat)
    requires |outs| == |order| && forall i :: 0 <= i < |order| ==> |outs[i]| == |order[i]|
    requires b < |blocks| && !Visits(order, b)
    ensures Scatter(blocks, order, outs)[b] == blocks[b]
  {
  }

  /** One scan of an accepted script, end to end. */
  lemma JobRoundTrip(tab: seq<nat>, stats: seq<byte>, img: Image, job: Job, cur: seq<Block>, done: seq<Script.ScanInfo>)
    requires ValidTable(tab) && |tab| > 0 && ValidStats(tab, stats) && |stats| == BINS
    requires GoodImage(img) && GoodJob(img, job) && CodableJob(img, job) && Holds(img, cur, done)
    requires Script.MayFollow(done, job.info) && Script.GoodBounds(job.info)
    ensures var e := EncodeJob(tab, stats, img, job);
            var d := DecodeJob(tab, stats, img, job, Written(tab, job.sc, e) + [0xFF, job.m] + job.tail, cur);
            && d.0.DecScan? && d.0.s.stats == e.st.stats
            && Holds(img, d.1, done + [job.info])
  {
    hide Prior, GoodScan, Holds, PriorMcus, ImprovedMcus, EncodeMcus, DecodeMcus, Written, CodableFrom, Scatter,
         ValidStats;
    hide StartEncoder, StartDecoder;
    assert |cur| == |img.x| by { HoldsLength(img, cur, done); }
    JobPrior(img, job, cur, done);
    assert StartEncoder(tab, job.sc, job.interval, stats, ZeroPred(job.sc)).p == ZeroPred(job.sc) by {
      StartPred(tab, job.sc, job.interval, stats);
    }
    ScanRoundTrip(tab, job.sc, job.interval, stats, ZeroPred(job.sc), Gather(img.x, job.order), Gather(cur, job.order),
                  job.m, job.tail);
    var e := EncodeJob(tab, stats, img, job);
    var data := Written(tab, job.sc, e) + [0xFF, job.m] + job.tail;
    var start := StartDecoder(tab, job.sc, job.interval, stats, ZeroPred(job.sc), data);
    JobImproves(img, job, cur, done, DecodeMcus(tab, job.sc, job.interval, start, Gather(cur, job.order)).1);
  }

  lemma HoldsLength(img: Image, cur: seq<Block>, done: seq<Script.ScanInfo>)
    requires GoodImage(img) && Holds(img, cur, done)
    ensures |cur| == |img.x|
  {
  }

  lemma StartPred(tab: seq<nat>, sc: Scan, interval: nat, stats: seq<byte>)
    requires ValidTable(tab) && |tab| > 0 && ValidStats(tab, stats) && |stats| == BINS && GoodScan(sc)
    ensures GoodPred(sc, ZeroPred(sc)) && StartEncoder(tab, sc, interval, stats, ZeroPred(sc)).p == ZeroPred(sc)
  {
  }

  // ---- The whole script ----

  ghost predicate GoodJobs(img: Image, jobs: seq<Job>) {
    && GoodImage(img)
    && forall i :: 0 <= i < |jobs| ==> GoodJob(img, jobs[i]) && CodableJob(img, jobs[i])
  }

  function Infos(jobs: seq<Job>): (infos: seq<Script.ScanInfo>) {
    seq(|jobs|, i requires 0 <= i < |jobs| => jobs[i].info)
  }

  /** Code and decode scan after scan, the encoder starting each scan with the
      statistics `stats`, the decoder with `dstats` and the blocks `cur`; None when
      the decoder loses the stream. */
  datatype Decoded = Failed | Decoded(blocks: seq<Block>)

  ghost function RunJobs(tab: seq<nat>, stats: seq<byte>, dstats: seq<byte>, img: Image, jobs: seq<Job>,
                         cur: seq<Block>): (r: Decoded)
    requires ValidTable(tab) && |tab| > 0 && ValidStats(tab, stats) && |stats| == BINS
    requires ValidStats(tab, dstats) && |dstats| == BINS && GoodJobs(img, jobs) && |cur| == |img.x|
    decreases |jobs|
  {
    if jobs == [] then Decoded(cur)
    else
      var e := EncodeJob(tab, stats, img, jobs[0]);
      var d := DecodeJob(tab, dstats, img, jobs[0], Written(tab, jobs[0].sc, e) + [0xFF, jobs[0].m] + jobs[0].tail,
                         cur);
      if d.0.Lost? then Failed else RunJobs(tab, e.st.stats, d.0.s.stats, img, jobs[1..], d.1)
  }

  lemma {:induction false} ScriptExact(tab: seq<nat>, stats: seq<byte>, img: Image, jobs: seq<Job>, cur: seq<Block>,
                                       done: seq<Script.ScanInfo>, script: seq<Script.ScanInfo>, n: nat)
    requires ValidTable(tab) && |tab| > 0 && ValidStats(tab, stats) && |stats| == BINS
    requires GoodJobs(img, jobs) && Holds(img, cur, done) && |cur| == |img.x|
    requires script == done + Infos(jobs)
    requires forall i :: 0 <= i < |script| ==> Script.GoodProgressive(script, i, n)
    ensures var r := RunJobs(tab, stats, stats, img, jobs, cur);
            r.Decoded? && |r.blocks| == |img.x| && Holds(img, r.blocks, script)
    decreases |jobs|
  {
    hide GoodJob, CodableJob, Holds, EncodeJob, DecodeJob, Written, GoodImage, ValidStats, Script.MayFollow,
         Script.GoodBounds;
    if jobs == [] {
      assert script == done;
    } else {
      var i := |done|;
      assert script[i] == jobs[0].info && script[..i] == done;
      assert Script.GoodProgressive(script, i, n);
      JobRoundTrip(tab, stats, img, jobs[0], cur, done);
      var e := EncodeJob(tab, stats, img, jobs[0]);
      var d := DecodeJob(tab, stats, img, jobs[0], Written(tab, jobs[0].sc, e) + [0xFF, jobs[0].m] + jobs[0].tail, cur);
      assert done + [jobs[0].info] + Infos(jobs[1..]) == script;
      EncodedStats(tab, jobs[0].sc, e);
      ScriptExact(tab, e.st.stats, img, jobs[1..], d.1, done + [jobs[0].info], script, n);
    }
  }

  lemma EncodedStats(tab: seq<nat>, sc: Scan, e: EncScan)
    requires GoodEnc(tab, sc, e)
    ensures ValidStats(tab, e.st.stats) && |e.st.stats| == BINS && ValidTable(tab)
  {
  }

  function Zeroed(n: nat): (x: seq<Block>) {
    seq(n, b => ZeroBlock())
  }

  /** Successive approximation is exact: under any script that validate_script
      accepts as progressive, for all images, tables, conditioning parameters and
      restart intervals, decoding the scans one after the other from zeroed blocks
      yields each coefficient of each block to exactly the bit position that the
      script reached, hence exactly once that position is 0. */
  lemma SuccessiveApproximation(tab: seq<nat>, stats: seq<byte>, img: Image, jobs: seq<Job>, n: nat)
    requires ValidTable(tab) && |tab| > 0 && ValidStats(tab, stats) && |stats| == BINS
    requires GoodJobs(img, jobs) && Script.Progressive(Infos(jobs), n)
    ensures var r := RunJobs(tab, stats, stats, img, jobs, Zeroed(|img.x|));
            && r.Decoded? && |r.blocks| == |img.x|
            && forall b, k :: b in img.inside && 0 <= k < DCTSIZE2 ==>
                 && r.blocks[b][k] == Approx(img.x[b][k], k, Script.LastPos(Infos(jobs), img.comp[b], k))
                 && (Script.LastPos(Infos(jobs), img.comp[b], k) == 0 ==> r.blocks[b][k] == img.x[b][k])
  {
    hide GoodJob, CodableJob, RunJobs, ValidStats;
    var start := Zeroed(|img.x|);
    assert [] + Infos(jobs) == Infos(jobs);
    ScriptExact(tab, stats, img, jobs, start, [], Infos(jobs), n);
    var r := RunJobs(tab, stats, stats, img, jobs, start);
    forall b, k | b in img.inside && 0 <= k < DCTSIZE2
      ensures r.blocks[b][k] == Approx(img.x[b][k], k, Script.LastPos(Infos(jobs), img.comp[b], k))
      ensures Script.LastPos(Infos(jobs), img.comp[b], k) == 0 ==> r.blocks[b][k] == img.x[b][k]
    {
      assert BlockHolds(img.x[b], r.blocks[b], img.comp[b], Infos(jobs));
      ApproxExact(img.x[b][k], k);
    }
  }

  // ---- Which images can be coded ----

  ghost predicate Small(mcus: seq<Mcu>) {
    forall i, j, k :: 0 <= i < |mcus| && 0 <= j < |mcus[i]| && 0 <= k < DCTSIZE2 ==> Abs(mcus[i][j][k]) <= 0x4000
  }

  ghost predicate SmallPred(p: Pred) {
    forall c :: 0 <= c < |p.last| ==> Abs(p.last[c]) <= 0x4000
  }

  lemma {:induction false} SmallMcu(sc: Scan, p: Pred, i: nat, xs: Mcu)
    requires GoodScan(sc) && GoodPred(sc, p) && i <= |sc.membership| == |xs| && SmallPred(p)
    requires forall j, k :: 0 <= j < |xs| && 0 <= k < DCTSIZE2 ==> Abs(xs[j][k]) <= 0x4000
    ensures CodableMcu(sc, p, i, xs) && SmallPred(McuPred(sc, p, i, xs))
    decreases |xs| - i
  {
    hide DcContext, DcShift;
    if i < |xs| {
      DcShiftBounded(xs[i][0], sc.al, 0x4000);
      SmallMcu(sc, NextPred(sc, p, i, xs[i]), i + 1, xs);
    }
  }

  /** Coefficients of at most 14 bits can always be coded, whatever the scan. */
  lemma {:induction false} SmallIsCodable(sc: Scan, interval: nat, p: Pred, togo: nat, mcus: seq<Mcu>)
    requires GoodScan(sc) && GoodPred(sc, p) && SmallPred(p) && ShapedMcus(sc, mcus) && Small(mcus)
    ensures CodableFrom(sc, interval, p, togo, mcus)
    decreases |mcus|
  {
    hide CodableMcu, McuPred, GoodScan;
    if mcus != [] {
      var restart := interval > 0 && togo == 0;
      var q := if restart then ResetPred(sc, p) else p;
      var t := if restart then interval else togo;
      SmallMcu(sc, q, 0, mcus[0]);
      SmallIsCodable(sc, interval, McuPred(sc, q, 0, mcus[0]), if interval > 0 then t - 1 else t, mcus[1..]);
    }
  }
}
