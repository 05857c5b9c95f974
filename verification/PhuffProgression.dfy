/** Successive approximation with Huffman coding: the scans of an accepted progressive
    script, coded by jcphuff.c and decoded by jdphuff.c one after the other. */
module PhuffProgression {
  import opened Numbers
  import opened HuffItems
  import R = HuffReading
  import opened PhuffScan
  import A = Progression
  import M = McuCoding
  import P = PhuffItems
  import S = ScanCoding
  import Script = ScanScript

  /** One scan: what it is about, as for arithmetic coding, the scan as jcphuff.c has it,
      and its Huffman tables. */
  datatype Job = Job(a: A.Job, sc: P.Scan, codes: Codes)

  ghost predicate GoodJob(img: A.Image, job: Job) {
    && A.GoodImage(img) && A.GoodJob(img, job.a) && P.GoodScan(job.sc) && GoodCodes(job.codes)
    && job.a.sc == Effect(job.sc)
    && P.Shaped(job.sc, A.Gather(img.x, job.a.order)) && NameableScan(job.sc, A.Gather(img.x, job.a.order))
    && R.Readable(job.codes, P.ScanItems(job.sc, job.a.interval, P.StartProgress(job.sc, job.a.interval),
                                         A.Gather(img.x, job.a.order)))
  }

  /** The bytes of the scan. */
  ghost function Encode(img: A.Image, job: Job): (s: seq<byte>)
    requires GoodJob(img, job)
  {
    P.Stream(job.codes, job.sc, job.a.interval, P.StartProgress(job.sc, job.a.interval), [],
             A.Gather(img.x, job.a.order))
  }

  /** The blocks after the decoder has read the scan into cur; None when it is stuck. */
  ghost function Decode(img: A.Image, job: Job, s: seq<byte>, cur: seq<Block>): (r: A.Decoded)
    requires GoodJob(img, job) && |cur| == |img.x|
  {
    GatherShaped(img, job, cur);
    var r := DecodeScan(job.codes, job.sc, job.a.interval, s, A.Gather(cur, job.a.order));
    if r.BadScan? || |r.mcus| != |job.a.order| || exists i :: 0 <= i < |r.mcus| && |r.mcus[i]| != |job.a.order[i]|
      then A.Failed
    else A.Decoded(A.Scatter(cur, job.a.order, r.mcus))
  }

  lemma GatherShaped(img: A.Image, job: Job, cur: seq<Block>)
    requires GoodJob(img, job) && |cur| == |img.x|
    ensures forall i, j :: 0 <= i < |job.a.order| && 0 <= j < |job.a.order[i]| ==> job.a.order[i][j] < |cur|
    ensures P.Shaped(job.sc, A.Gather(cur, job.a.order))
  {
    hide R.Readable, NameableScan, P.GoodScan, A.Distinct;
    forall i | 0 <= i < |job.a.order| ensures |A.Gather(cur, job.a.order)[i]| == |job.sc.ly.membership| {
      assert |A.Gather(img.x, job.a.order)[i]| == |job.sc.ly.membership|;
    }
  }

  /** One scan of an accepted script, end to end. */
  lemma JobRoundTrip(img: A.Image, job: Job, cur: seq<Block>, done: seq<Script.ScanInfo>)
    requires GoodJob(img, job) && A.Holds(img, cur, done) && |cur| == |img.x|
    requires Script.MayFollow(done, job.a.info) && Script.GoodBounds(job.a.info)
    ensures var r := Decode(img, job, Encode(img, job), cur);
            r.Decoded? && A.Holds(img, r.blocks, done + [job.a.info]) && |r.blocks| == |img.x|
  {
    hide A.Holds, M.Prior, M.GoodScan, P.GoodScan, A.Scatter, R.Readable, NameableScan, DecodeScan, P.Stream, Effect,
         S.PriorMcus, S.ImprovedMcus, A.GoodJob, P.Shaped;
    A.JobPrior(img, job.a, cur, done);
    GatherShaped(img, job, cur);
    PhuffScanRoundTrip(job.codes, job.sc, job.a.interval, A.Gather(img.x, job.a.order), A.Gather(cur, job.a.order));
    A.JobImproves(img, job.a, cur, done,
                  DecodeScan(job.codes, job.sc, job.a.interval, Encode(img, job), A.Gather(cur, job.a.order)).mcus);
  }

  ghost predicate GoodJobs(img: A.Image, jobs: seq<Job>) {
    A.GoodImage(img) && forall i :: 0 <= i < |jobs| ==> GoodJob(img, jobs[i])
  }

  function Infos(jobs: seq<Job>): (infos: seq<Script.ScanInfo>) {
    seq(|jobs|, i requires 0 <= i < |jobs| => jobs[i].a.info)
  }

  /** Code and decode scan after scan. */
  ghost function RunJobs(img: A.Image, jobs: seq<Job>, cur: seq<Block>): (r: A.Decoded)
    requires GoodJobs(img, jobs) && |cur| == |img.x|
    decreases |jobs|
  {
    if jobs == [] then A.Decoded(cur)
    else
      var d := Decode(img, jobs[0], Encode(img, jobs[0]), cur);
      if d.Failed? || |d.blocks| != |img.x| then A.Failed else RunJobs(img, jobs[1..], d.blocks)
  }

  lemma {:induction false} ScriptExact(img: A.Image, jobs: seq<Job>, cur: seq<Block>, done: seq<Script.ScanInfo>,
                                       script: seq<Script.ScanInfo>, n: nat)
    requires GoodJobs(img, jobs) && A.Holds(img, cur, done) && |cur| == |img.x|
    requires script == done + Infos(jobs)
    requires forall i :: 0 <= i < |script| ==> Script.GoodProgressive(script, i, n)
    ensures var r := RunJobs(img, jobs, cur);
            r.Decoded? && |r.blocks| == |img.x| && A.Holds(img, r.blocks, script)
    decreases |jobs|
  {
    hide GoodJob, A.Holds, Encode, Decode, A.GoodImage, Script.MayFollow, Script.GoodBounds;
    if jobs == [] {
      assert script == done;
    } else {
      var i := |done|;
      assert script[i] == jobs[0].a.info && script[..i] == done;
      assert Script.GoodProgressive(script, i, n);
      JobRoundTrip(img, jobs[0], cur, done);
      var d := Decode(img, jobs[0], Encode(img, jobs[0]), cur);
      assert done + [jobs[0].a.info] + Infos(jobs[1..]) == script;
      ScriptExact(img, jobs[1..], d.blocks, done + [jobs[0].a.info], script, n);
    }
  }

  /** Successive approximation is exact with Huffman coding too: under any script that
      validate_script accepts as progressive, for all images and restart intervals and
      all tables with a code for what the scans send, decoding the scans one after the
      other from zeroed blocks yields each coefficient to exactly the bit position that
      the script reached. */
  lemma HuffmanSuccessiveApproximation(img: A.Image, jobs: seq<Job>, n: nat)
    requires GoodJobs(img, jobs) && Script.Progressive(Infos(jobs), n)
    ensures var r := RunJobs(img, jobs, A.Zeroed(|img.x|));
            && r.Decoded? && |r.blocks| == |img.x|
            && forall b, k :: b in img.inside && 0 <= k < DCTSIZE2 ==>
                 && r.blocks[b][k] == A.Approx(img.x[b][k], k, Script.LastPos(Infos(jobs), img.comp[b], k))
                 && (Script.LastPos(Infos(jobs), img.comp[b], k) == 0 ==> r.blocks[b][k] == img.x[b][k])
  {
    hide GoodJob, RunJobs;
    var start := A.Zeroed(|img.x|);
    assert [] + Infos(jobs) == Infos(jobs);
    ScriptExact(img, jobs, start, [], Infos(jobs), n);
    var r := RunJobs(img, jobs, start);
    forall b, k | b in img.inside && 0 <= k < DCTSIZE2
      ensures r.blocks[b][k] == A.Approx(img.x[b][k], k, Script.LastPos(Infos(jobs), img.comp[b], k))
      ensures Script.LastPos(Infos(jobs), img.comp[b], k) == 0 ==> r.blocks[b][k] == img.x[b][k]
    {
      assert A.BlockHolds(img.x[b], r.blocks[b], img.comp[b], Infos(jobs));
      A.ApproxExact(img.x[b][k], k);
    }
  }
}
