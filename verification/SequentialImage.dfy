/** Sequential scripts: every component is sent once, with all of its coefficients.
    Whether the scans are coded arithmetically or with Huffman tables, decoding them one
    after the other gives back every real block. */
module SequentialImage {
  import opened Numbers
  import opened ProbabilityTable
  import opened ByteSource
  import opened Binarisation
  import opened AcBand
  import opened McuCoding
  import opened ScanCoding
  import opened Progression
  import Script = ScanScript
  import H = HuffItems
  import R = HuffReading
  import F = HuffFlush
  import T = HuffTwoPass

  // ---- Blocks that were sent, and blocks that were not ----

  /** Blocks of components not yet sent are zero; real blocks of the others are complete. */
  ghost predicate Stands(img: Image, cur: seq<Block>, done: seq<Script.ScanInfo>)
    requires GoodImage(img)
  {
    |cur| == |img.x| && forall b :: 0 <= b < |cur| ==> BlockStands(img, cur[b], b, done)
  }

  ghost predicate BlockStands(img: Image, blk: Block, b: nat, done: seq<Script.ScanInfo>)
    requires GoodImage(img) && b < |img.x|
  {
    && (!Script.Sent(done, img.comp[b]) ==> blk == ZeroBlock())
    && (b in img.inside && Script.Sent(done, img.comp[b]) ==> blk == img.x[b])
  }

  lemma SentSnoc(done: seq<Script.ScanInfo>, info: Script.ScanInfo, c: int)
    ensures Script.Sent(done + [info], c) <==> Script.Sent(done, c) || c in info.comps
  {
    var all := done + [info];
    if Script.Sent(done, c) {
      var i :| 0 <= i < |done| && c in done[i].comps;
      assert c in all[i].comps;
    }
    if c in info.comps {
      assert c in all[|done|].comps;
    }
  }

  /** A scan that brings its MCUs back. */
  lemma ScatterStands(img: Image, job: Job, cur: seq<Block>, done: seq<Script.ScanInfo>, outs: seq<Mcu>)
    requires GoodImage(img) && GoodJob(img, job) && Stands(img, cur, done) && outs == Gather(img.x, job.order)
    ensures |outs| == |job.order| && forall i :: 0 <= i < |job.order| ==> |outs[i]| == |job.order[i]|
    ensures Stands(img, Scatter(cur, job.order, outs), done + [job.info])
  {
    hide GoodScan, Scatter;
    forall b | 0 <= b < |cur|
      ensures BlockStands(img, Scatter(cur, job.order, outs)[b], b, done + [job.info])
    {
      assert BlockStands(img, cur[b], b, done);
      SentSnoc(done, job.info, img.comp[b]);
      hide Script.Sent;
      if Visits(job.order, b) {
        var i, j :| 0 <= i < |job.order| && 0 <= j < |job.order[i]| && job.order[i][j] == b;
        ScatterAt(cur, job.order, outs, b, i, j);
      } else {
        ScatterElsewhere(cur, job.order, outs, b);
      }
    }
  }

  lemma StartStands(img: Image)
    requires GoodImage(img)
    ensures Stands(img, Zeroed(|img.x|), [])
  {
  }

  // ---- Arithmetic coding ----

  /** The blocks of components not yet sent are zero, as the decoder wants them. */
  lemma UnsentPrior(img: Image, job: Job, cur: seq<Block>, done: seq<Script.ScanInfo>)
    requires GoodImage(img) && GoodJob(img, job) && job.sc.kind.Sequential? && Stands(img, cur, done)
    requires forall c :: c in job.info.comps ==> !Script.Sent(done, c)
    ensures PriorMcus(job.sc, Gather(img.x, job.order), Gather(cur, job.order))
  {
    hide GoodScan, Script.Sent, Distinct, Visits;
    var xs, curs := Gather(img.x, job.order), Gather(cur, job.order);
    forall i | 0 <= i < |xs| ensures PriorMcu(job.sc, xs[i], curs[i], 0) {
      forall j | 0 <= j < |xs[i]| ensures Prior(job.sc, xs[i][j], curs[i][j]) {
        var b := job.order[i][j];
        assert BlockStands(img, cur[b], b, done);
      }
    }
  }

  /** What a sequential scan leaves in its blocks is what was sent. */
  lemma ImprovedSame(sc: Scan, xs: seq<Mcu>, curs: seq<Mcu>, outs: seq<Mcu>)
    requires sc.kind.Sequential? && PriorMcus(sc, xs, curs) && ImprovedMcus(sc, xs, curs, outs)
    ensures outs == xs
  {
    forall i | 0 <= i < |xs| ensures outs[i] == xs[i] {
      assert PriorMcu(sc, xs[i], curs[i], 0) && Improved(sc, xs[i], curs[i], outs[i], 0);
      forall j | 0 <= j < |xs[i]| ensures outs[i][j] == xs[i][j] {
        assert Prior(sc, xs[i][j], curs[i][j]);
        assert outs[i][j] == Target(sc, xs[i][j], curs[i][j]);
      }
    }
  }

  lemma JobComesBack(tab: seq<nat>, stats: seq<byte>, img: Image, job: Job, cur: seq<Block>, done: seq<Script.ScanInfo>)
    requires ValidTable(tab) && |tab| > 0 && ValidStats(tab, stats) && |stats| == BINS
    requires GoodImage(img) && GoodJob(img, job) && CodableJob(img, job) && Stands(img, cur, done)
    requires Script.IsSequential(job.info) && forall c :: c in job.info.comps ==> !Script.Sent(done, c)
    ensures var e := EncodeJob(tab, stats, img, job);
            var d := DecodeJob(tab, stats, img, job, Written(tab, job.sc, e) + [0xFF, job.m] + job.tail, cur);
            && d.0.DecScan? && d.0.s.stats == e.st.stats
            && Stands(img, d.1, done + [job.info])
  {
    hide Prior, GoodScan, BlockStands, PriorMcus, ImprovedMcus, EncodeMcus, DecodeMcus, Written, CodableFrom, Scatter,
         ValidStats;
    hide StartEncoder, StartDecoder, Script.Sent;
    UnsentPrior(img, job, cur, done);
    assert StartEncoder(tab, job.sc, job.interval, stats, ZeroPred(job.sc)).p == ZeroPred(job.sc) by {
      StartPred(tab, job.sc, job.interval, stats);
    }
    ScanRoundTrip(tab, job.sc, job.interval, stats, ZeroPred(job.sc), Gather(img.x, job.order), Gather(cur, job.order),
                  job.m, job.tail);
    var e := EncodeJob(tab, stats, img, job);
    var data := Written(tab, job.sc, e) + [0xFF, job.m] + job.tail;
    var start := StartDecoder(tab, job.sc, job.interval, stats, ZeroPred(job.sc), data);
    var outs := DecodeMcus(tab, job.sc, job.interval, start, Gather(cur, job.order)).1;
    ImprovedSame(job.sc, Gather(img.x, job.order), Gather(cur, job.order), outs);
    ScatterStands(img, job, cur, done, outs);
  }

  lemma {:induction false} JobsComeBack(tab: seq<nat>, stats: seq<byte>, img: Image, jobs: seq<Job>, cur: seq<Block>,
                                        done: seq<Script.ScanInfo>, script: seq<Script.ScanInfo>, n: nat)
    requires ValidTable(tab) && |tab| > 0 && ValidStats(tab, stats) && |stats| == BINS
    requires GoodJobs(img, jobs) && Stands(img, cur, done) && script == done + Infos(jobs)
    requires forall i :: 0 <= i < |script| ==> Script.GoodSequential(script, i, n)
    ensures var r := RunJobs(tab, stats, stats, img, jobs, cur);
            r.Decoded? && |r.blocks| == |img.x| && Stands(img, r.blocks, script)
    decreases |jobs|
  {
    hide GoodJob, CodableJob, BlockStands, EncodeJob, DecodeJob, Written, GoodImage, ValidStats, Script.Sent;
    if jobs == [] {
      assert script == done;
    } else {
      var i := |done|;
      assert script[i] == jobs[0].info && script[..i] == done;
      assert Script.GoodSequential(script, i, n);
      JobComesBack(tab, stats, img, jobs[0], cur, done);
      var e := EncodeJob(tab, stats, img, jobs[0]);
      var d := DecodeJob(tab, stats, img, jobs[0], Written(tab, jobs[0].sc, e) + [0xFF, jobs[0].m] + jobs[0].tail, cur);
      assert done + [jobs[0].info] + Infos(jobs[1..]) == script;
      EncodedStats(tab, jobs[0].sc, e);
      JobsComeBack(tab, e.st.stats, img, jobs[1..], d.1, done + [jobs[0].info], script, n);
    }
  }

  /** Arithmetic coding under any script that validate_script accepts as sequential. */
  lemma SequentialExact(tab: seq<nat>, stats: seq<byte>, img: Image, jobs: seq<Job>, n: nat)
    requires ValidTable(tab) && |tab| > 0 && ValidStats(tab, stats) && |stats| == BINS
    requires GoodJobs(img, jobs) && Script.Sequential(Infos(jobs), n)
    ensures var r := RunJobs(tab, stats, stats, img, jobs, Zeroed(|img.x|));
            && r.Decoded? && |r.blocks| == |img.x|
            && forall b :: b in img.inside && img.comp[b] < n ==> r.blocks[b] == img.x[b]
  {
    hide GoodJob, CodableJob, RunJobs, ValidStats;
    StartStands(img);
    assert [] + Infos(jobs) == Infos(jobs);
    JobsComeBack(tab, stats, img, jobs, Zeroed(|img.x|), [], Infos(jobs), n);
    var r := RunJobs(tab, stats, stats, img, jobs, Zeroed(|img.x|));
    forall b | b in img.inside && img.comp[b] < n ensures r.blocks[b] == img.x[b] {
      assert BlockStands(img, r.blocks[b], b, Infos(jobs));
    }
  }

  // ---- Huffman coding ----

  /** One scan: what it is about, as for arithmetic coding, its Huffman tables, and the
      word size of the encoder. */
  datatype HuffJob = HuffJob(a: Job, codes: H.Codes, w: nat)

  function LayoutOf(sc: Scan): (hl: H.Layout) {
    H.Layout(sc.dcTbl, sc.acTbl, sc.membership)
  }

  ghost predicate GoodHuffJob(img: Image, job: HuffJob) {
    && GoodImage(img) && GoodJob(img, job.a) && H.GoodLayout(LayoutOf(job.a.sc)) && H.GoodCodes(job.codes)
    && (job.w == 32 || job.w == 64) && H.Shaped(LayoutOf(job.a.sc), Gather(img.x, job.a.order))
    && R.NameableScan(Gather(img.x, job.a.order)) && Serves(job, Gather(img.x, job.a.order))
  }

  /** The tables have a code for everything that is sent, and no flush loses bits. */
  ghost predicate Serves(job: HuffJob, mcus: seq<Mcu>)
    requires H.GoodLayout(LayoutOf(job.a.sc)) && H.GoodCodes(job.codes) && H.Shaped(LayoutOf(job.a.sc), mcus)
  {
    var hl, h := LayoutOf(job.a.sc), H.StartPlace(LayoutOf(job.a.sc), job.a.interval);
    && R.Readable(job.codes, H.ScanItems(hl, job.a.interval, h, mcus))
    && F.NothingLost(job.codes, job.w, hl, job.a.interval, h, H.Held([], 0), mcus)
  }

  /** The bytes that the encoder writes for the scan. */
  ghost function HuffEncode(img: Image, job: HuffJob): (s: seq<byte>)
    requires GoodHuffJob(img, job)
  {
    var hl := LayoutOf(job.a.sc);
    H.Written(job.codes, job.w, hl, job.a.interval, H.StartPlace(hl, job.a.interval), H.Held([], 0),
              Gather(img.x, job.a.order))
  }

  /** The blocks after the decoder has read the scan into cur. */
  ghost function HuffDecode(img: Image, job: HuffJob, s: seq<byte>, cur: seq<Block>): (r: Decoded)
    requires GoodHuffJob(img, job) && |cur| == |img.x|
    ensures r.Decoded? ==> |r.blocks| == |img.x|
  {
    var r := R.Decode(job.codes, LayoutOf(job.a.sc), job.a.interval, s, |job.a.order|);
    if r.BadScan? || |r.mcus| != |job.a.order| || exists i :: 0 <= i < |r.mcus| && |r.mcus[i]| != |job.a.order[i]|
      then Failed
    else Decoded(Scatter(cur, job.a.order, r.mcus))
  }

  lemma HuffJobComesBack(img: Image, job: HuffJob, cur: seq<Block>, done: seq<Script.ScanInfo>)
    requires GoodHuffJob(img, job) && Stands(img, cur, done)
    ensures var r := HuffDecode(img, job, HuffEncode(img, job), cur);
            r.Decoded? && Stands(img, r.blocks, done + [job.a.info])
  {
    var mcus := Gather(img.x, job.a.order);
    hide GoodJob, BlockStands, H.GoodLayout, H.GoodCodes, R.Readable, R.NameableScan, F.NothingLost, R.Decode,
         H.Written, Scatter, Gather, HuffDecode, Stands;
    T.ReadIfKept(job.codes, job.w, LayoutOf(job.a.sc), job.a.interval, mcus);
    ScatterStands(img, job.a, cur, done, mcus);
    hide GoodHuffJob, HuffEncode, Serves;
    ScatterDecoded(img, job, HuffEncode(img, job), cur, mcus);
  }

  lemma ScatterDecoded(img: Image, job: HuffJob, s: seq<byte>, cur: seq<Block>, mcus: seq<Mcu>)
    requires GoodHuffJob(img, job) && |cur| == |img.x| && |mcus| == |job.a.order|
    requires forall i :: 0 <= i < |mcus| ==> |mcus[i]| == |job.a.order[i]|
    requires R.Decode(job.codes, LayoutOf(job.a.sc), job.a.interval, s, |mcus|) == R.ScanOut(mcus)
    ensures HuffDecode(img, job, s, cur) == Decoded(Scatter(cur, job.a.order, mcus))
  {
    hide GoodJob, Serves, R.Decode, Scatter;
  }

  ghost predicate GoodHuffJobs(img: Image, jobs: seq<HuffJob>) {
    GoodImage(img) && forall i :: 0 <= i < |jobs| ==> GoodHuffJob(img, jobs[i])
  }

  function HuffInfos(jobs: seq<HuffJob>): (infos: seq<Script.ScanInfo>) {
    seq(|jobs|, i requires 0 <= i < |jobs| => jobs[i].a.info)
  }

  /** Code and decode scan after scan. */
  ghost function RunHuffJobs(img: Image, jobs: seq<HuffJob>, cur: seq<Block>): (r: Decoded)
    requires GoodHuffJobs(img, jobs) && |cur| == |img.x|
    decreases |jobs|
  {
    if jobs == [] then Decoded(cur)
    else
      var d := HuffDecode(img, jobs[0], HuffEncode(img, jobs[0]), cur);
      if d.Failed? then Failed else RunHuffJobs(img, jobs[1..], d.blocks)
  }

  lemma {:induction false} HuffJobsComeBack(img: Image, jobs: seq<HuffJob>, cur: seq<Block>, done: seq<Script.ScanInfo>)
    requires GoodHuffJobs(img, jobs) && Stands(img, cur, done)
    ensures var r := RunHuffJobs(img, jobs, cur);
            r.Decoded? && |r.blocks| == |img.x| && Stands(img, r.blocks, done + HuffInfos(jobs))
    decreases |jobs|
  {
    hide GoodHuffJob, BlockStands, HuffEncode, HuffDecode, GoodImage;
    if jobs == [] {
      assert done + HuffInfos(jobs) == done;
    } else {
      HuffJobComesBack(img, jobs[0], cur, done);
      var d := HuffDecode(img, jobs[0], HuffEncode(img, jobs[0]), cur);
      assert done + [jobs[0].a.info] + HuffInfos(jobs[1..]) == done + HuffInfos(jobs);
      HuffJobsComeBack(img, jobs[1..], d.blocks, done + [jobs[0].a.info]);
    }
  }

  /** Huffman coding under any script that validate_script accepts as sequential. */
  lemma HuffmanSequentialExact(img: Image, jobs: seq<HuffJob>, n: nat)
    requires GoodHuffJobs(img, jobs) && Script.Sequential(HuffInfos(jobs), n)
    ensures var r := RunHuffJobs(img, jobs, Zeroed(|img.x|));
            && r.Decoded? && |r.blocks| == |img.x|
            && forall b :: b in img.inside && img.comp[b] < n ==> r.blocks[b] == img.x[b]
  {
    hide GoodHuffJob, RunHuffJobs;
    StartStands(img);
    assert [] + HuffInfos(jobs) == HuffInfos(jobs);
    HuffJobsComeBack(img, jobs, Zeroed(|img.x|), []);
    var r := RunHuffJobs(img, jobs, Zeroed(|img.x|));
    forall b | b in img.inside && img.comp[b] < n ensures r.blocks[b] == img.x[b] {
      assert BlockStands(img, r.blocks[b], b, HuffInfos(jobs));
    }
  }
}
