/** A whole image coded with Huffman tables: for every frame of initial_setup, under every
    sequential or complete progressive script, decoding the scans gives back the
    coefficients of all real blocks. */
module HuffmanImage {
  import opened Numbers
  import H = HuffItems
  import opened LosslessImage
  import opened SequentialImage
  import A = Progression
  import B = AcBand
  import D = PhuffScan
  import J = PhuffProgression
  import M = McuCoding
  import G = McuGeometry
  import P = PhuffItems
  import R = HuffReading
  import Bin = Binarisation
  import Script = ScanScript

  // ---- Tables and sizes ----

  /** The table numbers of each component. There are four tables of each kind, and the
      conditioning values of arithmetic coding play no part. */
  function Numbered(dc: seq<nat>, ac: seq<nat>): (t: Tables) {
    Tables(dc, ac, Unused(), Unused(), Unused())
  }

  function Unused(): (z: seq<nat>) { seq(Bin.NUM_ARITH_TBLS, t => 0) }

  predicate HuffTables(dc: seq<nat>, ac: seq<nat>, n: nat) {
    |dc| == |ac| == n && forall c :: 0 <= c < n ==> dc[c] < H.NUM_HUFF_TBLS && ac[c] < H.NUM_HUFF_TBLS
  }

  lemma HuffTablesGood(dc: seq<nat>, ac: seq<nat>, n: nat)
    requires HuffTables(dc, ac, n)
    ensures GoodTables(Numbered(dc, ac), n)
  {
  }

  /** Magnitudes of 14 bits have a category that a symbol can name. */
  lemma SmallNameable(v: int)
    requires Abs(v) <= 0x4000
    ensures H.NBits(Abs(v)) < 16
  {
    Pow2Values();
    Pow2Twice(15);
    if H.NBits(Abs(v)) >= 16 {
      Pow2Mono(15, H.NBits(Abs(v)) - 1);
    }
  }

  lemma ShiftNameable(b: B.Block, al: nat, k: nat)
    requires k < DCTSIZE2 && Abs(b[k]) <= 0x4000
    ensures H.NBits(Abs(M.ShiftBlock(b, al)[k])) < 16
  {
    M.DivShrinks(Abs(b[k]), Pow2(al));
    hide H.NBits, Pow2;
    SmallNameable(M.ShiftBlock(b, al)[k]);
  }

  // ---- One scan ----

  /** What the frame, the script entry and the table numbers make of a scan. */
  ghost predicate ScanSetup(ly: Layout, x: seq<B.Block>, info: Script.ScanInfo, s: G.Scan, dc: seq<nat>, ac: seq<nat>,
                            e: Rest) {
    && GoodLayout(ly) && |x| == ly.size && SmallBlocks(x) && GoodSetup(ly, info, s) && InFrame(info, |ly.f.comps|)
    && HuffTables(dc, ac, |ly.f.comps|) && GoodSelection(info) && e.m != 0 && e.m != 0xFF
  }

  ghost function ScanJob(ly: Layout, x: seq<B.Block>, info: Script.ScanInfo, s: G.Scan, dc: seq<nat>, ac: seq<nat>,
                         e: Rest): (job: A.Job)
    requires ScanSetup(ly, x, info, s, dc, ac, e)
  {
    HuffTablesGood(dc, ac, |ly.f.comps|);
    JobOf(ly, info, s, Numbered(dc, ac), e)
  }

  lemma ScanJobGood(ly: Layout, x: seq<B.Block>, info: Script.ScanInfo, s: G.Scan, dc: seq<nat>, ac: seq<nat>, e: Rest)
    requires ScanSetup(ly, x, info, s, dc, ac, e)
    ensures var img, job := ImageOf(ly, x), ScanJob(ly, x, info, s, dc, ac, e);
            && A.GoodImage(img) && A.GoodJob(img, job) && H.GoodLayout(LayoutOf(job.sc))
            && H.Shaped(LayoutOf(job.sc), A.Gather(x, job.order)) && R.NameableScan(A.Gather(x, job.order))
  {
    var n := |ly.f.comps|;
    HuffTablesGood(dc, ac, n);
    var img, job := ImageOf(ly, x), ScanJob(ly, x, info, s, dc, ac, e);
    JobGood(ly, x, info, s, Numbered(dc, ac), e);
    LayoutGood(ly, info, s, dc, ac);
    hide GoodLayout, GoodSetup, OrderOf, G.Membership, A.Distinct, A.Visits, H.GoodLayout;
    var mcus := A.Gather(x, job.order);
    forall i | 0 <= i < |mcus| ensures |mcus[i]| == |job.sc.membership| && R.NameableMcu(mcus[i]) {
      forall j | 0 <= j < |mcus[i]| ensures R.Nameable(mcus[i][j]) {
        var b := job.order[i][j];
        assert mcus[i][j] == x[b];
        forall k | 1 <= k < DCTSIZE2 ensures H.NBits(Abs(x[b][k])) < 16 {
          SmallNameable(x[b][k]);
        }
      }
    }
  }

  lemma LayoutGood(ly: Layout, info: Script.ScanInfo, s: G.Scan, dc: seq<nat>, ac: seq<nat>)
    requires GoodSetup(ly, info, s) && InFrame(info, |ly.f.comps|) && HuffTables(dc, ac, |ly.f.comps|)
             && GoodSelection(info)
    requires GoodTables(Numbered(dc, ac), |ly.f.comps|)
    ensures H.GoodLayout(LayoutOf(ScanOf(info, s, Numbered(dc, ac), |ly.f.comps|)))
  {
    ScanGood(ly, info, s, Numbered(dc, ac));
    hide G.Membership, G.GoodScan;
  }

  // ---- Whole scripts ----

  /** The table numbers of the components, restart interval, and the tables of each scan. */
  datatype Choice = Choice(dc: seq<nat>, ac: seq<nat>, e: Rest, codes: seq<H.Codes>)

  ghost predicate ScriptSetup(ly: Layout, x: seq<B.Block>, script: seq<Script.ScanInfo>, setups: seq<G.Scan>,
                              c: Choice) {
    && GoodLayout(ly) && |x| == ly.size && SmallBlocks(x) && GoodSetups(ly, script, setups) && GoodSelections(script)
    && HuffTables(c.dc, c.ac, |ly.f.comps|) && c.e.m != 0 && c.e.m != 0xFF && |c.codes| == |script|
    && forall i :: 0 <= i < |script| ==> H.GoodCodes(c.codes[i])
  }

  lemma EachScan(ly: Layout, x: seq<B.Block>, script: seq<Script.ScanInfo>, setups: seq<G.Scan>, c: Choice, i: nat)
    requires ScriptSetup(ly, x, script, setups, c) && i < |script|
    ensures ScanSetup(ly, x, script[i], setups[i], c.dc, c.ac, c.e) && H.GoodCodes(c.codes[i])
  {
    hide GoodLayout, SmallBlocks, GoodSetup, HuffTables, H.GoodCodes;
  }

  // ---- Sequential scripts ----

  ghost function ScanOfScript(ly: Layout, x: seq<B.Block>, script: seq<Script.ScanInfo>, setups: seq<G.Scan>, c: Choice,
                              w: nat, i: nat):
      (job: HuffJob)
    requires ScriptSetup(ly, x, script, setups, c) && i < |script|
  {
    EachScan(ly, x, script, setups, c, i);
    HuffJob(ScanJob(ly, x, script[i], setups[i], c.dc, c.ac, c.e), c.codes[i], w)
  }

  /** The tables have codes for what scan i sends, and no flush of it loses bits. */
  ghost predicate ScanServed(ly: Layout, x: seq<B.Block>, script: seq<Script.ScanInfo>, setups: seq<G.Scan>, c: Choice,
                             w: nat, i: nat)
    requires ScriptSetup(ly, x, script, setups, c) && i < |script|
  {
    EachScan(ly, x, script, setups, c, i);
    ScanJobGood(ly, x, script[i], setups[i], c.dc, c.ac, c.e);
    var job := ScanOfScript(ly, x, script, setups, c, w, i);
    Serves(job, A.Gather(x, job.a.order))
  }

  ghost function ScriptJobs(ly: Layout, x: seq<B.Block>, script: seq<Script.ScanInfo>, setups: seq<G.Scan>, c: Choice,
                            w: nat):
      (jobs: seq<HuffJob>)
    requires ScriptSetup(ly, x, script, setups, c)
  {
    seq(|script|, i requires 0 <= i < |script| => ScanOfScript(ly, x, script, setups, c, w, i))
  }

  lemma ScriptJobsGood(ly: Layout, x: seq<B.Block>, script: seq<Script.ScanInfo>, setups: seq<G.Scan>, c: Choice,
                       w: nat)
    requires ScriptSetup(ly, x, script, setups, c) && (w == 32 || w == 64)
    requires forall i :: 0 <= i < |script| ==> ScanServed(ly, x, script, setups, c, w, i)
    ensures GoodHuffJobs(ImageOf(ly, x), ScriptJobs(ly, x, script, setups, c, w))
    ensures HuffInfos(ScriptJobs(ly, x, script, setups, c, w)) == script
  {
    var img, jobs := ImageOf(ly, x), ScriptJobs(ly, x, script, setups, c, w);
    EmptyGood(ly, x);
    forall i | 0 <= i < |jobs| ensures GoodHuffJob(img, jobs[i]) && jobs[i].a.info == script[i] {
      EachScan(ly, x, script, setups, c, i);
      hide ScriptSetup, H.GoodCodes, Serves, A.GoodJob, H.GoodLayout, ScanSetup, R.NameableScan;
      ScanJobGood(ly, x, script[i], setups[i], c.dc, c.ac, c.e);
      assert ScanServed(ly, x, script, setups, c, w, i);
    }
    hide GoodHuffJob, ScriptSetup, ScanServed;
    assert HuffInfos(jobs) == script;
  }

  /** For every script that is not progressive, every frame with any sampling factors,
      restart interval and word size, and all tables with a code for what the scans send:
      if no flush loses bits, the bytes that the encoder writes give back every
      coefficient of every real block. */
  lemma SequentialHuffmanIsLossless(ly: Layout, x: seq<B.Block>, script: seq<Script.ScanInfo>, setups: seq<G.Scan>,
                                    c: Choice, w: nat)
    requires ScriptSetup(ly, x, script, setups, c) && Script.Sequential(script, |ly.f.comps|) && (w == 32 || w == 64)
    requires forall i :: 0 <= i < |script| ==> ScanServed(ly, x, script, setups, c, w, i)
    ensures GoodHuffJobs(ImageOf(ly, x), ScriptJobs(ly, x, script, setups, c, w))
    ensures var r := RunHuffJobs(ImageOf(ly, x), ScriptJobs(ly, x, script, setups, c, w), A.Zeroed(|x|));
            r.Decoded? && Restored(ly, x, r.blocks)
  {
    ScriptJobsGood(ly, x, script, setups, c, w);
    hide ScriptSetup, ScanServed, Script.Sequential, ScriptJobs, GoodHuffJobs, RunHuffJobs;
    var img, jobs := ImageOf(ly, x), ScriptJobs(ly, x, script, setups, c, w);
    HuffmanSequentialExact(img, jobs, |ly.f.comps|);
    hide ImageOf, GoodLayout, Restored;
    SentRestores(ly, x, RunHuffJobs(img, jobs, A.Zeroed(|x|)).blocks);
  }

  // ---- Progressive scripts ----

  function PhuffKind(kind: M.Kind): (k: P.Kind)
    requires !kind.Sequential?
  {
    match kind
    case DcFirst => P.DcFirst
    case AcFirst => P.AcFirst
    case DcRefine => P.DcRefine
    case AcRefine => P.AcRefine
  }

  /** The scan as jcphuff.c has it. */
  function PhuffOf(sc: M.Scan): (p: P.Scan)
    requires !sc.kind.Sequential?
  {
    P.Scan(PhuffKind(sc.kind), LayoutOf(sc), sc.ss, sc.se, sc.al)
  }

  lemma PhuffEffect(sc: M.Scan)
    requires !sc.kind.Sequential? && sc.lower == sc.upper == sc.kx == Unused()
    ensures D.Effect(PhuffOf(sc)) == sc
  {
  }

  lemma PhuffJobGood(ly: Layout, x: seq<B.Block>, info: Script.ScanInfo, s: G.Scan, dc: seq<nat>, ac: seq<nat>, e: Rest)
    requires ScanSetup(ly, x, info, s, dc, ac, e) && Script.GoodBounds(info)
    ensures var img, job := ImageOf(ly, x), ScanJob(ly, x, info, s, dc, ac, e);
            && A.GoodImage(img) && A.GoodJob(img, job) && !job.sc.kind.Sequential?
            && P.GoodScan(PhuffOf(job.sc)) && D.Effect(PhuffOf(job.sc)) == job.sc
            && P.Shaped(PhuffOf(job.sc), A.Gather(x, job.order))
            && D.NameableScan(PhuffOf(job.sc), A.Gather(x, job.order))
  {
    ScanJobGood(ly, x, info, s, dc, ac, e);
    if info.ss > 0 {
      OneBlock(ly, info, s);
    }
    var job := ScanJob(ly, x, info, s, dc, ac, e);
    PhuffEffect(job.sc);
    hide GoodLayout, GoodSetup, OrderOf, G.Membership, A.Distinct, A.Visits, H.GoodLayout, R.NameableScan;
    var sc, mcus := PhuffOf(job.sc), A.Gather(x, job.order);
    forall i | 0 <= i < |mcus| ensures D.Nameable(sc, mcus[i]) {
      if sc.kind.AcFirst? {
        assert mcus[i][0] == x[job.order[i][0]];
        forall k | sc.ss <= k <= sc.se ensures H.NBits(Abs(M.ShiftBlock(mcus[i][0], sc.al)[k])) < 16 {
          ShiftNameable(mcus[i][0], sc.al, k);
        }
      }
    }
  }

  /** An AC scan has one block to an MCU. */
  lemma OneBlock(ly: Layout, info: Script.ScanInfo, s: G.Scan)
    requires GoodSetup(ly, info, s) && |info.comps| == 1
    ensures G.Membership(s.comps, |s.comps|) == [0]
  {
    assert G.Membership(s.comps, 0) == [];
  }

  ghost predicate ProgressiveSetup(ly: Layout, x: seq<B.Block>, script: seq<Script.ScanInfo>, setups: seq<G.Scan>,
                                   c: Choice) {
    ScriptSetup(ly, x, script, setups, c) && Script.Progressive(script, |ly.f.comps|)
  }

  lemma EachPhuffScan(ly: Layout, x: seq<B.Block>, script: seq<Script.ScanInfo>, setups: seq<G.Scan>, c: Choice, i: nat)
    requires ProgressiveSetup(ly, x, script, setups, c) && i < |script|
    ensures ScanSetup(ly, x, script[i], setups[i], c.dc, c.ac, c.e) && H.GoodCodes(c.codes[i])
    ensures Script.GoodBounds(script[i])
  {
    assert Script.GoodProgressive(script, i, |ly.f.comps|);
    hide ScriptSetup, ScanSetup;
    EachScan(ly, x, script, setups, c, i);
  }

  ghost function PhuffScanOf(ly: Layout, x: seq<B.Block>, script: seq<Script.ScanInfo>, setups: seq<G.Scan>, c: Choice,
                             i: nat):
      (job: J.Job)
    requires ProgressiveSetup(ly, x, script, setups, c) && i < |script|
  {
    EachPhuffScan(ly, x, script, setups, c, i);
    PhuffJobGood(ly, x, script[i], setups[i], c.dc, c.ac, c.e);
    var a := ScanJob(ly, x, script[i], setups[i], c.dc, c.ac, c.e);
    J.Job(a, PhuffOf(a.sc), c.codes[i])
  }

  /** The tables have codes for what scan i sends. */
  ghost predicate PhuffServed(ly: Layout, x: seq<B.Block>, script: seq<Script.ScanInfo>, setups: seq<G.Scan>, c: Choice,
                              i: nat)
    requires ProgressiveSetup(ly, x, script, setups, c) && i < |script|
  {
    EachPhuffScan(ly, x, script, setups, c, i);
    PhuffJobGood(ly, x, script[i], setups[i], c.dc, c.ac, c.e);
    var job := PhuffScanOf(ly, x, script, setups, c, i);
    R.Readable(job.codes, P.ScanItems(job.sc, job.a.interval, P.StartProgress(job.sc, job.a.interval),
                                      A.Gather(x, job.a.order)))
  }

  ghost function PhuffJobs(ly: Layout, x: seq<B.Block>, script: seq<Script.ScanInfo>, setups: seq<G.Scan>,
                           c: Choice): (jobs: seq<J.Job>)
    requires ProgressiveSetup(ly, x, script, setups, c)
  {
    seq(|script|, i requires 0 <= i < |script| => PhuffScanOf(ly, x, script, setups, c, i))
  }

  lemma PhuffJobsGood(ly: Layout, x: seq<B.Block>, script: seq<Script.ScanInfo>, setups: seq<G.Scan>, c: Choice)
    requires ProgressiveSetup(ly, x, script, setups, c)
    requires forall i :: 0 <= i < |script| ==> PhuffServed(ly, x, script, setups, c, i)
    ensures J.GoodJobs(ImageOf(ly, x), PhuffJobs(ly, x, script, setups, c))
    ensures J.Infos(PhuffJobs(ly, x, script, setups, c)) == script
  {
    var img, jobs := ImageOf(ly, x), PhuffJobs(ly, x, script, setups, c);
    EmptyGood(ly, x);
    forall i | 0 <= i < |jobs| ensures J.GoodJob(img, jobs[i]) && jobs[i].a.info == script[i] {
      EachPhuffScan(ly, x, script, setups, c, i);
      hide ProgressiveSetup, H.GoodCodes, R.Readable, A.GoodJob, P.GoodScan, ScanSetup, D.NameableScan, PhuffOf,
           D.Effect;
      PhuffJobGood(ly, x, script[i], setups[i], c.dc, c.ac, c.e);
      assert PhuffServed(ly, x, script, setups, c, i);
    }
    hide J.GoodJob, ProgressiveSetup, PhuffServed;
    assert J.Infos(jobs) == script;
  }

  /** For every complete progressive script, every frame with any sampling factors and
      restart interval, and all tables with a code for what the scans send: the bytes of
      the scans give back every coefficient of every real block. */
  lemma ProgressiveHuffmanIsLossless(ly: Layout, x: seq<B.Block>, script: seq<Script.ScanInfo>, setups: seq<G.Scan>,
                                     c: Choice)
    requires ProgressiveSetup(ly, x, script, setups, c) && Completes(script, |ly.f.comps|)
    requires forall i :: 0 <= i < |script| ==> PhuffServed(ly, x, script, setups, c, i)
    ensures J.GoodJobs(ImageOf(ly, x), PhuffJobs(ly, x, script, setups, c))
    ensures var r := J.RunJobs(ImageOf(ly, x), PhuffJobs(ly, x, script, setups, c), A.Zeroed(|x|));
            r.Decoded? && Restored(ly, x, r.blocks)
  {
    PhuffJobsGood(ly, x, script, setups, c);
    hide ScriptSetup, PhuffServed, Script.Progressive, PhuffJobs, J.GoodJobs, J.RunJobs;
    var img, jobs := ImageOf(ly, x), PhuffJobs(ly, x, script, setups, c);
    J.HuffmanSuccessiveApproximation(img, jobs, |ly.f.comps|);
    hide ImageOf, GoodLayout, Restored, Completes, A.Approx, Script.LastPos;
    CompletesRestore(ly, x, script, J.RunJobs(img, jobs, A.Zeroed(|x|)).blocks);
  }
}
