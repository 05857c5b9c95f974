/** The passes of a compression: the master control of jcmaster.c and the loop of
    jpeg_finish_compress in jcapimin.c. */
module PassControl {
  import opened ScanScript

  datatype PassType = MainPass | HuffOptPass | OutputPass

  /** What a pass does: gather Huffman statistics for a scan, or write the scan. */
  datatype Pass = Gather(scan: nat) | Write(scan: nat)

  // ---- The passes that a compression must make ----

  /** A DC refinement scan sends raw bits and needs no Huffman table. */
  predicate NeedsTable(sc: ScanInfo) {
    sc.ss != 0 || sc.ah == 0
  }

  /** The passes for scan k; a full compression gathers for scan 0 in any case. */
  function ScanPasses(scans: seq<ScanInfo>, optimize: bool, transcode: bool, k: nat): (s: seq<Pass>)
    requires k < |scans|
  {
    if optimize && (NeedsTable(scans[k]) || (k == 0 && !transcode)) then [Gather(k), Write(k)] else [Write(k)]
  }

  /** The passes for the first n scans. */
  function Passes(scans: seq<ScanInfo>, optimize: bool, transcode: bool, n: nat): (s: seq<Pass>)
    requires n <= |scans|
  {
    if n == 0 then []
    else Passes(scans, optimize, transcode, n - 1) + ScanPasses(scans, optimize, transcode, n - 1)
  }

  /** The scans that are written, in order. */
  function Written(passes: seq<Pass>): (s: seq<nat>) {
    if passes == [] then []
    else
      var last := passes[|passes| - 1];
      Written(passes[..|passes| - 1]) + if last.Write? then [last.scan] else []
  }

  function Upto(n: nat): (s: seq<nat>)
    ensures |s| == n && forall i :: 0 <= i < n ==> s[i] == i
  {
    seq(n, i => i)
  }

  lemma WrittenSnoc(passes: seq<Pass>, p: Pass)
    ensures Written(passes + [p]) == Written(passes) + if p.Write? then [p.scan] else []
  {
    assert (passes + [p])[..|passes|] == passes;
  }

  lemma UptoSnoc(n: nat)
    ensures Upto(n + 1) == Upto(n) + [n]
  {
  }

  lemma WrittenScan(scans: seq<ScanInfo>, optimize: bool, transcode: bool, k: nat, before: seq<Pass>)
    requires k < |scans|
    ensures Written(before + ScanPasses(scans, optimize, transcode, k)) == Written(before) + [k]
  {
    hide Written;
    WrittenSnoc(before, Write(k));
    WrittenSnoc(before, Gather(k));
    WrittenSnoc(before + [Gather(k)], Write(k));
    assert before + [Gather(k), Write(k)] == before + [Gather(k)] + [Write(k)];
  }

  /** Every scan is written exactly once, in the order of the script. */
  lemma {:induction false} EveryScanIsWritten(scans: seq<ScanInfo>, optimize: bool, transcode: bool, n: nat)
    requires n <= |scans|
    ensures Written(Passes(scans, optimize, transcode, n)) == Upto(n)
  {
    hide Upto, ScanPasses;
    if n > 0 {
      EveryScanIsWritten(scans, optimize, transcode, n - 1);
      UptoSnoc(n - 1);
      WrittenScan(scans, optimize, transcode, n - 1, Passes(scans, optimize, transcode, n - 1));
    }
  }

  /** Pass i stands at the right place: a gathering pass is followed by writing the same
      scan; and a scan is written straight after gathering for it exactly if Huffman
      tables are optimised and the scan uses any, which only the refinement of DC values
      does not, or is the first of a full compression. */
  ghost predicate WellPlaced(scans: seq<ScanInfo>, optimize: bool, transcode: bool, passes: seq<Pass>, i: nat)
    requires i < |passes|
  {
    var p := passes[i];
    && p.scan < |scans|
    && var sc := scans[p.scan];
       var gathered := optimize && (!(sc.ss == 0 && sc.ah != 0) || (p.scan == 0 && !transcode));
       if p.Gather? then gathered && i + 1 < |passes| && passes[i + 1] == Write(p.scan)
       else gathered <==> i > 0 && passes[i - 1] == Gather(p.scan)
  }

  lemma {:induction false} LastScan(scans: seq<ScanInfo>, optimize: bool, transcode: bool, n: nat)
    requires n <= |scans|
    ensures forall i :: 0 <= i < |Passes(scans, optimize, transcode, n)|
              ==> Passes(scans, optimize, transcode, n)[i].scan < n
  {
    if n > 0 {
      LastScan(scans, optimize, transcode, n - 1);
    }
  }

  lemma {:induction false} GatheredFirst(scans: seq<ScanInfo>, optimize: bool, transcode: bool, n: nat, i: nat)
    requires n <= |scans| && i < |Passes(scans, optimize, transcode, n)|
    ensures WellPlaced(scans, optimize, transcode, Passes(scans, optimize, transcode, n), i)
  {
    LastScan(scans, optimize, transcode, n - 1);
    var before := Passes(scans, optimize, transcode, n - 1);
    if i < |before| {
      GatheredFirst(scans, optimize, transcode, n - 1, i);
    }
  }

  // ---- The master ----

  class Master {
    const scans: seq<ScanInfo>
    const optimize: bool
    const arith: bool
    const transcode: bool
    const totalPasses: nat

    var passType: PassType
    var scanNumber: nat
    var passNumber: nat
    var isLastPass: bool
    var selected: nat         // the scan whose parameters are in cinfo
    var started: seq<Pass>    // what the entropy coder has been started for

    ghost predicate Fixed()
      reads this
    {
      && scans != [] && totalPasses == (if optimize then 2 * |scans| else |scans|)
      && scanNumber <= |scans| && !(optimize && arith)
    }

    /** No pass is in progress. */
    ghost predicate Between()
      reads this
    {
      && Fixed()
      && (isLastPass <==> scanNumber == |scans|)
      && (match passType
          case MainPass => !transcode && scanNumber == passNumber == 0 && started == []
          case HuffOptPass =>
            && optimize && passNumber == 2 * scanNumber && (transcode || scanNumber > 0)
            && started == Passes(scans, optimize, transcode, scanNumber)
          case OutputPass =>
            if optimize then
              && scanNumber < |scans| && passNumber == 2 * scanNumber + 1 && selected == scanNumber
              && started == Passes(scans, optimize, transcode, scanNumber) + [Gather(scanNumber)]
              && ScanPasses(scans, optimize, transcode, scanNumber) == [Gather(scanNumber), Write(scanNumber)]
            else passNumber == scanNumber && started == Passes(scans, optimize, transcode, scanNumber))
    }

    /** A pass is in progress; its scan is scanNumber, and its parameters are set up. */
    ghost predicate Running()
      reads this
    {
      && Fixed() && scanNumber < |scans| && selected == scanNumber
      && (isLastPass <==> passNumber == totalPasses - 1)
      && var before := Passes(scans, optimize, transcode, scanNumber);
         match passType
         case MainPass =>
           && !transcode && scanNumber == passNumber == 0
           && started == before + [if optimize then Gather(0) else Write(0)]
         case HuffOptPass =>
           && optimize && passNumber == 2 * scanNumber && started == before + [Gather(scanNumber)]
           && ScanPasses(scans, optimize, transcode, scanNumber) == [Gather(scanNumber), Write(scanNumber)]
         case OutputPass =>
           && passNumber == (if optimize then 2 * scanNumber + 1 else scanNumber)
           && started == before + ScanPasses(scans, optimize, transcode, scanNumber)
    }

    /** jinit_c_master_control, after the script has been validated. */
    constructor (scans: seq<ScanInfo>, optimize: bool, arith: bool, transcode: bool, progressive: bool)
      requires scans != []
      ensures this.scans == scans && this.arith == arith && this.transcode == transcode
      ensures this.optimize == (optimize || (progressive && !arith))
      ensures fresh(this) && !(this.optimize && arith) ==> Between()
      ensures passNumber == 0 && started == [] && !isLastPass
      ensures passType == (if !transcode then MainPass else if this.optimize then HuffOptPass else OutputPass)
    {
      this.scans, this.arith, this.transcode := scans, arith, transcode;
      var opt := optimize || (progressive && !arith);
      this.optimize := opt;
      isLastPass := false;
      if transcode {
        passType := if opt then HuffOptPass else OutputPass;
      } else {
        passType := MainPass;
      }
      scanNumber, passNumber, selected, started := 0, 0, 0, [];
      totalPasses := if opt then |scans| * 2 else |scans|;
    }

    /** prepare_for_pass: select the scan and start the entropy coder. The arithmetic
        encoder's start_pass refuses to gather statistics. */
    method PrepareForPass() returns (ok: bool)
      requires if optimize && arith then !passType.OutputPass? else Between() && scanNumber < |scans|
      modifies this
      ensures ok <==> !(optimize && arith)
      ensures ok ==> Running() && scanNumber == old(scanNumber)
      ensures ok ==> old(passNumber) <= passNumber
      ensures ok ==> exists p :: started == old(started) + [p] && p.scan == selected
    {
      match passType {
        case MainPass =>
          selected := scanNumber;
          ok := StartEntropy(optimize);
        case HuffOptPass =>
          selected := scanNumber;
          if optimize && arith {
            return false;
          }
          assert Passes(scans, optimize, transcode, scanNumber) == started;
          if scans[selected].ss != 0 || scans[selected].ah == 0 || arith {
            ok := StartEntropy(true);
          } else {
            passType := OutputPass;
            passNumber := passNumber + 1;
            ok := StartEntropy(false);
          }
        case OutputPass =>
          if !optimize {
            selected := scanNumber;
          }
          ok := StartEntropy(false);
      }
      isLastPass := passNumber == totalPasses - 1;
    }

    /** The entropy coder's start_pass. */
    method StartEntropy(gather: bool) returns (ok: bool)
      modifies `started
      ensures ok <==> !(gather && arith)
      ensures started == if ok then old(started) + [if gather then Gather(selected) else Write(selected)]
              else old(started)
    {
      if gather && arith {
        return false;
      }
      started := started + [if gather then Gather(selected) else Write(selected)];
      ok := true;
    }

    /** finish_pass_master. */
    method FinishPass()
      requires Running()
      modifies this
      ensures Between() && started == old(started)
      ensures passNumber == old(passNumber) + 1 && isLastPass == old(isLastPass)
    {
      match passType {
        case MainPass =>
          passType := OutputPass;
          if !optimize {
            scanNumber := scanNumber + 1;
          }
        case HuffOptPass =>
          passType := OutputPass;
        case OutputPass =>
          if optimize {
            passType := HuffOptPass;
          }
          scanNumber := scanNumber + 1;
      }
      passNumber := passNumber + 1;
    }

    /** jpeg_finish_compress: end the first pass unless transcoding, then perform the
        remaining passes. It succeeds unless Huffman optimisation was asked of the
        arithmetic coder, and then it has made exactly the passes it must make. */
    method FinishCompress() returns (ok: bool)
      requires if transcode then
                 if optimize && arith then passType.HuffOptPass? && !isLastPass else Between() && !isLastPass
               else Running()
      modifies this
      ensures ok <==> !(optimize && arith)
      ensures ok ==> started == Passes(scans, optimize, transcode, |scans|) && passNumber == totalPasses
    {
      if !transcode {
        FinishPass();
      }
      ok := true;
      while !isLastPass
        invariant if optimize && arith then passType.HuffOptPass? && !isLastPass else Between()
        decreases totalPasses - passNumber
      {
        ok := PrepareForPass();
        if !ok {
          return;
        }
        FinishPass();
      }
    }
  }

  /** A whole compression, from jpeg_start_compress (or jpeg_write_coefficients) to
      jpeg_finish_compress. */
  method Compress(scans: seq<ScanInfo>, optimize: bool, arith: bool, transcode: bool, progressive: bool)
    returns (ok: bool, passes: seq<Pass>)
    requires scans != []
    ensures ok <==> !(optimize && arith)
    ensures ok ==> passes == Passes(scans, optimize || (progressive && !arith), transcode, |scans|)
  {
    var master := new Master(scans, optimize, arith, transcode, progressive);
    passes := [];
    ok := true;
    if !transcode {
      ok := master.PrepareForPass();
    }
    if ok {
      ok := master.FinishCompress();
      passes := master.started;
    }
  }
}
