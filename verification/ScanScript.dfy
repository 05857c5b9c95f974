/** Scan scripts: validate_script of jcmaster.c against a declarative reading of
    what a legal script is. */
module ScanScript {
  import opened Numbers

  const MAX_AH_AL := 10

  /** One entry of scan_info[]. */
  datatype ScanInfo = ScanInfo(comps: seq<int>, ss: int, se: int, ah: int, al: int)

  datatype Verdict = Accepted(progressive: bool) | Rejected

  ghost predicate Covers(sc: ScanInfo, c: int, k: int) {
    c in sc.comps && sc.ss <= k <= sc.se
  }

  /** The Al of the latest scan that sends coefficient k of component c; -1 if none. */
  ghost function LastPos(scans: seq<ScanInfo>, c: int, k: int): (pos: int) {
    if scans == [] then -1
    else
      var sc := scans[|scans| - 1];
      if Covers(sc, c, k) then sc.al else LastPos(scans[..|scans| - 1], c, k)
  }

  /** The components of a scan exist and appear in frame order. */
  ghost predicate GoodComps(sc: ScanInfo, n: nat) {
    && 1 <= |sc.comps| <= MAX_COMPS_IN_SCAN
    && (forall i :: 0 <= i < |sc.comps| ==> 0 <= sc.comps[i] < n)
    && (forall i :: 0 < i < |sc.comps| ==> sc.comps[i - 1] < sc.comps[i])
  }

  ghost predicate IsSequential(sc: ScanInfo) {
    sc.ss == 0 && sc.se == DCTSIZE2 - 1
  }

  ghost predicate GoodBounds(sc: ScanInfo) {
    && 0 <= sc.ss <= sc.se < DCTSIZE2 && 0 <= sc.ah <= MAX_AH_AL && 0 <= sc.al <= MAX_AH_AL
    && (if sc.ss == 0 then sc.se == 0 else |sc.comps| == 1)
  }

  /** A coefficient is sent for the first time with Ah == 0, and afterwards one
      bit position at a time, starting from where the previous scan left it. */
  ghost predicate GoodStep(sc: ScanInfo, pos: int) {
    if pos < 0 then sc.ah == 0 else sc.ah == pos && sc.al == sc.ah - 1
  }

  /** A scan may follow the scans before it: DC before AC, and every coefficient
      that it sends takes its next step. */
  ghost predicate MayFollow(before: seq<ScanInfo>, sc: ScanInfo) {
    forall c :: c in sc.comps ==> CompMayFollow(before, sc, c, sc.se + 1)
  }

  ghost predicate CompMayFollow(before: seq<ScanInfo>, sc: ScanInfo, c: int, k: int) {
    && (sc.ss != 0 ==> LastPos(before, c, 0) >= 0)
    && forall j :: sc.ss <= j < k ==> GoodStep(sc, LastPos(before, c, j))
  }

  ghost predicate GoodProgressive(scans: seq<ScanInfo>, i: int, n: nat)
    requires 0 <= i < |scans|
  {
    GoodComps(scans[i], n) && GoodBounds(scans[i]) && MayFollow(scans[..i], scans[i])
  }

  ghost predicate Progressive(scans: seq<ScanInfo>, n: nat) {
    && scans != [] && !IsSequential(scans[0])
    && (forall i :: 0 <= i < |scans| ==> GoodProgressive(scans, i, n))
    && (forall c :: 0 <= c < n ==> LastPos(scans, c, 0) >= 0)
  }

  /** A component already sent by an earlier scan. */
  ghost predicate Sent(scans: seq<ScanInfo>, c: int) {
    exists i :: 0 <= i < |scans| && c in scans[i].comps
  }

  ghost predicate GoodSequential(scans: seq<ScanInfo>, i: int, n: nat)
    requires 0 <= i < |scans|
  {
    var sc := scans[i];
    && GoodComps(sc, n) && IsSequential(sc) && sc.ah == 0 && sc.al == 0
    && forall c :: c in sc.comps ==> !Sent(scans[..i], c)
  }

  ghost predicate Sequential(scans: seq<ScanInfo>, n: nat) {
    && scans != []
    && (forall i :: 0 <= i < |scans| ==> GoodSequential(scans, i, n))
    && (forall c :: 0 <= c < n ==> Sent(scans, c))
  }

  // ---- The loops of validate_script ----

  /** "Validate component indexes". */
  method CheckComps(sc: ScanInfo, n: nat) returns (ok: bool)
    ensures ok <==> GoodComps(sc, n)
  {
    if |sc.comps| <= 0 || |sc.comps| > MAX_COMPS_IN_SCAN {
      return false;
    }
    for ci := 0 to |sc.comps|
      invariant forall i :: 0 <= i < ci ==> 0 <= sc.comps[i] < n
      invariant forall i :: 0 < i < ci ==> sc.comps[i - 1] < sc.comps[i]
    {
      if sc.comps[ci] < 0 || sc.comps[ci] >= n {
        return false;
      }
      if ci > 0 && sc.comps[ci] <= sc.comps[ci - 1] {
        return false;
      }
    }
    ok := true;
  }

  lemma LastPosSnoc(before: seq<ScanInfo>, sc: ScanInfo, c: int, k: int)
    ensures LastPos(before + [sc], c, k) == if Covers(sc, c, k) then sc.al else LastPos(before, c, k)
  {
    assert (before + [sc])[..|before|] == before;
  }

  /** One component of a progressive scan: check and advance last_bitpos. */
  method CheckProgression(ghost before: seq<ScanInfo>, sc: ScanInfo, c: int, last: array2<int>) returns (ok: bool)
    requires GoodBounds(sc) && 0 <= c < last.Length0 && last.Length1 == DCTSIZE2
    requires forall k :: 0 <= k < DCTSIZE2 ==> last[c, k] == LastPos(before, c, k)
    modifies last
    ensures ok <==> CompMayFollow(before, sc, c, sc.se + 1)
    ensures ok ==> forall k :: 0 <= k < DCTSIZE2 ==>
              last[c, k] == if sc.ss <= k <= sc.se then sc.al else LastPos(before, c, k)
    ensures forall d, k :: 0 <= d < last.Length0 && d != c && 0 <= k < DCTSIZE2 ==> last[d, k] == old(last[d, k])
  {
    if sc.ss != 0 && last[c, 0] < 0 {
      return false;
    }
    for coefi := sc.ss to sc.se + 1
      invariant CompMayFollow(before, sc, c, coefi)
      invariant forall k :: 0 <= k < DCTSIZE2 ==>
                  last[c, k] == if sc.ss <= k < coefi then sc.al else LastPos(before, c, k)
      invariant forall d, k :: 0 <= d < last.Length0 && d != c && 0 <= k < DCTSIZE2 ==> last[d, k] == old(last[d, k])
    {
      if last[c, coefi] < 0 {
        if sc.ah != 0 {
          assert !GoodStep(sc, LastPos(before, c, coefi));
          return false;
        }
      } else if sc.ah != last[c, coefi] || sc.al != sc.ah - 1 {
        assert !GoodStep(sc, LastPos(before, c, coefi));
        return false;
      }
      last[c, coefi] := sc.al;
    }
    ok := true;
  }

  /** The progression parameters of a whole scan. */
  method CheckProgressiveScan(ghost before: seq<ScanInfo>, sc: ScanInfo, n: nat, last: array2<int>) returns (ok: bool)
    requires GoodComps(sc, n) && last.Length0 == n && last.Length1 == DCTSIZE2
    requires forall c, k :: 0 <= c < n && 0 <= k < DCTSIZE2 ==> last[c, k] == LastPos(before, c, k)
    modifies last
    ensures ok <==> GoodBounds(sc) && MayFollow(before, sc)
    ensures ok ==> forall c, k :: 0 <= c < n && 0 <= k < DCTSIZE2 ==> last[c, k] == LastPos(before + [sc], c, k)
  {
    if sc.ss < 0 || sc.ss >= DCTSIZE2 || sc.se < sc.ss || sc.se >= DCTSIZE2 ||
       sc.ah < 0 || sc.ah > MAX_AH_AL || sc.al < 0 || sc.al > MAX_AH_AL {
      return false;
    }
    if sc.ss == 0 {
      if sc.se != 0 {
        return false;
      }
    } else if |sc.comps| != 1 {
      return false;
    }
    for ci := 0 to |sc.comps|
      invariant forall i :: 0 <= i < ci ==> CompMayFollow(before, sc, sc.comps[i], sc.se + 1)
      invariant forall c, k :: 0 <= c < n && 0 <= k < DCTSIZE2 ==>
                  last[c, k] == if c in sc.comps[..ci] && sc.ss <= k <= sc.se then sc.al else LastPos(before, c, k)
    {
      Increasing(sc, n, ci);
      var c := sc.comps[ci];
      var good := CheckProgression(before, sc, c, last);
      if !good {
        assert c in sc.comps && !CompMayFollow(before, sc, c, sc.se + 1);
        return false;
      }
      assert sc.comps[..ci + 1] == sc.comps[..ci] + [c];
    }
    forall c, k | 0 <= c < n && 0 <= k < DCTSIZE2
      ensures last[c, k] == LastPos(before + [sc], c, k)
    {
      assert sc.comps[..|sc.comps|] == sc.comps;
      LastPosSnoc(before, sc, c, k);
    }
    ok := true;
  }

  lemma {:induction false} IncreasingPair(sc: ScanInfo, n: nat, i: nat, j: nat)
    requires GoodComps(sc, n) && i < j < |sc.comps|
    ensures sc.comps[i] < sc.comps[j]
    decreases j
  {
    if i < j - 1 {
      IncreasingPair(sc, n, i, j - 1);
    }
  }

  lemma Increasing(sc: ScanInfo, n: nat, ci: nat)
    requires GoodComps(sc, n) && ci < |sc.comps|
    ensures sc.comps[ci] !in sc.comps[..ci]
  {
    forall i | 0 <= i < ci
      ensures sc.comps[i] < sc.comps[ci]
    {
      IncreasingPair(sc, n, i, ci);
    }
  }

  /** A sequential scan, with the component_sent flags. */
  method CheckSequentialScan(ghost before: seq<ScanInfo>, sc: ScanInfo, n: nat, sent: array<bool>) returns (ok: bool)
    requires GoodComps(sc, n) && sent.Length == n
    requires forall c :: 0 <= c < n ==> (sent[c] <==> Sent(before, c))
    modifies sent
    ensures ok <==> IsSequential(sc) && sc.ah == 0 && sc.al == 0 && forall c :: c in sc.comps ==> !Sent(before, c)
    ensures ok ==> forall c :: 0 <= c < n ==> (sent[c] <==> Sent(before + [sc], c))
  {
    if sc.ss != 0 || sc.se != DCTSIZE2 - 1 || sc.ah != 0 || sc.al != 0 {
      return false;
    }
    for ci := 0 to |sc.comps|
      invariant forall i :: 0 <= i < ci ==> !Sent(before, sc.comps[i])
      invariant forall c :: 0 <= c < n ==> (sent[c] <==> Sent(before, c) || c in sc.comps[..ci])
    {
      Increasing(sc, n, ci);
      var thisi := sc.comps[ci];
      if sent[thisi] {
        return false;
      }
      sent[thisi] := true;
      assert sc.comps[..ci + 1] == sc.comps[..ci] + [thisi];
    }
    assert sc.comps[..|sc.comps|] == sc.comps;
    forall c | 0 <= c < n
      ensures sent[c] <==> Sent(before + [sc], c)
    {
      SentSnoc(before, sc, c);
    }
    ok := true;
  }

  lemma SentSnoc(before: seq<ScanInfo>, sc: ScanInfo, c: int)
    ensures Sent(before + [sc], c) <==> Sent(before, c) || c in sc.comps
  {
    var all := before + [sc];
    if c in sc.comps {
      assert c in all[|before|].comps;
    }
    if Sent(before, c) {
      var i :| 0 <= i < |before| && c in before[i].comps;
      assert c in all[i].comps;
    }
  }

  /** validate_script: accepts exactly the legal scripts, and finds the mode. */
  method Validate(scans: seq<ScanInfo>, n: nat) returns (v: Verdict)
    ensures v == Accepted(true) <==> Progressive(scans, n)
    ensures v == Accepted(false) <==> Sequential(scans, n)
  {
    if |scans| <= 0 {
      return Rejected;
    }
    if scans[0].ss != 0 || scans[0].se != DCTSIZE2 - 1 {
      v := ValidateProgressive(scans, n);
      assert !GoodSequential(scans, 0, n);
    } else {
      v := ValidateSequential(scans, n);
    }
  }

  method ValidateProgressive(scans: seq<ScanInfo>, n: nat) returns (v: Verdict)
    requires scans != [] && !IsSequential(scans[0])
    ensures v == if Progressive(scans, n) then Accepted(true) else Rejected
  {
    var last := new int[n, DCTSIZE2]((c, k) => -1);
    for scanno := 0 to |scans|
      invariant forall i :: 0 <= i < scanno ==> GoodProgressive(scans, i, n)
      invariant forall c, k :: 0 <= c < n && 0 <= k < DCTSIZE2 ==> last[c, k] == LastPos(scans[..scanno], c, k)
    {
      assert scans[..scanno + 1] == scans[..scanno] + [scans[scanno]];
      var ok := CheckComps(scans[scanno], n);
      if !ok {
        assert !GoodProgressive(scans, scanno, n);
        return Rejected;
      }
      ok := CheckProgressiveScan(scans[..scanno], scans[scanno], n, last);
      if !ok {
        assert !GoodProgressive(scans, scanno, n);
        return Rejected;
      }
    }
    assert scans[..|scans|] == scans;
    for ci := 0 to n
      invariant forall c :: 0 <= c < ci ==> LastPos(scans, c, 0) >= 0
    {
      if last[ci, 0] < 0 {
        return Rejected;
      }
    }
    v := Accepted(true);
  }

  method ValidateSequential(scans: seq<ScanInfo>, n: nat) returns (v: Verdict)
    requires scans != [] && IsSequential(scans[0])
    ensures v == if Sequential(scans, n) then Accepted(false) else Rejected
  {
    var sent := new bool[n](c => false);
    for scanno := 0 to |scans|
      invariant forall i :: 0 <= i < scanno ==> GoodSequential(scans, i, n)
      invariant forall c :: 0 <= c < n ==> (sent[c] <==> Sent(scans[..scanno], c))
    {
      assert scans[..scanno + 1] == scans[..scanno] + [scans[scanno]];
      var ok := CheckComps(scans[scanno], n);
      if !ok {
        assert !GoodSequential(scans, scanno, n);
        return Rejected;
      }
      ok := CheckSequentialScan(scans[..scanno], scans[scanno], n, sent);
      if !ok {
        assert !GoodSequential(scans, scanno, n);
        return Rejected;
      }
    }
    assert scans[..|scans|] == scans;
    for ci := 0 to n
      invariant forall c :: 0 <= c < ci ==> Sent(scans, c)
    {
      if !sent[ci] {
        return Rejected;
      }
    }
    v := Accepted(false);
  }
}
