/** Which scan scripts are legal, said about the scans themselves: which parameters a scan
    may have, what must come before it, and what no later scan may repeat (section G.1.1 of
    T.81, with the limits of jcmaster.c). */
module ScriptRules {
  import opened ScanScript

  predicate Sends(sc: ScanInfo, c: int, k: int) {
    c in sc.comps && sc.ss <= k <= sc.se
  }

  /** Of the first j scans, scan i is the last to send coefficient k of component c. */
  predicate Latest(scans: seq<ScanInfo>, j: nat, c: int, k: int, i: nat)
    requires j <= |scans|
  {
    i < j && Sends(scans[i], c, k) && forall h :: i < h < j ==> !Sends(scans[h], c, k)
  }

  predicate Unsent(scans: seq<ScanInfo>, j: nat, c: int, k: int)
    requires j <= |scans|
  {
    forall h :: 0 <= h < j ==> !Sends(scans[h], c, k)
  }

  /** The first scan of a coefficient has Ah = 0; each later one sends exactly the next bit. */
  ghost predicate NextBit(scans: seq<ScanInfo>, j: nat, c: int, k: int)
    requires j < |scans|
  {
    && (Unsent(scans, j, c, k) ==> scans[j].ah == 0)
    && forall i: nat :: Latest(scans, j, c, k, i) ==> scans[j].ah == scans[i].al && scans[j].al == scans[i].al - 1
  }

  /** The components are those of the frame, at most four, in its order. */
  predicate LegalComps(comps: seq<int>, n: nat) {
    && 1 <= |comps| <= 4
    && (forall i :: 0 <= i < |comps| ==> 0 <= comps[i] < n)
    && forall i, j :: 0 <= i < j < |comps| ==> comps[i] < comps[j]
  }

  /** Scan j of a progressive script: DC values alone, or AC coefficients of one component
      whose DC values have been sent. */
  ghost predicate LegalScan(scans: seq<ScanInfo>, j: nat, n: nat)
    requires j < |scans|
  {
    var sc := scans[j];
    && LegalComps(sc.comps, n) && 0 <= sc.ss <= sc.se <= 63 && 0 <= sc.ah <= 10 && 0 <= sc.al <= 10
    && (if sc.ss == 0 then sc.se == 0 else |sc.comps| == 1 && !Unsent(scans, j, sc.comps[0], 0))
    && forall c, k :: Sends(sc, c, k) ==> NextBit(scans, j, c, k)
  }

  /** Not all coefficients at once, and in the end DC values of every component. */
  ghost predicate LegalScript(scans: seq<ScanInfo>, n: nat) {
    && scans != [] && !(scans[0].ss == 0 && scans[0].se == 63)
    && (forall j :: 0 <= j < |scans| ==> LegalScan(scans, j, n))
    && forall c :: 0 <= c < n ==> !Unsent(scans, |scans|, c, 0)
  }

  predicate Disjoint(a: seq<int>, b: seq<int>) {
    forall c :: c in a ==> c !in b
  }

  /** Every scan of a sequential script sends everything, and every component is in exactly
      one of them. */
  ghost predicate LegalSequence(scans: seq<ScanInfo>, n: nat) {
    && scans != []
    && (forall j :: 0 <= j < |scans| ==>
          LegalComps(scans[j].comps, n) && scans[j].ss == 0 && scans[j].se == 63 && scans[j].ah == scans[j].al == 0)
    && (forall i, j :: 0 <= i < j < |scans| ==> Disjoint(scans[i].comps, scans[j].comps))
    && forall c :: 0 <= c < n ==> Present(scans, |scans|, c)
  }

  /** Component c is in one of the first j scans. */
  predicate Present(scans: seq<ScanInfo>, j: nat, c: int)
    requires j <= |scans|
  {
    exists i :: 0 <= i < j && c in scans[i].comps
  }

  // ---- validate_script accepts exactly these ----

  lemma {:induction false} PositionIs(scans: seq<ScanInfo>, j: nat, c: int, k: int)
    requires j <= |scans|
    ensures Unsent(scans, j, c, k) ==> LastPos(scans[..j], c, k) == -1
    ensures forall i: nat :: Latest(scans, j, c, k, i) ==> LastPos(scans[..j], c, k) == scans[i].al
    ensures !Unsent(scans, j, c, k) ==> exists i: nat :: Latest(scans, j, c, k, i)
    decreases j
  {
    if j > 0 {
      PositionIs(scans, j - 1, c, k);
      assert scans[..j][..j - 1] == scans[..j - 1];
      if Sends(scans[j - 1], c, k) {
        assert Latest(scans, j, c, k, j - 1);
      } else {
        assert forall i: nat :: Latest(scans, j, c, k, i) ==> Latest(scans, j - 1, c, k, i);
        if !Unsent(scans, j - 1, c, k) {
          var i: nat :| Latest(scans, j - 1, c, k, i);
          assert Latest(scans, j, c, k, i);
        }
      }
    }
  }

  lemma CompsAre(sc: ScanInfo, n: nat)
    ensures LegalComps(sc.comps, n) <==> GoodComps(sc, n)
  {
    if GoodComps(sc, n) {
      forall i: nat, j: nat | i < j < |sc.comps| ensures sc.comps[i] < sc.comps[j] {
        IncreasingPair(sc, n, i, j);
      }
    }
  }

  ghost predicate EarlierLegal(scans: seq<ScanInfo>, j: nat)
    requires j <= |scans|
  {
    forall i :: 0 <= i < j ==> scans[i].al >= 0
  }

  lemma StepIs(scans: seq<ScanInfo>, j: nat, c: int, k: int)
    requires j < |scans| && EarlierLegal(scans, j)
    ensures NextBit(scans, j, c, k) <==> GoodStep(scans[j], LastPos(scans[..j], c, k))
    ensures Unsent(scans, j, c, k) <==> LastPos(scans[..j], c, k) < 0
  {
    PositionIs(scans, j, c, k);
    hide LastPos, Unsent;
  }

  lemma ScanIs(scans: seq<ScanInfo>, j: nat, n: nat)
    requires j < |scans| && EarlierLegal(scans, j)
    ensures LegalScan(scans, j, n) <==> GoodProgressive(scans, j, n)
  {
    var sc := scans[j];
    CompsAre(sc, n);
    forall c: int, k: int
      ensures NextBit(scans, j, c, k) <==> GoodStep(sc, LastPos(scans[..j], c, k))
      ensures Unsent(scans, j, c, k) <==> LastPos(scans[..j], c, k) < 0
    {
      StepIs(scans, j, c, k);
    }
    hide LegalComps, GoodComps, NextBit, GoodStep, Unsent, LastPos;
    if GoodProgressive(scans, j, n) {
      forall c: int, k: int | Sends(sc, c, k) ensures NextBit(scans, j, c, k) {
        assert CompMayFollow(scans[..j], sc, c, sc.se + 1);
      }
      if sc.ss != 0 {
        assert sc.comps[0] in sc.comps;
        assert CompMayFollow(scans[..j], sc, sc.comps[0], sc.se + 1);
      }
    }
    if LegalScan(scans, j, n) {
      forall c | c in sc.comps ensures CompMayFollow(scans[..j], sc, c, sc.se + 1) {
        assert forall k :: sc.ss <= k <= sc.se ==> Sends(sc, c, k);
      }
    }
  }

  lemma {:induction false} ScansAre(scans: seq<ScanInfo>, j: nat, n: nat)
    requires j <= |scans|
    ensures (forall i :: 0 <= i < j ==> LegalScan(scans, i, n))
            <==> forall i :: 0 <= i < j ==> GoodProgressive(scans, i, n)
    ensures (forall i :: 0 <= i < j ==> LegalScan(scans, i, n)) ==> EarlierLegal(scans, j)
    decreases j
  {
    if j > 0 {
      ScansAre(scans, j - 1, n);
      if EarlierLegal(scans, j - 1) {
        ScanIs(scans, j - 1, n);
      }
    }
  }

  /** validate_script accepts a progressive script if and only if it is legal. */
  lemma ProgressiveIsLegal(scans: seq<ScanInfo>, n: nat)
    ensures Progressive(scans, n) <==> LegalScript(scans, n)
  {
    ScansAre(scans, |scans|, n);
    forall c: int
      ensures EarlierLegal(scans, |scans|) ==> (Unsent(scans, |scans|, c, 0) <==> LastPos(scans, c, 0) < 0)
    {
      PositionIs(scans, |scans|, c, 0);
      assert scans[..|scans|] == scans;
    }
    hide LegalScan, GoodProgressive, LastPos;
  }

  /** And a sequential script. */
  lemma SequentialIsLegal(scans: seq<ScanInfo>, n: nat)
    ensures Sequential(scans, n) <==> LegalSequence(scans, n)
  {
    forall j: nat | j < |scans| ensures LegalComps(scans[j].comps, n) <==> GoodComps(scans[j], n) {
      CompsAre(scans[j], n);
    }
    hide LegalComps, GoodComps;
    forall j: nat, c: int | j <= |scans| ensures Present(scans, j, c) <==> Sent(scans[..j], c) {
      if Present(scans, j, c) {
        var i :| 0 <= i < j && c in scans[i].comps;
        assert scans[..j][i] == scans[i];
      }
    }
    assert scans[..|scans|] == scans;
    hide Sent;
    if LegalSequence(scans, n) {
      forall j | 0 <= j < |scans| ensures GoodSequential(scans, j, n) {
        assert forall i :: 0 <= i < j ==> Disjoint(scans[i].comps, scans[j].comps);
      }
    }
    if Sequential(scans, n) {
      forall j | 0 <= j < |scans|
        ensures LegalComps(scans[j].comps, n) && IsSequential(scans[j]) && scans[j].ah == scans[j].al == 0
      {
        assert GoodSequential(scans, j, n);
      }
      forall i, j | 0 <= i < j < |scans| ensures Disjoint(scans[i].comps, scans[j].comps) {
        assert GoodSequential(scans, j, n);
        assert forall c :: c in scans[i].comps ==> Present(scans, j, c);
      }
      forall c | 0 <= c < n ensures Present(scans, |scans|, c) {
        assert Sent(scans[..|scans|], c);
      }
    }
  }
}
