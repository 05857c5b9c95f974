/** jpeg_simple_progression of jcparam.c: the recommended progressive script, for
    every number of components, is legal and sends every coefficient completely. */
module SimpleProgression {
  import opened Numbers
  import opened ScanScript

  // ---- The script on values ----

  /** One scan for each of the first n components. */
  function ScansFor(n: nat, ss: int, se: int, ah: int, al: int): (s: seq<ScanInfo>)
    ensures |s| == n
  {
    seq(n, c => ScanInfo([c], ss, se, ah, al))
  }

  function Upto(n: nat): (c: seq<int>) {
    seq(n, i => i)
  }

  /** An interleaved DC scan if possible, else one scan per component. */
  function DcScans(n: nat, ah: int, al: int): (s: seq<ScanInfo>) {
    if n <= MAX_COMPS_IN_SCAN then [ScanInfo(Upto(n), 0, 0, ah, al)] else ScansFor(n, 0, 0, ah, al)
  }

  function AScan(c: int, ss: int, se: int, ah: int, al: int): (s: seq<ScanInfo>) {
    [ScanInfo([c], ss, se, ah, al)]
  }

  function ColorScript(): (s: seq<ScanInfo>) {
    DcScans(3, 0, 1) + AScan(0, 1, 5, 0, 2) + AScan(2, 1, 63, 0, 1) + AScan(1, 1, 63, 0, 1)
    + AScan(0, 6, 63, 0, 2) + AScan(0, 1, 63, 2, 1) + DcScans(3, 1, 0)
    + AScan(2, 1, 63, 1, 0) + AScan(1, 1, 63, 1, 0) + AScan(0, 1, 63, 1, 0)
  }

  function PlainScript(n: nat): (s: seq<ScanInfo>) {
    DcScans(n, 0, 1) + ScansFor(n, 1, 5, 0, 2) + ScansFor(n, 6, 63, 0, 2) + ScansFor(n, 1, 63, 2, 1)
    + DcScans(n, 1, 0) + ScansFor(n, 1, 63, 1, 0)
  }

  function Script(n: nat, ycc: bool): (s: seq<ScanInfo>) {
    if n == 3 && ycc then ColorScript() else PlainScript(n)
  }

  /** "Calculation must match code below!" */
  function ScanCount(n: nat, ycc: bool): (k: nat)
    ensures k == |Script(n, ycc)|
  {
    if n == 3 && ycc then 10
    else if n > MAX_COMPS_IN_SCAN then 6 * n
    else 2 + 4 * n
  }

  // ---- The order of the scans ----

  /** Every component in one DC scan, or component c alone. */
  function DcComps(n: nat, c: nat): (comps: seq<int>) {
    if n <= 4 then seq(n, i => i) else [c]
  }

  /** Entry i of the all-purpose script: DC values but for their last bit, the low band
      and then the high band of every component but for two bits, the higher of these bits
      of all AC coefficients, the last bit of DC, and the last bit of AC. */
  function PlainEntry(n: nat, i: nat): (sc: ScanInfo) {
    var d := if n <= 4 then 1 else n;
    if i < d then ScanInfo(DcComps(n, i), 0, 0, 0, 1)
    else if i < d + n then ScanInfo([i - d], 1, 5, 0, 2)
    else if i < d + 2 * n then ScanInfo([i - d - n], 6, 63, 0, 2)
    else if i < d + 3 * n then ScanInfo([i - d - 2 * n], 1, 63, 2, 1)
    else if i < 2 * d + 3 * n then ScanInfo(DcComps(n, i - d - 3 * n), 0, 0, 1, 0)
    else ScanInfo([i - 2 * d - 3 * n], 1, 63, 1, 0)
  }

  lemma PlainOrder(n: nat, i: nat)
    requires i < |PlainScript(n)|
    ensures PlainScript(n)[i] == PlainEntry(n, i)
  {
    assert n <= 4 ==> DcComps(n, 0) == Upto(n);
  }

  /** The luminance comes first and is completed last; the chrominance, 2 before 1, is sent
      with all of its AC coefficients at once. */
  lemma ColorOrder()
    ensures ColorScript()
         == [ScanInfo([0, 1, 2], 0, 0, 0, 1), ScanInfo([0], 1, 5, 0, 2), ScanInfo([2], 1, 63, 0, 1),
             ScanInfo([1], 1, 63, 0, 1), ScanInfo([0], 6, 63, 0, 2), ScanInfo([0], 1, 63, 2, 1),
             ScanInfo([0, 1, 2], 0, 0, 1, 0), ScanInfo([2], 1, 63, 1, 0), ScanInfo([1], 1, 63, 1, 0),
             ScanInfo([0], 1, 63, 1, 0)]
  {
    assert Upto(3) == [0, 1, 2];
  }

  // ---- How far a component has been sent ----

  /** The point transforms reached by the DC, the low and the high coefficients. */
  datatype Reached = Reached(dc: int, low: int, high: int)

  const NOTHING := Reached(-1, -1, -1)

  ghost predicate Stands(scans: seq<ScanInfo>, c: int, r: Reached) {
    && LastPos(scans, c, 0) == r.dc
    && (forall k :: 1 <= k <= 5 ==> LastPos(scans, c, k) == r.low)
    && (forall k :: 6 <= k < DCTSIZE2 ==> LastPos(scans, c, k) == r.high)
  }

  /** The bands that the scripts use. */
  predicate Banded(sc: ScanInfo) {
    (sc.ss, sc.se) == (0, 0) || (sc.ss, sc.se) == (1, 5) || (sc.ss, sc.se) == (6, 63) || (sc.ss, sc.se) == (1, 63)
  }

  ghost predicate Allowed(r: Reached, sc: ScanInfo) {
    && (sc.ss == 0 ==> GoodStep(sc, r.dc))
    && (sc.ss != 0 ==> r.dc >= 0)
    && (sc.ss == 1 ==> GoodStep(sc, r.low))
    && (sc.se == 63 ==> GoodStep(sc, r.high))
  }

  function Advance(r: Reached, sc: ScanInfo): Reached {
    Reached(if sc.ss == 0 then sc.al else r.dc,
            if sc.ss == 1 then sc.al else r.low,
            if sc.se == 63 then sc.al else r.high)
  }

  /** A script so far: every scan is legal, and every component stands where st says. */
  ghost predicate Sofar(scans: seq<ScanInfo>, st: seq<Reached>) {
    && (forall i :: 0 <= i < |scans| ==> GoodProgressive(scans, i, |st|))
    && (forall c :: 0 <= c < |st| ==> Stands(scans, c, st[c]))
  }

  function Advanced(st: seq<Reached>, sc: ScanInfo): (r: seq<Reached>) {
    seq(|st|, c requires 0 <= c < |st| => if c in sc.comps then Advance(st[c], sc) else st[c])
  }

  /** One more scan. */
  lemma Append(scans: seq<ScanInfo>, st: seq<Reached>, sc: ScanInfo)
    requires Sofar(scans, st) && GoodComps(sc, |st|) && GoodBounds(sc) && Banded(sc)
    requires forall c :: c in sc.comps ==> 0 <= c < |st| && Allowed(st[c], sc)
    ensures Sofar(scans + [sc], Advanced(st, sc))
  {
    var all := scans + [sc];
    var r := Advanced(st, sc);
    forall c | 0 <= c < |st| ensures Stands(all, c, r[c]) {
      forall k ensures LastPos(all, c, k) == if Covers(sc, c, k) then sc.al else LastPos(scans, c, k) {
        LastPosSnoc(scans, sc, c, k);
      }
    }
    forall i | 0 <= i < |all| ensures GoodProgressive(all, i, |st|) {
      if i < |scans| {
        assert GoodProgressive(scans, i, |st|);
        assert all[..i] == scans[..i];
      } else {
        assert all[..i] == scans;
        forall c | c in sc.comps ensures CompMayFollow(scans, sc, c, sc.se + 1) {
          assert Stands(scans, c, st[c]);
        }
      }
    }
  }

  /** One scan of the band for each of the first m components. */
  lemma {:induction false} AppendEach(scans: seq<ScanInfo>, st: seq<Reached>, m: nat, sc: ScanInfo)
    returns (r: seq<Reached>)
    requires Sofar(scans, st) && m <= |st| && Banded(sc) && GoodBounds(sc.(comps := [0]))
    requires forall c :: 0 <= c < m ==> Allowed(st[c], sc)
    ensures |r| == |st| && forall c :: 0 <= c < |st| ==> r[c] == if c < m then Advance(st[c], sc) else st[c]
    ensures Sofar(scans + ScansFor(m, sc.ss, sc.se, sc.ah, sc.al), r)
    decreases m
  {
    hide Sofar;
    if m == 0 {
      assert scans + ScansFor(0, sc.ss, sc.se, sc.ah, sc.al) == scans;
      r := st;
    } else {
      r := AppendEach(scans, st, m - 1, sc);
      var one := sc.(comps := [m - 1]);
      var before := ScansFor(m - 1, sc.ss, sc.se, sc.ah, sc.al);
      Append(scans + before, r, one);
      assert scans + before + [one] == scans + ScansFor(m, sc.ss, sc.se, sc.ah, sc.al);
      r := Advanced(r, one);
    }
  }

  /** The DC scans of all components. */
  lemma AppendDc(scans: seq<ScanInfo>, st: seq<Reached>, ah: int, al: int) returns (r: seq<Reached>)
    requires Sofar(scans, st) && |st| > 0 && 0 <= ah <= MAX_AH_AL && 0 <= al <= MAX_AH_AL
    requires forall c :: 0 <= c < |st| ==> GoodStep(ScanInfo([], 0, 0, ah, al), st[c].dc)
    ensures |r| == |st| && forall c :: 0 <= c < |st| ==> r[c] == st[c].(dc := al)
    ensures Sofar(scans + DcScans(|st|, ah, al), r)
  {
    hide Sofar;
    if |st| <= MAX_COMPS_IN_SCAN {
      var sc := ScanInfo(Upto(|st|), 0, 0, ah, al);
      Append(scans, st, sc);
      r := Advanced(st, sc);
      forall c | 0 <= c < |st| ensures c in sc.comps {
        assert sc.comps[c] == c;
      }
    } else {
      r := AppendEach(scans, st, |st|, ScanInfo([0], 0, 0, ah, al));
    }
  }

  /** Every component stands at the same point. */
  ghost predicate All(st: seq<Reached>, r: Reached) {
    forall c :: 0 <= c < |st| ==> st[c] == r
  }

  ghost predicate Complete(scans: seq<ScanInfo>, n: nat) {
    forall c, k :: 0 <= c < n && 0 <= k < DCTSIZE2 ==> LastPos(scans, c, k) == 0
  }

  lemma NothingSent(n: nat) returns (st: seq<Reached>)
    ensures |st| == n && All(st, NOTHING) && Sofar([], st)
  {
    st := seq(n, c => NOTHING);
  }

  lemma Concluded(scans: seq<ScanInfo>, st: seq<Reached>)
    requires Sofar(scans, st) && All(st, Reached(0, 0, 0)) && scans != [] && scans[0].se == 0
    ensures Progressive(scans, |st|) && Complete(scans, |st|)
  {
    forall c, k | 0 <= c < |st| && 0 <= k < DCTSIZE2 ensures LastPos(scans, c, k) == 0 {
      assert Stands(scans, c, st[c]);
    }
  }

  lemma PlainLegal(n: nat)
    requires n > 0
    ensures Progressive(PlainScript(n), n) && Complete(PlainScript(n), n)
  {
    hide Sofar, Progressive, Complete, DcScans, ScansFor;
    var st := NothingSent(n);
    st := AppendDc([], st, 0, 1);
    assert [] + DcScans(n, 0, 1) == DcScans(n, 0, 1);
    var s := DcScans(n, 0, 1);
    st := AppendEach(s, st, n, ScanInfo([0], 1, 5, 0, 2));
    s := s + ScansFor(n, 1, 5, 0, 2);
    st := AppendEach(s, st, n, ScanInfo([0], 6, 63, 0, 2));
    s := s + ScansFor(n, 6, 63, 0, 2);
    st := AppendEach(s, st, n, ScanInfo([0], 1, 63, 2, 1));
    s := s + ScansFor(n, 1, 63, 2, 1);
    st := AppendDc(s, st, 1, 0);
    s := s + DcScans(n, 1, 0);
    st := AppendEach(s, st, n, ScanInfo([0], 1, 63, 1, 0));
    assert s + ScansFor(n, 1, 63, 1, 0) == PlainScript(n);
    assert PlainScript(n)[0].se == 0 by { StartsWithDc(n, ScansFor(n, 1, 5, 0, 2)); }
    Concluded(PlainScript(n), st);
  }

  lemma StartsWithDc(n: nat, more: seq<ScanInfo>)
    requires n > 0
    ensures |DcScans(n, 0, 1)| > 0 && DcScans(n, 0, 1)[0].se == 0
  {
  }

  lemma ColorLegal()
    ensures Progressive(ColorScript(), 3) && Complete(ColorScript(), 3)
  {
    hide Sofar, Progressive, Complete, DcScans;
    var st := NothingSent(3);
    st := AppendDc([], st, 0, 1);
    assert [] + DcScans(3, 0, 1) == DcScans(3, 0, 1);
    var s := DcScans(3, 0, 1);
    s, st := AppendOne(s, st, 0, 1, 5, 0, 2);
    s, st := AppendOne(s, st, 2, 1, 63, 0, 1);
    s, st := AppendOne(s, st, 1, 1, 63, 0, 1);
    s, st := AppendOne(s, st, 0, 6, 63, 0, 2);
    s, st := AppendOne(s, st, 0, 1, 63, 2, 1);
    st := AppendDc(s, st, 1, 0);
    s := s + DcScans(3, 1, 0);
    s, st := AppendOne(s, st, 2, 1, 63, 1, 0);
    s, st := AppendOne(s, st, 1, 1, 63, 1, 0);
    s, st := AppendOne(s, st, 0, 1, 63, 1, 0);
    assert s == ColorScript();
    StartsWithDc(3, []);
    Concluded(s, st);
  }

  lemma AppendOne(scans: seq<ScanInfo>, st: seq<Reached>, c: nat, ss: int, se: int, ah: int, al: int)
    returns (s: seq<ScanInfo>, r: seq<Reached>)
    requires Sofar(scans, st) && |st| == 3 && c < 3
    requires var sc := ScanInfo([c], ss, se, ah, al); Banded(sc) && GoodBounds(sc) && Allowed(st[c], sc)
    ensures s == scans + AScan(c, ss, se, ah, al) && |r| == 3 && Sofar(s, r)
    ensures forall k :: 0 <= k < 3 ==> r[k] == if k == c then Advance(st[c], ScanInfo([c], ss, se, ah, al)) else st[k]
  {
    hide Sofar;
    var sc := ScanInfo([c], ss, se, ah, al);
    Append(scans, st, sc);
    s, r := scans + [sc], Advanced(st, sc);
  }

  /** The script is accepted by validate_script in progressive mode, and after it no
      bit of any coefficient of any component is missing. */
  lemma ScriptLegal(n: nat, ycc: bool)
    requires n > 0
    ensures Progressive(Script(n, ycc), n)
    ensures forall c, k :: 0 <= c < n && 0 <= k < DCTSIZE2 ==> LastPos(Script(n, ycc), c, k) == 0
  {
    if n == 3 && ycc {
      ColorLegal();
    } else {
      PlainLegal(n);
    }
  }

  // ---- The routines that fill the script ----

  /** fill_a_scan. */
  method FillAScan(script: array<ScanInfo>, at: nat, ci: int, ss: int, se: int, ah: int, al: int) returns (next: nat)
    requires at < script.Length
    modifies script
    ensures next == at + 1 && script[..next] == old(script[..at]) + AScan(ci, ss, se, ah, al)
  {
    script[at] := ScanInfo([ci], ss, se, ah, al);
    next := at + 1;
  }

  /** fill_scans. */
  method FillScans(script: array<ScanInfo>, at: nat, n: nat, ss: int, se: int, ah: int, al: int) returns (next: nat)
    requires at + n <= script.Length
    modifies script
    ensures next == at + n && script[..next] == old(script[..at]) + ScansFor(n, ss, se, ah, al)
  {
    next := at;
    for ci := 0 to n
      invariant next == at + ci && script[..next] == old(script[..at]) + ScansFor(ci, ss, se, ah, al)
    {
      script[next] := ScanInfo([ci], ss, se, ah, al);
      next := next + 1;
    }
  }

  /** fill_dc_scans. */
  method FillDcScans(script: array<ScanInfo>, at: nat, n: nat, ah: int, al: int) returns (next: nat)
    requires at + |DcScans(n, ah, al)| <= script.Length
    modifies script
    ensures next == at + |DcScans(n, ah, al)| && script[..next] == old(script[..at]) + DcScans(n, ah, al)
  {
    if n <= MAX_COMPS_IN_SCAN {
      // Single interleaved DC scan
      var comps: seq<int> := [];
      for ci := 0 to n
        invariant comps == Upto(ci)
      {
        comps := comps + [ci];
      }
      script[at] := ScanInfo(comps, 0, 0, ah, al);
      next := at + 1;
    } else {
      // Noninterleaved DC scan for each component
      next := FillScans(script, at, n, 0, 0, ah, al);
    }
  }

  /** jpeg_simple_progression, with script_space as it was left by an earlier call
      (of length 0 at first): exactly num_scans entries are filled. */
  method SimpleProgression(n: nat, ycc: bool, space: array<ScanInfo>) returns (script: array<ScanInfo>, numScans: nat)
    requires n > 0
    modifies space
    ensures numScans == |Script(n, ycc)| <= script.Length && script[..numScans] == Script(n, ycc)
    ensures script == space || fresh(script)
  {
    hide Script, DcScans, ScansFor, ColorScript, PlainScript;
    numScans := ScanCount(n, ycc);
    script := space;
    if script.Length < numScans {
      var size := if numScans > 10 then numScans else 10;
      script := new ScanInfo[size](i => ScanInfo([], 0, 0, 0, 0));
    }
    ScriptIs(n, ycc);
    var end: nat;
    if n == 3 && ycc {
      end := FillColor(script);
    } else {
      end := FillPlain(script, n);
    }
  }

  lemma ScriptIs(n: nat, ycc: bool)
    ensures Script(n, ycc) == if n == 3 && ycc then ColorScript() else PlainScript(n)
  {
  }

  /** "All-purpose script for other color spaces". */
  method FillPlain(script: array<ScanInfo>, n: nat) returns (next: nat)
    requires n > 0 && |PlainScript(n)| <= script.Length
    modifies script
    ensures next == |PlainScript(n)| && script[..next] == PlainScript(n)
  {
    hide DcScans, ScansFor;
    next := FillDcScans(script, 0, n, 0, 1);
    next := FillScans(script, next, n, 1, 5, 0, 2);
    next := FillScans(script, next, n, 6, 63, 0, 2);
    next := FillScans(script, next, n, 1, 63, 2, 1);
    next := FillDcScans(script, next, n, 1, 0);
    next := FillScans(script, next, n, 1, 63, 1, 0);
  }

  /** "Custom script for YCbCr color images". */
  method FillColor(script: array<ScanInfo>) returns (next: nat)
    requires |ColorScript()| <= script.Length
    modifies script
    ensures next == |ColorScript()| && script[..next] == ColorScript()
  {
    hide DcScans, AScan;
    OneEach();
    next := FillDcScans(script, 0, 3, 0, 1);
    next := FillAScan(script, next, 0, 1, 5, 0, 2);
    next := FillAScan(script, next, 2, 1, 63, 0, 1);
    next := FillAScan(script, next, 1, 1, 63, 0, 1);
    next := FillAScan(script, next, 0, 6, 63, 0, 2);
    next := FillAScan(script, next, 0, 1, 63, 2, 1);
    next := FillDcScans(script, next, 3, 1, 0);
    next := FillAScan(script, next, 2, 1, 63, 1, 0);
    next := FillAScan(script, next, 1, 1, 63, 1, 0);
    next := FillAScan(script, next, 0, 1, 63, 1, 0);
  }

  lemma OneEach()
    ensures forall c: int, ss: int, se: int, ah: int, al: int :: |AScan(c, ss, se, ah, al)| == 1
    ensures |DcScans(3, 0, 1)| == |DcScans(3, 1, 0)| == 1
  {
  }
}
