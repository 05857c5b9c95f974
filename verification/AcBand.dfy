/** One block's AC coefficients in a spectral band: Encode_AC_Coefficients and
    Decode_AC_coefficients (figures F.5, F.20) and their successive-approximation
    versions (figure G.10), shared by the sequential and the progressive routines. */
module AcBand {
  import opened Numbers
  import opened ProbabilityTable
  import opened IntervalCoder
  import opened DecoderRegisters
  import opened Binarisation

  /** A block in zigzag order. */
  type Block = b: seq<int> | |b| == DCTSIZE2 witness seq(DCTSIZE2, i => 0)

  function ZeroBlock(): (b: Block) { seq(DCTSIZE2, k => 0) }

  /** The statistics area of the table, its conditioning value Kx, and Ss .. Se. */
  datatype Band = Band(base: nat, kx: nat, ss: nat, se: nat)

  ghost predicate GoodBand(bd: Band) {
    1 <= bd.ss <= bd.se < DCTSIZE2 && bd.base + AC_STAT_BINS <= FIXED_BIN
  }

  /** st = ac_stats[tbl] + 3 * (k - 1) */
  function At(bd: Band, k: nat): nat
    requires k >= 1
  {
    bd.base + 3 * (k - 1)
  }

  function X2(bd: Band, k: nat): nat {
    bd.base + if k <= bd.kx then 189 else 217
  }

  /** for (ke = Se; ke > 0; ke--) if (coefficient ke is not zero) break; */
  function LastNonzero(t: Block, se: nat): (ke: nat)
    requires se < DCTSIZE2
    ensures ke <= se && (ke > 0 ==> t[ke] != 0)
    ensures forall j :: ke < j <= se ==> t[j] == 0
  {
    if se == 0 || t[se] != 0 then se else LastNonzero(t, se - 1)
  }

  // ---- First scan of a band (and the AC part of a sequential block) ----

  function AcFrom(bd: Band, t: Block, k: nat, ke: nat): (x: seq<Decision>)
    requires k >= 1 && ke < DCTSIZE2 && (ke > 0 ==> t[ke] != 0)
    decreases DCTSIZE2 - k, 1
  {
    if k > ke then
      if k <= bd.se then [Decision(At(bd, k), 1)] else []
    else
      [Decision(At(bd, k), 0)] + AcRun(bd, t, k, ke)
  }

  function AcRun(bd: Band, t: Block, k: nat, ke: nat): (x: seq<Decision>)
    requires 1 <= k <= ke < DCTSIZE2 && t[ke] != 0
    decreases DCTSIZE2 - k, 0
  {
    if t[k] == 0 then
      [Decision(At(bd, k) + 1, 0)] + AcRun(bd, t, k + 1, ke)
    else
      [Decision(At(bd, k) + 1, 1)] + AcCoef(bd, t, k, ke)
  }

  /** Sign, magnitude, and on to the next position. */
  function AcCoef(bd: Band, t: Block, k: nat, ke: nat): (x: seq<Decision>)
    requires 1 <= k <= ke < DCTSIZE2 && t[ke] != 0 && t[k] != 0
    decreases DCTSIZE2 - k - 1, 2
  {
    [Decision(FIXED_BIN, SignBit(t[k]))] +
    (AcMagnitude(At(bd, k) + 2, X2(bd, k), Abs(t[k]) - 1) + AcFrom(bd, t, k + 1, ke))
  }

  datatype BlockOut = BlockOut(ok: bool, blk: Block, s: State)

  ghost function ReadAcFrom(tab: seq<nat>, s: State, bd: Band, al: nat, blk: Block, k: nat): (r: BlockOut)
    requires Ready(tab, s) && GoodBand(bd) && k >= 1
    ensures Ready(tab, r.s) && SameMarker(s, r.s)
    decreases DCTSIZE2 - k, 1
  {
    if k > bd.se then BlockOut(true, blk, s)
    else
      var d := Decode(tab, s, At(bd, k));
      if d.val == 1 then BlockOut(true, blk, d.s) else ReadAcRun(tab, d.s, bd, al, blk, k)
  }

  ghost function ReadAcRun(tab: seq<nat>, s: State, bd: Band, al: nat, blk: Block, k: nat): (r: BlockOut)
    requires Ready(tab, s) && GoodBand(bd) && 1 <= k <= bd.se
    ensures Ready(tab, r.s) && SameMarker(s, r.s)
    decreases DCTSIZE2 - k, 0
  {
    var d := Decode(tab, s, At(bd, k) + 1);
    if d.val == 0 then
      if k + 1 > bd.se then BlockOut(false, blk, d.s)   // spectral overflow
      else ReadAcRun(tab, d.s, bd, al, blk, k + 1)
    else
      var c := ReadAcCoef(tab, d.s, bd, k);
      if !c.ok then BlockOut(false, blk, c.s)
      else ReadAcFrom(tab, c.s, bd, al, blk[k := c.v * Pow2(al)], k + 1)
  }

  ghost function ReadAcCoef(tab: seq<nat>, s: State, bd: Band, k: nat): (c: Coef)
    requires Ready(tab, s) && GoodBand(bd) && 1 <= k <= bd.se
    ensures Ready(tab, c.s) && SameMarker(s, c.s)
  {
    var d := Decode(tab, s, FIXED_BIN);
    ReadValue(tab, ReadAcMagnitude(tab, d.s, At(bd, k) + 2, X2(bd, k)), d.val)
  }

  /** blk with the nonzero coefficients of t at k .. se put in, shifted left. */
  function Fill(blk: Block, t: Block, k: nat, se: nat, al: nat): (r: Block) {
    seq(DCTSIZE2, j requires 0 <= j < DCTSIZE2 =>
      if k <= j <= se && t[j] != 0 then t[j] * Pow2(al) else blk[j])
  }

  predicate InRange(t: Block) {
    forall j :: 0 <= j < DCTSIZE2 ==> Abs(t[j]) <= 0x8000
  }

  lemma AcCoefRead(tab: seq<nat>, s: State, bd: Band, t: Block, k: nat, ke: nat,
                   rest: seq<Decision>, end: seq<byte>)
    requires 1 <= k <= ke <= bd.se && GoodBand(bd) && t[ke] != 0 && t[k] != 0 && InRange(t)
    requires Follows(tab, s, AcCoef(bd, t, k, ke) + rest, end)
    ensures Ready(tab, s)
    ensures var c := ReadAcCoef(tab, s, bd, k);
            && c.ok && c.v == t[k]
            && Follows(tab, c.s, AcFrom(bd, t, k + 1, ke) + rest, end)
  {
    hide Follows, Decode, ValidState, SameMarker, AcMagnitude, AcFrom, ReadValue, ReadAcMagnitude, InRange;
    assert Abs(t[k]) <= 0x8000 by { InRangeAt(t, k); }
    var mag := AcMagnitude(At(bd, k) + 2, X2(bd, k), Abs(t[k]) - 1);
    var more := AcFrom(bd, t, k + 1, ke);
    Next(tab, s, Decision(FIXED_BIN, SignBit(t[k])), mag + more, rest, end);
    assert mag + more + rest == mag + (more + rest);
    AcMagnitudeRead(tab, Decode(tab, s, FIXED_BIN).s, At(bd, k) + 2, X2(bd, k), Abs(t[k]) - 1, SignBit(t[k]),
                    more + rest, end);
  }

  lemma InRangeAt(t: Block, k: nat)
    requires InRange(t) && k < DCTSIZE2
    ensures Abs(t[k]) <= 0x8000
  {
  }

  lemma FillStep(blk: Block, t: Block, k: nat, se: nat, al: nat)
    requires k <= se < DCTSIZE2
    ensures t[k] == 0 ==> Fill(blk, t, k + 1, se, al) == Fill(blk, t, k, se, al)
    ensures t[k] != 0 ==> Fill(blk[k := t[k] * Pow2(al)], t, k + 1, se, al) == Fill(blk, t, k, se, al)
  {
  }

  lemma FillDone(blk: Block, t: Block, k: nat, se: nat, al: nat)
    requires forall j :: k <= j <= se && j < DCTSIZE2 ==> t[j] == 0
    ensures Fill(blk, t, k, se, al) == blk
  {
  }

  lemma {:induction false} AcFromRead(tab: seq<nat>, s: State, bd: Band, al: nat, blk: Block, t: Block,
                                      k: nat, ke: nat, rest: seq<Decision>, end: seq<byte>)
    requires 1 <= k && ke <= bd.se && GoodBand(bd) && (ke > 0 ==> t[ke] != 0) && InRange(t)
    requires forall j :: ke < j <= bd.se ==> t[j] == 0
    requires Follows(tab, s, AcFrom(bd, t, k, ke) + rest, end)
    ensures Ready(tab, s)
    ensures var r := ReadAcFrom(tab, s, bd, al, blk, k);
            r.ok && r.blk == Fill(blk, t, k, bd.se, al) && Follows(tab, r.s, rest, end)
    decreases DCTSIZE2 - k, 1
  {
    hide Follows, Decode, ValidState, SameMarker, InRange, Fill;
    FollowsReady(tab, s, AcFrom(bd, t, k, ke) + rest, end);
    if k > ke {
      FillDone(blk, t, k, bd.se, al);
      if k <= bd.se {
        Last(tab, s, Decision(At(bd, k), 1), rest, end);
      } else {
        assert AcFrom(bd, t, k, ke) + rest == rest;
      }
    } else {
      Next(tab, s, Decision(At(bd, k), 0), AcRun(bd, t, k, ke), rest, end);
      AcRunRead(tab, Decode(tab, s, At(bd, k)).s, bd, al, blk, t, k, ke, rest, end);
    }
  }

  lemma {:induction false} AcRunRead(tab: seq<nat>, s: State, bd: Band, al: nat, blk: Block, t: Block,
                                     k: nat, ke: nat, rest: seq<Decision>, end: seq<byte>)
    requires 1 <= k <= ke <= bd.se && GoodBand(bd) && t[ke] != 0 && InRange(t)
    requires forall j :: ke < j <= bd.se ==> t[j] == 0
    requires Follows(tab, s, AcRun(bd, t, k, ke) + rest, end)
    ensures Ready(tab, s)
    ensures var r := ReadAcRun(tab, s, bd, al, blk, k);
            r.ok && r.blk == Fill(blk, t, k, bd.se, al) && Follows(tab, r.s, rest, end)
    decreases DCTSIZE2 - k, 0
  {
    hide Follows, Decode, ValidState, SameMarker, InRange, Fill, AcFrom, AcCoef, ReadAcFrom, ReadAcCoef;
    FillStep(blk, t, k, bd.se, al);
    if t[k] == 0 {
      Next(tab, s, Decision(At(bd, k) + 1, 0), AcRun(bd, t, k + 1, ke), rest, end);
      AcRunRead(tab, Decode(tab, s, At(bd, k) + 1).s, bd, al, blk, t, k + 1, ke, rest, end);
    } else {
      Next(tab, s, Decision(At(bd, k) + 1, 1), AcCoef(bd, t, k, ke), rest, end);
      var s1 := Decode(tab, s, At(bd, k) + 1).s;
      AcCoefRead(tab, s1, bd, t, k, ke, rest, end);
      var s2 := ReadAcCoef(tab, s1, bd, k).s;
      AcFromRead(tab, s2, bd, al, blk[k := t[k] * Pow2(al)], t, k + 1, ke, rest, end);
    }
  }

  // ---- Refinement scan of a band ----

  function RefFrom(bd: Band, t: Block, k: nat, ke: nat, kex: nat): (x: seq<Decision>)
    requires k >= 1 && ke < DCTSIZE2 && (ke > 0 ==> t[ke] != 0)
    decreases DCTSIZE2 - k, 1
  {
    if k > ke then
      if k <= bd.se then [Decision(At(bd, k), 1)] else []
    else if k > kex then
      [Decision(At(bd, k), 0)] + RefRun(bd, t, k, ke, kex)
    else
      RefRun(bd, t, k, ke, kex)
  }

  function RefRun(bd: Band, t: Block, k: nat, ke: nat, kex: nat): (x: seq<Decision>)
    requires 1 <= k <= ke < DCTSIZE2 && t[ke] != 0
    decreases DCTSIZE2 - k, 0
  {
    if t[k] == 0 then
      [Decision(At(bd, k) + 1, 0)] + RefRun(bd, t, k + 1, ke, kex)
    else if Abs(t[k]) / 2 != 0 then
      [Decision(At(bd, k) + 2, Abs(t[k]) % 2)] + RefFrom(bd, t, k + 1, ke, kex)
    else
      [Decision(At(bd, k) + 1, 1)] + ([Decision(FIXED_BIN, SignBit(t[k]))] + RefFrom(bd, t, k + 1, ke, kex))
  }

  ghost function ReadRefFrom(tab: seq<nat>, s: State, bd: Band, al: nat, blk: Block, k: nat, kex: nat): (r: BlockOut)
    requires Ready(tab, s) && GoodBand(bd) && k >= 1
    ensures Ready(tab, r.s) && SameMarker(s, r.s)
    decreases DCTSIZE2 - k, 1
  {
    if k > bd.se then BlockOut(true, blk, s)
    else if k > kex then
      var d := Decode(tab, s, At(bd, k));
      if d.val == 1 then BlockOut(true, blk, d.s) else ReadRefRun(tab, d.s, bd, al, blk, k, kex)
    else
      ReadRefRun(tab, s, bd, al, blk, k, kex)
  }

  ghost function ReadRefRun(tab: seq<nat>, s: State, bd: Band, al: nat, blk: Block, k: nat, kex: nat): (r: BlockOut)
    requires Ready(tab, s) && GoodBand(bd) && 1 <= k <= bd.se
    ensures Ready(tab, r.s) && SameMarker(s, r.s)
    decreases DCTSIZE2 - k, 0
  {
    var p1: int := Pow2(al);
    if blk[k] != 0 then
      var d := Decode(tab, s, At(bd, k) + 2);
      var v := if d.val == 0 then blk[k] else if blk[k] < 0 then blk[k] - p1 else blk[k] + p1;
      ReadRefFrom(tab, d.s, bd, al, blk[k := v], k + 1, kex)
    else
      var d := Decode(tab, s, At(bd, k) + 1);
      if d.val == 1 then
        var g := Decode(tab, d.s, FIXED_BIN);
        ReadRefFrom(tab, g.s, bd, al, blk[k := if g.val == 1 then -p1 else p1], k + 1, kex)
      else if k + 1 > bd.se then BlockOut(false, blk, d.s)   // spectral overflow
      else ReadRefRun(tab, d.s, bd, al, blk, k + 1, kex)
  }

  /** t with its lowest magnitude bit dropped. */
  function DropBit(t: int): int {
    if t < 0 then -(Abs(t) / 2 * 2) else Abs(t) / 2 * 2
  }

  /** The decoder holds t up to its last bit in the band from k on. */
  ghost predicate HoldsHigh(bd: Band, blk: Block, t: Block, k: nat, al: nat)
    requires bd.se < DCTSIZE2
  {
    forall j :: k <= j <= bd.se ==> blk[j] == DropBit(t[j]) * Pow2(al)
  }

  /** blk with the band from k on replaced by t, shifted left. */
  function Put(blk: Block, t: Block, k: nat, se: nat, al: nat): (r: Block) {
    seq(DCTSIZE2, j requires 0 <= j < DCTSIZE2 => if k <= j <= se then t[j] * Pow2(al) else blk[j])
  }

  lemma PutStep(blk: Block, t: Block, k: nat, se: nat, al: nat)
    requires k <= se < DCTSIZE2
    ensures Put(blk[k := t[k] * Pow2(al)], t, k + 1, se, al) == Put(blk, t, k, se, al)
    ensures blk[k] == t[k] * Pow2(al) ==> Put(blk, t, k + 1, se, al) == Put(blk, t, k, se, al)
  {
  }

  /** What the two refinement branches do to one coefficient. */
  lemma RefineCoef(t: int, p: int)
    requires p > 0
    ensures var c := DropBit(t) * p;
            && (c != 0 <==> Abs(t) / 2 != 0)
            && (c != 0 ==> t * p == if Abs(t) % 2 == 0 then c else if c < 0 then c - p else c + p)
            && (c == 0 && t != 0 ==> t * p == if SignBit(t) == 1 then -p else p)
  {
    var h := Abs(t) / 2;
    assert Abs(t) == 2 * h + Abs(t) % 2;
    if t < 0 {
      Distribute(-(2 * h), -(Abs(t) % 2), p);
    } else {
      Distribute(2 * h, Abs(t) % 2, p);
    }
    if h != 0 {
      MulMono(1, 2 * h, p);
      assert -(2 * h) * p == -(2 * h * p);
    }
  }

  lemma PutDone(bd: Band, blk: Block, t: Block, k: nat, al: nat)
    requires GoodBand(bd) && HoldsHigh(bd, blk, t, k, al)
    requires forall j :: k <= j <= bd.se ==> t[j] == 0
    ensures Put(blk, t, k, bd.se, al) == blk
  {
  }

  lemma HoldsHighNext(bd: Band, blk: Block, t: Block, k: nat, al: nat, v: int)
    requires GoodBand(bd) && k <= bd.se && HoldsHigh(bd, blk, t, k, al)
    ensures blk[k] == DropBit(t[k]) * Pow2(al)
    ensures HoldsHigh(bd, blk[k := v], t, k + 1, al)
    ensures HoldsHigh(bd, blk, t, k + 1, al)
  {
  }

  /** The decoder's refinement of a band: in step with the encoder although the
      two sides find EOBx (kex, kexd) in different data, and afterwards holding
      one more bit of every coefficient. */
  lemma {:induction false} RefFromRead(tab: seq<nat>, s: State, bd: Band, al: nat, blk: Block, t: Block,
                                       k: nat, ke: nat, kex: nat, kexd: nat,
                                       rest: seq<Decision>, end: seq<byte>)
    requires 1 <= k && kex <= ke <= bd.se && GoodBand(bd) && (ke > 0 ==> t[ke] != 0)
    requires forall j :: ke < j <= bd.se ==> t[j] == 0
    requires kex == kexd || (kex < k && kexd < k)
    requires HoldsHigh(bd, blk, t, k, al)
    requires Follows(tab, s, RefFrom(bd, t, k, ke, kex) + rest, end)
    ensures Ready(tab, s)
    ensures var r := ReadRefFrom(tab, s, bd, al, blk, k, kexd);
            r.ok && r.blk == Put(blk, t, k, bd.se, al) && Follows(tab, r.s, rest, end)
    decreases DCTSIZE2 - k, 1
  {
    hide Follows, Decode, ValidState, SameMarker, Put, RefRun, ReadRefRun;
    FollowsReady(tab, s, RefFrom(bd, t, k, ke, kex) + rest, end);
    if k > ke {
      PutDone(bd, blk, t, k, al);
      if k <= bd.se {
        Last(tab, s, Decision(At(bd, k), 1), rest, end);
      } else {
        assert RefFrom(bd, t, k, ke, kex) + rest == rest;
      }
    } else if k > kex {
      Next(tab, s, Decision(At(bd, k), 0), RefRun(bd, t, k, ke, kex), rest, end);
      RefRunRead(tab, Decode(tab, s, At(bd, k)).s, bd, al, blk, t, k, ke, kex, kexd, rest, end);
    } else {
      RefRunRead(tab, s, bd, al, blk, t, k, ke, kex, kexd, rest, end);
    }
  }

  lemma {:induction false} RefRunRead(tab: seq<nat>, s: State, bd: Band, al: nat, blk: Block, t: Block,
                                      k: nat, ke: nat, kex: nat, kexd: nat,
                                      rest: seq<Decision>, end: seq<byte>)
    requires 1 <= k <= ke <= bd.se && kex <= ke && GoodBand(bd) && t[ke] != 0
    requires forall j :: ke < j <= bd.se ==> t[j] == 0
    requires kex == kexd || (kex < k && kexd < k)
    requires HoldsHigh(bd, blk, t, k, al)
    requires Follows(tab, s, RefRun(bd, t, k, ke, kex) + rest, end)
    ensures Ready(tab, s)
    ensures var r := ReadRefRun(tab, s, bd, al, blk, k, kexd);
            r.ok && r.blk == Put(blk, t, k, bd.se, al) && Follows(tab, r.s, rest, end)
    decreases DCTSIZE2 - k, 0
  {
    hide Follows, Decode, ValidState, SameMarker, Put, RefFrom, ReadRefFrom, HoldsHigh, DropBit, Pow2;
    FollowsReady(tab, s, RefRun(bd, t, k, ke, kex) + rest, end);
    var v := t[k] * Pow2(al);
    HoldsHighNext(bd, blk, t, k, al, v);
    RefineCoef(t[k], Pow2(al));
    PutStep(blk, t, k, bd.se, al);
    var more := RefFrom(bd, t, k + 1, ke, kex);
    if t[k] == 0 {
      assert v == 0 && blk[k] == 0;
      Next(tab, s, Decision(At(bd, k) + 1, 0), RefRun(bd, t, k + 1, ke, kex), rest, end);
      RefRunRead(tab, Decode(tab, s, At(bd, k) + 1).s, bd, al, blk, t, k + 1, ke, kex, kexd, rest, end);
    } else if Abs(t[k]) / 2 != 0 {
      Next(tab, s, Decision(At(bd, k) + 2, Abs(t[k]) % 2), more, rest, end);
      RefFromRead(tab, Decode(tab, s, At(bd, k) + 2).s, bd, al, blk[k := v], t, k + 1, ke, kex, kexd, rest, end);
    } else {
      Next(tab, s, Decision(At(bd, k) + 1, 1), [Decision(FIXED_BIN, SignBit(t[k]))] + more, rest, end);
      var s1 := Decode(tab, s, At(bd, k) + 1).s;
      Next(tab, s1, Decision(FIXED_BIN, SignBit(t[k])), more, rest, end);
      RefFromRead(tab, Decode(tab, s1, FIXED_BIN).s, bd, al, blk[k := v], t, k + 1, ke, kex, kexd, rest, end);
    }
  }

  /** Both sides' EOBx agree on the band: below Ss they may differ, inside the
      band the last nonzero position is the same. */
  lemma EobAgrees(bd: Band, blk: Block, t: Block, al: nat, ke: nat)
    requires GoodBand(bd) && HoldsHigh(bd, blk, t, bd.ss, al)
    requires ke == LastNonzero(t, bd.se)
    ensures var kex, kexd := LastNonzero(Halved(t), ke), LastNonzero(blk, bd.se);
            kex == kexd || (kex < bd.ss && kexd < bd.ss)
  {
    var h := Halved(t);
    var kex, kexd := LastNonzero(h, ke), LastNonzero(blk, bd.se);
    forall i | bd.ss <= i <= bd.se
      ensures (blk[i] != 0 <==> h[i] != 0) && (i > ke ==> h[i] == 0)
    {
      RefineCoef(t[i], Pow2(al));
    }
  }

  /** The coefficients at the precision of the previous scan. */
  function Halved(t: Block): (r: Block) {
    seq(DCTSIZE2, j requires 0 <= j < DCTSIZE2 => if t[j] < 0 then -(Abs(t[j]) / 2) else Abs(t[j]) / 2)
  }
}
