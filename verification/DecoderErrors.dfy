/** What the arithmetic decoder does with data that no encoder writes: when a decoding
    procedure gives up, what the MCU keeps then, and that the next restart marker ends the
    trouble (jdarith.c). */
module DecoderErrors {
  import opened Numbers
  import opened ProbabilityTable
  import opened ByteSource
  import opened Binarisation
  import opened AcBand
  import opened McuCoding
  import opened ScanCoding
  import Dec = DecoderRegisters

  // ---- Reading bytes ----

  lemma {:induction false} FillSkipped(n: nat, m: byte, tail: seq<byte>)
    requires m != 0xFF
    ensures SkipFill(Repeat(0xFF, n) + ([m] + tail)) == Read(m, tail)
    decreases n
  {
    var data := Repeat(0xFF, n) + ([m] + tail);
    if n == 0 {
      assert data == [m] + tail;
    } else {
      assert data[1..] == Repeat(0xFF, n - 1) + ([m] + tail);
      FillSkipped(n - 1, m, tail);
    }
  }

  /** arith_decode reads any byte but 0xFF as it is; 0xFF, any number of fill bytes and 0x00
      as 0xFF; and 0xFF, fill bytes and a marker, or the end of the data, as zeros from then
      on. */
  lemma ByteRead(b: byte, n: nat, m: byte, tail: seq<byte>, marker: byte)
    requires b != 0xFF && m != 0xFF && marker != 0
    ensures NextByte(Source([b] + tail, 0)) == Fetch(b, Source(tail, 0))
    ensures NextByte(Source([0xFF] + (Repeat(0xFF, n) + ([m] + tail)), 0))
         == if m == 0 then Fetch(0xFF, Source(tail, 0)) else Fetch(0, Source(tail, m))
    ensures NextByte(Source([], 0)) == Fetch(0, Source([], 0xD9))
    ensures NextByte(Source(tail, marker)) == Fetch(0, Source(tail, marker))
  {
    assert ([b] + tail)[1..] == tail;
    var more := Repeat(0xFF, n) + ([m] + tail);
    assert ([0xFF] + more)[1..] == more;
    FillSkipped(n, m, tail);
    hide Repeat;
  }

  // ---- When a procedure gives up ----

  /** The next n decisions, in the bins st, st + step, ..., are all `val`. */
  ghost predicate Repeated(tab: seq<nat>, s: Dec.State, st: nat, step: nat, n: nat, val: bit)
    requires Ready(tab, s)
    decreases n
  {
    n == 0
    || (st < BINS && var d := Dec.Decode(tab, s, st); d.val == val && Repeated(tab, d.s, st + step, step, n - 1, val))
  }

  /** Magnitude overflow: the category would reach 0x8000. */
  lemma {:induction false} MagnitudeOverflow(tab: seq<nat>, s: Dec.State, st: nat, n: nat)
    requires Ready(tab, s) && n <= 14 && st + 14 - n < BINS
    ensures ReadUnary(tab, s, st, n).ok <==> !Repeated(tab, s, st, 1, 15 - n, 1)
    decreases 15 - n
  {
    hide Dec.Decode, Dec.ValidState, SameMarker;
    var d := Dec.Decode(tab, s, st);
    if d.val == 1 && n < 14 {
      MagnitudeOverflow(tab, d.s, st + 1, n + 1);
    }
  }

  /** Spectral overflow: zeros up to the end of the band instead of a coefficient. The
      block keeps what it has. */
  lemma {:induction false} SpectralOverflow(tab: seq<nat>, s: Dec.State, bd: Band, al: nat, blk: Block, k: nat)
    requires Ready(tab, s) && GoodBand(bd) && 1 <= k <= bd.se
    requires Repeated(tab, s, bd.base + 3 * (k - 1) + 1, 3, bd.se - k + 1, 0)
    ensures var r := ReadAcRun(tab, s, bd, al, blk, k); !r.ok && r.blk == blk
    decreases bd.se - k
  {
    hide Dec.Decode, Dec.ValidState, SameMarker, ReadAcCoef;
    if k < bd.se {
      SpectralOverflow(tab, Dec.Decode(tab, s, bd.base + 3 * (k - 1) + 1).s, bd, al, blk, k + 1);
    }
  }

  lemma {:induction false} RefinementOverflow(tab: seq<nat>, s: Dec.State, bd: Band, al: nat, blk: Block, k: nat,
                                              kex: nat)
    requires Ready(tab, s) && GoodBand(bd) && 1 <= k <= bd.se && forall j :: k <= j <= bd.se ==> blk[j] == 0
    requires Repeated(tab, s, bd.base + 3 * (k - 1) + 1, 3, bd.se - k + 1, 0)
    ensures var r := ReadRefRun(tab, s, bd, al, blk, k, kex); !r.ok && r.blk == blk
    decreases bd.se - k
  {
    hide Dec.Decode, Dec.ValidState, SameMarker;
    if k < bd.se {
      RefinementOverflow(tab, Dec.Decode(tab, s, bd.base + 3 * (k - 1) + 1).s, bd, al, blk, k + 1, kex);
    }
  }

  // ---- Between the error and the next restart ----

  /** "If error do nothing", except in the refinement of DC values, whose bits are taken
      as they come. */
  lemma AfterError(tab: seq<nat>, sc: Scan, interval: nat, ds: DecScan, curs: Mcu)
    requires ds.DecScan? && GoodDec(tab, sc, ds) && |curs| == |sc.membership| && ds.bad
             && (interval == 0 || ds.togo > 0)
    ensures var r, togo := DecodeMcu(tab, sc, interval, ds, curs), if interval > 0 then ds.togo - 1 else ds.togo;
            if sc.kind.DcRefine? then
              r.blks == DecodeMcu(tab, sc, interval, ds.(bad := false), curs).blks && r.ds.DecScan? && r.ds.bad
            else r.blks == curs && r.ds == ds.(togo := togo)
  {
    hide ReadMcu, Dec.ValidState, NextMarker;
  }

  /** Whatever happened before, the expected restart marker starts a new segment: registers,
      statistics and predictions are those of a new one, and there is no error. */
  lemma RestartRecovers(tab: seq<nat>, sc: Scan, interval: nat, ds: DecScan, curs: Mcu)
    requires ds.DecScan? && GoodDec(tab, sc, ds) && |curs| == |sc.membership| && interval > 0 && ds.togo == 0
    ensures var found := NextMarker(ds.s.d.src);
            var anew := DecScan(Dec.State(Dec.Regs(0, 0, -16, Source(found.data, 0)), ResetStats(sc, ds.s.stats)),
                                ResetPred(sc, ds.p), interval, (ds.num + 1) % 8, false);
            if found.b == 0xD0 + ds.num then
              && GoodDec(tab, sc, anew)
              && DecodeMcu(tab, sc, interval, ds, curs) == DecodeMcu(tab, sc, interval, anew, curs)
            else DecodeMcu(tab, sc, interval, ds, curs) == McuStep(Lost, curs)
  {
    hide ReadMcu, NextMarker, ResetStats, ResetPred;
    ResetGood(tab, sc, ds.s.stats, ds.p);
  }
}
