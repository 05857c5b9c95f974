/** The progressive Huffman entropy encoder object of jcphuff.c: the same routines
    count symbols in the gathering pass and send them in the output pass. */
module PhuffEncoder {
  import opened Numbers
  import opened ByteSource
  import opened BitPacking
  import opened DerivedTable
  import opened HuffItems
  import P = PhuffItems
  import M = McuCoding
  import H = HuffEncoder

  const COUNTS := H.COUNTS

  /** In the output pass every symbol of x has a code. */
  ghost predicate CanSend(gather: bool, cd: Codes, x: seq<Item>) {
    gather || (GoodCodes(cd) && AllSendable(cd, x))
  }

  lemma Parts(gather: bool, cd: Codes, x: seq<Item>, y: seq<Item>)
    requires CanSend(gather, cd, x + y)
    ensures CanSend(gather, cd, x) && CanSend(gather, cd, y)
  {
    if !gather {
      SendableParts(cd, x, y);
    }
  }

  class Encoder {
    const sc: P.Scan
    const interval: nat          // cinfo->restart_interval
    const w: AlignedWriter       // put_buffer, put_bits and the output
    const counts: array2<nat>    // count_ptrs
    const bitBuffer: array<bit>  // bit_buffer
    const lastDc: array<int>     // last_dc_val
    var gather: bool             // gather_statistics
    var eobRun: nat              // EOBRUN
    var be: nat                  // BE
    var restartsToGo: nat
    var nextRestartNum: nat
    var codes: Codes             // derived_tbls

    ghost var before: seq<Item>  // what went out before the last restart marker
    ghost var run: seq<Item>     // and since
    ghost var start: seq<byte>   // what had been written when the pass began

    ghost predicate Shape()
      reads this
    {
      && P.GoodScan(sc) && lastDc.Length == |sc.ly.dcTbl|
      && counts.Length0 == 2 * NUM_HUFF_TBLS && counts.Length1 == COUNTS
      && bitBuffer.Length == P.MAX_CORR_BITS && be <= P.MAX_CORR_BITS && nextRestartNum < 8
    }

    /** Symbols are counted, or their codes are in the bit stream. */
    ghost predicate Emitting()
      reads this, w, counts
    {
      && Shape()
      && (gather ==> forall t, s :: 0 <= t < 2 * NUM_HUFF_TBLS && 0 <= s < COUNTS ==>
                       counts[t, s] == Uses(before + run, t, s))
      && (gather ==> w.out == start)
      && (!gather ==> GoodCodes(codes) && w.Valid() && w.bits == BitsFor(codes, run))
    }

    ghost function Eob(): P.Eob
      requires Shape()
      reads this, bitBuffer
    {
      P.Eob(eobRun, bitBuffer[..be])
    }

    ghost function At(): P.Progress
      requires Shape()
      reads this, bitBuffer, lastDc
    {
      P.Progress(lastDc[..], Eob(), restartsToGo, nextRestartNum)
    }

    constructor (sc: P.Scan, interval: nat)
      requires P.GoodScan(sc)
      ensures this.sc == sc && this.interval == interval && Shape()
      ensures fresh(w) && fresh(counts) && fresh(bitBuffer) && fresh(lastDc)
    {
      this.sc, this.interval := sc, interval;
      w := new AlignedWriter();
      counts := new nat[2 * NUM_HUFF_TBLS, COUNTS]((t, s) => 0);
      bitBuffer := new bit[P.MAX_CORR_BITS](i => 0);
      lastDc := new int[|sc.ly.dcTbl|](c => 0);
      gather, eobRun, be, restartsToGo, nextRestartNum := true, 0, 0, 0, 0;
      codes := Codes([], []);
      before, run := [], [];
    }

    // ---- Symbols and bits ----

    /** emit_symbol. */
    method EmitSymbol(tbl: nat, sym: nat)
      requires Emitting() && tbl < 2 * NUM_HUFF_TBLS && sym < 256 && CanSend(gather, codes, [Symbol(tbl, sym)])
      modifies this`run, counts, w`putBuffer, w`putBits, w`out, w`pending, w`done, w`bits
      ensures Emitting() && run == old(run) + [Symbol(tbl, sym)]
    {
      hide Uses, w.Consistent, Word, Pow2;
      ghost var x := Symbol(tbl, sym);
      if gather {
        counts[tbl, sym] := counts[tbl, sym] + 1;
        assert before + (run + [x]) == before + run + [x];
        forall t, s | 0 <= t < 2 * NUM_HUFF_TBLS && 0 <= s < COUNTS
          ensures counts[t, s] == Uses(before + run + [x], t, s)
        {
          H.UsesSnoc(before + run, x, t, s);
        }
      } else {
        assert Sendable(codes, [x][0]);
        BitsForSnoc(codes, run, x);
        var ok := w.EmitBits(codes.co[tbl][sym], codes.si[tbl][sym]);
      }
      run := run + [x];
    }

    /** emit_bits with the low n bits v. */
    method EmitExtra(v: nat, n: nat)
      requires Emitting() && 1 <= n <= 16
      modifies this`run, w`putBuffer, w`putBits, w`out, w`pending, w`done, w`bits
      ensures Emitting() && run == old(run) + [Extra(v, n)]
    {
      hide Uses, w.Consistent, Word, Pow2;
      ghost var x := Extra(v, n);
      if gather {
        assert before + (run + [x]) == before + run + [x];
        forall t, s | 0 <= t < 2 * NUM_HUFF_TBLS && 0 <= s < COUNTS
          ensures counts[t, s] == Uses(before + run + [x], t, s)
        {
          H.UsesSnoc(before + run, x, t, s);
        }
      } else {
        BitsForSnoc(codes, run, x);
        var ok := w.EmitBits(v, n);
      }
      run := run + [x];
    }

    /** emit_buffered_bits. */
    method EmitBufferedBits(start: nat, n: nat)
      requires Emitting() && start + n <= P.MAX_CORR_BITS
      modifies this`run, w`putBuffer, w`putBits, w`out, w`pending, w`done, w`bits
      ensures Emitting() && run == old(run) + P.BitItems(bitBuffer[start..][..n])
    {
      hide Emitting;
      EmittingShape();
      for i := 0 to n
        invariant Shape() && Emitting() && run == old(run) + P.BitItems(bitBuffer[start..start + i])
      {
        BitItemsSnoc(bitBuffer[start..start + i], bitBuffer[start + i]);
        assert bitBuffer[start..start + i + 1] == bitBuffer[start..start + i] + [bitBuffer[start + i]];
        EmitExtra(bitBuffer[start + i], 1);
      }
      assert bitBuffer[start..start + n] == bitBuffer[start..][..n];
    }

    lemma EmittingShape()
      requires Emitting()
      ensures Shape()
    {
    }

    /** The EOBn symbol and the low bits of EOBRUN, which becomes 0. */
    method EmitRunLength(tbl: nat)
      requires Emitting() && tbl < NUM_HUFF_TBLS && 0 < eobRun <= P.MAX_EOBRUN
      requires CanSend(gather, codes, RunItems(tbl, eobRun))
      modifies this`run, this`eobRun, counts, w`putBuffer, w`putBits, w`out, w`pending, w`done, w`bits
      ensures Emitting() && run == old(run) + RunItems(tbl, old(eobRun)) && eobRun == 0
    {
      hide Uses, NBits, AllSendable, GoodCodes, Pow2, BitsFor;
      var nbits := FloorLog(eobRun);
      P.EobRunFits(eobRun);                       // nbits > 14 is not possible
      ghost var head: seq<Item> := [Symbol(AcTable(tbl), nbits * 16)];
      ghost var tail: seq<Item> := if nbits == 0 then [] else [Extra(eobRun % Pow2(nbits), nbits)];
      Parts(gather, codes, head, tail);
      EmitSymbol(AcTable(tbl), nbits * 16);
      if nbits != 0 {
        EmitExtra(eobRun % Pow2(nbits), nbits);
      }
      eobRun := 0;
      assert old(run) + (head + tail) == old(run) + head + tail;
    }

    /** emit_eobrun: any pending EOBRUN symbol, and the correction bits with it. */
    method EmitEobrun(tbl: nat)
      requires Emitting() && tbl < NUM_HUFF_TBLS && eobRun <= P.MAX_EOBRUN
      requires CanSend(gather, codes, P.EobItems(tbl, Eob()))
      modifies this`run, this`eobRun, this`be, counts, w`putBuffer, w`putBits, w`out, w`pending, w`done, w`bits
      ensures Emitting() && run == old(run) + P.EobItems(tbl, old(Eob()))
      ensures eobRun == 0 && be == if old(eobRun) == 0 then old(be) else 0
    {
      hide Emitting, CanSend, RunItems;
      EmittingShape();
      if eobRun > 0 {
        ghost var x, b := RunItems(tbl, eobRun), P.BitItems(bitBuffer[..be]);
        EobItemsAre(tbl, Eob());
        Parts(gather, codes, x, b);
        H.Join(run, x, b);
        EmitRunLength(tbl);
        EmitBufferedBits(0, be);
        SetBe(0);
      }
    }

    method SetBe(n: nat)
      requires Emitting() && n <= P.MAX_CORR_BITS
      modifies this`be
      ensures Emitting() && be == n
    {
      be := n;
    }

    // ---- MCUs ----

    /** The DC difference v; false when it is out of range. */
    method EncodeDcDiff(tbl: nat, v: int) returns (ok: bool)
      requires Emitting() && tbl < NUM_HUFF_TBLS && CanSend(gather, codes, P.DcDiffItems(tbl, v))
      modifies this`run, counts, w`putBuffer, w`putBits, w`out, w`pending, w`done, w`bits
      ensures ok <==> NBits(Abs(v)) <= MAX_COEF_BITS + 1
      ensures ok ==> Emitting() && run == old(run) + P.DcDiffItems(tbl, v)
    {
      hide Uses, NBits, AllSendable, GoodCodes, Pow2, BitsFor, LowBits;
      var nbits := H.CountBits(Abs(v));
      ok := nbits <= MAX_COEF_BITS + 1;
      if ok {
        ghost var head: seq<Item> := [Symbol(DcTable(tbl), nbits)];
        ghost var tail: seq<Item> := if v == 0 then [] else [ValueItem(v)];
        Parts(gather, codes, head, tail);
        EmitSymbol(DcTable(tbl), nbits);
        SomeBits(v);
        if nbits != 0 {
          EmitExtra(LowBits(v, nbits), nbits);
        }
        assert old(run) + (head + tail) == old(run) + head + tail;
      }
    }

    /** The blocks of encode_mcu_DC_first and encode_mcu_DC_refine. */
    method EncodeDcBlocks(mcu: Mcu) returns (ok: bool)
      requires Emitting() && P.IsDc(sc) && |mcu| == |sc.ly.membership|
      requires CanSend(gather, codes, P.DcMcuItems(sc, lastDc[..], 0, mcu))
      modifies this`run, lastDc, counts, w`putBuffer, w`putBits, w`out, w`pending, w`done, w`bits
      ensures ok <==> P.DcMcuInRange(sc, old(lastDc[..]), 0, mcu)
      ensures ok ==> Emitting() && run == old(run) + P.DcMcuItems(sc, old(lastDc[..]), 0, mcu)
      ensures ok ==> lastDc[..] == P.DcMcuLast(sc, old(lastDc[..]), 0, mcu)
    {
      hide Emitting, P.DcDiffItems, CanSend;
      EmittingShape();
      ghost var enter := lastDc[..];
      ghost var goal := run + P.DcMcuItems(sc, enter, 0, mcu);
      for blkn := 0 to |mcu|
        invariant Shape() && Emitting() && CanSend(gather, codes, P.DcMcuItems(sc, lastDc[..], blkn, mcu))
        invariant run + P.DcMcuItems(sc, lastDc[..], blkn, mcu) == goal
        invariant P.DcMcuLast(sc, lastDc[..], blkn, mcu) == P.DcMcuLast(sc, enter, 0, mcu)
        invariant P.DcMcuInRange(sc, enter, 0, mcu) <==> P.DcMcuInRange(sc, lastDc[..], blkn, mcu)
      {
        ghost var l, items := lastDc[..], run;
        if sc.kind.DcRefine? {
          ghost var x := Extra(M.DcShift(mcu[blkn][0], sc.al) % 2, 1);
          Parts(gather, codes, [x], P.DcMcuItems(sc, l, blkn + 1, mcu));
          H.Join(run, [x], P.DcMcuItems(sc, l, blkn + 1, mcu));
          EmitExtra(M.DcShift(mcu[blkn][0], sc.al) % 2, 1);
        } else {
          var ci := sc.ly.membership[blkn];
          var temp2 := M.DcShift(mcu[blkn][0], sc.al);
          var temp := temp2 - lastDc[ci];
          ghost var x := P.DcDiffItems(sc.ly.dcTbl[ci], temp);
          Parts(gather, codes, x, P.DcMcuItems(sc, l[ci := temp2], blkn + 1, mcu));
          H.Join(run, x, P.DcMcuItems(sc, l[ci := temp2], blkn + 1, mcu));
          ok := EncodeDcDiff(sc.ly.dcTbl[ci], temp);
          if !ok {
            return;
          }
          SetLast(ci, temp2);
        }
      }
      assert run + [] == run;
      ok := true;
    }

    // ---- AC scans ----

    /** "emit special run-length-16 codes". */
    method EmitZeroRuns(tbl: nat, r0: nat) returns (r: nat)
      requires Emitting() && tbl < NUM_HUFF_TBLS && CanSend(gather, codes, ZeroRuns(tbl, r0))
      modifies this`run, counts, w`putBuffer, w`putBits, w`out, w`pending, w`done, w`bits
      ensures Emitting() && r == r0 % 16 && run == old(run) + ZeroRuns(tbl, r0)
    {
      hide Emitting, CanSend;
      EmittingShape();
      ghost var goal := run + ZeroRuns(tbl, r0);
      r := r0;
      while r > 15
        invariant Shape() && Emitting() && CanSend(gather, codes, ZeroRuns(tbl, r)) && r % 16 == r0 % 16
        invariant run + ZeroRuns(tbl, r) == goal
      {
        Parts(gather, codes, [Symbol(AcTable(tbl), 0xF0)], ZeroRuns(tbl, r - 16));
        H.Join(run, [Symbol(AcTable(tbl), 0xF0)], ZeroRuns(tbl, r - 16));
        EmitSymbol(AcTable(tbl), 0xF0);
        r := r - 16;
      }
      assert run + [] == run;
    }

    /** A coefficient v after a run of r0 zeros; false when it is out of range. */
    method EncodeCoef(tbl: nat, r0: nat, v: int) returns (ok: bool)
      requires Emitting() && tbl < NUM_HUFF_TBLS && v != 0 && CanSend(gather, codes, CoefItems(tbl, r0, v))
      modifies this`run, counts, w`putBuffer, w`putBits, w`out, w`pending, w`done, w`bits
      ensures ok <==> NBits(Abs(v)) <= MAX_COEF_BITS
      ensures ok ==> Emitting() && run == old(run) + CoefItems(tbl, r0, v)
    {
      hide Emitting, CanSend, ZeroRuns, NBits, LowBits;
      EmittingShape();
      ghost var runs := ZeroRuns(tbl, r0);
      ghost var sym: seq<Item> := [Symbol(AcTable(tbl), r0 % 16 * 16 + NBits(Abs(v)))];
      ghost var extra := [ValueItem(v)];
      assert CoefItems(tbl, r0, v) == runs + (sym + extra);
      Parts(gather, codes, runs, sym + extra);
      Parts(gather, codes, sym, extra);
      var r := EmitZeroRuns(tbl, r0);
      var nbits := H.CountBits(Abs(v));
      ok := nbits <= MAX_COEF_BITS;
      if ok {
        SomeBits(v);
        EmitSymbol(AcTable(tbl), r * 16 + nbits);
        EmitExtra(LowBits(v, nbits), nbits);
        assert old(run) + (runs + (sym + extra)) == old(run) + runs + sym + extra;
      }
    }

    /** "If there are trailing zeroes, count an EOB", with br new correction bits. */
    method EndOfBand(tbl: nat, br: nat)
      requires Emitting() && tbl < NUM_HUFF_TBLS && P.Bounded(Eob()) && be + br <= P.MAX_CORR_BITS
      requires CanSend(gather, codes, P.EndBand(tbl, Eob(), bitBuffer[be..be + br]).x)
      modifies this`run, this`eobRun, this`be, counts, w`putBuffer, w`putBits, w`out, w`pending, w`done, w`bits
      ensures Emitting()
      ensures var o := P.EndBand(tbl, old(Eob()), old(bitBuffer[be..be + br])); run == old(run) + o.x && Eob() == o.e
    {
      hide Emitting, CanSend, P.EobItems;
      EmittingShape();
      assert bitBuffer[..be] + bitBuffer[be..be + br] == bitBuffer[..be + br];
      CountEob(br);
      if eobRun == P.MAX_EOBRUN || be > P.MAX_CORR_BITS - DCTSIZE2 + 1 {
        EmitEobrun(tbl);
      }
    }

    method CountEob(br: nat)
      requires Emitting() && be + br <= P.MAX_CORR_BITS
      modifies this`eobRun, this`be
      ensures Emitting() && eobRun == old(eobRun) + 1 && be == old(be) + br
    {
      eobRun := eobRun + 1;
      be := be + br;                              // concat my correction bits to older ones
    }

    /** encode_mcu_AC_first. */
    method EncodeAcFirst(b: Block) returns (ok: bool)
      requires Emitting() && sc.kind.AcFirst? && P.Bounded(Eob())
      requires CanSend(gather, codes, P.FirstFrom(sc.ly.acTbl[0], M.ShiftBlock(b, sc.al), sc.ss, sc.se, 0, Eob()).x)
      modifies this`run, this`eobRun, this`be, counts, w`putBuffer, w`putBits, w`out, w`pending, w`done, w`bits
      ensures ok <==> P.FirstInRange(M.ShiftBlock(b, sc.al), sc.ss, sc.se)
      ensures var o := P.FirstFrom(sc.ly.acTbl[0], M.ShiftBlock(b, sc.al), sc.ss, sc.se, 0, old(Eob()));
              ok ==> Emitting() && run == old(run) + o.x && Eob() == o.e
    {
      hide Emitting, CanSend, P.EobItems, NBits, CoefItems, P.EndBand, M.ShiftBlock, P.FirstFrom, P.GoodScan;
      EmittingShape();
      ScanShape(sc);
      ghost var t := M.ShiftBlock(b, sc.al);
      var tbl := sc.ly.acTbl[0];
      ghost var o := P.FirstFrom(tbl, t, sc.ss, sc.se, 0, Eob());
      var r, k := 0, sc.ss;
      while k <= sc.se
        invariant sc.ss <= k <= sc.se + 1 && Shape() && Emitting() && P.Bounded(Eob())
        invariant CanSend(gather, codes, P.FirstFrom(tbl, t, k, sc.se, r, Eob()).x)
        invariant run + P.FirstFrom(tbl, t, k, sc.se, r, Eob()).x == old(run) + o.x
        invariant P.FirstFrom(tbl, t, k, sc.se, r, Eob()).e == o.e
        invariant forall j :: sc.ss <= j < k ==> NBits(Abs(t[j])) <= MAX_COEF_BITS
      {
        FirstStep(tbl, t, k, sc.se, r, Eob());
        ShiftedAt(b, sc.al, k);
        var v := M.AcShift(b[k], sc.al);
        if v == 0 {
          ZeroFits();
          r := r + 1;
        } else {
          ok := SendFirst(tbl, r, v, P.FirstFrom(tbl, t, k + 1, sc.se, 0, P.NO_EOB).x);
          if !ok {
            return;
          }
          EmittingShape();
          r := 0;
        }
        k := k + 1;
      }
      FirstStep(tbl, t, k, sc.se, r, Eob());
      if r > 0 {
        assert bitBuffer[be..be + 0] == [];
        EndOfBand(tbl, 0);
      } else {
        assert run + [] == run;
      }
      ok := true;
    }

    /** A coefficient of a first scan, after any pending EOBRUN. */
    method SendFirst(tbl: nat, r: nat, v: int, ghost more: seq<Item>) returns (ok: bool)
      requires Emitting() && tbl < NUM_HUFF_TBLS && v != 0 && P.Bounded(Eob())
      requires CanSend(gather, codes, P.EobItems(tbl, Eob()) + (CoefItems(tbl, r, v) + more))
      modifies this`run, this`eobRun, this`be, counts, w`putBuffer, w`putBits, w`out, w`pending, w`done, w`bits
      ensures ok <==> NBits(Abs(v)) <= MAX_COEF_BITS
      ensures ok ==> Emitting() && Eob() == P.NO_EOB && CanSend(gather, codes, more)
      ensures ok ==> run + more == old(run) + (P.EobItems(tbl, old(Eob())) + (CoefItems(tbl, r, v) + more))
    {
      hide Emitting, CanSend, NBits, CoefItems;
      EmittingShape();
      ghost var x, y := P.EobItems(tbl, Eob()), CoefItems(tbl, r, v);
      Parts(gather, codes, x, y + more);
      Parts(gather, codes, y, more);
      if eobRun > 0 {
        EmitEobrun(tbl);
      }
      assert Eob() == P.NO_EOB && run == old(run) + x;
      ok := EncodeCoef(tbl, r, v);
      assert old(run) + (x + (y + more)) == old(run) + x + y + more;
    }

    // ---- Refinement ----

    /** The pre-pass: absolute values and the EOB position. */
    method FindNew(b: Block) returns (absvalues: array<nat>, eob: nat)
      requires sc.ss <= sc.se < DCTSIZE2
      ensures fresh(absvalues) && absvalues.Length == DCTSIZE2
      ensures forall k :: sc.ss <= k <= sc.se ==> absvalues[k] == Abs(M.ShiftBlock(b, sc.al)[k])
      ensures eob == P.LastNew(M.ShiftBlock(b, sc.al), sc.ss, sc.se + 1)
    {
      hide M.ShiftBlock;
      ghost var t := M.ShiftBlock(b, sc.al);
      absvalues := new nat[DCTSIZE2];
      eob := 0;
      for k := sc.ss to sc.se + 1
        invariant forall j :: sc.ss <= j < k ==> absvalues[j] == Abs(t[j])
        invariant eob == P.LastNew(t, sc.ss, k)
      {
        ShiftedAt(b, sc.al, k);
        var temp := Abs(b[k]) / Pow2(sc.al);
        absvalues[k] := temp;
        if temp == 1 {
          eob := k;
        }
      }
    }

    /** "Emit any required ZRLs": what is pending goes out with the first. */
    method SendRefineRuns(tbl: nat, r0: nat, brBuffer: nat, br0: nat) returns (r: nat)
      requires Emitting() && tbl < NUM_HUFF_TBLS && P.Bounded(Eob()) && r0 > 15 && brBuffer + br0 <= P.MAX_CORR_BITS
      requires CanSend(gather, codes, P.RefineRuns(tbl, r0, bitBuffer[brBuffer..brBuffer + br0], Eob()))
      modifies this`run, this`eobRun, this`be, counts, w`putBuffer, w`putBits, w`out, w`pending, w`done, w`bits
      ensures Emitting() && r == r0 % 16 && Eob() == P.NO_EOB
      ensures run == old(run) + P.RefineRuns(tbl, r0, bitBuffer[brBuffer..brBuffer + br0], old(Eob()))
    {
      hide Emitting, CanSend, P.EobItems;
      EmittingShape();
      var start: nat, br: nat := brBuffer, br0;
      r := r0;
      while r > 15
        invariant Shape() && Emitting() && P.Bounded(Eob()) && r % 16 == r0 % 16 && start + br <= P.MAX_CORR_BITS
        invariant CanSend(gather, codes, P.RefineRuns(tbl, r, bitBuffer[start..start + br], Eob()))
        invariant run + P.RefineRuns(tbl, r, bitBuffer[start..start + br], Eob())
               == old(run) + P.RefineRuns(tbl, r0, bitBuffer[brBuffer..brBuffer + br0], old(Eob()))
        invariant r <= 15 ==> Eob() == P.NO_EOB
      {
        SendZrl(tbl, start, br, P.RefineRuns(tbl, r - 16, [], P.NO_EOB));
        EmittingShape();
        r := r - 16;
        start, br := 0, 0;                        // BE bits are gone now
        assert bitBuffer[start..start + br] == [];
      }
      assert run + [] == run;
    }

    /** The ZRL symbol and the correction bits associated with it. */
    method EmitZrl(tbl: nat, start: nat, br: nat)
      requires Emitting() && tbl < NUM_HUFF_TBLS && start + br <= P.MAX_CORR_BITS
      requires CanSend(gather, codes, [Symbol(AcTable(tbl), 0xF0)] + P.BitItems(bitBuffer[start..start + br]))
      modifies this`run, counts, w`putBuffer, w`putBits, w`out, w`pending, w`done, w`bits
      ensures Emitting()
      ensures run == old(run) + ([Symbol(AcTable(tbl), 0xF0)] + P.BitItems(bitBuffer[start..start + br]))
    {
      hide Emitting, CanSend, P.BitItems;
      EmittingShape();
      ghost var y: seq<Item> := [Symbol(AcTable(tbl), 0xF0)];
      ghost var z := P.BitItems(bitBuffer[start..start + br]);
      assert bitBuffer[start..][..br] == bitBuffer[start..start + br];
      Parts(gather, codes, y, z);
      H.Join(run, y, z);
      EmitSymbol(AcTable(tbl), 0xF0);
      EmitBufferedBits(start, br);
    }

    method SendZrl(tbl: nat, start: nat, br: nat, ghost more: seq<Item>)
      requires Emitting() && tbl < NUM_HUFF_TBLS && P.Bounded(Eob()) && start + br <= P.MAX_CORR_BITS
      requires CanSend(gather, codes, P.EobItems(tbl, Eob())
                 + ([Symbol(AcTable(tbl), 0xF0)] + P.BitItems(bitBuffer[start..start + br]) + more))
      modifies this`run, this`eobRun, this`be, counts, w`putBuffer, w`putBits, w`out, w`pending, w`done, w`bits
      ensures Emitting() && Eob() == P.NO_EOB && CanSend(gather, codes, more)
      ensures run + more == old(run) + (P.EobItems(tbl, old(Eob()))
                 + ([Symbol(AcTable(tbl), 0xF0)] + P.BitItems(bitBuffer[start..start + br]) + more))
    {
      hide Emitting, CanSend, P.BitItems, P.EobItems;
      EmittingShape();
      ghost var x := P.EobItems(tbl, Eob());
      ghost var y: seq<Item> := [Symbol(AcTable(tbl), 0xF0)] + P.BitItems(bitBuffer[start..start + br]);
      Parts(gather, codes, x, y + more);
      Parts(gather, codes, y, more);
      EmitEobrun(tbl);
      EmitZrl(tbl, start, br);
      assert old(run) + (x + (y + more)) == old(run) + x + y + more;
    }

    /** The symbol, the sign and the buffered bits of a newly nonzero coefficient. */
    method EmitNew(tbl: nat, r: nat, v: int, start: nat, br: nat)
      requires Emitting() && tbl < NUM_HUFF_TBLS && r <= 15 && start + br <= P.MAX_CORR_BITS
      requires CanSend(gather, codes, [Symbol(AcTable(tbl), r * 16 + 1)] + [Extra(if v < 0 then 0 else 1, 1)]
                 + P.BitItems(bitBuffer[start..start + br]))
      modifies this`run, counts, w`putBuffer, w`putBits, w`out, w`pending, w`done, w`bits
      ensures Emitting()
      ensures run == old(run) + ([Symbol(AcTable(tbl), r * 16 + 1)] + [Extra(if v < 0 then 0 else 1, 1)]
                 + P.BitItems(bitBuffer[start..start + br]))
    {
      hide Emitting, CanSend, P.BitItems;
      EmittingShape();
      ghost var y: seq<Item>, s: seq<Item> := [Symbol(AcTable(tbl), r * 16 + 1)], [Extra(if v < 0 then 0 else 1, 1)];
      ghost var z := P.BitItems(bitBuffer[start..start + br]);
      assert bitBuffer[start..][..br] == bitBuffer[start..start + br];
      Parts(gather, codes, y + s, z);
      Parts(gather, codes, y, s);
      EmitSymbol(AcTable(tbl), r * 16 + 1);
      EmitExtra(if v < 0 then 0 else 1, 1);
      EmitBufferedBits(start, br);
      assert old(run) + (y + s + z) == old(run) + y + s + z;
    }

    /** A newly nonzero coefficient v, after any pending EOBRUN. */
    method SendNew(tbl: nat, r: nat, v: int, start: nat, br: nat, ghost more: seq<Item>)
      requires Emitting() && tbl < NUM_HUFF_TBLS && P.Bounded(Eob()) && r <= 15 && start + br <= P.MAX_CORR_BITS
      requires CanSend(gather, codes, P.NewItems(tbl, r, v, bitBuffer[start..start + br], Eob()) + more)
      modifies this`run, this`eobRun, this`be, counts, w`putBuffer, w`putBits, w`out, w`pending, w`done, w`bits
      ensures Emitting() && Eob() == P.NO_EOB && CanSend(gather, codes, more)
      ensures run == old(run) + P.NewItems(tbl, r, v, bitBuffer[start..start + br], old(Eob()))
    {
      hide Emitting, CanSend, P.BitItems, P.EobItems;
      EmittingShape();
      ghost var x := P.EobItems(tbl, Eob());
      ghost var y := [Symbol(AcTable(tbl), r * 16 + 1)] + [Extra(if v < 0 then 0 else 1, 1)]
                     + P.BitItems(bitBuffer[start..start + br]);
      Parts(gather, codes, x + y, more);
      Parts(gather, codes, x, y);
      EmitEobrun(tbl);
      EmitNew(tbl, r, v, start, br);
      assert old(run) + (x + y) == old(run) + x + y;
    }

    /** The rest of a refinement scan from coefficient k on. */
    ghost function Rest(tbl: nat, t: Block, k: nat, eob: nat, r: nat, br: nat): P.Out
      requires Shape() && k <= sc.se + 1 && sc.se < DCTSIZE2 && be + br <= P.MAX_CORR_BITS
      reads this, bitBuffer
    {
      P.RefineFrom(tbl, t, k, sc.se, eob, r, bitBuffer[be..be + br], Eob())
    }

    /** encode_mcu_AC_refine: no correction bit is written at or beyond index 1000. */
    method EncodeAcRefine(b: Block)
      requires Emitting() && sc.kind.AcRefine? && P.Bounded(Eob())
      requires var t := M.ShiftBlock(b, sc.al);
               CanSend(gather, codes, P.RefineFrom(sc.ly.acTbl[0], t, sc.ss, sc.se, P.LastNew(t, sc.ss, sc.se + 1), 0,
                                                   [], Eob()).x)
      modifies bitBuffer
      modifies this`run, this`eobRun, this`be, counts, w`putBuffer, w`putBits, w`out, w`pending, w`done, w`bits
      ensures Emitting()
      ensures var t := M.ShiftBlock(b, sc.al);
              var o := P.RefineFrom(sc.ly.acTbl[0], t, sc.ss, sc.se, P.LastNew(t, sc.ss, sc.se + 1), 0, [], old(Eob()));
              run == old(run) + o.x && Eob() == o.e
    {
      hide Emitting, CanSend, P.EobItems, P.EndBand, M.ShiftBlock, P.RefineFrom, P.RefineCoef, P.GoodScan, P.LastNew;
      EmittingShape();
      ScanShape(sc);
      ghost var t := M.ShiftBlock(b, sc.al);
      var tbl := sc.ly.acTbl[0];
      var absvalues, eob := FindNew(b);
      assert bitBuffer[be..be + 0] == [];
      ghost var o := Rest(tbl, t, sc.ss, eob, 0, 0);
      var r: nat, br: nat, k := 0, 0, sc.ss;
      while k <= sc.se
        invariant sc.ss <= k <= sc.se + 1 && Shape() && Emitting() && P.Bounded(Eob()) && br <= k - sc.ss
        invariant forall k :: sc.ss <= k <= sc.se ==> absvalues[k] == Abs(t[k])
        invariant CanSend(gather, codes, Rest(tbl, t, k, eob, r, br).x)
        invariant run + Rest(tbl, t, k, eob, r, br).x == old(run) + o.x
        invariant Rest(tbl, t, k, eob, r, br).e == o.e
      {
        if absvalues[k] == 0 {
          RefineStep(tbl, t, k, sc.se, eob, r, bitBuffer[be..be + br], Eob());
          r := r + 1;
        } else {
          r, br := RefineOne(b, tbl, k, eob, absvalues[k], r, br, old(run) + o.x, o.e);
          EmittingShape();
        }
        k := k + 1;
      }
      RefineStep(tbl, t, k, sc.se, eob, r, bitBuffer[be..be + br], Eob());
      if r > 0 || br > 0 {
        EndOfBand(tbl, br);
      } else {
        assert run + [] == run;
      }
    }

    /** One nonzero coefficient of a refinement scan. */
    method RefineOne(b: Block, tbl: nat, k: nat, eob: nat, temp: nat, r0: nat, br0: nat,
                     ghost goal: seq<Item>, ghost last: P.Eob) returns (r: nat, br: nat)
      requires Emitting() && tbl < NUM_HUFF_TBLS && P.Bounded(Eob())
      requires 1 <= sc.ss <= k <= sc.se < DCTSIZE2 && br0 <= k - sc.ss
      requires temp == Abs(M.ShiftBlock(b, sc.al)[k]) != 0
      requires eob == P.LastNew(M.ShiftBlock(b, sc.al), sc.ss, sc.se + 1)
      requires CanSend(gather, codes, Rest(tbl, M.ShiftBlock(b, sc.al), k, eob, r0, br0).x)
      requires run + Rest(tbl, M.ShiftBlock(b, sc.al), k, eob, r0, br0).x == goal
      requires Rest(tbl, M.ShiftBlock(b, sc.al), k, eob, r0, br0).e == last
      modifies bitBuffer
      modifies this`run, this`eobRun, this`be, counts, w`putBuffer, w`putBits, w`out, w`pending, w`done, w`bits
      ensures Emitting() && P.Bounded(Eob()) && br <= k + 1 - sc.ss
      ensures CanSend(gather, codes, Rest(tbl, M.ShiftBlock(b, sc.al), k + 1, eob, r, br).x)
      ensures run + Rest(tbl, M.ShiftBlock(b, sc.al), k + 1, eob, r, br).x == goal
      ensures Rest(tbl, M.ShiftBlock(b, sc.al), k + 1, eob, r, br).e == last
    {
      hide Emitting, CanSend, P.EobItems, P.EndBand, M.ShiftBlock, P.RefineFrom, P.RefineRuns, P.NewItems, P.GoodScan;
      EmittingShape();
      ghost var t := M.ShiftBlock(b, sc.al);
      RefineStep(tbl, t, k, sc.se, eob, r0, bitBuffer[be..be + br0], Eob());
      r, br := r0, br0;
      if r > 15 && k <= eob {
        ghost var z := P.RefineRuns(tbl, r0, bitBuffer[be..be + br0], Eob());
        ghost var more := P.RefineCoef(tbl, t, k, sc.se, eob, r0 % 16, [], P.NO_EOB).x;
        Parts(gather, codes, z, more);
        H.Join(run, z, more);
        r := SendRefineRuns(tbl, r0, be, br0);
        EmittingShape();
        br := 0;
      }
      assert bitBuffer[be..be + 0] == [];
      CoefStep(tbl, t, k, sc.se, eob, r, bitBuffer[be..be + br], Eob());
      if temp > 1 {
        // The correction bit is the next bit of the absolute value.
        AppendBit(be + br, temp % 2);
        assert bitBuffer[be..be + br + 1] == old(bitBuffer[..])[be..be + br] + [temp % 2];
        br := br + 1;
        return;
      }
      ShiftedAt(b, sc.al, k);
      ghost var x := P.NewItems(tbl, r, t[k], bitBuffer[be..be + br], Eob());
      ghost var more := P.RefineFrom(tbl, t, k + 1, sc.se, eob, 0, [], P.NO_EOB).x;
      H.Join(run, x, more);
      SendNew(tbl, r, M.AcShift(b[k], sc.al), be, br, more);
      EmittingShape();
      r, br := 0, 0;
      assert bitBuffer[be..be + 0] == [];
    }

    method AppendBit(i: nat, v: bit)
      requires Emitting() && i < P.MAX_CORR_BITS
      modifies bitBuffer
      ensures Emitting() && bitBuffer[..] == old(bitBuffer[..])[i := v]
    {
      bitBuffer[i] := v;
    }

    // ---- MCUs and passes ----

    /** flush_bits and the restart marker. */
    method WriteRestart()
      requires Emitting() && !gather
      modifies w, this`before, this`run
      ensures Emitting() && run == [] && before == old(before + run)
      ensures w.head == old(w.head) + RunBytes(BitsFor(codes, old(run))) + RestartMarker(nextRestartNum)
    {
      hide Uses, Padded, Bytes, Stuff, BitsOf, Word, Pow2, AlignedWriter.Consistent;
      ghost var x := w.bits;
      w.FlushBits();
      BitsOfInjective(w.done, Bytes(Padded(x)));
      w.WriteMarker(RST0 + nextRestartNum);
      before, run := before + run, [];
    }

    /** "Re-initialize DC predictions" or all AC-related fields. */
    method Resynchronize()
      requires Emitting()
      modifies this`eobRun, this`be, lastDc
      ensures Emitting()
      ensures if P.IsDc(sc) then lastDc[..] == seq(|sc.ly.dcTbl|, c => 0) && eobRun == old(eobRun) && be == old(be)
              else lastDc[..] == old(lastDc[..]) && eobRun == 0 && be == 0
    {
      hide Uses;
      if P.IsDc(sc) {
        for ci := 0 to lastDc.Length
          modifies lastDc
          invariant forall c :: 0 <= c < ci ==> lastDc[c] == 0
        {
          lastDc[ci] := 0;
        }
      } else {
        eobRun := 0;
        be := 0;
      }
    }

    /** "Emit restart marker if needed". */
    method RestartIfNeeded()
      requires Emitting() && P.GoodProgress(sc, At()) && CanSend(gather, codes, P.Before(sc, interval, At()))
      modifies this`before, this`run, this`eobRun, this`be, counts, lastDc, w
      ensures Emitting() && (lastDc[..], Eob()) == P.Entering(sc, interval, old(At()))
      ensures P.Bounded(Eob()) && before + run == old(before + run) + P.Before(sc, interval, old(At()))
      ensures !gather && P.AtRestart(interval, old(At())) ==>
                && run == []
                && w.head == old(w.head) + RunBytes(BitsFor(codes, old(run) + P.Before(sc, interval, old(At()))))
                             + RestartMarker(nextRestartNum)
      ensures !gather && !P.AtRestart(interval, old(At())) ==> run == old(run) && w.head == old(w.head)
    {
      hide Emitting, CanSend, P.EobItems, RunBytes, P.GoodScan, BitsFor;
      EmittingShape();
      assert before + run + [] == before + run;
      if interval > 0 && restartsToGo == 0 {
        assert P.EobTable(sc) < NUM_HUFF_TBLS by { EobTableInRange(sc); }
        EmitEobrun(P.EobTable(sc));
        H.Join(before, old(run), P.EobItems(P.EobTable(sc), old(Eob())));
        EmittingShape();
        if !gather {
          WriteRestart();
          assert before + run == before;
        }
        Resynchronize();
        EmittingShape();
      }
    }

    /** The MCU data blocks, by the routine that start_pass selected. */
    method EncodeBlocks(mcu: Mcu) returns (ok: bool)
      requires Emitting() && P.Bounded(Eob()) && |mcu| == |sc.ly.membership|
      requires CanSend(gather, codes, P.McuCode(sc, lastDc[..], Eob(), mcu).x)
      modifies this`run, this`eobRun, this`be, bitBuffer, lastDc, counts
      modifies w`putBuffer, w`putBits, w`out, w`pending, w`done, w`bits
      ensures ok <==> P.McuInRange(sc, old(lastDc[..]), mcu)
      ensures var c := P.McuCode(sc, old(lastDc[..]), old(Eob()), mcu);
              ok ==> Emitting() && run == old(run) + c.x && lastDc[..] == c.last && Eob() == c.e
    {
      hide Emitting, CanSend, P.FirstFrom, P.RefineFrom, P.DcMcuItems, P.DcMcuLast, P.DcMcuInRange, M.ShiftBlock,
           P.GoodScan, P.LastNew;
      EmittingShape();
      match sc.kind {
        case DcFirst =>
          ok := EncodeDcBlocks(mcu);
        case DcRefine =>
          ok := EncodeDcBlocks(mcu);
          RefineInRange(sc, old(lastDc[..]), mcu);
        case AcFirst =>
          ScanShape(sc);
          ok := EncodeAcFirst(mcu[0]);
        case AcRefine =>
          ScanShape(sc);
          EncodeAcRefine(mcu[0]);
          ok := true;
      }
    }

    /** encode_mcu_DC_first, encode_mcu_AC_first, encode_mcu_DC_refine and
        encode_mcu_AC_refine. EOBRUN and BE stay within their bounds. */
    method EncodeMcu(mcu: Mcu) returns (ok: bool)
      requires Emitting() && P.GoodProgress(sc, At()) && |mcu| == |sc.ly.membership|
      requires CanSend(gather, codes, P.Before(sc, interval, At()))
      requires CanSend(gather, codes, P.McuItems(sc, interval, At(), mcu))
      modifies this`before, this`run, this`eobRun, this`be, this`restartsToGo, this`nextRestartNum
      modifies bitBuffer, lastDc, counts, w
      ensures ok <==> P.McuInRange(sc, P.Entering(sc, interval, old(At())).0, mcu)
      ensures ok ==> Emitting() && At() == P.After(sc, interval, old(At()), mcu) && P.GoodProgress(sc, At())
      ensures ok ==> before + run == old(before + run)
                                     + (P.Before(sc, interval, old(At())) + P.McuItems(sc, interval, old(At()), mcu))
      ensures ok && !gather ==>
                if P.AtRestart(interval, old(At())) then
                  && run == P.McuItems(sc, interval, old(At()), mcu)
                  && w.head == old(w.head) + RunBytes(BitsFor(codes, old(run) + P.Before(sc, interval, old(At()))))
                               + RestartMarker(old(nextRestartNum))
                else run == old(run) + P.McuItems(sc, interval, old(At()), mcu) && w.head == old(w.head)
    {
      hide Emitting, CanSend, RunBytes, P.GoodScan, BitsFor, P.McuCode, P.McuInRange, P.Before;
      EmittingShape();
      ghost var h := At();
      RestartIfNeeded();
      EmittingShape();
      ghost var items := P.McuItems(sc, interval, h, mcu);
      H.Join(old(before + run), P.Before(sc, interval, h), items);
      H.Join(before, run, items);
      ok := EncodeBlocks(mcu);
      if ok {
        EmittingShape();
        UpdateCounters();
      }
    }

    /** "Update restart-interval state too". */
    method UpdateCounters()
      requires Emitting()
      modifies this`restartsToGo, this`nextRestartNum
      ensures Emitting()
      ensures if interval == 0 then restartsToGo == old(restartsToGo) && nextRestartNum == old(nextRestartNum)
              else if old(restartsToGo) == 0 then restartsToGo == interval - 1
                && nextRestartNum == (old(nextRestartNum) + 1) % 8
              else restartsToGo == old(restartsToGo) - 1 && nextRestartNum == old(nextRestartNum)
    {
      hide Uses;
      if interval > 0 {
        if restartsToGo == 0 {
          restartsToGo := interval;
          nextRestartNum := (nextRestartNum + 1) % 8;
        }
        restartsToGo := restartsToGo - 1;
      }
    }

    /** start_pass_phuff. */
    method StartPass(gatherStatistics: bool)
      requires Shape() && (!gatherStatistics ==> GoodCodes(codes))
      modifies this`before, this`run, this`start, this`eobRun, this`be, this`restartsToGo, this`nextRestartNum,
               this`gather
      modifies bitBuffer, lastDc, counts, w
      ensures start == old(w.out) && Emitting() && gather == gatherStatistics && before == run == []
      ensures At() == P.StartProgress(sc, interval) && w.head == w.out == old(w.out)
    {
      hide GoodCodes, Uses, AlignedWriter.Consistent, P.GoodScan, BitsFor, Stuff;
      gather := gatherStatistics;
      ClearLast();
      if gather {
        ClearCounts();
      }
      eobRun, be := 0, 0;
      w.StartRun();
      start := w.out;
      restartsToGo := interval;
      nextRestartNum := 0;
      before, run := [], [];
      H.NoUses();
      NoBitsFor(codes);
      assert [] + before == before;
      assert bitBuffer[..be] == [];
    }

    method ClearLast()
      requires lastDc.Length == |sc.ly.dcTbl|
      modifies lastDc
      ensures lastDc[..] == seq(|sc.ly.dcTbl|, c => 0)
    {
      for ci := 0 to lastDc.Length
        invariant forall c :: 0 <= c < ci ==> lastDc[c] == 0
      {
        lastDc[ci] := 0;
      }
    }

    /** MEMZERO of the statistics. */
    method ClearCounts()
      modifies counts
      ensures forall t, s :: 0 <= t < counts.Length0 && 0 <= s < counts.Length1 ==> counts[t, s] == 0
    {
      forall t, s | 0 <= t < counts.Length0 && 0 <= s < counts.Length1 {
        counts[t, s] := 0;
      }
    }

    /** A scan in either pass: gathered counts and sent codes are those of the same
        symbols, whatever the restarts. */
    method EncodeScan(mcus: seq<Mcu>, gatherStatistics: bool) returns (ok: bool)
      requires Shape() && P.Shaped(sc, mcus)
      requires !gatherStatistics ==>
                 GoodCodes(codes) && AllSendable(codes, P.ScanItems(sc, interval, P.StartProgress(sc, interval), mcus))
      modifies this`before, this`run, this`start, this`eobRun, this`be, this`restartsToGo, this`nextRestartNum,
               this`gather
      modifies bitBuffer, lastDc, counts, w
      ensures ok <==> P.ScanInRange(sc, interval, P.StartProgress(sc, interval), mcus)
      ensures ok ==> Shape() && (gatherStatistics ==> w.out == old(w.out))
      ensures ok && gatherStatistics ==> forall t, s :: 0 <= t < 2 * NUM_HUFF_TBLS && 0 <= s < COUNTS ==>
                counts[t, s] == Uses(P.ScanItems(sc, interval, P.StartProgress(sc, interval), mcus), t, s)
      ensures ok && !gatherStatistics ==>
                w.out == old(w.out) + P.Stream(codes, sc, interval, P.StartProgress(sc, interval), [], mcus)
    {
      hide Emitting, CanSend, RunBytes, P.GoodScan, BitsFor, P.McuItems, P.McuInRange, P.Before, P.After, P.Entering;
      StartPass(gatherStatistics);
      EmittingShape();
      ghost var items := P.ScanItems(sc, interval, At(), mcus);
      ghost var goal := w.out + P.Stream(codes, sc, interval, At(), [], mcus);
      assert mcus[0..] == mcus && [] + items == items;
      assert CanSend(gather, codes, items) by { Allowed(gather, codes, items); }
      NoBitsFor(codes);
      for i := 0 to |mcus|
        invariant Shape() && Emitting() && P.GoodProgress(sc, At()) && gather == gatherStatistics && start == old(w.out)
        invariant CanSend(gather, codes, P.ScanItems(sc, interval, At(), mcus[i..]))
        invariant before + run + P.ScanItems(sc, interval, At(), mcus[i..]) == items
        invariant !gather ==> w.head + P.Stream(codes, sc, interval, At(), BitsFor(codes, run), mcus[i..]) == goal
        invariant P.ScanInRange(sc, interval, P.StartProgress(sc, interval), mcus) <==>
                  P.ScanInRange(sc, interval, At(), mcus[i..])
      {
        assert mcus[i..][0] == mcus[i] && mcus[i..][1..] == mcus[i + 1..];
        ok := NextMcu(mcus[i], mcus[i + 1..]);
        if !ok {
          return;
        }
        EmittingShape();
      }
      FinishPass();
      ok := true;
    }

    /** One MCU of a pass, and what is left of the scan after it. */
    method NextMcu(mcu: Mcu, ghost rest: seq<Mcu>) returns (ok: bool)
      requires Emitting() && P.GoodProgress(sc, At()) && P.Shaped(sc, [mcu] + rest)
      requires CanSend(gather, codes, P.ScanItems(sc, interval, At(), [mcu] + rest))
      modifies this`before, this`run, this`eobRun, this`be, this`restartsToGo, this`nextRestartNum
      modifies bitBuffer, lastDc, counts, w
      ensures ok <==> P.McuInRange(sc, P.Entering(sc, interval, old(At())).0, mcu)
      ensures ok ==> Emitting() && At() == P.After(sc, interval, old(At()), mcu) && P.GoodProgress(sc, At())
      ensures ok ==> CanSend(gather, codes, P.ScanItems(sc, interval, At(), rest))
      ensures ok ==> (before + run + P.ScanItems(sc, interval, At(), rest)
                      == old(before + run) + P.ScanItems(sc, interval, old(At()), [mcu] + rest))
      ensures ok && !gather ==>
                (w.head + P.Stream(codes, sc, interval, At(), BitsFor(codes, run), rest)
                 == old(w.head) + P.Stream(codes, sc, interval, old(At()), BitsFor(codes, old(run)), [mcu] + rest))
    {
      hide Emitting, CanSend, RunBytes, P.GoodScan, BitsFor, P.McuItems, P.McuInRange, P.Before, P.After, P.Entering;
      EmittingShape();
      assert ([mcu] + rest)[0] == mcu && ([mcu] + rest)[1..] == rest;
      assert P.Shaped(sc, rest) by { assert forall i :: 0 <= i < |rest| ==> rest[i] == ([mcu] + rest)[i + 1]; }
      ghost var h, r0, head := At(), run, w.head;
      ghost var pre, items := P.Before(sc, interval, h), P.McuItems(sc, interval, h, mcu);
      ghost var next := P.After(sc, interval, h, mcu);
      ghost var more := P.ScanItems(sc, interval, next, rest);
      Parts(gather, codes, pre, items + more);
      Parts(gather, codes, items, more);
      ok := EncodeMcu(mcu);
      if ok {
        assert old(before + run) + (pre + (items + more)) == old(before + run) + (pre + items) + more;
        if !gather {
          BitsForConcat(codes, r0, pre);
          BitsForConcat(codes, r0, items);
          StreamStep(codes, sc, interval, h, BitsFor(codes, r0), mcu, rest, head);
        }
      }
    }

    /** finish_pass_phuff and finish_pass_gather_phuff: flush out any buffered data. */
    method FinishPass()
      requires Emitting() && P.GoodProgress(sc, At()) && CanSend(gather, codes, P.EobItems(P.EobTable(sc), Eob()))
      modifies this`run, this`eobRun, this`be, counts, w
      ensures Shape() && gather == old(gather) && (gather ==> w.out == start)
      ensures gather ==> forall t, s :: 0 <= t < 2 * NUM_HUFF_TBLS && 0 <= s < COUNTS ==>
                           counts[t, s] == Uses(old(before + run) + P.EobItems(P.EobTable(sc), old(Eob())), t, s)
      ensures !gather ==>
                w.out == (old(w.head) + RunBytes(BitsFor(codes, old(run))
                                                 + BitsFor(codes, P.EobItems(P.EobTable(sc), old(Eob())))))
    {
      hide CanSend, P.GoodScan, Uses, BitsFor, GoodCodes, P.EobItems, AlignedWriter.Consistent, Padded, Bytes, Stuff,
           BitsOf;
      assert P.EobTable(sc) < NUM_HUFF_TBLS by { EobTableInRange(sc); }
      ghost var x := P.EobItems(P.EobTable(sc), Eob());
      H.Join(before, run, x);
      BitsForConcat(codes, run, x);
      EmitEobrun(P.EobTable(sc));
      if !gather {
        ghost var b := w.bits;
        w.FlushBits();
        BitsOfInjective(w.done, Bytes(Padded(b)));
      }
    }

    method SetLast(ci: nat, v: int)
      requires Emitting() && ci < lastDc.Length
      modifies lastDc
      ensures Emitting() && lastDc[..] == old(lastDc[..])[ci := v]
    {
      lastDc[ci] := v;
    }
  }

  /** The EOBn symbol with its extra bits. */
  function RunItems(tbl: nat, run: nat): (x: seq<Item>)
    requires run > 0
  {
    var n := NBits(run) - 1;
    [Symbol(AcTable(tbl), n * 16)] + if n == 0 then [] else [Extra(run % Pow2(n), n)]
  }

  lemma EobItemsAre(tbl: nat, e: P.Eob)
    requires e.run > 0
    ensures P.EobItems(tbl, e) == RunItems(tbl, e.run) + P.BitItems(e.bits)
  {
  }

  lemma ScanShape(sc: P.Scan)
    requires P.GoodScan(sc) && (sc.kind.AcFirst? || sc.kind.AcRefine?)
    ensures 1 <= sc.ss <= sc.se < DCTSIZE2 && |sc.ly.acTbl| == 1 && sc.ly.acTbl[0] < NUM_HUFF_TBLS
    ensures |sc.ly.dcTbl| == 1 && sc.ly.membership == [0]
  {
  }

  lemma FirstStep(tbl: nat, t: Block, k: nat, se: nat, r: nat, e: P.Eob)
    requires k <= se + 1 && se < DCTSIZE2
    ensures var o := P.FirstFrom(tbl, t, k, se, r, e);
            if k > se then o == if r > 0 then P.EndBand(tbl, e, []) else P.Out([], e)
            else if t[k] == 0 then o == P.FirstFrom(tbl, t, k + 1, se, r + 1, e)
            else
              var more := P.FirstFrom(tbl, t, k + 1, se, 0, P.NO_EOB);
              o == P.Out(P.EobItems(tbl, e) + (CoefItems(tbl, r, t[k]) + more.x), more.e)
  {
  }

  lemma RefineStep(tbl: nat, t: Block, k: nat, se: nat, eob: nat, r: nat, b: seq<bit>, e: P.Eob)
    requires k <= se + 1 && se < DCTSIZE2
    ensures var o := P.RefineFrom(tbl, t, k, se, eob, r, b, e);
            if k > se then o == if r > 0 || b != [] then P.EndBand(tbl, e, b) else P.Out([], e)
            else if t[k] == 0 then o == P.RefineFrom(tbl, t, k + 1, se, eob, r + 1, b, e)
            else if r > 15 && k <= eob then
              var more := P.RefineCoef(tbl, t, k, se, eob, r % 16, [], P.NO_EOB);
              o == P.Out(P.RefineRuns(tbl, r, b, e) + more.x, more.e)
            else
              o == P.RefineCoef(tbl, t, k, se, eob, r, b, e)
  {
  }

  lemma CoefStep(tbl: nat, t: Block, k: nat, se: nat, eob: nat, r: nat, b: seq<bit>, e: P.Eob)
    requires k <= se < DCTSIZE2
    ensures var o := P.RefineCoef(tbl, t, k, se, eob, r, b, e);
            if Abs(t[k]) > 1 then
              o == P.RefineFrom(tbl, t, k + 1, se, eob, r, b + [Abs(t[k]) % 2], e)
            else
              var more := P.RefineFrom(tbl, t, k + 1, se, eob, 0, [], P.NO_EOB);
              o == P.Out(P.NewItems(tbl, r, t[k], b, e) + more.x, more.e)
  {
  }

  /** The transformed coefficient, as the loops compute it. */
  lemma ShiftedAt(b: Block, al: nat, k: nat)
    requires k < DCTSIZE2
    ensures M.ShiftBlock(b, al)[k] == M.AcShift(b[k], al)
    ensures Abs(M.AcShift(b[k], al)) == Abs(b[k]) / Pow2(al)
    ensures M.AcShift(b[k], al) != 0 ==> (M.AcShift(b[k], al) < 0 <==> b[k] < 0)
  {
    Shifted(b[k], al);
  }

  lemma Shifted(x: int, al: nat)
    ensures Abs(M.AcShift(x, al)) == Abs(x) / Pow2(al)
    ensures M.AcShift(x, al) != 0 ==> (M.AcShift(x, al) < 0 <==> x < 0)
  {
    hide Pow2;
    Quotients(Abs(x), Pow2(al));
  }

  lemma Quotients(x: nat, p: nat)
    requires p > 0
    ensures x / p >= 0
  {
  }

  lemma Allowed(gather: bool, cd: Codes, x: seq<Item>)
    requires !gather ==> GoodCodes(cd) && AllSendable(cd, x)
    ensures CanSend(gather, cd, x)
  {
  }

  lemma NoBitsFor(cd: Codes)
    ensures BitsFor(cd, []) == []
  {
  }

  /** The stream of a scan, one MCU further on. */
  lemma StreamStep(cd: Codes, sc: P.Scan, interval: nat, h: P.Progress, x: seq<bit>, mcu: Mcu, rest: seq<Mcu>,
                   head: seq<byte>)
    requires P.GoodScan(sc) && P.GoodProgress(sc, h) && P.Shaped(sc, [mcu] + rest)
    ensures |mcu| == |sc.ly.membership| && P.Shaped(sc, rest)
    ensures var y := (if P.AtRestart(interval, h) then [] else x) + BitsFor(cd, P.McuItems(sc, interval, h, mcu));
            var s := P.Stream(cd, sc, interval, P.After(sc, interval, h, mcu), y, rest);
            var t := head + P.Stream(cd, sc, interval, h, x, [mcu] + rest);
            if P.AtRestart(interval, h)
            then t == head + RunBytes(x + BitsFor(cd, P.Before(sc, interval, h))) + RestartMarker(h.num) + s
            else t == head + s
  {
    hide P.GoodScan, BitsFor, P.McuItems, P.Before, P.After, RunBytes;
    var mcus := [mcu] + rest;
    assert mcus[0] == mcu && mcus[1..] == rest;
    assert [] + BitsFor(cd, P.McuItems(sc, interval, h, mcu)) == BitsFor(cd, P.McuItems(sc, interval, h, mcu));
  }

  lemma EobTableInRange(sc: P.Scan)
    requires P.GoodScan(sc)
    ensures P.EobTable(sc) < NUM_HUFF_TBLS
  {
  }

  lemma RefineInRange(sc: P.Scan, last: seq<int>, mcu: Mcu)
    requires P.GoodScan(sc) && |last| == |sc.ly.dcTbl| && |mcu| == |sc.ly.membership| && sc.kind.DcRefine?
    ensures P.DcMcuInRange(sc, last, 0, mcu) && P.McuInRange(sc, last, mcu)
  {
  }

  lemma ZeroFits()
    ensures NBits(Abs(0)) <= MAX_COEF_BITS
  {
  }

  lemma SomeBits(v: int)
    ensures NBits(Abs(v)) == 0 <==> v == 0
  {
  }

  lemma BitItemsSnoc(b: seq<bit>, c: bit)
    ensures P.BitItems(b + [c]) == P.BitItems(b) + [Extra(c, 1)]
  {
  }

  lemma BitsForSnoc(cd: Codes, x: seq<Item>, y: Item)
    ensures BitsFor(cd, x + [y]) == BitsFor(cd, x) + ItemBits(cd, y)
  {
    BitsForConcat(cd, x, [y]);
    assert BitsFor(cd, [y]) == ItemBits(cd, y) + BitsFor(cd, [y][1..]);
  }

  /** nbits = 0; while ((temp >>= 1)) nbits++; */
  method FloorLog(run: nat) returns (nbits: nat)
    requires run > 0
    ensures nbits == NBits(run) - 1
  {
    var temp: nat := run / 2;
    nbits := 0;
    while temp != 0
      invariant nbits + NBits(temp) == NBits(run) - 1
      decreases temp
    {
      nbits := nbits + 1;
      temp := temp / 2;
    }
  }
}
