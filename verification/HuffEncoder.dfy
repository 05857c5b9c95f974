/** The sequential Huffman entropy encoder object of jchuff.c: the gathering pass
    and the output pass over the same MCUs. */
module HuffEncoder {
  import opened Numbers
  import opened ByteSource
  import opened BitPacking
  import opened DerivedTable
  import opened HuffItems

  const COUNTS := 257

  /** JCOEF is a 16-bit type. */
  ghost predicate Short(v: int) { -0x8000 <= v < 0x8000 }

  ghost predicate ShortBlock(b: Block) {
    forall k :: 0 <= k < DCTSIZE2 ==> Short(b[k])
  }

  ghost predicate ShortMcu(mcu: Mcu) {
    forall i :: 0 <= i < |mcu| ==> ShortBlock(mcu[i])
  }

  ghost predicate ShortLast(last: seq<int>) {
    forall c :: 0 <= c < |last| ==> Short(last[c])
  }

  lemma NBitsAtMost(w: nat, n: nat)
    requires w < Pow2(n)
    ensures NBits(w) <= n
  {
    hide Pow2;
    var b := NBits(w);
    if b > n {
      Pow2Mono(n, b - 1);
    }
  }

  lemma ZeroHasNoBits()
    ensures NBits(Abs(0)) == 0
  {
  }

  lemma ShortBits(v: int)
    requires -0x10000 < v < 0x10000
    ensures NBits(Abs(v)) <= 16
  {
    Pow2Values();
    NBitsAtMost(Abs(v), 16);
  }

  /** The bit count loops: while (temp) { nbits++; temp >>= 1; } */
  method CountBits(w: nat) returns (nbits: nat)
    ensures nbits == NBits(w)
  {
    var temp := w;
    nbits := 0;
    while temp != 0
      invariant nbits + NBits(temp) == NBits(w)
      decreases temp
    {
      nbits := nbits + 1;
      temp := temp / 2;
    }
  }

  lemma UsesSnoc(x: seq<Item>, y: Item, tbl: nat, sym: nat)
    ensures Uses(x + [y], tbl, sym) == Uses(x, tbl, sym) + if y == Symbol(tbl, sym) then 1 else 0
  {
    assert (x + [y])[..|x|] == x;
  }

  lemma BitsForFirst(cd: Codes, x: Item, more: seq<Item>)
    requires GoodCodes(cd) && AllSendable(cd, [x] + more)
    ensures Sendable(cd, x) && AllSendable(cd, more)
    ensures BitsFor(cd, [x] + more) == ItemBits(cd, x) + BitsFor(cd, more)
  {
    hide Sendable, GoodCodes, ItemBits;
    SendableParts(cd, [x], more);
    assert Sendable(cd, [x][0]);
    assert ([x] + more)[1..] == more;
  }

  class Encoder {
    const ly: Layout
    const interval: nat          // cinfo->restart_interval
    const w: BitWriter           // put_buffer, put_bits and the output
    const lastDc: array<int>     // saved.last_dc_val
    const counts: array2<nat>    // dc_count_ptrs, then ac_count_ptrs
    var restartsToGo: nat
    var nextRestartNum: nat
    var codes: Codes             // dc_derived_tbls, then ac_derived_tbls

    ghost predicate Shape()
      reads this
    {
      && GoodLayout(ly) && lastDc.Length == |ly.dcTbl|
      && counts.Length0 == 2 * NUM_HUFF_TBLS && counts.Length1 == COUNTS
      && nextRestartNum < 8
    }

    ghost function At(): Place
      reads this, lastDc
    {
      Place(lastDc[..], restartsToGo, nextRestartNum)
    }

    constructor (ly: Layout, interval: nat, wordBits: nat)
      requires GoodLayout(ly) && (wordBits == 32 || wordBits == 64)
      ensures this.ly == ly && this.interval == interval && Shape() && w.wordBits == wordBits
      ensures fresh(w) && fresh(lastDc) && fresh(counts) && w.Valid() && w.out == []
    {
      this.ly, this.interval := ly, interval;
      w := new BitWriter(wordBits);
      lastDc := new int[|ly.dcTbl|](c => 0);
      counts := new nat[2 * NUM_HUFF_TBLS, COUNTS]((t, s) => 0);
      restartsToGo, nextRestartNum := 0, 0;
      codes := Codes([], []);
    }

    // ---- The gathering pass ----

    /** counts[tbl][sym]++ */
    method Count(tbl: nat, sym: nat, ghost x: seq<Item>) returns (ghost y: seq<Item>)
      requires Shape() && tbl < 2 * NUM_HUFF_TBLS && sym < COUNTS
      modifies counts
      ensures y == x + [Symbol(tbl, sym)]
      ensures forall t, s :: 0 <= t < 2 * NUM_HUFF_TBLS && 0 <= s < COUNTS ==> Left(t, s, y) == old(Left(t, s, x))
    {
      y := x + [Symbol(tbl, sym)];
      counts[tbl, sym] := counts[tbl, sym] + 1;
      forall t, s | 0 <= t < 2 * NUM_HUFF_TBLS && 0 <= s < COUNTS
        ensures Left(t, s, y) == old(Left(t, s, x))
      {
        UsesSnoc(x, Symbol(tbl, sym), t, s);
      }
    }

    /** Extra bits are not counted. */
    lemma ExtraUncounted(x: seq<Item>, v: int)
      requires Shape()
      ensures forall t, s :: 0 <= t < 2 * NUM_HUFF_TBLS && 0 <= s < COUNTS ==>
                Left(t, s, x + [ValueItem(v)]) == Left(t, s, x)
    {
      forall t, s | 0 <= t < 2 * NUM_HUFF_TBLS && 0 <= s < COUNTS
        ensures Left(t, s, x + [ValueItem(v)]) == Left(t, s, x)
      {
        UsesSnoc(x, ValueItem(v), t, s);
      }
    }

    /** while (r > 15) { ac_counts[0xF0]++; r -= 16; } */
    method CountZeroRuns(tbl: nat, r0: nat, ghost x: seq<Item>) returns (r: nat, ghost y: seq<Item>)
      requires Shape() && tbl < NUM_HUFF_TBLS
      modifies counts
      ensures r == r0 % 16 && y == x + ZeroRuns(tbl, r0)
      ensures forall t, s :: 0 <= t < 2 * NUM_HUFF_TBLS && 0 <= s < COUNTS ==> Left(t, s, y) == old(Left(t, s, x))
    {
      hide Uses;
      ghost var goal := x + ZeroRuns(tbl, r0);
      r, y := r0, x;
      while r > 15
        invariant y + ZeroRuns(tbl, r) == goal && r % 16 == r0 % 16
        invariant forall t, s :: 0 <= t < 2 * NUM_HUFF_TBLS && 0 <= s < COUNTS ==> Left(t, s, y) == old(Left(t, s, x))
      {
        assert y + ([Symbol(AcTable(tbl), 0xF0)] + ZeroRuns(tbl, r - 16))
            == y + [Symbol(AcTable(tbl), 0xF0)] + ZeroRuns(tbl, r - 16);
        y := Count(AcTable(tbl), 0xF0, y);
        r := r - 16;
      }
      assert y + [] == y;
    }

    /** A nonzero coefficient v after a run of r zeros. */
    method CountCoef(tbl: nat, r0: nat, v: int, ghost x: seq<Item>) returns (ok: bool, ghost y: seq<Item>)
      requires Shape() && tbl < NUM_HUFF_TBLS && v != 0
      modifies counts
      ensures ok <==> NBits(Abs(v)) <= MAX_COEF_BITS
      ensures ok ==> y == x + CoefItems(tbl, r0, v)
      ensures ok ==> forall t, s :: 0 <= t < 2 * NUM_HUFF_TBLS && 0 <= s < COUNTS ==>
                Left(t, s, y) == old(Left(t, s, x))
    {
      hide Uses, ZeroRuns, NBits, LowBits;
      var r;
      r, y := CountZeroRuns(tbl, r0, x);
      var nbits := CountBits(Abs(v));
      ok := nbits <= MAX_COEF_BITS;
      if ok {
        y := Count(AcTable(tbl), r * 16 + nbits, y);
        ExtraUncounted(y, v);
        y := y + [ValueItem(v)];
      }
    }

    /** The DC half of htest_one_block. */
    method CountDc(v: int, dcTbl: nat, ghost x: seq<Item>) returns (ok: bool, ghost y: seq<Item>)
      requires Shape() && dcTbl < NUM_HUFF_TBLS
      modifies counts
      ensures ok <==> NBits(Abs(v)) <= MAX_COEF_BITS + 1
      ensures ok ==> y == x + DcItems(dcTbl, v)
      ensures ok ==> forall t, s :: 0 <= t < 2 * NUM_HUFF_TBLS && 0 <= s < COUNTS ==>
                Left(t, s, y) == old(Left(t, s, x))
    {
      hide Uses, NBits, LowBits;
      var nbits := CountBits(Abs(v));
      ok, y := nbits <= MAX_COEF_BITS + 1, x;
      if ok {
        y := Count(DcTable(dcTbl), nbits, x);
        ExtraUncounted(y, v);
        y := y + [ValueItem(v)];
      }
    }

    /** The AC half. */
    method CountAc(tbl: nat, b: Block, ghost x: seq<Item>) returns (ok: bool, ghost y: seq<Item>)
      requires Shape() && tbl < NUM_HUFF_TBLS
      modifies counts
      ensures ok <==> forall j :: 1 <= j < DCTSIZE2 ==> NBits(Abs(b[j])) <= MAX_COEF_BITS
      ensures ok ==> y == x + AcItems(tbl, b, 1, 0)
      ensures ok ==> forall t, s :: 0 <= t < 2 * NUM_HUFF_TBLS && 0 <= s < COUNTS ==>
                Left(t, s, y) == old(Left(t, s, x))
    {
      hide Uses, NBits, LowBits, CoefItems, Left, AcItems;
      ghost var goal := x + AcItems(tbl, b, 1, 0);
      y := x;
      var k, r := 1, 0;
      while k < DCTSIZE2
        invariant 1 <= k <= DCTSIZE2 && y + AcItems(tbl, b, k, r) == goal
        invariant forall t, s :: 0 <= t < 2 * NUM_HUFF_TBLS && 0 <= s < COUNTS ==> Left(t, s, y) == old(Left(t, s, x))
        invariant forall j :: 1 <= j < k ==> NBits(Abs(b[j])) <= MAX_COEF_BITS
      {
        AcItemsStep(tbl, b, k, r);
        if b[k] == 0 {
          ZeroHasNoBits();
          r := r + 1;
        } else {
          Join(y, CoefItems(tbl, r, b[k]), AcItems(tbl, b, k + 1, 0));
          ok, y := CountCoef(tbl, r, b[k], y);
          if !ok {
            return;
          }
          r := 0;
        }
        k := k + 1;
      }
      AcItemsStep(tbl, b, k, r);
      if r > 0 {
        y := Count(AcTable(tbl), 0, y);
      } else {
        assert y + [] == y;
      }
      ok := true;
    }

    /** htest_one_block: the symbols of the block are counted, unless a coefficient
        is out of range. */
    method HtestOneBlock(b: Block, last: int, dcTbl: nat, acTbl: nat, ghost x: seq<Item>)
      returns (ok: bool, ghost y: seq<Item>)
      requires Shape() && dcTbl < NUM_HUFF_TBLS && acTbl < NUM_HUFF_TBLS
      modifies counts
      ensures ok <==> HuffItems.InRange(b, last)
      ensures ok ==> y == x + BlockItems(dcTbl, acTbl, b, last)
      ensures ok ==> forall t, s :: 0 <= t < 2 * NUM_HUFF_TBLS && 0 <= s < COUNTS ==>
                Left(t, s, y) == old(Left(t, s, x))
    {
      hide Uses, NBits, LowBits, DcItems, AcItems, Left;
      ok, y := CountDc(b[0] - last, dcTbl, x);
      if ok {
        ok, y := CountAc(acTbl, b, y);
        Join(x, DcItems(dcTbl, b[0] - last), AcItems(acTbl, b, 1, 0));
      }
    }

    /** encode_mcu_gather. */
    method EncodeMcuGather(mcu: Mcu, ghost x: seq<Item>) returns (ok: bool, ghost y: seq<Item>)
      requires Shape() && |mcu| == |ly.membership|
      modifies this`restartsToGo, lastDc, counts
      ensures Shape() && (ok <==> McuInRange(ly, Entering(ly, interval, old(At())), 0, mcu))
      ensures ok ==> y == x + McuItems(ly, Entering(ly, interval, old(At())), 0, mcu)
      ensures ok ==> forall t, s :: 0 <= t < 2 * NUM_HUFF_TBLS && 0 <= s < COUNTS ==>
                Left(t, s, y) == old(Left(t, s, x))
      ensures ok ==> At() == After(ly, interval, old(At()), mcu).(num := nextRestartNum)
    {
      hide Left, McuItems, McuLast, McuInRange;
      ghost var h := At();
      if interval > 0 {
        if restartsToGo == 0 {
          ResetPredictions();
          restartsToGo := interval;
        }
        restartsToGo := restartsToGo - 1;
      }
      assert lastDc[..] == Entering(ly, interval, h);
      ok, y := GatherBlocks(mcu, x);
    }

    method GatherBlocks(mcu: Mcu, ghost x: seq<Item>) returns (ok: bool, ghost y: seq<Item>)
      requires Shape() && |mcu| == |ly.membership|
      modifies lastDc, counts
      ensures ok <==> McuInRange(ly, old(lastDc[..]), 0, mcu)
      ensures ok ==> y == x + McuItems(ly, old(lastDc[..]), 0, mcu)
      ensures ok ==> forall t, s :: 0 <= t < 2 * NUM_HUFF_TBLS && 0 <= s < COUNTS ==>
                Left(t, s, y) == old(Left(t, s, x))
      ensures ok ==> lastDc[..] == McuLast(ly, old(lastDc[..]), 0, mcu)
    {
      hide Uses, BlockItems, HuffItems.InRange, Left;
      ghost var enter := lastDc[..];
      ghost var goal := x + McuItems(ly, enter, 0, mcu);
      y := x;
      for blkn := 0 to |mcu|
        invariant forall t, s :: 0 <= t < 2 * NUM_HUFF_TBLS && 0 <= s < COUNTS ==> Left(t, s, y) == old(Left(t, s, x))
        invariant y + McuItems(ly, lastDc[..], blkn, mcu) == goal
        invariant McuLast(ly, lastDc[..], blkn, mcu) == McuLast(ly, enter, 0, mcu)
        invariant McuInRange(ly, enter, 0, mcu) <==> McuInRange(ly, lastDc[..], blkn, mcu)
      {
        var ci := ly.membership[blkn];
        ghost var l := lastDc[..];
        Join(y, BlockItems(ly.dcTbl[ci], ly.acTbl[ci], mcu[blkn], l[ci]),
             McuItems(ly, l[ci := mcu[blkn][0]], blkn + 1, mcu));
        ok, y := HtestOneBlock(mcu[blkn], lastDc[ci], ly.dcTbl[ci], ly.acTbl[ci], y);
        if !ok {
          return;
        }
        lastDc[ci] := mcu[blkn][0];
        assert lastDc[..] == l[ci := mcu[blkn][0]];
      }
      assert y + [] == y;
      ok := true;
    }

    /** Re-initialize DC predictions to 0. */
    method ResetPredictions()
      requires Shape()
      modifies lastDc
      ensures lastDc[..] == seq(|ly.dcTbl|, c => 0)
    {
      for ci := 0 to lastDc.Length
        invariant forall c :: 0 <= c < ci ==> lastDc[c] == 0
      {
        lastDc[ci] := 0;
      }
    }

    // ---- The output pass ----

    ghost predicate Sending()
      reads this, w
    {
      Shape() && w.Valid() && GoodCodes(codes)
    }

    /** The DC difference: the symbol and the extra bits of temp2. */
    method SendDc(v: int, tbl: nat, ghost more: seq<Item>, ghost goal: seq<bit>)
      requires Sending() && -0x10000 < v < 0x10000 && tbl < NUM_HUFF_TBLS
      requires Owed(codes, w.bits, DcItems(tbl, v) + more, goal)
      modifies w`putBuffer, w`putBits, w`out, w`done, w`bits
      ensures Sending() && Owed(codes, w.bits, more, goal)
      ensures w.putBits == FillDc(codes, w.wordBits, tbl, v, old(w.putBits))
    {
      hide NBits, LowBits, Pow2, Word, Owed, w.Consistent;
      var nbits := CountBits(Abs(v));
      ShortBits(v);
      DcSplit(tbl, v, more);
      Pay(codes, w.bits, Symbol(DcTable(tbl), nbits), [ValueItem(v)] + more, goal);
      w.EmitBits(codes.co[DcTable(tbl)][nbits], codes.si[DcTable(tbl)][nbits]);
      Pay(codes, w.bits, ValueItem(v), more, goal);
      w.EmitBits(LowBits(v, nbits), nbits);
    }

    /** while (r > 15) { EMIT_BITS(code_0xf0, size_0xf0) r -= 16; } */
    method SendZeroRuns(tbl: nat, r0: nat, ghost more: seq<Item>, ghost goal: seq<bit>) returns (r: nat)
      requires Sending() && tbl < NUM_HUFF_TBLS && Owed(codes, w.bits, ZeroRuns(tbl, r0) + more, goal)
      modifies w`putBuffer, w`putBits, w`out, w`done, w`bits
      ensures Sending() && r == r0 % 16 && Owed(codes, w.bits, more, goal)
      ensures w.putBits == FillRuns(codes, w.wordBits, tbl, r0, old(w.putBits))
    {
      hide Pow2, Word, Owed, w.Consistent;
      r := r0;
      while r > 15
        invariant Sending() && r % 16 == r0 % 16 && Owed(codes, w.bits, ZeroRuns(tbl, r) + more, goal)
        invariant FillRuns(codes, w.wordBits, tbl, r, w.putBits) == FillRuns(codes, w.wordBits, tbl, r0, old(w.putBits))
      {
        assert ZeroRuns(tbl, r) + more == [Symbol(AcTable(tbl), 0xF0)] + (ZeroRuns(tbl, r - 16) + more);
        Pay(codes, w.bits, Symbol(AcTable(tbl), 0xF0), ZeroRuns(tbl, r - 16) + more, goal);
        w.EmitBits(codes.co[AcTable(tbl)][0xF0], codes.si[AcTable(tbl)][0xF0]);
        r := r - 16;
      }
      assert [] + more == more;
    }

    /** The body of kloop for a nonzero coefficient v. */
    method SendCoef(tbl: nat, r0: nat, v: int, ghost more: seq<Item>, ghost goal: seq<bit>)
      requires Sending() && Short(v) && v != 0 && tbl < NUM_HUFF_TBLS
      requires Owed(codes, w.bits, CoefItems(tbl, r0, v) + more, goal)
      modifies w`putBuffer, w`putBits, w`out, w`done, w`bits
      ensures Sending() && Owed(codes, w.bits, more, goal)
      ensures w.putBits == FillCoef(codes, w.wordBits, tbl, r0, v, old(w.putBits))
    {
      hide NBits, LowBits, Pow2, Word, Owed, ZeroRuns, w.Consistent, FillRuns;
      var nbits := CountBits(Abs(v));
      ShortBits(v);
      CoefSplit(tbl, r0, v, more);
      var r := SendZeroRuns(tbl, r0, [Symbol(AcTable(tbl), r0 % 16 * 16 + nbits)] + ([ValueItem(v)] + more), goal);
      var temp3 := r * 16 + nbits;
      Pay(codes, w.bits, Symbol(AcTable(tbl), temp3), [ValueItem(v)] + more, goal);
      ghost var sent := w.bits + Word(codes.co[AcTable(tbl)][temp3], codes.si[AcTable(tbl)][temp3]);
      Pay(codes, sent, ValueItem(v), more, goal);
      LowBitsAre(v, nbits);
      w.EmitCode(codes.co[AcTable(tbl)][temp3], codes.si[AcTable(tbl)][temp3], if v < 0 then v - 1 else v, nbits);
    }

    /** "Encode the AC coefficients", and the end-of-block code. */
    method SendAc(tbl: nat, b: Block, ghost more: seq<Item>, ghost goal: seq<bit>)
      requires Sending() && ShortBlock(b) && tbl < NUM_HUFF_TBLS
      requires Owed(codes, w.bits, AcItems(tbl, b, 1, 0) + more, goal)
      modifies w`putBuffer, w`putBits, w`out, w`done, w`bits
      ensures Sending() && Owed(codes, w.bits, more, goal)
      ensures w.putBits == FillAc(codes, w.wordBits, tbl, b, 1, 0, old(w.putBits))
    {
      hide Pow2, Word, Owed, AcItems, CoefItems, w.Consistent, FillAc, FillCoef, AfterBits;
      var r, k := 0, 1;
      while k < DCTSIZE2
        invariant 1 <= k <= DCTSIZE2 && Sending() && Owed(codes, w.bits, AcItems(tbl, b, k, r) + more, goal)
        invariant FillAc(codes, w.wordBits, tbl, b, k, r, w.putBits)
                  == FillAc(codes, w.wordBits, tbl, b, 1, 0, old(w.putBits))
      {
        AcItemsStep(tbl, b, k, r);
        FillAcStep(codes, w.wordBits, tbl, b, k, r, w.putBits);
        if b[k] == 0 {
          r := r + 1;
        } else {
          Join([], CoefItems(tbl, r, b[k]), AcItems(tbl, b, k + 1, 0) + more);
          assert CoefItems(tbl, r, b[k]) + AcItems(tbl, b, k + 1, 0) + more
              == CoefItems(tbl, r, b[k]) + (AcItems(tbl, b, k + 1, 0) + more);
          SendCoef(tbl, r, b[k], AcItems(tbl, b, k + 1, 0) + more, goal);
          r := 0;
        }
        k := k + 1;
      }
      AcItemsStep(tbl, b, k, r);
      FillAcStep(codes, w.wordBits, tbl, b, k, r, w.putBits);
      if r > 0 {
        Pay(codes, w.bits, Symbol(AcTable(tbl), 0), more, goal);
        w.EmitBits(codes.co[AcTable(tbl)][0], codes.si[AcTable(tbl)][0]);
      } else {
        assert [] + more == more;
      }
    }

    /** encode_one_block. */
    method EncodeOneBlock(b: Block, last: int, dcTbl: nat, acTbl: nat, ghost more: seq<Item>, ghost goal: seq<bit>)
      requires Sending() && ShortBlock(b) && Short(last) && dcTbl < NUM_HUFF_TBLS && acTbl < NUM_HUFF_TBLS
      requires Owed(codes, w.bits, BlockItems(dcTbl, acTbl, b, last) + more, goal)
      modifies w`putBuffer, w`putBits, w`out, w`done, w`bits
      ensures Sending() && Owed(codes, w.bits, more, goal)
      ensures w.putBits == FillBlock(codes, w.wordBits, dcTbl, acTbl, b, last, old(w.putBits))
    {
      hide Owed, AcItems, DcItems, w.Consistent, GoodCodes, FillDc, FillAc;
      assert DcItems(dcTbl, b[0] - last) + AcItems(acTbl, b, 1, 0) + more
          == DcItems(dcTbl, b[0] - last) + (AcItems(acTbl, b, 1, 0) + more);
      SendDc(b[0] - last, dcTbl, AcItems(acTbl, b, 1, 0) + more, goal);
      SendAc(acTbl, b, more, goal);
    }

    /** "Encode the MCU data blocks". */
    method SendBlocks(mcu: Mcu)
      requires Sending() && |mcu| == |ly.membership| && ShortMcu(mcu) && ShortLast(lastDc[..])
      requires AllSendable(codes, McuItems(ly, lastDc[..], 0, mcu))
      modifies lastDc, w`putBuffer, w`putBits, w`out, w`done, w`bits
      ensures Sending() && ShortLast(lastDc[..])
      ensures w.bits == old(w.bits) + BitsFor(codes, McuItems(ly, old(lastDc[..]), 0, mcu))
      ensures w.putBits == FillMcu(codes, w.wordBits, ly, old(lastDc[..]), 0, mcu, old(w.putBits))
      ensures lastDc[..] == McuLast(ly, old(lastDc[..]), 0, mcu)
    {
      hide Owed, BlockItems, w.Consistent, GoodCodes, FillBlock;
      ghost var enter := lastDc[..];
      ghost var goal := w.bits + BitsFor(codes, McuItems(ly, enter, 0, mcu));
      ghost var full := FillMcu(codes, w.wordBits, ly, enter, 0, mcu, w.putBits);
      Owing(codes, w.bits, McuItems(ly, enter, 0, mcu));
      for blkn := 0 to |mcu|
        invariant Sending() && ShortLast(lastDc[..])
        invariant Owed(codes, w.bits, McuItems(ly, lastDc[..], blkn, mcu), goal)
        invariant FillMcu(codes, w.wordBits, ly, lastDc[..], blkn, mcu, w.putBits) == full
        invariant McuLast(ly, lastDc[..], blkn, mcu) == McuLast(ly, enter, 0, mcu)
      {
        var ci := ly.membership[blkn];
        ghost var l := lastDc[..];
        EncodeOneBlock(mcu[blkn], lastDc[ci], ly.dcTbl[ci], ly.acTbl[ci],
                       McuItems(ly, l[ci := mcu[blkn][0]], blkn + 1, mcu), goal);
        lastDc[ci] := mcu[blkn][0];
        assert lastDc[..] == l[ci := mcu[blkn][0]];
      }
      PaidUp(codes, w.bits, goal);
    }

    /** What has been put into the bit buffer since the last restart. */
    ghost function Now(): Held
      reads w
    {
      Held(w.bits, w.putBits)
    }

    /** flush_bits. */
    method Flush()
      requires w.Valid()
      modifies w
      ensures w.putBits == 0 && (w.wordBits == 32 || w.wordBits == 64)
      ensures w.out == old(w.head) + RunBytes(Flushed(w.wordBits, old(w.bits), old(w.putBits)))
    {
      hide Word, Pow2, BitsOf, Stuff, Padded, Bytes, Flushed;
      ghost var x := Flushed(w.wordBits, w.bits, w.putBits);
      w.FlushBits();
      BitsOfInjective(w.done, Bytes(Padded(x)));
    }

    /** encode_mcu_huff. */
    method EncodeMcuHuff(mcu: Mcu)
      requires Sending() && |mcu| == |ly.membership| && ShortMcu(mcu) && ShortLast(lastDc[..])
      requires AllSendable(codes, McuItems(ly, Entering(ly, interval, At()), 0, mcu))
      modifies this`restartsToGo, this`nextRestartNum, lastDc, w
      ensures Sending() && ShortLast(lastDc[..]) && At() == After(ly, interval, old(At()), mcu)
      ensures Now() == HeldAfter(codes, w.wordBits, ly, interval, old(At()), old(Now()), mcu)
      ensures w.head == if AtRestart(interval, old(At()))
                        then old(w.head) + RunBytes(Flushed(w.wordBits, old(w.bits), old(w.putBits)))
                          + RestartMarker(old(nextRestartNum))
                        else old(w.head)
    {
      hide McuItems, McuLast, BitsFor, RunBytes, GoodCodes, w.Consistent, AllSendable, FillMcu, Flushed;
      ghost var h := At();
      if interval > 0 && restartsToGo == 0 {
        Flush();
        w.WriteMarker(RST0 + nextRestartNum);
        ResetPredictions();
      }
      assert lastDc[..] == Entering(ly, interval, h);
      SendBlocks(mcu);
      if interval > 0 {
        if restartsToGo == 0 {
          restartsToGo := interval;
          nextRestartNum := (nextRestartNum + 1) % 8;
        }
        restartsToGo := restartsToGo - 1;
      }
    }

    // ---- Whole passes ----

    /** start_pass_huff: predictions, bit buffer and restart counters. */
    method StartPass()
      requires Shape() && (w.wordBits == 32 || w.wordBits == 64)
      modifies this`restartsToGo, this`nextRestartNum, lastDc, w
      ensures Shape() && w.Valid() && Now() == Held([], 0) && w.head == w.out == old(w.out)
      ensures At() == StartPlace(ly, interval) && ShortLast(lastDc[..])
    {
      ResetPredictions();
      w.StartRun();
      restartsToGo := interval;
      nextRestartNum := 0;
    }

    /** The gathering pass over a scan: every count is the number of uses of its
        symbol in the scan. */
    method GatherScan(mcus: seq<Mcu>) returns (ok: bool)
      requires Shape() && Shaped(ly, mcus)
      modifies this`restartsToGo, this`nextRestartNum, lastDc, counts
      ensures Shape() && (ok <==> ScanInRange(ly, interval, StartPlace(ly, interval), mcus))
      ensures ok ==> forall t, s :: 0 <= t < 2 * NUM_HUFF_TBLS && 0 <= s < COUNTS ==>
                       counts[t, s] == Uses(ScanItems(ly, interval, StartPlace(ly, interval), mcus), t, s)
    {
      hide McuItems, McuLast, McuInRange, Entering, After, Uses;
      ResetPredictions();
      restartsToGo, nextRestartNum := interval, 0;
      forall t, s | 0 <= t < 2 * NUM_HUFF_TBLS && 0 <= s < COUNTS {
        counts[t, s] := 0;
      }
      ghost var h, x: seq<Item> := At(), [];
      assert h == StartPlace(ly, interval);
      ghost var goal := ScanItems(ly, interval, h, mcus);
      NoUses();
      assert mcus[0..] == mcus;
      for i := 0 to |mcus|
        invariant Shape() && GoodPlace(ly, h) && At() == h.(num := nextRestartNum)
        invariant forall t, s :: 0 <= t < 2 * NUM_HUFF_TBLS && 0 <= s < COUNTS ==> Left(t, s, x) == 0
        invariant x + ScanItems(ly, interval, h, mcus[i..]) == goal
        invariant ScanInRange(ly, interval, StartPlace(ly, interval), mcus) <==> ScanInRange(ly, interval, h, mcus[i..])
      {
        assert mcus[i..][0] == mcus[i] && mcus[i..][1..] == mcus[i + 1..];
        NumIrrelevant(ly, interval, h, nextRestartNum, mcus[i]);
        Join(x, McuItems(ly, Entering(ly, interval, h), 0, mcus[i]),
             ScanItems(ly, interval, After(ly, interval, h, mcus[i]), mcus[i + 1..]));
        ok, x := EncodeMcuGather(mcus[i], x);
        if !ok {
          return;
        }
        h := After(ly, interval, h, mcus[i]);
      }
      assert x + [] == x;
      forall t, s | 0 <= t < 2 * NUM_HUFF_TBLS && 0 <= s < COUNTS ensures counts[t, s] == Uses(x, t, s) {
        assert Left(t, s, x) == 0;
      }
      ok := true;
    }

    /** The output pass over a scan. */
    method EncodeScan(mcus: seq<Mcu>)
      requires Shape() && (w.wordBits == 32 || w.wordBits == 64) && GoodCodes(codes)
      requires Shaped(ly, mcus) && forall i :: 0 <= i < |mcus| ==> ShortMcu(mcus[i])
      requires AllSendable(codes, ScanItems(ly, interval, StartPlace(ly, interval), mcus))
      modifies this`restartsToGo, this`nextRestartNum, lastDc, w
      ensures Shape() && w.out == old(w.out)
              + Written(codes, w.wordBits, ly, interval, StartPlace(ly, interval), Held([], 0), mcus)
    {
      hide McuItems, McuLast, Entering, After, RunBytes, GoodCodes, w.Consistent, AllSendable, ShortMcu, HeldAfter,
           Flushed;
      StartPass();
      ghost var goal := w.out + Written(codes, w.wordBits, ly, interval, At(), Now(), mcus);
      for i := 0 to |mcus|
        invariant Sending() && ShortLast(lastDc[..])
        invariant AllSendable(codes, ScanItems(ly, interval, At(), mcus[i..]))
        invariant w.head + Written(codes, w.wordBits, ly, interval, At(), Now(), mcus[i..]) == goal
      {
        ghost var head, h, x, rest := w.head, At(), Now(), mcus[i + 1..];
        assert mcus[i..][0] == mcus[i] && mcus[i..][1..] == rest;
        SendableParts(codes, McuItems(ly, Entering(ly, interval, h), 0, mcus[i]),
                      ScanItems(ly, interval, After(ly, interval, h, mcus[i]), rest));
        EncodeMcuHuff(mcus[i]);
        if AtRestart(interval, h) {
          AppendFour(head, RunBytes(Flushed(w.wordBits, x.bits, x.n)), RestartMarker(h.num),
                  Written(codes, w.wordBits, ly, interval, At(), Now(), rest));
        }
      }
      Flush();
    }

    /** A count, less the uses that are known. */
    ghost function Left(t: nat, s: nat, x: seq<Item>): int
      requires t < counts.Length0 && s < counts.Length1
      reads counts
    {
      counts[t, s] - Uses(x, t, s)
    }
  }

  lemma NoUses()
    ensures forall t: nat, s: nat :: Uses([], t, s) == 0
  {
  }

  /** The restart number does not matter to what is coded. */
  lemma NumIrrelevant(ly: Layout, interval: nat, h: Place, num: nat, mcu: Mcu)
    requires GoodLayout(ly) && GoodPlace(ly, h) && num < 8 && |mcu| == |ly.membership|
    ensures Entering(ly, interval, h.(num := num)) == Entering(ly, interval, h)
    ensures After(ly, interval, h.(num := num), mcu).(num := num) == After(ly, interval, h, mcu).(num := num)
  {
  }

  // ---- What is still to be sent ----

  /** Sending x after `sent` makes up goal. */
  ghost predicate Owed(cd: Codes, sent: seq<bit>, x: seq<Item>, goal: seq<bit>) {
    GoodCodes(cd) && AllSendable(cd, x) && sent + BitsFor(cd, x) == goal
  }

  lemma Owing(cd: Codes, sent: seq<bit>, x: seq<Item>)
    requires GoodCodes(cd) && AllSendable(cd, x)
    ensures Owed(cd, sent, x, sent + BitsFor(cd, x))
  {
  }

  lemma PaidUp(cd: Codes, sent: seq<bit>, goal: seq<bit>)
    requires Owed(cd, sent, [], goal)
    ensures sent == goal
  {
  }

  lemma Pay(cd: Codes, sent: seq<bit>, x: Item, more: seq<Item>, goal: seq<bit>)
    requires Owed(cd, sent, [x] + more, goal)
    ensures GoodCodes(cd) && Sendable(cd, x) && Owed(cd, sent + ItemBits(cd, x), more, goal)
    ensures x.Symbol? ==> cd.si[x.tbl][x.sym] <= 16 && cd.co[x.tbl][x.sym] < Pow2(cd.si[x.tbl][x.sym])
  {
    hide Pow2, Word;
    BitsForFirst(cd, x, more);
    assert sent + (ItemBits(cd, x) + BitsFor(cd, more)) == sent + ItemBits(cd, x) + BitsFor(cd, more);
  }

  lemma DcSplit(tbl: nat, v: int, more: seq<Item>)
    ensures DcItems(tbl, v) + more == [Symbol(DcTable(tbl), NBits(Abs(v)))] + ([ValueItem(v)] + more)
  {
  }

  lemma CoefSplit(tbl: nat, r: nat, v: int, more: seq<Item>)
    ensures CoefItems(tbl, r, v) + more
         == ZeroRuns(tbl, r) + ([Symbol(AcTable(tbl), r % 16 * 16 + NBits(Abs(v)))] + ([ValueItem(v)] + more))
  {
  }

  lemma LowBitsAre(v: int, n: nat)
    ensures LowBits(v, n) == (if v < 0 then v - 1 else v) % Pow2(n)
  {
  }

  lemma AcItemsStep(tbl: nat, b: Block, k: nat, r: nat)
    requires k <= DCTSIZE2
    ensures AcItems(tbl, b, k, r)
         == if k == DCTSIZE2 then if r > 0 then [Symbol(AcTable(tbl), 0)] else []
            else if b[k] == 0 then AcItems(tbl, b, k + 1, r + 1)
            else CoefItems(tbl, r, b[k]) + AcItems(tbl, b, k + 1, 0)
  {
  }

  lemma FillAcStep(cd: Codes, w: nat, tbl: nat, b: Block, k: nat, r: nat, n: nat)
    requires k <= DCTSIZE2
    ensures FillAc(cd, w, tbl, b, k, r, n)
         == if k == DCTSIZE2 then if r > 0 then AfterBits(w, n, Size(cd, AcTable(tbl), 0)) else n
            else if b[k] == 0 then FillAc(cd, w, tbl, b, k + 1, r + 1, n)
            else FillAc(cd, w, tbl, b, k + 1, 0, FillCoef(cd, w, tbl, r, b[k], n))
  {
  }

  lemma AppendFour(a: seq<byte>, b: seq<byte>, c: seq<byte>, d: seq<byte>)
    ensures a + (b + (c + d)) == a + b + c + d
  {
  }

  lemma Join(x: seq<Item>, y: seq<Item>, z: seq<Item>)
    ensures x + (y + z) == x + y + z
  {
  }
}
