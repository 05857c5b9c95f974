/** What the sequential Huffman encoder of jchuff.c writes, against what it should:
    with 64-bit words flush_bits can lose bits, and this is when. */
module HuffFlush {
  import opened Numbers
  import opened ByteSource
  import opened BitPacking
  import opened DerivedTable
  import opened HuffmanOptimality
  import opened HuffItems
  import opened HuffEncoder
  import Band = AcBand
  import R = HuffReading

  /** No flush_bits of the scan pushes a one out of the buffer. This depends on the code
      sizes and the MCUs only. */
  ghost predicate NothingLost(cd: Codes, w: nat, ly: Layout, interval: nat, h: Place, x: Held, mcus: seq<Mcu>)
    requires GoodLayout(ly) && GoodPlace(ly, h) && Shaped(ly, mcus)
    decreases |mcus|
  {
    && (mcus == [] || AtRestart(interval, h) ==> Clean(w, x.bits, x.n))
    && (mcus != [] ==> NothingLost(cd, w, ly, interval, After(ly, interval, h, mcus[0]),
                                   HeldAfter(cd, w, ly, interval, h, x, mcus[0]), mcus[1..]))
  }

  // ---- Exactly when the bytes are right ----

  lemma RunExactly(w: nat, x: seq<bit>, n: nat)
    requires w >= 7
    ensures RunBytes(Flushed(w, x, n)) == RunBytes(x) <==> Clean(w, x, n)
  {
    hide Flushed, Clean, Padded, Stuff, BitsOf;
    CleanIsKept(w, x, n);
    if RunBytes(Flushed(w, x, n)) == RunBytes(x) {
      StuffInjective(Bytes(Padded(Flushed(w, x, n))), Bytes(Padded(x)));
      PaddedInjective(Flushed(w, x, n), x);
    }
  }

  lemma RestartAtMarker(num: nat, s: seq<byte>)
    requires num < 8
    ensures R.AtMarker(RestartMarker(num) + s)
  {
  }

  /** Two runs of bits with a restart marker behind them. */
  lemma RestartExactly(x: seq<bit>, y: seq<bit>, num: nat, s: seq<byte>, t: seq<byte>)
    requires num < 8 && RunBytes(x) + (RestartMarker(num) + s) == RunBytes(y) + (RestartMarker(num) + t)
    ensures RunBytes(x) == RunBytes(y) && s == t
  {
    RestartAtMarker(num, s);
    RestartAtMarker(num, t);
    hide Padded, BitsOf, Stuff, R.AtMarker, R.ReadRun;
    R.RunRead(Bytes(Padded(x)), RestartMarker(num) + s);
    R.RunRead(Bytes(Padded(y)), RestartMarker(num) + t);
    assert s == (RestartMarker(num) + s)[2..] && t == (RestartMarker(num) + t)[2..];
  }

  lemma WrittenIs(cd: Codes, w: nat, ly: Layout, interval: nat, h: Place, x: Held, mcus: seq<Mcu>)
    requires GoodLayout(ly) && GoodPlace(ly, h) && Shaped(ly, mcus) && w >= 7 && mcus != []
    ensures var next, y := After(ly, interval, h, mcus[0]), HeldAfter(cd, w, ly, interval, h, x, mcus[0]);
            var more := Written(cd, w, ly, interval, next, y, mcus[1..]);
            && Written(cd, w, ly, interval, h, x, mcus)
               == (if AtRestart(interval, h) then RunBytes(Flushed(w, x.bits, x.n)) + (RestartMarker(h.num) + more)
                   else more)
            && y.bits == (if AtRestart(interval, h) then [] else x.bits) + R.McuBits(cd, ly, interval, h, mcus[0])
  {
    hide Flushed, RunBytes, BitsFor, McuItems, FillMcu;
  }

  /** The bytes written are those of the scan if and only if nothing is lost. */
  lemma {:induction false} LosslessExactly(cd: Codes, w: nat, ly: Layout, interval: nat, h: Place, x: Held,
                                           mcus: seq<Mcu>)
    requires GoodLayout(ly) && GoodPlace(ly, h) && Shaped(ly, mcus) && w >= 7
    ensures Written(cd, w, ly, interval, h, x, mcus) == Stream(cd, ly, interval, h, x.bits, mcus)
            <==> NothingLost(cd, w, ly, interval, h, x, mcus)
    decreases |mcus|
  {
    hide GoodLayout, BitsFor, McuItems, FillMcu, Clean, Flushed, RunBytes, R.McuBits, HeldAfter, Padded, Bytes;
    RunExactly(w, x.bits, x.n);
    if mcus != [] {
      WrittenIs(cd, w, ly, interval, h, x, mcus);
      R.StreamIs(cd, ly, interval, h, x.bits, mcus);
      hide Written, Stream;
      var next, y := After(ly, interval, h, mcus[0]), HeldAfter(cd, w, ly, interval, h, x, mcus[0]);
      LosslessExactly(cd, w, ly, interval, next, y, mcus[1..]);
      var s, t := Written(cd, w, ly, interval, next, y, mcus[1..]), Stream(cd, ly, interval, next, y.bits, mcus[1..]);
      if AtRestart(interval, h) {
        assert y.bits == R.McuBits(cd, ly, interval, h, mcus[0]);
        if Written(cd, w, ly, interval, h, x, mcus) == Stream(cd, ly, interval, h, x.bits, mcus) {
          RestartExactly(Flushed(w, x.bits, x.n), x.bits, h.num, s, t);
        }
      }
    }
  }

  // ---- A condition on the tables ----

  /** What put_bits can be after a block, and anywhere inside one. */
  function AfterBlock(w: nat): nat { if w == 32 then 15 else 57 }

  function Inside(w: nat): nat { if w == 32 then 15 else 63 }

  /** No end-of-block code is longer than 10 bits. */
  predicate ShortEnds(cd: Codes, ly: Layout) {
    forall c :: 0 <= c < |ly.acTbl| ==> Size(cd, AcTable(ly.acTbl[c]), 0) <= 10
  }

  /** With 64-bit words the coefficients are in range; with 32-bit words they need not be. */
  predicate Mild(w: nat, b: Block, last: int) {
    && NBits(Abs(b[0] - last)) <= 16
    && forall k :: 1 <= k < DCTSIZE2 ==> NBits(Abs(b[k])) <= if w == 32 then 16 else MAX_COEF_BITS
  }

  lemma SizeSmall(cd: Codes, tbl: nat, sym: nat)
    requires GoodCodes(cd)
    ensures Size(cd, tbl, sym) <= 16
  {
  }

  lemma {:induction false} RunsFill(cd: Codes, w: nat, tbl: nat, r: nat, n: nat)
    requires GoodCodes(cd) && (w == 32 || w == 64) && n <= Inside(w)
    ensures FillRuns(cd, w, tbl, r, n) <= Inside(w)
    decreases r
  {
    hide GoodCodes, Size;
    if r > 15 {
      SizeSmall(cd, AcTable(tbl), 0xF0);
      RunsFill(cd, w, tbl, r - 16, AfterBits(w, n, Size(cd, AcTable(tbl), 0xF0)));
    }
  }

  lemma CoefFill(cd: Codes, w: nat, tbl: nat, r: nat, v: int, n: nat)
    requires GoodCodes(cd) && (w == 32 || w == 64) && n <= Inside(w)
    requires NBits(Abs(v)) <= if w == 32 then 16 else MAX_COEF_BITS
    ensures FillCoef(cd, w, tbl, r, v, n) <= AfterBlock(w)
  {
    RunsFill(cd, w, tbl, r, n);
    SizeSmall(cd, AcTable(tbl), r % 16 * 16 + NBits(Abs(v)));
    hide GoodCodes, Size, NBits, FillRuns;
  }

  lemma {:induction false} AcFill(cd: Codes, w: nat, tbl: nat, b: Block, last: int, k: nat, r: nat, n: nat)
    requires GoodCodes(cd) && (w == 32 || w == 64) && 1 <= k <= DCTSIZE2 && n <= Inside(w) && Mild(w, b, last)
    requires w == 64 ==> Size(cd, AcTable(tbl), 0) <= 10
    requires k == DCTSIZE2 && r == 0 ==> n <= AfterBlock(w)
    ensures FillAc(cd, w, tbl, b, k, r, n) <= AfterBlock(w)
    decreases DCTSIZE2 - k
  {
    hide GoodCodes, Size, NBits, FillCoef;
    FillAcStep(cd, w, tbl, b, k, r, n);
    if k == DCTSIZE2 {
      SizeSmall(cd, AcTable(tbl), 0);
    } else if b[k] == 0 {
      AcFill(cd, w, tbl, b, last, k + 1, r + 1, n);
    } else {
      CoefFill(cd, w, tbl, r, b[k], n);
      AcFill(cd, w, tbl, b, last, k + 1, 0, FillCoef(cd, w, tbl, r, b[k], n));
    }
  }

  lemma BlockFill(cd: Codes, w: nat, dcTbl: nat, acTbl: nat, b: Block, last: int, n: nat)
    requires GoodCodes(cd) && (w == 32 || w == 64) && n <= AfterBlock(w) && Mild(w, b, last)
    requires w == 64 ==> Size(cd, AcTable(acTbl), 0) <= 10
    ensures FillBlock(cd, w, dcTbl, acTbl, b, last, n) <= AfterBlock(w)
  {
    SizeSmall(cd, DcTable(dcTbl), NBits(Abs(b[0] - last)));
    hide GoodCodes, Size, NBits, FillAc;
    AcFill(cd, w, acTbl, b, last, 1, 0, FillDc(cd, w, dcTbl, b[0] - last, n));
  }

  /** All blocks of an MCU. */
  ghost predicate MildMcu(w: nat, ly: Layout, last: seq<int>, i: nat, mcu: Mcu)
    requires GoodLayout(ly) && |last| == |ly.dcTbl| && i <= |mcu| == |ly.membership|
    decreases |mcu| - i
  {
    i == |mcu| || (Mild(w, mcu[i], last[ly.membership[i]])
                   && MildMcu(w, ly, last[ly.membership[i] := mcu[i][0]], i + 1, mcu))
  }

  lemma {:induction false} McuFill(cd: Codes, w: nat, ly: Layout, last: seq<int>, i: nat, mcu: Mcu, n: nat)
    requires GoodCodes(cd) && (w == 32 || w == 64) && GoodLayout(ly) && |last| == |ly.dcTbl|
             && i <= |mcu| == |ly.membership|
    requires n <= AfterBlock(w) && MildMcu(w, ly, last, i, mcu) && (w == 64 ==> ShortEnds(cd, ly))
    ensures FillMcu(cd, w, ly, last, i, mcu, n) <= AfterBlock(w)
    decreases |mcu| - i
  {
    hide GoodCodes, Size, FillBlock, Mild;
    if i < |mcu| {
      var c := ly.membership[i];
      BlockFill(cd, w, ly.dcTbl[c], ly.acTbl[c], mcu[i], last[c], n);
      McuFill(cd, w, ly, last[c := mcu[i][0]], i + 1, mcu,
              FillBlock(cd, w, ly.dcTbl[c], ly.acTbl[c], mcu[i], last[c], n));
    }
  }

  ghost predicate MildScan(w: nat, ly: Layout, interval: nat, h: Place, mcus: seq<Mcu>)
    requires GoodLayout(ly) && GoodPlace(ly, h) && Shaped(ly, mcus)
    decreases |mcus|
  {
    mcus == [] || (MildMcu(w, ly, Entering(ly, interval, h), 0, mcus[0])
                   && MildScan(w, ly, interval, After(ly, interval, h, mcus[0]), mcus[1..]))
  }

  lemma {:induction false} MildLosesNothing(cd: Codes, w: nat, ly: Layout, interval: nat, h: Place, x: Held,
                                            mcus: seq<Mcu>)
    requires GoodCodes(cd) && (w == 32 || w == 64) && GoodLayout(ly) && GoodPlace(ly, h) && Shaped(ly, mcus)
    requires MildScan(w, ly, interval, h, mcus) && x.n <= AfterBlock(w) && (w == 64 ==> ShortEnds(cd, ly))
    ensures NothingLost(cd, w, ly, interval, h, x, mcus)
    decreases |mcus|
  {
    CleanIsKept(w, x.bits, x.n);
    hide GoodCodes, GoodLayout, BitsFor, McuItems, FillMcu, Clean, MildMcu, ShortEnds;
    if mcus != [] {
      McuFill(cd, w, ly, Entering(ly, interval, h), 0, mcus[0], if AtRestart(interval, h) then 0 else x.n);
      MildLosesNothing(cd, w, ly, interval, After(ly, interval, h, mcus[0]),
                       HeldAfter(cd, w, ly, interval, h, x, mcus[0]), mcus[1..]);
    }
  }

  lemma {:induction false} InRangeMildMcu(ly: Layout, last: seq<int>, i: nat, mcu: Mcu)
    requires GoodLayout(ly) && |last| == |ly.dcTbl| && i <= |mcu| == |ly.membership| && McuInRange(ly, last, i, mcu)
    ensures MildMcu(64, ly, last, i, mcu)
    decreases |mcu| - i
  {
    hide NBits;
    if i < |mcu| {
      InRangeMildMcu(ly, last[ly.membership[i] := mcu[i][0]], i + 1, mcu);
    }
  }

  lemma {:induction false} InRangeMild(ly: Layout, interval: nat, h: Place, mcus: seq<Mcu>)
    requires GoodLayout(ly) && GoodPlace(ly, h) && Shaped(ly, mcus) && ScanInRange(ly, interval, h, mcus)
    ensures MildScan(64, ly, interval, h, mcus)
    decreases |mcus|
  {
    hide GoodLayout, MildMcu, McuInRange;
    if mcus != [] {
      InRangeMildMcu(ly, Entering(ly, interval, h), 0, mcus[0]);
      InRangeMild(ly, interval, After(ly, interval, h, mcus[0]), mcus[1..]);
    }
  }

  lemma ShortMild(b: Block, last: int)
    requires ShortBlock(b) && Short(last)
    ensures Mild(32, b, last)
  {
    hide NBits;
    ShortBits(b[0] - last);
    forall k | 1 <= k < DCTSIZE2 ensures NBits(Abs(b[k])) <= 16 {
      ShortBits(b[k]);
    }
  }

  lemma {:induction false} ShortMildMcu(ly: Layout, last: seq<int>, i: nat, mcu: Mcu)
    requires GoodLayout(ly) && |last| == |ly.dcTbl| && i <= |mcu| == |ly.membership| && ShortMcu(mcu) && ShortLast(last)
    ensures MildMcu(32, ly, last, i, mcu) && ShortLast(McuLast(ly, last, i, mcu))
    decreases |mcu| - i
  {
    hide Mild;
    if i < |mcu| {
      ShortMild(mcu[i], last[ly.membership[i]]);
      ShortMildMcu(ly, last[ly.membership[i] := mcu[i][0]], i + 1, mcu);
    }
  }

  lemma {:induction false} ShortMildScan(ly: Layout, interval: nat, h: Place, mcus: seq<Mcu>)
    requires GoodLayout(ly) && GoodPlace(ly, h) && Shaped(ly, mcus) && ShortLast(h.last)
    requires forall i :: 0 <= i < |mcus| ==> ShortMcu(mcus[i])
    ensures MildScan(32, ly, interval, h, mcus)
    decreases |mcus|
  {
    hide GoodLayout, MildMcu, ShortMcu, McuLast;
    if mcus != [] {
      ShortMildMcu(ly, Entering(ly, interval, h), 0, mcus[0]);
      ShortMildScan(ly, interval, After(ly, interval, h, mcus[0]), mcus[1..]);
    }
  }

  /** With 32-bit words nothing is lost; with 64-bit words, nothing when the coefficients
      are in range and no end-of-block code is longer than 10 bits. */
  lemma ShortEndsLoseNothing(cd: Codes, w: nat, ly: Layout, interval: nat, mcus: seq<Mcu>)
    requires GoodCodes(cd) && (w == 32 || w == 64) && GoodLayout(ly) && Shaped(ly, mcus)
    requires forall i :: 0 <= i < |mcus| ==> ShortMcu(mcus[i])
    requires w == 64 ==> ScanInRange(ly, interval, StartPlace(ly, interval), mcus) && ShortEnds(cd, ly)
    ensures NothingLost(cd, w, ly, interval, StartPlace(ly, interval), Held([], 0), mcus)
  {
    hide GoodLayout, GoodCodes, ShortMcu, ScanInRange, MildScan, NothingLost, ShortEnds;
    if w == 64 {
      InRangeMild(ly, interval, StartPlace(ly, interval), mcus);
    } else {
      ShortMildScan(ly, interval, StartPlace(ly, interval), mcus);
    }
    MildLosesNothing(cd, w, ly, interval, StartPlace(ly, interval), Held([], 0), mcus);
  }

  // ---- A scan that loses bits ----

  lemma {:induction false} ZeroBlockItems(cd: Codes, w: nat, tbl: nat, k: nat, r: nat, n: nat)
    requires 1 <= k <= DCTSIZE2 && (r > 0 || k < DCTSIZE2)
    ensures AcItems(tbl, Band.ZeroBlock(), k, r) == [Symbol(AcTable(tbl), 0)]
    ensures FillAc(cd, w, tbl, Band.ZeroBlock(), k, r, n) == AfterBits(w, n, Size(cd, AcTable(tbl), 0))
    decreases DCTSIZE2 - k
  {
    hide AfterBits;
    if k < DCTSIZE2 {
      ZeroBlockItems(cd, w, tbl, k + 1, r + 1, n);
    }
  }

  const PAIR := Layout([0], [0], [0, 0])

  function PairMcu(): (mcu: Mcu) { [Band.ZeroBlock(), Band.ZeroBlock()] }

  /** One DC table with the words 0 and 100000000000000, and one AC table with a single
      word of 16 zeros. */
  function LosingCodes(): (cd: Codes) {
    var none := seq(256, s => 0);
    Codes([none[0 := 0x4000]] + seq(7, t => none),
          [none[0 := 15][1 := 1]] + seq(3, t => none) + [none[0 := 16]] + seq(3, t => none))
  }

  lemma LosingTables()
    ensures var cd := LosingCodes();
            && GoodCodes(cd) && R.GoodTable(cd.co[0], cd.si[0]) && R.GoodTable(cd.co[4], cd.si[4])
            && Size(cd, 0, 0) == 15 && Size(cd, 4, 0) == 16
            && cd.co[0][0] == 0x4000
  {
    var cd := LosingCodes();
    SomePowers();
    hide Pow2;
    FirstDiffers();
    TwoWords(cd.co[0], cd.si[0]);
    hide Word;
  }

  lemma SomePowers()
    ensures Pow2(1) == 2 && 0x4000 < Pow2(15) && 0 < Pow2(16)
  {
    Pow2Values();
    Pow2Twice(14);
    Pow2Twice(15);
    Pow2Twice(0);
  }

  lemma TwoWords(co: seq<nat>, si: seq<nat>)
    requires |co| == |si| == 256 && si[0] == 15 && si[1] == 1 && (forall s :: 2 <= s < 256 ==> si[s] == 0)
    requires co[0] == 0x4000 && co[1] == 0
    ensures R.GoodTable(co, si)
  {
    SomePowers();
    hide Pow2;
    FirstDiffers();
    assert si[0] == 15;
    hide Word;
  }

  lemma FirstDiffers()
    ensures |Word(0x4000, 15)| == 15 && Word(0x4000, 15)[0] == 1 && Word(0, 1) == [0]
  {
    hide Word;
    Pow2Values();
    Pow2Twice(14);
    WordSplit(0x4000, 1, 14);
    assert Quotient(0x4000, Pow2(14)) == 1;
    OneBitWord();
    WordZero(1);
  }

  /** Its items and the fill of the bit buffer. */
  lemma PairIs()
    ensures GoodLayout(PAIR) && Shaped(PAIR, [PairMcu()]) && ShortMcu(PairMcu())
    ensures var block := [Symbol(0, 0), Extra(0, 0), Symbol(4, 0)];
            McuItems(PAIR, [0], 0, PairMcu()) == block + block
    ensures FillMcu(LosingCodes(), 64, PAIR, [0], 0, PairMcu(), 0) == 62
  {
    var cd, b := LosingCodes(), Band.ZeroBlock();
    var block := [Symbol(0, 0), Extra(0, 0), Symbol(4, 0)];
    LosingTables();
    hide LosingCodes;
    ZeroHasNoBits();
    ZeroBlockItems(cd, 64, 0, 1, 0, 15);
    ZeroBlockItems(cd, 64, 0, 1, 0, 46);
    NothingValue();
    hide NBits, AcItems, FillAc, Size, LowBits;
    assert BlockItems(0, 0, b, 0) == block;
    assert FillBlock(cd, 64, 0, 0, b, 0, 0) == 31;
    assert FillBlock(cd, 64, 0, 0, b, 0, 31) == 62;
    hide FillBlock, BlockItems;
    PairItems(block);
    PairFill(cd);
  }

  lemma NothingValue()
    ensures ValueItem(0) == Extra(0, 0)
  {
    ZeroHasNoBits();
    assert Pow2(0) == 1;
  }

  lemma PairItems(block: seq<Item>)
    requires GoodLayout(PAIR) && BlockItems(0, 0, Band.ZeroBlock(), 0) == block
    ensures McuItems(PAIR, [0], 0, PairMcu()) == block + block
  {
    hide BlockItems;
    assert [0][0 := 0] == [0];
    assert McuItems(PAIR, [0], 2, PairMcu()) == [];
    assert McuItems(PAIR, [0], 1, PairMcu()) == block + [];
  }

  lemma PairFill(cd: Codes)
    requires GoodLayout(PAIR) && FillBlock(cd, 64, 0, 0, Band.ZeroBlock(), 0, 0) == 31
             && FillBlock(cd, 64, 0, 0, Band.ZeroBlock(), 0, 31) == 62
    ensures FillMcu(cd, 64, PAIR, [0], 0, PairMcu(), 0) == 62
  {
    hide FillBlock;
    assert [0][0 := 0] == [0];
    assert FillMcu(cd, 64, PAIR, [0], 2, PairMcu(), 62) == 62;
    assert FillMcu(cd, 64, PAIR, [0], 1, PairMcu(), 31) == 62;
  }

  lemma PairBits()
    ensures var x := BitsFor(LosingCodes(), McuItems(PAIR, [0], 0, PairMcu()));
            |x| == 62 && x[0] == 1
  {
    var cd := LosingCodes();
    PairIs();
    LosingTables();
    FirstDiffers();
    hide LosingCodes, Word, McuItems, FillMcu;
    var x := McuItems(PAIR, [0], 0, PairMcu());
    SixItems(cd, x);
    assert cd.si[0][0] == 15 && cd.si[4][0] == 16;
  }

  lemma SixItems(cd: Codes, x: seq<Item>)
    requires |x| == 6
    ensures BitsFor(cd, x) == ItemBits(cd, x[0]) + (ItemBits(cd, x[1]) + (ItemBits(cd, x[2])
                              + (ItemBits(cd, x[3]) + (ItemBits(cd, x[4]) + ItemBits(cd, x[5])))))
  {
    hide ItemBits;
    BitsForAt(cd, x, 0);
    BitsForAt(cd, x, 1);
    BitsForAt(cd, x, 2);
    BitsForAt(cd, x, 3);
    BitsForAt(cd, x, 4);
    BitsForAt(cd, x, 5);
    assert x[6..] == [] && x[0..] == x;
    assert ItemBits(cd, x[5]) + [] == ItemBits(cd, x[5]);
  }

  lemma BitsForAt(cd: Codes, x: seq<Item>, i: nat)
    requires i < |x|
    ensures BitsFor(cd, x[i..]) == ItemBits(cd, x[i]) + BitsFor(cd, x[i + 1..])
  {
    hide ItemBits;
    assert x[i..][1..] == x[i + 1..];
  }

  lemma PairSendable()
    ensures GoodCodes(LosingCodes()) && AllSendable(LosingCodes(), ScanItems(PAIR, 0, StartPlace(PAIR, 0), [PairMcu()]))
    ensures R.Readable(LosingCodes(), ScanItems(PAIR, 0, StartPlace(PAIR, 0), [PairMcu()]))
    ensures StartPlace(PAIR, 0).last == [0]
  {
    PairIs();
    LosingTables();
    hide LosingCodes, McuItems, FillMcu, R.GoodTable, GoodCodes;
    var x := McuItems(PAIR, [0], 0, PairMcu());
    assert StartPlace(PAIR, 0).last == [0];
    assert ScanItems(PAIR, 0, StartPlace(PAIR, 0), [PairMcu()]) == x + [];
    assert x + [] == x;
    forall i | 0 <= i < |x| ensures R.Legible(LosingCodes(), x[i]) {
      assert x[i] == Symbol(0, 0) || x[i] == Extra(0, 0) || x[i] == Symbol(4, 0);
    }
  }

  lemma PairLoses()
    requires GoodLayout(PAIR) && Shaped(PAIR, [PairMcu()])
    ensures !NothingLost(LosingCodes(), 64, PAIR, 0, StartPlace(PAIR, 0), Held([], 0), [PairMcu()])
  {
    PairIs();
    PairBits();
    hide LosingCodes, McuItems, FillMcu, BitsFor;
    var h := StartPlace(PAIR, 0);
    assert h.last == [0];
    var x := BitsFor(LosingCodes(), McuItems(PAIR, [0], 0, PairMcu()));
    var y := HeldAfter(LosingCodes(), 64, PAIR, 0, h, Held([], 0), PairMcu());
    assert y.bits == [] + x && [] + x == x && y.n == 62;
    assert !Clean(64, y.bits, y.n) by { assert y.bits[0] == 1; }
  }

  // ---- The tables of that scan, as jpeg_make_c_derived_tbl accepts them ----

  /** One code of length 1, for symbol 1, and one of length 15, for symbol 0. */
  const DC_BITS: seq<nat> := seq(17, l => if l == 1 || l == 15 then 1 else 0)
  const DC_HUFFVAL: seq<nat> := seq(256, p => if p == 0 then 1 else 0)

  /** One code of length 16, for symbol 0. */
  const AC_BITS: seq<nat> := seq(17, l => if l == 16 then 1 else 0)
  const AC_HUFFVAL: seq<nat> := seq(256, p => 0)

  lemma {:induction false} DcCounts(l: nat)
    requires l <= 16
    ensures Upto(DC_BITS, l) == if l == 0 then 0 else if l < 15 then 1 else 2
    ensures DerivedTable.NextCode(DC_BITS, l) == if l == 0 then 0 else if l < 15 then Pow2(l - 1)
            else Pow2(l - 1) + Pow2(l - 15)
  {
    assert Pow2(0) == 1;
    hide Upto, DerivedTable.NextCode, Pow2;
    UptoStep(DC_BITS, l);
    if l > 0 {
      DcCounts(l - 1);
      if l > 1 {
        Pow2Twice(l - 2);
      }
      if l > 15 {
        Pow2Twice(l - 16);
      }
    }
  }

  lemma {:induction false} AcCounts(l: nat)
    requires l <= 16
    ensures Upto(AC_BITS, l) == DerivedTable.NextCode(AC_BITS, l) == if l < 16 then 0 else 1
  {
    if l > 0 {
      AcCounts(l - 1);
    }
  }

  lemma DcLegal()
    ensures Legal(DC_BITS, DC_HUFFVAL, 15)
    ensures var cd := LosingCodes(); Derived(DC_BITS, DC_HUFFVAL, cd.co[0], cd.si[0])
  {
    var cd := LosingCodes();
    hide Upto, DerivedTable.NextCode, Pow2;
    DcCounts(16);
    SomePowers();
    Pow2Values();
    Pow2Twice(13);
    Pow2Twice(14);
    Pow2Twice(15);
    var listed := DC_HUFFVAL[..2];
    assert listed[0] == 1 && listed[1] == 0;
    assert 0 in listed && 1 in listed;
    forall l, p | 1 <= l <= 16 && 0 <= p < 256 && AtLength(DC_BITS, l, p)
      ensures cd.si[0][DC_HUFFVAL[p]] == l && cd.co[0][DC_HUFFVAL[p]] == CodeAt(DC_BITS, l, p)
    {
      DcCounts(l - 1);
      DcCounts(l);
    }
  }

  lemma AcLegal()
    ensures Legal(AC_BITS, AC_HUFFVAL, 255)
    ensures var cd := LosingCodes(); Derived(AC_BITS, AC_HUFFVAL, cd.co[4], cd.si[4])
  {
    var cd := LosingCodes();
    hide Upto, DerivedTable.NextCode, Pow2;
    AcCounts(16);
    Pow2Mono(1, 16);
    Pow2Values();
    assert AC_HUFFVAL[..1] == [0];
    forall l, p | 1 <= l <= 16 && 0 <= p < 256 && AtLength(AC_BITS, l, p)
      ensures cd.si[4][AC_HUFFVAL[p]] == l && cd.co[4][AC_HUFFVAL[p]] == CodeAt(AC_BITS, l, p)
    {
      AcCounts(l - 1);
      AcCounts(l);
    }
  }

  /** A scan whose bytes are wrong: two tables that jpeg_make_c_derived_tbl accepts, and
      one MCU of two zero blocks. */
  method LosingScan() returns (e: Encoder)
    ensures Legal(DC_BITS, DC_HUFFVAL, 15) && Legal(AC_BITS, AC_HUFFVAL, 255) && GoodCodes(e.codes)
    ensures Derived(DC_BITS, DC_HUFFVAL, e.codes.co[0], e.codes.si[0])
    ensures Derived(AC_BITS, AC_HUFFVAL, e.codes.co[AcTable(0)], e.codes.si[AcTable(0)])
    ensures e.w.wordBits == 64 && e.ly == PAIR && e.interval == 0 && e.Shape() && Shaped(PAIR, [PairMcu()])
    ensures R.Readable(e.codes, ScanItems(PAIR, 0, StartPlace(PAIR, 0), [PairMcu()]))
    ensures e.w.out != Stream(e.codes, PAIR, 0, StartPlace(PAIR, 0), [], [PairMcu()])
  {
    hide LosingCodes, McuItems, FillMcu, Written, Stream, ScanItems, NothingLost, R.Readable, AllSendable, GoodCodes,
         ShortMcu, PairMcu;
    PairIs();
    PairSendable();
    PairLoses();
    DcLegal();
    AcLegal();
    hide Legal, Derived;
    e := new Encoder(PAIR, 0, 64);
    e.codes := LosingCodes();
    ghost var before := e.w.out;
    e.EncodeScan([PairMcu()]);
    LosslessExactly(e.codes, 64, PAIR, 0, StartPlace(PAIR, 0), Held([], 0), [PairMcu()]);
  }
}
