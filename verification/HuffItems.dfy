/** What a sequential Huffman scan consists of: the symbols and extra bits of each
    block (F.1.2 of T.81), and the bytes they become. */
module HuffItems {
  import opened Numbers
  import opened Sums
  import opened ByteSource
  import opened BitPacking
  import opened DerivedTable
  import Band = AcBand

  type Block = Band.Block
  type Mcu = seq<Block>

  const NUM_HUFF_TBLS := 4
  const MAX_COEF_BITS := 10

  /** A Huffman symbol (DC tables first, then AC tables), or n extra bits. */
  datatype Item = Symbol(tbl: nat, sym: nat) | Extra(v: nat, n: nat)

  function DcTable(tbl: nat): nat { tbl }

  function AcTable(tbl: nat): nat { NUM_HUFF_TBLS + tbl }

  /** The number of bits of a magnitude. */
  function NBits(w: nat): (n: nat)
    ensures w < Pow2(n) && (w > 0 ==> n > 0 && Pow2(n - 1) <= w)
  {
    if w == 0 then 0 else 1 + NBits(w / 2)
  }

  /** The low n bits of v if positive, or of v - 1 if negative. */
  function LowBits(v: int, n: nat): (b: nat)
    ensures b < Pow2(n)
  {
    (if v < 0 then v - 1 else v) % Pow2(n)
  }

  function ValueItem(v: int): (x: Item) {
    Extra(LowBits(v, NBits(Abs(v))), NBits(Abs(v)))
  }

  /** The DC difference v. */
  function DcItems(tbl: nat, v: int): (x: seq<Item>) {
    [Symbol(DcTable(tbl), NBits(Abs(v))), ValueItem(v)]
  }

  /** Run-length-16 symbols for a run r; r % 16 is left. */
  function ZeroRuns(tbl: nat, r: nat): (x: seq<Item>) {
    if r > 15 then [Symbol(AcTable(tbl), 0xF0)] + ZeroRuns(tbl, r - 16) else []
  }

  function CoefItems(tbl: nat, r: nat, v: int): (x: seq<Item>) {
    ZeroRuns(tbl, r) + [Symbol(AcTable(tbl), r % 16 * 16 + NBits(Abs(v))), ValueItem(v)]
  }

  /** The coefficients from k on, after a run of r zeros. */
  function AcItems(tbl: nat, b: Block, k: nat, r: nat): (x: seq<Item>)
    requires k <= DCTSIZE2
    decreases DCTSIZE2 - k
  {
    if k == DCTSIZE2 then if r > 0 then [Symbol(AcTable(tbl), 0)] else []
    else if b[k] == 0 then AcItems(tbl, b, k + 1, r + 1)
    else CoefItems(tbl, r, b[k]) + AcItems(tbl, b, k + 1, 0)
  }

  function BlockItems(dcTbl: nat, acTbl: nat, b: Block, last: int): (x: seq<Item>) {
    DcItems(dcTbl, b[0] - last) + AcItems(acTbl, b, 1, 0)
  }

  /** The coefficients are within the range that the gathering pass checks. */
  predicate InRange(b: Block, last: int) {
    && NBits(Abs(b[0] - last)) <= MAX_COEF_BITS + 1
    && forall k :: 1 <= k < DCTSIZE2 ==> NBits(Abs(b[k])) <= MAX_COEF_BITS
  }

  // ---- MCUs and scans ----

  /** The tables of each component of the scan, and the component of each block. */
  datatype Layout = Layout(dcTbl: seq<nat>, acTbl: seq<nat>, membership: seq<nat>)

  ghost predicate GoodLayout(ly: Layout) {
    && |ly.dcTbl| == |ly.acTbl|
    && (forall c :: 0 <= c < |ly.dcTbl| ==> ly.dcTbl[c] < NUM_HUFF_TBLS && ly.acTbl[c] < NUM_HUFF_TBLS)
    && (forall i :: 0 <= i < |ly.membership| ==> ly.membership[i] < |ly.dcTbl|)
  }

  /** Blocks i and on of an MCU, with the DC predictions `last`. */
  ghost function McuItems(ly: Layout, last: seq<int>, i: nat, mcu: Mcu): (x: seq<Item>)
    requires GoodLayout(ly) && |last| == |ly.dcTbl| && i <= |mcu| == |ly.membership|
    decreases |mcu| - i
  {
    if i == |mcu| then []
    else
      var c := ly.membership[i];
      BlockItems(ly.dcTbl[c], ly.acTbl[c], mcu[i], last[c]) + McuItems(ly, last[c := mcu[i][0]], i + 1, mcu)
  }

  ghost function McuLast(ly: Layout, last: seq<int>, i: nat, mcu: Mcu): (r: seq<int>)
    requires GoodLayout(ly) && |last| == |ly.dcTbl| && i <= |mcu| == |ly.membership|
    ensures |r| == |last|
    decreases |mcu| - i
  {
    if i == |mcu| then last else McuLast(ly, last[ly.membership[i] := mcu[i][0]], i + 1, mcu)
  }

  ghost predicate McuInRange(ly: Layout, last: seq<int>, i: nat, mcu: Mcu)
    requires GoodLayout(ly) && |last| == |ly.dcTbl| && i <= |mcu| == |ly.membership|
    decreases |mcu| - i
  {
    i == |mcu| || (InRange(mcu[i], last[ly.membership[i]])
                   && McuInRange(ly, last[ly.membership[i] := mcu[i][0]], i + 1, mcu))
  }

  /** last_dc_val, restarts_to_go and next_restart_num between MCUs. */
  datatype Place = Place(last: seq<int>, togo: nat, num: nat)

  ghost predicate GoodPlace(ly: Layout, h: Place) {
    |h.last| == |ly.dcTbl| && h.num < 8
  }

  predicate AtRestart(interval: nat, h: Place) { interval > 0 && h.togo == 0 }

  /** The predictions that the next MCU is coded with. */
  ghost function Entering(ly: Layout, interval: nat, h: Place): (last: seq<int>)
    requires GoodPlace(ly, h)
    ensures |last| == |ly.dcTbl|
  {
    if AtRestart(interval, h) then seq(|ly.dcTbl|, c => 0) else h.last
  }

  ghost function After(ly: Layout, interval: nat, h: Place, mcu: Mcu): (r: Place)
    requires GoodLayout(ly) && GoodPlace(ly, h) && |mcu| == |ly.membership|
    ensures GoodPlace(ly, r)
  {
    var last := McuLast(ly, Entering(ly, interval, h), 0, mcu);
    if interval == 0 then h.(last := last)
    else if h.togo == 0 then Place(last, interval - 1, (h.num + 1) % 8)
    else h.(last := last, togo := h.togo - 1)
  }

  ghost predicate Shaped(ly: Layout, mcus: seq<Mcu>) {
    forall i :: 0 <= i < |mcus| ==> |mcus[i]| == |ly.membership|
  }

  /** All symbols and extra bits of the scan from h on. */
  ghost function ScanItems(ly: Layout, interval: nat, h: Place, mcus: seq<Mcu>): (x: seq<Item>)
    requires GoodLayout(ly) && GoodPlace(ly, h) && Shaped(ly, mcus)
    decreases |mcus|
  {
    if mcus == [] then []
    else
      McuItems(ly, Entering(ly, interval, h), 0, mcus[0])
      + ScanItems(ly, interval, After(ly, interval, h, mcus[0]), mcus[1..])
  }

  ghost predicate ScanInRange(ly: Layout, interval: nat, h: Place, mcus: seq<Mcu>)
    requires GoodLayout(ly) && GoodPlace(ly, h) && Shaped(ly, mcus)
    decreases |mcus|
  {
    mcus == []
    || (McuInRange(ly, Entering(ly, interval, h), 0, mcus[0])
        && ScanInRange(ly, interval, After(ly, interval, h, mcus[0]), mcus[1..]))
  }

  function StartPlace(ly: Layout, interval: nat): Place {
    Place(seq(|ly.dcTbl|, c => 0), interval, 0)
  }

  // ---- Counting and coding ----

  /** How often a symbol is used. */
  function Uses(x: seq<Item>, tbl: nat, sym: nat): (n: nat) {
    if x == [] then 0 else Uses(x[..|x| - 1], tbl, sym) + if x[|x| - 1] == Symbol(tbl, sym) then 1 else 0
  }

  lemma {:induction false} UsedIfPresent(x: seq<Item>, i: nat)
    requires i < |x| && x[i].Symbol?
    ensures Uses(x, x[i].tbl, x[i].sym) > 0
    decreases |x|
  {
    if i < |x| - 1 {
      UsedIfPresent(x[..|x| - 1], i);
    }
  }

  /** The derived tables: code and size of every symbol, DC tables first. */
  datatype Codes = Codes(co: seq<seq<nat>>, si: seq<seq<nat>>)

  ghost predicate GoodCodes(cd: Codes) {
    && |cd.co| == |cd.si| == 2 * NUM_HUFF_TBLS
    && forall t :: 0 <= t < 2 * NUM_HUFF_TBLS ==>
         && |cd.co[t]| == |cd.si[t]| == 256
         && forall s :: 0 <= s < 256 ==> cd.si[t][s] <= 16 && (cd.si[t][s] > 0 ==> cd.co[t][s] < Pow2(cd.si[t][s]))
  }

  /** The item can be sent: its symbol has a code. */
  ghost predicate Sendable(cd: Codes, x: Item)
    requires GoodCodes(cd)
  {
    x.Symbol? ==> x.tbl < 2 * NUM_HUFF_TBLS && x.sym < 256 && cd.si[x.tbl][x.sym] > 0
  }

  ghost predicate AllSendable(cd: Codes, x: seq<Item>)
    requires GoodCodes(cd)
  {
    forall i :: 0 <= i < |x| ==> Sendable(cd, x[i])
  }

  /** The bits of an item; none for a symbol outside the tables. */
  function ItemBits(cd: Codes, x: Item): (b: seq<bit>) {
    match x
    case Symbol(tbl, sym) =>
      if tbl < |cd.co| && tbl < |cd.si| && sym < |cd.co[tbl]| && sym < |cd.si[tbl]|
      then Word(cd.co[tbl][sym], cd.si[tbl][sym]) else []
    case Extra(v, n) => Word(v, n)
  }

  function BitsFor(cd: Codes, x: seq<Item>): (b: seq<bit>)
    decreases |x|
  {
    if x == [] then [] else ItemBits(cd, x[0]) + BitsFor(cd, x[1..])
  }

  lemma {:induction false} BitsForConcat(cd: Codes, x: seq<Item>, y: seq<Item>)
    ensures BitsFor(cd, x + y) == BitsFor(cd, x) + BitsFor(cd, y)
    decreases |x|
  {
    hide ItemBits;
    if x == [] {
      assert x + y == y;
    } else {
      BitsForConcat(cd, x[1..], y);
      assert (x + y)[1..] == x[1..] + y;
    }
  }

  /** The value of a string of bits. */
  function Value(x: seq<bit>): (v: nat)
    ensures v < Pow2(|x|) && Word(v, |x|) == x
  {
    if x == [] then 0 else 2 * Value(x[..|x| - 1]) + x[|x| - 1]
  }

  /** The bytes for a whole number of bytes' worth of bits. */
  function Bytes(x: seq<bit>): (u: seq<byte>)
    requires |x| % 8 == 0
    ensures BitsOf(u) == x
  {
    if x == [] then []
    else
      var u := Bytes(x[..|x| - 8]);
      LastByte(u, x);
      u + [Value(x[|x| - 8..])]
  }

  lemma LastByte(u: seq<byte>, x: seq<bit>)
    requires |x| >= 8 && BitsOf(u) == x[..|x| - 8]
    ensures Value(x[|x| - 8..]) < 0x100 && BitsOf(u + [Value(x[|x| - 8..])]) == x
  {
    Pow2Values();
    hide Word, Pow2, BitsOf, Value;
    BitsOfSnoc(u, Value(x[|x| - 8..]));
  }

  /** What a run of bits becomes: padded, packed and stuffed. */
  function RunBytes(x: seq<bit>): (s: seq<byte>) {
    Stuff(Bytes(Padded(x)))
  }

  function RestartMarker(num: nat): (s: seq<byte>)
    requires num < 8
  {
    [0xFF, RST0 + num]
  }

  /** The bytes of the scan from h on, when x has been sent since the last restart. */
  ghost function Stream(cd: Codes, ly: Layout, interval: nat, h: Place, x: seq<bit>, mcus: seq<Mcu>): (s: seq<byte>)
    requires GoodLayout(ly) && GoodPlace(ly, h) && Shaped(ly, mcus)
    decreases |mcus|
  {
    if mcus == [] then RunBytes(x)
    else
      var items := McuItems(ly, Entering(ly, interval, h), 0, mcus[0]);
      var next := After(ly, interval, h, mcus[0]);
      if AtRestart(interval, h) then
        RunBytes(x) + RestartMarker(h.num) + Stream(cd, ly, interval, next, BitsFor(cd, items), mcus[1..])
      else
        Stream(cd, ly, interval, next, x + BitsFor(cd, items), mcus[1..])
  }

  // ---- The fill of the bit buffer ----

  /** The length of a symbol's code; 0 for a symbol outside the tables. */
  function Size(cd: Codes, tbl: nat, sym: nat): (n: nat) {
    if tbl < |cd.si| && sym < |cd.si[tbl]| then cd.si[tbl][sym] else 0
  }

  // put_bits, n before, after each part of a block has been sent with w-bit words.

  function FillDc(cd: Codes, w: nat, tbl: nat, v: int, n: nat): (m: nat) {
    AfterBits(w, AfterBits(w, n, Size(cd, DcTable(tbl), NBits(Abs(v)))), NBits(Abs(v)))
  }

  function FillRuns(cd: Codes, w: nat, tbl: nat, r: nat, n: nat): (m: nat) {
    if r > 15 then FillRuns(cd, w, tbl, r - 16, AfterBits(w, n, Size(cd, AcTable(tbl), 0xF0))) else n
  }

  function FillCoef(cd: Codes, w: nat, tbl: nat, r: nat, v: int, n: nat): (m: nat) {
    AfterCode(w, FillRuns(cd, w, tbl, r, n), Size(cd, AcTable(tbl), r % 16 * 16 + NBits(Abs(v))), NBits(Abs(v)))
  }

  function FillAc(cd: Codes, w: nat, tbl: nat, b: Block, k: nat, r: nat, n: nat): (m: nat)
    requires k <= DCTSIZE2
    decreases DCTSIZE2 - k
  {
    if k == DCTSIZE2 then if r > 0 then AfterBits(w, n, Size(cd, AcTable(tbl), 0)) else n
    else if b[k] == 0 then FillAc(cd, w, tbl, b, k + 1, r + 1, n)
    else FillAc(cd, w, tbl, b, k + 1, 0, FillCoef(cd, w, tbl, r, b[k], n))
  }

  function FillBlock(cd: Codes, w: nat, dcTbl: nat, acTbl: nat, b: Block, last: int, n: nat): (m: nat) {
    FillAc(cd, w, acTbl, b, 1, 0, FillDc(cd, w, dcTbl, b[0] - last, n))
  }

  ghost function FillMcu(cd: Codes, w: nat, ly: Layout, last: seq<int>, i: nat, mcu: Mcu, n: nat): (m: nat)
    requires GoodLayout(ly) && |last| == |ly.dcTbl| && i <= |mcu| == |ly.membership|
    decreases |mcu| - i
  {
    if i == |mcu| then n
    else
      var c := ly.membership[i];
      FillMcu(cd, w, ly, last[c := mcu[i][0]], i + 1, mcu,
              FillBlock(cd, w, ly.dcTbl[c], ly.acTbl[c], mcu[i], last[c], n))
  }

  /** What has been put into the bit buffer since the last restart, and how much of it
      is still there. */
  datatype Held = Held(bits: seq<bit>, n: nat)

  /** What the MCU after h puts into the buffer. */
  ghost function HeldAfter(cd: Codes, w: nat, ly: Layout, interval: nat, h: Place, x: Held, mcu: Mcu): (y: Held)
    requires GoodLayout(ly) && GoodPlace(ly, h) && |mcu| == |ly.membership|
  {
    var last := Entering(ly, interval, h);
    var x0 := if AtRestart(interval, h) then Held([], 0) else x;
    Held(x0.bits + BitsFor(cd, McuItems(ly, last, 0, mcu)), FillMcu(cd, w, ly, last, 0, mcu, x0.n))
  }

  /** The bytes that are written, with w-bit words: as Stream, but each flush_bits loses
      what it pushes out of the buffer. */
  ghost function Written(cd: Codes, w: nat, ly: Layout, interval: nat, h: Place, x: Held,
                         mcus: seq<Mcu>): (s: seq<byte>)
    requires GoodLayout(ly) && GoodPlace(ly, h) && Shaped(ly, mcus) && w >= 7
    decreases |mcus|
  {
    if mcus == [] then RunBytes(Flushed(w, x.bits, x.n))
    else
      var more := Written(cd, w, ly, interval, After(ly, interval, h, mcus[0]),
                          HeldAfter(cd, w, ly, interval, h, x, mcus[0]), mcus[1..]);
      if AtRestart(interval, h) then RunBytes(Flushed(w, x.bits, x.n)) + (RestartMarker(h.num) + more) else more
  }

  lemma SendableParts(cd: Codes, x: seq<Item>, y: seq<Item>)
    requires GoodCodes(cd) && AllSendable(cd, x + y)
    ensures AllSendable(cd, x) && AllSendable(cd, y)
  {
    forall i | 0 <= i < |x| ensures Sendable(cd, x[i]) {
      assert (x + y)[i] == x[i];
    }
    forall i | 0 <= i < |y| ensures Sendable(cd, y[i]) {
      assert (x + y)[i + |x|] == y[i];
    }
  }

  // ---- The range check keeps symbols inside their tables ----

  /** A table of the scan. */
  ghost predicate TableInUse(ly: Layout, t: nat) {
    exists c :: 0 <= c < |ly.dcTbl| && c < |ly.acTbl| && (t == DcTable(ly.dcTbl[c]) || t == AcTable(ly.acTbl[c]))
  }

  /** The symbols belong to tables of the scan; the size category is at most 11, and
      a DC symbol is nothing but the category. */
  ghost predicate Regular(ly: Layout, x: Item) {
    x.Symbol? ==>
      && TableInUse(ly, x.tbl) && x.tbl < 2 * NUM_HUFF_TBLS && x.sym < 256
      && x.sym % 16 <= MAX_COEF_BITS + 1 && (x.tbl < NUM_HUFF_TBLS ==> x.sym < 16)
  }

  ghost predicate AllRegular(ly: Layout, x: seq<Item>) {
    forall i :: 0 <= i < |x| ==> Regular(ly, x[i])
  }

  lemma RegularConcat(ly: Layout, x: seq<Item>, y: seq<Item>)
    requires AllRegular(ly, x) && AllRegular(ly, y)
    ensures AllRegular(ly, x + y)
  {
    hide Regular;
    assert forall i :: 0 <= i < |x + y| ==> (x + y)[i] == if i < |x| then x[i] else y[i - |x|];
  }

  lemma {:induction false} ZeroRunsRegular(ly: Layout, tbl: nat, r: nat)
    requires tbl < NUM_HUFF_TBLS && TableInUse(ly, AcTable(tbl))
    ensures AllRegular(ly, ZeroRuns(tbl, r))
  {
    if r > 15 {
      ZeroRunsRegular(ly, tbl, r - 16);
    }
  }

  lemma CoefRegular(ly: Layout, tbl: nat, r: nat, v: int)
    requires tbl < NUM_HUFF_TBLS && TableInUse(ly, AcTable(tbl)) && NBits(Abs(v)) <= MAX_COEF_BITS
    ensures AllRegular(ly, CoefItems(tbl, r, v))
  {
    hide NBits, LowBits, ZeroRuns, TableInUse;
    ZeroRunsRegular(ly, tbl, r);
    var nbits := NBits(Abs(v));
    DivModUnique(r % 16 * 16 + nbits, 16, r % 16, nbits);
    RegularConcat(ly, ZeroRuns(tbl, r), [Symbol(AcTable(tbl), r % 16 * 16 + nbits), ValueItem(v)]);
  }

  lemma {:induction false} AcRegular(ly: Layout, tbl: nat, b: Block, k: nat, r: nat)
    requires tbl < NUM_HUFF_TBLS && 1 <= k <= DCTSIZE2 && TableInUse(ly, AcTable(tbl))
    requires forall j :: 1 <= j < DCTSIZE2 ==> NBits(Abs(b[j])) <= MAX_COEF_BITS
    ensures AllRegular(ly, AcItems(tbl, b, k, r))
    decreases DCTSIZE2 - k
  {
    hide NBits, LowBits, CoefItems, TableInUse;
    if k < DCTSIZE2 {
      if b[k] == 0 {
        AcRegular(ly, tbl, b, k + 1, r + 1);
      } else {
        AcRegular(ly, tbl, b, k + 1, 0);
        CoefRegular(ly, tbl, r, b[k]);
        RegularConcat(ly, CoefItems(tbl, r, b[k]), AcItems(tbl, b, k + 1, 0));
      }
    }
  }

  lemma {:induction false} McuRegular(ly: Layout, last: seq<int>, i: nat, mcu: Mcu)
    requires GoodLayout(ly) && |last| == |ly.dcTbl| && i <= |mcu| == |ly.membership| && McuInRange(ly, last, i, mcu)
    ensures AllRegular(ly, McuItems(ly, last, i, mcu))
    decreases |mcu| - i
  {
    hide NBits, LowBits, AcItems, AllRegular;
    if i < |mcu| {
      var c := ly.membership[i];
      assert TableInUse(ly, AcTable(ly.acTbl[c])) && TableInUse(ly, DcTable(ly.dcTbl[c]));
      AcRegular(ly, ly.acTbl[c], mcu[i], 1, 0);
      DcRegular(ly, ly.dcTbl[c], mcu[i][0] - last[c]);
      McuRegular(ly, last[c := mcu[i][0]], i + 1, mcu);
      RegularConcat(ly, DcItems(ly.dcTbl[c], mcu[i][0] - last[c]), AcItems(ly.acTbl[c], mcu[i], 1, 0));
      RegularConcat(ly, BlockItems(ly.dcTbl[c], ly.acTbl[c], mcu[i], last[c]),
                    McuItems(ly, last[c := mcu[i][0]], i + 1, mcu));
    } else {
      assert AllRegular(ly, []) by { NoneRegular(ly); }
    }
  }

  lemma NoneRegular(ly: Layout)
    ensures AllRegular(ly, [])
  {
  }

  lemma DcRegular(ly: Layout, tbl: nat, v: int)
    requires tbl < NUM_HUFF_TBLS && TableInUse(ly, DcTable(tbl)) && NBits(Abs(v)) <= MAX_COEF_BITS + 1
    ensures AllRegular(ly, DcItems(tbl, v))
  {
    hide NBits, LowBits, TableInUse;
  }

  /** A scan that passes the range check uses regular symbols only. */
  lemma {:induction false} ScanRegular(ly: Layout, interval: nat, h: Place, mcus: seq<Mcu>)
    requires GoodLayout(ly) && GoodPlace(ly, h) && Shaped(ly, mcus) && ScanInRange(ly, interval, h, mcus)
    ensures AllRegular(ly, ScanItems(ly, interval, h, mcus))
    decreases |mcus|
  {
    hide GoodLayout, McuItems, McuInRange, McuLast, AllRegular;
    if mcus != [] {
      McuRegular(ly, Entering(ly, interval, h), 0, mcus[0]);
      ScanRegular(ly, interval, After(ly, interval, h, mcus[0]), mcus[1..]);
      RegularConcat(ly, McuItems(ly, Entering(ly, interval, h), 0, mcus[0]),
                    ScanItems(ly, interval, After(ly, interval, h, mcus[0]), mcus[1..]));
    } else {
      NoneRegular(ly);
    }
  }

  lemma {:induction false} PresentIfUsed(x: seq<Item>, tbl: nat, sym: nat)
    requires Uses(x, tbl, sym) > 0
    ensures exists i :: 0 <= i < |x| && x[i] == Symbol(tbl, sym)
    decreases |x|
  {
    var n := |x| - 1;
    if x[n] != Symbol(tbl, sym) {
      PresentIfUsed(x[..n], tbl, sym);
    }
  }

  lemma {:induction false} AbsentUnused(x: seq<Item>, tbl: nat, sym: nat)
    requires forall i :: 0 <= i < |x| ==> x[i] != Symbol(tbl, sym)
    ensures Uses(x, tbl, sym) == 0
    decreases |x|
  {
    if x != [] {
      AbsentUnused(x[..|x| - 1], tbl, sym);
    }
  }

  // ---- Every table in use gets a symbol ----

  /** x holds a symbol of table t. */
  ghost predicate Mentions(x: seq<Item>, t: nat) {
    exists i :: 0 <= i < |x| && x[i].Symbol? && x[i].tbl == t
  }

  lemma MentionsConcat(x: seq<Item>, y: seq<Item>, t: nat)
    requires Mentions(x, t) || Mentions(y, t)
    ensures Mentions(x + y, t)
  {
    if Mentions(x, t) {
      var i :| 0 <= i < |x| && x[i].Symbol? && x[i].tbl == t;
      assert (x + y)[i] == x[i];
    } else {
      var i :| 0 <= i < |y| && y[i].Symbol? && y[i].tbl == t;
      assert (x + y)[i + |x|] == y[i];
    }
  }

  lemma {:induction false} AcMentions(tbl: nat, b: Block, k: nat, r: nat)
    requires 1 <= k <= DCTSIZE2 && (k < DCTSIZE2 || r > 0)
    ensures Mentions(AcItems(tbl, b, k, r), AcTable(tbl))
    decreases DCTSIZE2 - k
  {
    hide NBits, LowBits, ZeroRuns;
    if k == DCTSIZE2 {
      assert AcItems(tbl, b, k, r)[0] == Symbol(AcTable(tbl), 0);
    } else if b[k] == 0 {
      AcMentions(tbl, b, k + 1, r + 1);
    } else {
      var z := ZeroRuns(tbl, r);
      var tail := [Symbol(AcTable(tbl), r % 16 * 16 + NBits(Abs(b[k]))), ValueItem(b[k])];
      assert tail[0].Symbol? && tail[0].tbl == AcTable(tbl);
      MentionsConcat(z, tail, AcTable(tbl));
      MentionsConcat(CoefItems(tbl, r, b[k]), AcItems(tbl, b, k + 1, 0), AcTable(tbl));
    }
  }

  lemma {:induction false} McuMentions(ly: Layout, last: seq<int>, i: nat, mcu: Mcu, j: nat)
    requires GoodLayout(ly) && |last| == |ly.dcTbl| && i <= j < |mcu| == |ly.membership|
    ensures Mentions(McuItems(ly, last, i, mcu), DcTable(ly.dcTbl[ly.membership[j]]))
    ensures Mentions(McuItems(ly, last, i, mcu), AcTable(ly.acTbl[ly.membership[j]]))
    decreases |mcu| - i
  {
    hide AcItems, Mentions;
    var c := ly.membership[i];
    var more := McuItems(ly, last[c := mcu[i][0]], i + 1, mcu);
    var d, t := DcTable(ly.dcTbl[ly.membership[j]]), AcTable(ly.acTbl[ly.membership[j]]);
    var dc, ac := DcItems(ly.dcTbl[c], mcu[i][0] - last[c]), AcItems(ly.acTbl[c], mcu[i], 1, 0);
    if i == j {
      assert Mentions(dc, d) by { DcMentions(ly.dcTbl[c], mcu[i][0] - last[c]); }
      AcMentions(ly.acTbl[c], mcu[i], 1, 0);
      MentionsConcat(dc, ac, d);
      MentionsConcat(dc, ac, t);
    } else {
      McuMentions(ly, last[c := mcu[i][0]], i + 1, mcu, j);
    }
    MentionsConcat(dc + ac, more, d);
    MentionsConcat(dc + ac, more, t);
  }

  lemma DcMentions(tbl: nat, v: int)
    ensures Mentions(DcItems(tbl, v), DcTable(tbl))
  {
    assert DcItems(tbl, v)[0].Symbol?;
  }

  /** Every component of the scan has a block in the MCU. */
  ghost predicate Populated(ly: Layout) {
    forall c: nat :: c < |ly.dcTbl| ==> c in ly.membership
  }

  lemma ScanMentions(ly: Layout, interval: nat, h: Place, mcus: seq<Mcu>, t: nat)
    requires GoodLayout(ly) && GoodPlace(ly, h) && Shaped(ly, mcus) && mcus != []
    requires Populated(ly) && TableInUse(ly, t)
    ensures Mentions(ScanItems(ly, interval, h, mcus), t)
  {
    hide Mentions, McuItems;
    var c: nat :| c < |ly.dcTbl| && c < |ly.acTbl| && (t == DcTable(ly.dcTbl[c]) || t == AcTable(ly.acTbl[c]));
    assert c in ly.membership;
    var j :| 0 <= j < |ly.membership| && ly.membership[j] == c;
    McuMentions(ly, Entering(ly, interval, h), 0, mcus[0], j);
    MentionsConcat(McuItems(ly, Entering(ly, interval, h), 0, mcus[0]),
                   ScanItems(ly, interval, After(ly, interval, h, mcus[0]), mcus[1..]), t);
  }
}
