/** Reading a sequential Huffman scan back, on bits: the block and MCU routines of
    jdhuff.c, which follow section F.2.2 of T.81. Symbols are found by their code words
    and not through the look-ahead tables; on bits that no encoder wrote the model gives
    up where the code warns and goes on. */
module HuffReading {
  import opened Numbers
  import opened ByteSource
  import opened BitPacking
  import opened DerivedTable
  import opened HuffmanOptimality
  import opened HuffItems
  import Band = AcBand

  // ---- Symbols and extra bits ----

  /** A table whose words are a prefix code. */
  ghost predicate GoodTable(co: seq<nat>, si: seq<nat>) {
    && |co| == |si| == 256 && PrefixFree(si, Words(co, si))
    && forall s :: 0 <= s < 256 && si[s] > 0 ==> co[s] < Pow2(si[s])
  }

  predicate StartsWith(co: seq<nat>, si: seq<nat>, s: nat, x: seq<bit>)
    requires |co| == |si|
  {
    s < |si| && si[s] > 0 && Word(co[s], si[s]) <= x
  }

  datatype SymbolOut = NoSymbol | Found(s: nat, rest: seq<bit>)

  /** The DECODE procedure: the first symbol, from s on, whose code word comes next. */
  function ReadSymbol(co: seq<nat>, si: seq<nat>, x: seq<bit>, s: nat): (r: SymbolOut)
    requires |co| == |si| && s <= |si|
    ensures r.Found? ==> |r.rest| < |x| && r.s < |si|
    decreases |si| - s
  {
    if s == |si| then NoSymbol
    else if StartsWith(co, si, s, x) then Found(s, x[si[s]..])
    else ReadSymbol(co, si, x, s + 1)
  }

  lemma {:induction false} ReadSymbolIs(co: seq<nat>, si: seq<nat>, s: nat, rest: seq<bit>, from: nat)
    requires GoodTable(co, si) && from <= s < 256 && si[s] > 0
    ensures ReadSymbol(co, si, Word(co[s], si[s]) + rest, from) == Found(s, rest)
    decreases s - from
  {
    var x := Word(co[s], si[s]) + rest;
    assert StartsWith(co, si, s, x);
    if from < s {
      assert !StartsWith(co, si, from, x) by {
        if StartsWith(co, si, from, x) {
          OnePrefix(Words(co, si), si, s, from, x);
        }
      }
      ReadSymbolIs(co, si, s, rest, from + 1);
    }
  }

  lemma OnePrefix(words: seq<seq<bit>>, si: seq<nat>, s: nat, t: nat, x: seq<bit>)
    requires PrefixFree(si, words) && s < |si| && t < |si| && si[s] > 0 && si[t] > 0
    requires words[s] <= x && words[t] <= x
    ensures s == t
  {
    Comparable(words[s], words[t], x);
  }

  lemma Comparable<T>(a: seq<T>, b: seq<T>, x: seq<T>)
    requires a <= x && b <= x
    ensures a <= b || b <= a
  {
    assert a == x[..|a|] && b == x[..|b|];
  }

  datatype BitsOut = NoBits | Bits(v: nat, rest: seq<bit>)

  /** The RECEIVE procedure: n bits, most significant first. */
  function ReadBits(x: seq<bit>, n: nat): (r: BitsOut)
    ensures r.Bits? ==> |r.rest| <= |x| && r.v < Pow2(n)
  {
    if |x| < n then NoBits else Bits(Value(x[..n]), x[n..])
  }

  lemma ReadBitsIs(v: nat, n: nat, rest: seq<bit>)
    requires v < Pow2(n)
    ensures ReadBits(Word(v, n) + rest, n) == Bits(v, rest)
  {
    var x := Word(v, n) + rest;
    assert x[..n] == Word(v, n) && x[n..] == rest;
    WordInjective(Value(x[..n]), v, n);
  }

  /** The EXTEND procedure: the value of category t with the extra bits v. */
  function Extend(v: nat, t: nat): (d: int) {
    if t == 0 then 0 else if v < Pow2(t - 1) then v - Pow2(t) + 1 else v
  }

  /** The encoder's extra bits and the decoder's EXTEND are inverse. */
  lemma ExtendIs(v: int)
    ensures Extend(LowBits(v, NBits(Abs(v))), NBits(Abs(v))) == v
  {
    var w := Abs(v);
    var n := NBits(w);
    if w > 0 {
      Pow2Twice(n - 1);
      hide Pow2;
      if v < 0 {
        DivModUnique(v - 1, Pow2(n), -1, Pow2(n) - w - 1);
      } else {
        DivModUnique(v, Pow2(n), 0, v);
      }
    }
  }

  // ---- One block ----

  datatype BlockOut = BadBlock | BlockOut(b: Block, rest: seq<bit>)

  /** Decoding of the AC coefficients (figure F.13): from index k on, into b. */
  ghost function ReadAc(co: seq<nat>, si: seq<nat>, x: seq<bit>, k: nat, b: Block): (r: BlockOut)
    requires |co| == |si| && k <= DCTSIZE2
    ensures r.BlockOut? ==> |r.rest| <= |x|
    decreases DCTSIZE2 - k
  {
    if k == DCTSIZE2 then BlockOut(b, x)
    else
      var o := ReadSymbol(co, si, x, 0);
      if o.NoSymbol? then BadBlock
      else if o.s == 0xF0 then
        if k + 16 <= DCTSIZE2 then ReadAc(co, si, o.rest, k + 16, b) else BadBlock
      else if o.s % 16 == 0 then BlockOut(b, o.rest)
      else ReadCoef(co, si, o.rest, k + o.s / 16, o.s % 16, b)
  }

  /** The extra bits of a coefficient of category t at index k, and what follows. */
  ghost function ReadCoef(co: seq<nat>, si: seq<nat>, x: seq<bit>, k: nat, t: nat, b: Block): (r: BlockOut)
    requires |co| == |si|
    ensures r.BlockOut? ==> |r.rest| <= |x|
    decreases DCTSIZE2 - k, 0
  {
    if k >= DCTSIZE2 then BadBlock
    else
      var o := ReadBits(x, t);
      if o.NoBits? then BadBlock else ReadAc(co, si, o.rest, k + 1, b[k := Extend(o.v, t)])
  }

  /** The first k coefficients of b, then zeros. */
  function Prefix(b: Block, k: nat): (p: Block)
    requires k <= DCTSIZE2
  {
    b[..k] + Band.ZeroBlock()[k..]
  }

  /** The item has a word, and the words of its table are a prefix code. */
  ghost predicate Legible(cd: Codes, x: Item)
    requires GoodCodes(cd)
  {
    Sendable(cd, x) && (x.Symbol? ==> GoodTable(cd.co[x.tbl], cd.si[x.tbl]))
  }

  ghost predicate Readable(cd: Codes, x: seq<Item>) {
    GoodCodes(cd) && forall i :: 0 <= i < |x| ==> Legible(cd, x[i])
  }

  lemma ReadableParts(cd: Codes, x: seq<Item>, y: seq<Item>)
    requires Readable(cd, x + y)
    ensures Readable(cd, x) && Readable(cd, y)
  {
    hide Legible;
    forall i | 0 <= i < |x| ensures Legible(cd, x[i]) {
      assert (x + y)[i] == x[i];
    }
    forall i | 0 <= i < |y| ensures Legible(cd, y[i]) {
      assert (x + y)[|x| + i] == y[i];
    }
  }

  /** A symbol that was sent is read. */
  lemma SymbolRead(cd: Codes, tbl: nat, sym: nat, more: seq<Item>, tail: seq<bit>)
    requires Readable(cd, [Symbol(tbl, sym)] + more)
    ensures tbl < 2 * NUM_HUFF_TBLS && |cd.co| == |cd.si| == 2 * NUM_HUFF_TBLS && |cd.co[tbl]| == |cd.si[tbl]| == 256
    ensures ReadSymbol(cd.co[tbl], cd.si[tbl], BitsFor(cd, [Symbol(tbl, sym)] + more) + tail, 0)
            == Found(sym, BitsFor(cd, more) + tail)
    ensures Readable(cd, more)
  {
    var x := [Symbol(tbl, sym)] + more;
    ReadableParts(cd, [Symbol(tbl, sym)], more);
    assert x[0] == Symbol(tbl, sym) && x[1..] == more && Legible(cd, x[0]);
    hide GoodTable;
    ReadSymbolIs(cd.co[tbl], cd.si[tbl], sym, BitsFor(cd, more) + tail, 0);
    var w := Word(cd.co[tbl][sym], cd.si[tbl][sym]);
    assert BitsFor(cd, x) + tail == w + (BitsFor(cd, more) + tail);
  }

  /** Extra bits that were sent are read. */
  lemma ExtraRead(cd: Codes, v: nat, n: nat, more: seq<Item>, tail: seq<bit>)
    requires Readable(cd, [Extra(v, n)] + more) && v < Pow2(n)
    ensures ReadBits(BitsFor(cd, [Extra(v, n)] + more) + tail, n) == Bits(v, BitsFor(cd, more) + tail)
    ensures Readable(cd, more)
  {
    var x := [Extra(v, n)] + more;
    ReadableParts(cd, [Extra(v, n)], more);
    assert x[0] == Extra(v, n) && x[1..] == more;
    ReadBitsIs(v, n, BitsFor(cd, more) + tail);
    assert BitsFor(cd, x) + tail == Word(v, n) + (BitsFor(cd, more) + tail);
  }

  // ---- Blocks read back ----

  lemma RunStep(co: seq<nat>, si: seq<nat>, x: seq<bit>, rest: seq<bit>, k: nat, b: Block)
    requires |co| == |si| && k + 16 <= DCTSIZE2 && ReadSymbol(co, si, x, 0) == Found(0xF0, rest)
    ensures ReadAc(co, si, x, k, b) == ReadAc(co, si, rest, k + 16, b)
  {
    hide ReadSymbol;
  }

  lemma CoefStep(co: seq<nat>, si: seq<nat>, x: seq<bit>, y: seq<bit>, rest: seq<bit>, k: nat, b: Block,
                 sym: nat, n: nat, v: nat, i: nat)
    requires |co| == |si| && k + sym / 16 == i < DCTSIZE2 && sym % 16 == n > 0
    requires ReadSymbol(co, si, x, 0) == Found(sym, y) && ReadBits(y, n) == Bits(v, rest)
    ensures ReadAc(co, si, x, k, b) == ReadAc(co, si, rest, i + 1, b[i := Extend(v, n)])
  {
    hide ReadSymbol, ReadBits, Extend;
  }

  lemma SymbolParts(r: nat, n: nat)
    requires n < 16
    ensures (r * 16 + n) / 16 == r && (r * 16 + n) % 16 == n
  {
  }

  /** The AC coefficients from k on, with the tables of the scan. */
  ghost function ReadRest(cd: Codes, tbl: nat, x: seq<bit>, k: nat, b: Block): (r: BlockOut)
    requires GoodCodes(cd) && tbl < NUM_HUFF_TBLS && k <= DCTSIZE2
  {
    ReadAc(cd.co[AcTable(tbl)], cd.si[AcTable(tbl)], x, k, b)
  }

  lemma RunRest(cd: Codes, tbl: nat, more: seq<Item>, tail: seq<bit>, k: nat, b: Block)
    requires Readable(cd, [Symbol(AcTable(tbl), 0xF0)] + more) && tbl < NUM_HUFF_TBLS && k + 16 <= DCTSIZE2
    ensures Readable(cd, more)
    ensures ReadRest(cd, tbl, BitsFor(cd, [Symbol(AcTable(tbl), 0xF0)] + more) + tail, k, b)
            == ReadRest(cd, tbl, BitsFor(cd, more) + tail, k + 16, b)
  {
    hide BitsFor, Legible, ReadAc, ReadSymbol;
    var t := AcTable(tbl);
    SymbolRead(cd, t, 0xF0, more, tail);
    RunStep(cd.co[t], cd.si[t], BitsFor(cd, [Symbol(t, 0xF0)] + more) + tail, BitsFor(cd, more) + tail, k, b);
  }

  lemma {:induction false} RunsRead(cd: Codes, tbl: nat, r: nat, more: seq<Item>, tail: seq<bit>, k: nat, b: Block)
    requires Readable(cd, ZeroRuns(tbl, r) + more) && k + r < DCTSIZE2 && tbl < NUM_HUFF_TBLS
    ensures Readable(cd, more)
    ensures ReadRest(cd, tbl, BitsFor(cd, ZeroRuns(tbl, r) + more) + tail, k, b)
            == ReadRest(cd, tbl, BitsFor(cd, more) + tail, k + (r - r % 16), b)
    decreases r
  {
    hide BitsFor, Legible, ReadRest;
    if r > 15 {
      var rest := ZeroRuns(tbl, r - 16) + more;
      assert ZeroRuns(tbl, r) + more == [Symbol(AcTable(tbl), 0xF0)] + rest;
      RunRest(cd, tbl, rest, tail, k, b);
      RunsRead(cd, tbl, r - 16, more, tail, k + 16, b);
    } else {
      assert ZeroRuns(tbl, r) + more == more;
    }
  }

  /** A nonzero coefficient at index i, by the symbol sym for the run and the category. */
  lemma CoefRest(cd: Codes, tbl: nat, sym: nat, v: int, more: seq<Item>, tail: seq<bit>, k: nat, i: nat, b: Block)
    requires v != 0 && sym % 16 == NBits(Abs(v)) && k + sym / 16 == i < DCTSIZE2 && tbl < NUM_HUFF_TBLS
    requires Readable(cd, [Symbol(AcTable(tbl), sym)] + ([ValueItem(v)] + more))
    ensures Readable(cd, more)
    ensures ReadRest(cd, tbl, BitsFor(cd, [Symbol(AcTable(tbl), sym)] + ([ValueItem(v)] + more)) + tail, k, b)
            == ReadRest(cd, tbl, BitsFor(cd, more) + tail, i + 1, b[i := v])
  {
    PositiveBits(v);
    ExtendIs(v);
    hide BitsFor, Legible, NBits, LowBits, ReadAc, ReadSymbol, ReadBits, Extend, Abs;
    var t, n := AcTable(tbl), NBits(Abs(v));
    var rest := [ValueItem(v)] + more;
    SymbolRead(cd, t, sym, rest, tail);
    ExtraRead(cd, LowBits(v, n), n, more, tail);
    CoefStep(cd.co[t], cd.si[t], BitsFor(cd, [Symbol(t, sym)] + rest) + tail, BitsFor(cd, rest) + tail,
             BitsFor(cd, more) + tail, k, b, sym, n, LowBits(v, n), i);
  }

  /** A nonzero coefficient at index i after a run of zeros. */
  lemma CoefRead(cd: Codes, tbl: nat, r: nat, v: int, more: seq<Item>, tail: seq<bit>, k: nat, i: nat, b: Block)
    requires Readable(cd, CoefItems(tbl, r, v) + more) && k + r == i < DCTSIZE2 && tbl < NUM_HUFF_TBLS
    requires v != 0 && NBits(Abs(v)) < 16
    ensures Readable(cd, more)
    ensures ReadRest(cd, tbl, BitsFor(cd, CoefItems(tbl, r, v) + more) + tail, k, b)
            == ReadRest(cd, tbl, BitsFor(cd, more) + tail, i + 1, b[i := v])
  {
    hide BitsFor, Legible, NBits, LowBits, ReadRest, ZeroRuns;
    var rest := [Symbol(AcTable(tbl), r % 16 * 16 + NBits(Abs(v)))] + ([ValueItem(v)] + more);
    assert CoefItems(tbl, r, v) + more == ZeroRuns(tbl, r) + rest;
    RunsRead(cd, tbl, r, rest, tail, k, b);
    SymbolParts(r % 16, NBits(Abs(v)));
    CoefRest(cd, tbl, r % 16 * 16 + NBits(Abs(v)), v, more, tail, k + (r - r % 16), i, b);
  }

  lemma PositiveBits(v: int)
    requires v != 0
    ensures NBits(Abs(v)) > 0
  {
  }

  /** A block whose categories the symbols can name. */
  predicate Nameable(b: Block) {
    forall j :: 1 <= j < DCTSIZE2 ==> NBits(Abs(b[j])) < 16
  }

  predicate ZeroFrom(b: Block, k: nat, r: nat) {
    forall j :: 0 <= j < DCTSIZE2 && k - r <= j < k ==> b[j] == 0
  }

  lemma PrefixStep(b: Block, k: nat, r: nat)
    requires r <= k <= DCTSIZE2 && ZeroFrom(b, k, r)
    ensures k < DCTSIZE2 ==> Prefix(b, k - r)[k := b[k]] == Prefix(b, k + 1)
    ensures k == DCTSIZE2 ==> Prefix(b, k - r) == b
  {
  }

  lemma EobRest(cd: Codes, tbl: nat, more: seq<Item>, tail: seq<bit>, k: nat, b: Block)
    requires Readable(cd, [Symbol(AcTable(tbl), 0)] + more) && tbl < NUM_HUFF_TBLS && k < DCTSIZE2
    ensures Readable(cd, more)
    ensures ReadRest(cd, tbl, BitsFor(cd, [Symbol(AcTable(tbl), 0)] + more) + tail, k, b)
            == BlockOut(b, BitsFor(cd, more) + tail)
  {
    hide BitsFor, Legible, ReadSymbol;
    SymbolRead(cd, AcTable(tbl), 0, more, tail);
  }

  lemma AcItemsFrom(tbl: nat, b: Block, k: nat, r: nat, more: seq<Item>)
    requires k < DCTSIZE2
    ensures b[k] != 0 ==> AcItems(tbl, b, k, r) + more == CoefItems(tbl, r, b[k]) + (AcItems(tbl, b, k + 1, 0) + more)
    ensures b[k] == 0 ==> AcItems(tbl, b, k, r) == AcItems(tbl, b, k + 1, r + 1)
  {
    hide CoefItems;
    if b[k] != 0 {
      var rest := AcItems(tbl, b, k + 1, 0);
      assert AcItems(tbl, b, k, r) == CoefItems(tbl, r, b[k]) + rest;
      hide AcItems;
      Associate(CoefItems(tbl, r, b[k]), rest, more);
    }
  }

  lemma Associate<T>(x: seq<T>, y: seq<T>, z: seq<T>)
    ensures x + y + z == x + (y + z)
  {
  }

  lemma AcEnd(cd: Codes, tbl: nat, b: Block, r: nat, more: seq<Item>, tail: seq<bit>)
    requires r < DCTSIZE2 && tbl < NUM_HUFF_TBLS && Readable(cd, AcItems(tbl, b, DCTSIZE2, r) + more)
    requires ZeroFrom(b, DCTSIZE2, r)
    ensures Readable(cd, more)
    ensures ReadRest(cd, tbl, BitsFor(cd, AcItems(tbl, b, DCTSIZE2, r) + more) + tail, DCTSIZE2 - r,
                     Prefix(b, DCTSIZE2 - r))
            == BlockOut(b, BitsFor(cd, more) + tail)
  {
    PrefixStep(b, DCTSIZE2, r);
    hide BitsFor, Legible, Prefix;
    if r > 0 {
      EobRest(cd, tbl, more, tail, DCTSIZE2 - r, b);
    } else {
      assert AcItems(tbl, b, DCTSIZE2, r) + more == more;
    }
  }

  /** The AC coefficients of a block: the decoder, r coefficients behind because of a
      pending run of zeros, recovers the block. */
  lemma {:induction false} AcRead(cd: Codes, tbl: nat, b: Block, k: nat, r: nat, p: nat, more: seq<Item>,
                                  tail: seq<bit>)
    requires r < k <= DCTSIZE2 && p == k - r && tbl < NUM_HUFF_TBLS && Readable(cd, AcItems(tbl, b, k, r) + more)
    requires ZeroFrom(b, k, r) && Nameable(b)
    ensures Readable(cd, more)
    ensures ReadRest(cd, tbl, BitsFor(cd, AcItems(tbl, b, k, r) + more) + tail, p, Prefix(b, p))
            == BlockOut(b, BitsFor(cd, more) + tail)
    decreases DCTSIZE2 - k
  {
    hide BitsFor, Readable, ReadRest, Prefix, AcItems, CoefItems, NBits;
    if k == DCTSIZE2 {
      AcEnd(cd, tbl, b, r, more, tail);
    } else {
      AcItemsFrom(tbl, b, k, r, more);
      if b[k] == 0 {
        AcRead(cd, tbl, b, k + 1, r + 1, p, more, tail);
      } else {
        PrefixStep(b, k, r);
        CoefRead(cd, tbl, r, b[k], AcItems(tbl, b, k + 1, 0) + more, tail, p, k, Prefix(b, p));
        AcRead(cd, tbl, b, k + 1, 0, k + 1, more, tail);
      }
    }
  }

  /** A block: the DC difference (figure F.12), then the AC coefficients. */
  ghost function ReadBlock(cd: Codes, dcTbl: nat, acTbl: nat, x: seq<bit>, last: int): (r: BlockOut)
    requires GoodCodes(cd) && dcTbl < NUM_HUFF_TBLS && acTbl < NUM_HUFF_TBLS
  {
    var o := ReadSymbol(cd.co[DcTable(dcTbl)], cd.si[DcTable(dcTbl)], x, 0);
    if o.NoSymbol? then BadBlock
    else
      var d := ReadBits(o.rest, o.s);
      if d.NoBits? then BadBlock
      else ReadRest(cd, acTbl, d.rest, 1, Band.ZeroBlock()[0 := last + Extend(d.v, o.s)])
  }

  /** The DC difference is read back. */
  lemma DcRead(cd: Codes, tbl: nat, v: int, more: seq<Item>, tail: seq<bit>)
    requires tbl < NUM_HUFF_TBLS && Readable(cd, DcItems(tbl, v) + more)
    ensures Readable(cd, more)
    ensures var x := BitsFor(cd, DcItems(tbl, v) + more) + tail;
            var o := ReadSymbol(cd.co[DcTable(tbl)], cd.si[DcTable(tbl)], x, 0);
            && o.Found? && ReadBits(o.rest, o.s).Bits? && ReadBits(o.rest, o.s).rest == BitsFor(cd, more) + tail
            && Extend(ReadBits(o.rest, o.s).v, o.s) == v
  {
    hide BitsFor, NBits, ReadSymbol, ReadBits, LowBits, Extend, GoodTable;
    var n := NBits(Abs(v));
    assert DcItems(tbl, v) + more == [Symbol(DcTable(tbl), n)] + ([ValueItem(v)] + more);
    SymbolRead(cd, DcTable(tbl), n, [ValueItem(v)] + more, tail);
    ExtraRead(cd, LowBits(v, n), n, more, tail);
    ExtendIs(v);
  }

  lemma FirstPrefix(b: Block)
    ensures Prefix(b, 1) == Band.ZeroBlock()[0 := b[0]]
  {
  }

  lemma BlockRead(cd: Codes, dcTbl: nat, acTbl: nat, b: Block, last: int, more: seq<Item>, tail: seq<bit>)
    requires dcTbl < NUM_HUFF_TBLS && acTbl < NUM_HUFF_TBLS && Nameable(b)
    requires Readable(cd, BlockItems(dcTbl, acTbl, b, last) + more)
    ensures Readable(cd, more)
    ensures ReadBlock(cd, dcTbl, acTbl, BitsFor(cd, BlockItems(dcTbl, acTbl, b, last) + more) + tail, last)
            == BlockOut(b, BitsFor(cd, more) + tail)
  {
    FirstPrefix(b);
    hide BitsFor, NBits, ReadRest, AcItems, DcItems, ReadSymbol, ReadBits, Extend, Prefix, Band.ZeroBlock, Legible;
    var ac := AcItems(acTbl, b, 1, 0);
    Associate(DcItems(dcTbl, b[0] - last), ac, more);
    DcRead(cd, dcTbl, b[0] - last, ac + more, tail);
    AcRead(cd, acTbl, b, 1, 0, 1, more, tail);
  }

  // ---- MCUs ----

  datatype McuOut = BadMcu | McuOut(blocks: seq<Block>, last: seq<int>, rest: seq<bit>)

  /** Blocks i and on of an MCU, with the DC predictions `last`. */
  ghost function ReadMcu(cd: Codes, ly: Layout, x: seq<bit>, last: seq<int>, i: nat): (r: McuOut)
    requires GoodCodes(cd) && GoodLayout(ly) && |last| == |ly.dcTbl| && i <= |ly.membership|
    ensures r.McuOut? ==> |r.last| == |last|
    decreases |ly.membership| - i
  {
    if i == |ly.membership| then McuOut([], last, x)
    else
      var c := ly.membership[i];
      var o := ReadBlock(cd, ly.dcTbl[c], ly.acTbl[c], x, last[c]);
      if o.BadBlock? then BadMcu
      else
        var more := ReadMcu(cd, ly, o.rest, last[c := o.b[0]], i + 1);
        if more.BadMcu? then BadMcu else McuOut([o.b] + more.blocks, more.last, more.rest)
  }

  predicate NameableMcu(mcu: Mcu) {
    forall i :: 0 <= i < |mcu| ==> Nameable(mcu[i])
  }

  lemma {:induction false} McuRead(cd: Codes, ly: Layout, last: seq<int>, i: nat, mcu: Mcu, more: seq<Item>,
                                   tail: seq<bit>)
    requires GoodLayout(ly) && |last| == |ly.dcTbl| && i <= |mcu| == |ly.membership| && NameableMcu(mcu)
    requires Readable(cd, McuItems(ly, last, i, mcu) + more)
    ensures Readable(cd, more)
    ensures ReadMcu(cd, ly, BitsFor(cd, McuItems(ly, last, i, mcu) + more) + tail, last, i)
            == McuOut(mcu[i..], McuLast(ly, last, i, mcu), BitsFor(cd, more) + tail)
    decreases |mcu| - i
  {
    hide BitsFor, Legible, ReadBlock, BlockItems;
    if i == |mcu| {
      assert McuItems(ly, last, i, mcu) + more == more;
    } else {
      var c := ly.membership[i];
      var rest := McuItems(ly, last[c := mcu[i][0]], i + 1, mcu);
      Associate(BlockItems(ly.dcTbl[c], ly.acTbl[c], mcu[i], last[c]), rest, more);
      BlockRead(cd, ly.dcTbl[c], ly.acTbl[c], mcu[i], last[c], rest + more, tail);
      McuRead(cd, ly, last[c := mcu[i][0]], i + 1, mcu, more, tail);
      assert [mcu[i]] + mcu[i + 1..] == mcu[i..];
    }
  }

  // ---- Entropy-coded segments ----

  datatype RunOut = RunOut(u: seq<byte>, rest: seq<byte>)

  /** The bytes before the next marker, without the stuffed zeros. */
  function ReadRun(s: seq<byte>): (r: RunOut)
    decreases |s|
  {
    if s == [] then RunOut([], [])
    else if s[0] != 0xFF then
      var r := ReadRun(s[1..]);
      RunOut([s[0]] + r.u, r.rest)
    else if |s| > 1 && s[1] == 0 then
      var r := ReadRun(s[2..]);
      RunOut([s[0]] + r.u, r.rest)
    else RunOut([], s)
  }

  predicate AtMarker(s: seq<byte>) {
    s == [] || (|s| > 1 && s[0] == 0xFF && s[1] != 0)
  }

  lemma PlainByte(b: byte, more: seq<byte>)
    requires b != 0xFF
    ensures ReadRun([b] + more) == RunOut([b] + ReadRun(more).u, ReadRun(more).rest)
  {
    assert ([b] + more)[1..] == more;
  }

  lemma StuffedByte(more: seq<byte>)
    ensures ReadRun([0xFF, 0x00] + more) == RunOut([0xFF] + ReadRun(more).u, ReadRun(more).rest)
  {
    assert ([0xFF, 0x00] + more)[2..] == more;
  }

  lemma {:induction false} RunRead(u: seq<byte>, tail: seq<byte>)
    requires AtMarker(tail)
    ensures ReadRun(Stuff(u) + tail) == RunOut(u, tail)
    decreases |u|
  {
    if u == [] {
      assert Stuff(u) + tail == tail;
    } else {
      hide ReadRun, AtMarker;
      RunRead(u[1..], tail);
      Associate(StuffByte(u[0]), Stuff(u[1..]), tail);
      var more := Stuff(u[1..]) + tail;
      if u[0] == 0xFF {
        StuffedByte(more);
      } else {
        PlainByte(u[0], more);
      }
      assert u == [u[0]] + u[1..];
    }
  }

  // ---- Scans ----

  datatype ScanOut = BadScan | ScanOut(mcus: seq<Mcu>)

  /** Where the decoder stands after an MCU. */
  function Advance(interval: nat, h: Place, last: seq<int>): (r: Place) {
    if interval == 0 then h.(last := last)
    else if h.togo == 0 then Place(last, interval - 1, (h.num + 1) % 8)
    else h.(last := last, togo := h.togo - 1)
  }

  /** n MCUs: x are the bits left of the current restart interval, and `rest` are the
      bytes from the next marker on. */
  ghost function ReadScan(cd: Codes, ly: Layout, interval: nat, h: Place, x: seq<bit>, rest: seq<byte>,
                          n: nat): (r: ScanOut)
    requires GoodCodes(cd) && GoodLayout(ly) && GoodPlace(ly, h)
    decreases n
  {
    if n == 0 then ScanOut([])
    else if AtRestart(interval, h) then
      if |rest| >= 2 && rest[..2] == RestartMarker(h.num) then
        var run := ReadRun(rest[2..]);
        ReadNext(cd, ly, interval, h, BitsOf(run.u), run.rest, n)
      else BadScan
    else ReadNext(cd, ly, interval, h, x, rest, n)
  }

  ghost function ReadNext(cd: Codes, ly: Layout, interval: nat, h: Place, x: seq<bit>, rest: seq<byte>,
                          n: nat): (r: ScanOut)
    requires GoodCodes(cd) && GoodLayout(ly) && GoodPlace(ly, h) && n > 0
    decreases n, 0
  {
    var o := ReadMcu(cd, ly, x, Entering(ly, interval, h), 0);
    if o.BadMcu? then BadScan
    else
      var more := ReadScan(cd, ly, interval, Advance(interval, h, o.last), o.rest, rest, n - 1);
      if more.BadScan? then BadScan else ScanOut([o.blocks] + more.mcus)
  }

  predicate NameableScan(mcus: seq<Mcu>) {
    forall i :: 0 <= i < |mcus| ==> NameableMcu(mcus[i])
  }

  /** The decoder, on the bytes s of a scan of which it has already read the bits xs. */
  ghost predicate ReadsBack(cd: Codes, ly: Layout, interval: nat, h: Place, xs: seq<bit>, s: seq<byte>, mcus: seq<Mcu>)
    requires GoodCodes(cd) && GoodLayout(ly) && GoodPlace(ly, h)
  {
    var run := ReadRun(s);
    xs <= BitsOf(run.u)
    && ReadScan(cd, ly, interval, h, BitsOf(run.u)[|xs|..], run.rest, |mcus|) == ScanOut(mcus)
  }

  /** One MCU, then the rest of the scan. */
  lemma NextRead(cd: Codes, ly: Layout, interval: nat, h: Place, x: seq<bit>, rest: seq<byte>, mcus: seq<Mcu>)
    requires GoodCodes(cd) && GoodLayout(ly) && GoodPlace(ly, h) && mcus != [] && |mcus[0]| == |ly.membership|
    requires NameableMcu(mcus[0]) && Readable(cd, McuItems(ly, Entering(ly, interval, h), 0, mcus[0]))
    requires var next := After(ly, interval, h, mcus[0]);
             ReadScan(cd, ly, interval, next, x, rest, |mcus| - 1) == ScanOut(mcus[1..])
    ensures var items := McuItems(ly, Entering(ly, interval, h), 0, mcus[0]);
            ReadNext(cd, ly, interval, h, BitsFor(cd, items) + x, rest, |mcus|) == ScanOut(mcus)
  {
    hide BitsFor, Legible, McuItems, ReadMcu, ReadScan, McuLast, GoodLayout;
    var items := McuItems(ly, Entering(ly, interval, h), 0, mcus[0]);
    assert items + [] == items;
    McuRead(cd, ly, Entering(ly, interval, h), 0, mcus[0], [], x);
    assert BitsFor(cd, []) + x == x by { NoBitsFor(cd); }
    assert mcus[0][0..] == mcus[0] && [mcus[0]] + mcus[1..] == mcus;
  }

  lemma NoBitsFor(cd: Codes)
    ensures BitsFor(cd, []) == []
  {
  }

  /** What RunBytes writes is read up to the marker that follows. */
  lemma RunBytesRead(x: seq<bit>, tail: seq<byte>)
    requires AtMarker(tail)
    ensures var run := ReadRun(RunBytes(x) + tail);
            run.rest == tail && x <= BitsOf(run.u)
  {
    RunRead(Bytes(Padded(x)), tail);
    assert x <= Padded(x);
  }

  lemma {:induction false} StreamReads(cd: Codes, ly: Layout, interval: nat, h: Place, xs: seq<bit>, mcus: seq<Mcu>)
    requires GoodCodes(cd) && GoodLayout(ly) && GoodPlace(ly, h) && Shaped(ly, mcus) && NameableScan(mcus)
    requires Readable(cd, ScanItems(ly, interval, h, mcus))
    ensures ReadsBack(cd, ly, interval, h, xs, Stream(cd, ly, interval, h, xs, mcus), mcus)
    decreases |mcus|
  {
    hide BitsFor, Legible, McuItems, GoodLayout, ReadRun, RunBytes, AtMarker, NameableMcu, ReadNext;
    if mcus == [] {
      assert RunBytes(xs) + [] == RunBytes(xs);
      EndIsMarker();
      RunBytesRead(xs, []);
    } else {
      var items, next := McuItems(ly, Entering(ly, interval, h), 0, mcus[0]), After(ly, interval, h, mcus[0]);
      var bits := McuBits(cd, ly, interval, h, mcus[0]);
      ReadableParts(cd, items, ScanItems(ly, interval, next, mcus[1..]));
      StreamIs(cd, ly, interval, h, xs, mcus);
      hide Stream, ReadsBack, McuBits;
      if AtRestart(interval, h) {
        StreamReads(cd, ly, interval, next, bits, mcus[1..]);
        RestartReads(cd, ly, interval, h, xs, Stream(cd, ly, interval, next, bits, mcus[1..]), mcus);
      } else {
        StreamReads(cd, ly, interval, next, xs + bits, mcus[1..]);
        SameIntervalReads(cd, ly, interval, h, xs, Stream(cd, ly, interval, next, xs + bits, mcus[1..]), mcus);
      }
    }
  }

  lemma EndIsMarker()
    ensures AtMarker([])
  {
  }

  /** The bits of the MCU after h. */
  ghost function McuBits(cd: Codes, ly: Layout, interval: nat, h: Place, mcu: Mcu): (x: seq<bit>)
    requires GoodLayout(ly) && GoodPlace(ly, h) && |mcu| == |ly.membership|
  {
    BitsFor(cd, McuItems(ly, Entering(ly, interval, h), 0, mcu))
  }

  lemma StreamIs(cd: Codes, ly: Layout, interval: nat, h: Place, xs: seq<bit>, mcus: seq<Mcu>)
    requires GoodLayout(ly) && GoodPlace(ly, h) && Shaped(ly, mcus) && mcus != []
    ensures var next, bits := After(ly, interval, h, mcus[0]), McuBits(cd, ly, interval, h, mcus[0]);
            Stream(cd, ly, interval, h, xs, mcus)
            == if AtRestart(interval, h)
               then RunBytes(xs) + (RestartMarker(h.num) + Stream(cd, ly, interval, next, bits, mcus[1..]))
               else Stream(cd, ly, interval, next, xs + bits, mcus[1..])
  {
    hide BitsFor, McuItems, RunBytes, GoodLayout;
    var next, bits := After(ly, interval, h, mcus[0]), McuBits(cd, ly, interval, h, mcus[0]);
    if AtRestart(interval, h) {
      Associate(RunBytes(xs), RestartMarker(h.num), Stream(cd, ly, interval, next, bits, mcus[1..]));
    }
  }

  lemma SameIntervalReads(cd: Codes, ly: Layout, interval: nat, h: Place, xs: seq<bit>, s: seq<byte>, mcus: seq<Mcu>)
    requires GoodCodes(cd) && GoodLayout(ly) && GoodPlace(ly, h) && mcus != [] && |mcus[0]| == |ly.membership|
    requires NameableMcu(mcus[0]) && !AtRestart(interval, h)
    requires Readable(cd, McuItems(ly, Entering(ly, interval, h), 0, mcus[0]))
    requires ReadsBack(cd, ly, interval, After(ly, interval, h, mcus[0]), xs + McuBits(cd, ly, interval, h, mcus[0]), s,
                       mcus[1..])
    ensures ReadsBack(cd, ly, interval, h, xs, s, mcus)
  {
    hide BitsFor, Legible, McuItems, GoodLayout, ReadRun, NameableMcu, ReadNext, Advance, BitsOf;
    var bits, u := McuBits(cd, ly, interval, h, mcus[0]), BitsOf(ReadRun(s).u);
    NextRead(cd, ly, interval, h, u[|xs + bits|..], ReadRun(s).rest, mcus);
    SkipBits(xs, bits, u);
  }

  lemma SkipBits(x: seq<bit>, y: seq<bit>, u: seq<bit>)
    requires x + y <= u
    ensures x <= u && u[|x|..] == y + u[|x + y|..]
  {
  }

  /** At a restart marker the decoder starts anew with the bits behind it. */
  lemma RestartIs(cd: Codes, ly: Layout, interval: nat, h: Place, x: seq<bit>, s: seq<byte>, mcus: seq<Mcu>)
    requires GoodCodes(cd) && GoodLayout(ly) && GoodPlace(ly, h) && mcus != [] && AtRestart(interval, h)
    requires ReadNext(cd, ly, interval, h, BitsOf(ReadRun(s).u), ReadRun(s).rest, |mcus|) == ScanOut(mcus)
    ensures ReadScan(cd, ly, interval, h, x, RestartMarker(h.num) + s, |mcus|) == ScanOut(mcus)
  {
    var tail := RestartMarker(h.num) + s;
    assert tail[2..] == s && tail[..2] == RestartMarker(h.num);
    hide GoodLayout, ReadRun, ReadNext, BitsOf, RestartMarker;
  }

  /** The MCU after h and the rest of the scan, from the bytes s. */
  lemma NextReads(cd: Codes, ly: Layout, interval: nat, h: Place, s: seq<byte>, mcus: seq<Mcu>)
    requires GoodCodes(cd) && GoodLayout(ly) && GoodPlace(ly, h) && mcus != [] && |mcus[0]| == |ly.membership|
    requires NameableMcu(mcus[0]) && Readable(cd, McuItems(ly, Entering(ly, interval, h), 0, mcus[0]))
    requires ReadsBack(cd, ly, interval, After(ly, interval, h, mcus[0]), McuBits(cd, ly, interval, h, mcus[0]), s,
                       mcus[1..])
    ensures ReadNext(cd, ly, interval, h, BitsOf(ReadRun(s).u), ReadRun(s).rest, |mcus|) == ScanOut(mcus)
  {
    hide BitsFor, Legible, McuItems, GoodLayout, ReadRun, NameableMcu, ReadNext, ReadScan, BitsOf, After;
    var bits, u := McuBits(cd, ly, interval, h, mcus[0]), BitsOf(ReadRun(s).u);
    NextRead(cd, ly, interval, h, u[|bits|..], ReadRun(s).rest, mcus);
    assert u == bits + u[|bits|..];
  }

  lemma RestartReads(cd: Codes, ly: Layout, interval: nat, h: Place, xs: seq<bit>, s: seq<byte>, mcus: seq<Mcu>)
    requires GoodCodes(cd) && GoodLayout(ly) && GoodPlace(ly, h) && mcus != [] && |mcus[0]| == |ly.membership|
    requires NameableMcu(mcus[0]) && AtRestart(interval, h)
    requires Readable(cd, McuItems(ly, Entering(ly, interval, h), 0, mcus[0]))
    requires ReadsBack(cd, ly, interval, After(ly, interval, h, mcus[0]), McuBits(cd, ly, interval, h, mcus[0]), s,
                       mcus[1..])
    ensures ReadsBack(cd, ly, interval, h, xs, RunBytes(xs) + (RestartMarker(h.num) + s), mcus)
  {
    NextReads(cd, ly, interval, h, s, mcus);
    var tail := RestartMarker(h.num) + s;
    assert AtMarker(tail);
    hide Legible, McuItems, GoodLayout, ReadRun, NameableMcu, ReadNext, ReadScan, RunBytes, BitsOf, RestartMarker,
         AtMarker, After, McuBits;
    RunBytesRead(xs, tail);
    RestartIs(cd, ly, interval, h, BitsOf(ReadRun(RunBytes(xs) + tail).u)[|xs|..], s, mcus);
  }

  /** Decoding a scan from its first byte. */
  ghost function Decode(cd: Codes, ly: Layout, interval: nat, s: seq<byte>, n: nat): (r: ScanOut)
    requires GoodCodes(cd) && GoodLayout(ly)
  {
    var run := ReadRun(s);
    ReadScan(cd, ly, interval, StartPlace(ly, interval), BitsOf(run.u), run.rest, n)
  }

  /** Sequential Huffman coding is lossless: decoding the bytes of a scan gives back its
      MCUs, for every restart interval. */
  lemma HuffmanScanRoundTrip(cd: Codes, ly: Layout, interval: nat, mcus: seq<Mcu>)
    requires GoodCodes(cd) && GoodLayout(ly) && Shaped(ly, mcus) && NameableScan(mcus)
    requires Readable(cd, ScanItems(ly, interval, StartPlace(ly, interval), mcus))
    ensures Decode(cd, ly, interval, Stream(cd, ly, interval, StartPlace(ly, interval), [], mcus), |mcus|)
            == ScanOut(mcus)
  {
    hide Readable, ReadScan, Stream, NameableScan;
    StreamReads(cd, ly, interval, StartPlace(ly, interval), [], mcus);
    var u := BitsOf(ReadRun(Stream(cd, ly, interval, StartPlace(ly, interval), [], mcus)).u);
    assert u[0..] == u;
  }
}
