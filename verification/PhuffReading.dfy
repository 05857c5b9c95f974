/** Reading a band of a progressive Huffman scan back: decode_mcu_AC_first and
    decode_mcu_AC_refine of jdphuff.c (section G.2 of T.81), on bits. On bits that no
    encoder wrote the model gives up where the code warns and goes on. */
module PhuffReading {
  import opened Numbers
  import opened ByteSource
  import opened BitPacking
  import opened DerivedTable
  import opened HuffItems
  import opened HuffReading
  import B = AcBand
  import P = PhuffItems

  // ---- End-of-band runs ----

  datatype RunOut = NoRun | Run(run: nat, rest: seq<bit>)

  /** The length of a run of category n. */
  function ReadLength(x: seq<bit>, n: nat): (r: RunOut) {
    var o := ReadBits(x, n);
    if o.NoBits? then NoRun else Run(Pow2(n) + o.v, o.rest)
  }

  /** A symbol EOBn and the length of its run. */
  ghost function ReadRunLength(cd: Codes, tbl: nat, x: seq<bit>): (r: RunOut)
    requires GoodCodes(cd) && tbl < NUM_HUFF_TBLS
  {
    var o := ReadSymbol(cd.co[AcTable(tbl)], cd.si[AcTable(tbl)], x, 0);
    if o.NoSymbol? || o.s % 16 != 0 || o.s == 0xF0 then NoRun else ReadLength(o.rest, o.s / 16)
  }

  lemma LengthRead(run: nat, n: nat, v: nat, y: seq<bit>)
    requires run > 0 && n == NBits(run) - 1 && v == run % Pow2(n)
    ensures ReadLength(Word(v, n) + y, n) == Run(run, y)
  {
    RunParts(run);
    hide Pow2, NBits, Word, ReadLength;
    LengthValue(v, n, y);
  }

  lemma LengthValue(v: nat, n: nat, y: seq<bit>)
    requires v < Pow2(n)
    ensures ReadLength(Word(v, n) + y, n) == Run(Pow2(n) + v, y)
  {
    hide Pow2, Word, ReadBits;
    ReadBitsIs(v, n, y);
  }

  lemma RunParts(run: nat)
    requires run > 0
    ensures var n := NBits(run) - 1; n >= 0 && run % Pow2(n) < Pow2(n) && run == Pow2(n) + run % Pow2(n)
  {
    var n: nat := NBits(run) - 1;
    Pow2Twice(n);
    var p := Pow2(n);
    assert p <= run < 2 * p;
    hide Pow2, NBits;
    DivModUnique(run, p, 1, run - p);
  }

  lemma {:induction false} BitItemsAre(cd: Codes, b: seq<bit>, more: seq<Item>)
    ensures BitsFor(cd, P.BitItems(b) + more) == b + BitsFor(cd, more)
    decreases |b|
  {
    if b == [] {
      assert P.BitItems(b) + more == more;
    } else {
      var rest := P.BitItems(b[1..]) + more;
      assert P.BitItems(b) + more == [Extra(b[0], 1)] + rest;
      hide P.BitItems;
      BitItemsAre(cd, b[1..], more);
      FirstBit(cd, b[0], rest);
      hide BitsFor;
      Associate([b[0]], b[1..], BitsFor(cd, more));
      assert b == [b[0]] + b[1..];
    }
  }

  lemma FirstBit(cd: Codes, c: bit, rest: seq<Item>)
    ensures BitsFor(cd, [Extra(c, 1)] + rest) == [c] + BitsFor(cd, rest)
  {
    OneBit(c);
    assert ([Extra(c, 1)] + rest)[1..] == rest;
  }

  lemma OneBit(c: bit)
    ensures Word(c, 1) == [c]
  {
    assert Word(c / 2, 0) == [];
  }

  lemma ReadableSuffix(cd: Codes, x: seq<Item>, y: seq<Item>)
    requires Readable(cd, x + y)
    ensures Readable(cd, y)
  {
    ReadableParts(cd, x, y);
  }

  /** The extra bits of a run of category n. */
  function LengthItems(run: nat, n: nat): (x: seq<Item>) {
    if n == 0 then [] else [Extra(run % Pow2(n), n)]
  }

  lemma EobItemsAre(tbl: nat, e: P.Eob, n: nat, more: seq<Item>)
    requires e.run > 0 && n == NBits(e.run) - 1
    ensures P.EobItems(tbl, e) + more == [Symbol(AcTable(tbl), n * 16)]
            + (LengthItems(e.run, n) + (P.BitItems(e.bits) + more))
  {
    hide NBits, Pow2, P.BitItems;
  }

  lemma LengthBits(cd: Codes, run: nat, n: nat, more: seq<Item>)
    ensures BitsFor(cd, LengthItems(run, n) + more) == Word(run % Pow2(n), n) + BitsFor(cd, more)
  {
    hide Pow2;
    if n == 0 {
      assert [] + more == more;
    } else {
      assert ([Extra(run % Pow2(n), n)] + more)[1..] == more;
    }
  }

  /** The bits behind the symbol of a run. */
  lemma EobBits(cd: Codes, e: P.Eob, n: nat, more: seq<Item>, y: seq<bit>)
    ensures BitsFor(cd, LengthItems(e.run, n) + (P.BitItems(e.bits) + more)) + y
            == Word(e.run % Pow2(n), n) + (e.bits + (BitsFor(cd, more) + y))
  {
    hide BitsFor, Pow2, P.BitItems, LengthItems, Word;
    BitItemsAre(cd, e.bits, more);
    LengthBits(cd, e.run, n, P.BitItems(e.bits) + more);
    Associate(e.bits, BitsFor(cd, more), y);
    Associate(Word(e.run % Pow2(n), n), e.bits + BitsFor(cd, more), y);
  }

  lemma RunSymbol(n: nat)
    requires n <= 14
    ensures n * 16 % 16 == 0 && n * 16 / 16 == n && n * 16 != 0xF0
  {
  }

  /** A pending run that was sent is read: its length, then the buffered bits. */
  lemma EobRead(cd: Codes, tbl: nat, e: P.Eob, more: seq<Item>, y: seq<bit>)
    requires tbl < NUM_HUFF_TBLS && 0 < e.run <= P.MAX_EOBRUN && Readable(cd, P.EobItems(tbl, e) + more)
    ensures Readable(cd, more)
    ensures ReadRunLength(cd, tbl, BitsFor(cd, P.EobItems(tbl, e) + more) + y)
            == Run(e.run, e.bits + (BitsFor(cd, more) + y))
  {
    P.EobRunFits(e.run);
    var n: nat := NBits(e.run) - 1;
    hide BitsFor, Legible, NBits, Pow2, ReadSymbol, ReadLength, P.BitItems, P.EobItems, LengthItems, Word;
    var length, bits := LengthItems(e.run, n), P.BitItems(e.bits) + more;
    LengthRead(e.run, n, e.run % Pow2(n), e.bits + (BitsFor(cd, more) + y));
    EobItemsAre(tbl, e, n, more);
    EobBits(cd, e, n, more, y);
    RunSymbol(n);
    SymbolRead(cd, AcTable(tbl), n * 16, length + bits, y);
    ReadableSuffix(cd, length, bits);
    ReadableSuffix(cd, P.BitItems(e.bits), more);
  }

  datatype HeadOut = BadHead | Head(left: nat, rest: seq<bit>)

  /** The decoder at the start of a block when the encoder has e pending: if a run is
      pending, its symbol and the bits buffered so far have been read already; `left` is
      what remains of the run. */
  ghost function Resume(cd: Codes, tbl: nat, e: P.Eob, x: seq<bit>): (r: HeadOut)
    requires GoodCodes(cd) && tbl < NUM_HUFF_TBLS
  {
    if e.run == 0 then Head(0, x)
    else
      var o := ReadRunLength(cd, tbl, x);
      if o.NoRun? || o.run < e.run || !(e.bits <= o.rest) then BadHead else Head(o.run - e.run, o.rest[|e.bits|..])
  }

  /** Pending e grows to f, which is sent: what was pending at e can be resumed. */
  lemma ResumeSent(cd: Codes, tbl: nat, e: P.Eob, f: P.Eob, b: seq<bit>, more: seq<Item>, y: seq<bit>)
    requires tbl < NUM_HUFF_TBLS && 0 < e.run <= f.run <= P.MAX_EOBRUN && f.bits == e.bits + b
    requires Readable(cd, P.EobItems(tbl, f) + more)
    ensures Readable(cd, more)
    ensures Resume(cd, tbl, e, BitsFor(cd, P.EobItems(tbl, f) + more) + y)
            == Head(f.run - e.run, b + (BitsFor(cd, more) + y))
  {
    hide BitsFor, Legible, ReadRunLength, P.EobItems;
    EobRead(cd, tbl, f, more, y);
    var rest := f.bits + (BitsFor(cd, more) + y);
    Associate(e.bits, b, BitsFor(cd, more) + y);
    assert rest[|e.bits|..] == b + (BitsFor(cd, more) + y);
  }

  /** If f can be resumed, so can what was pending before it grew to f. */
  lemma ResumeEarlier(cd: Codes, tbl: nat, e: P.Eob, f: P.Eob, b: seq<bit>, y: seq<bit>)
    requires GoodCodes(cd) && tbl < NUM_HUFF_TBLS && 0 < e.run <= f.run && f.bits == e.bits + b
    requires Resume(cd, tbl, f, y).Head?
    ensures var h := Resume(cd, tbl, f, y);
            Resume(cd, tbl, e, y) == Head(h.left + (f.run - e.run), b + h.rest)
  {
    hide ReadRunLength;
    var o := ReadRunLength(cd, tbl, y);
    assert f.bits <= o.rest;
    assert o.rest == f.bits + o.rest[|f.bits|..];
    assert e.bits <= o.rest && o.rest[|e.bits|..] == b + o.rest[|f.bits|..];
  }

  lemma ResumeNothing(cd: Codes, tbl: nat, y: seq<bit>)
    requires GoodCodes(cd) && tbl < NUM_HUFF_TBLS
    ensures Resume(cd, tbl, P.NO_EOB, y) == Head(0, y)
  {
  }

  /** One more end of band joins the pending run, with its correction bits b: resuming
      before it leaves one block more, and b ahead. */
  lemma JoinResume(cd: Codes, tbl: nat, e: P.Eob, b: seq<bit>, y: seq<bit>)
    requires tbl < NUM_HUFF_TBLS && P.Bounded(e) && e.run > 0
    requires var o := P.EndBand(tbl, e, b); Readable(cd, o.x) && Resume(cd, tbl, o.e, y).Head?
    ensures var o := P.EndBand(tbl, e, b);
            var h := Resume(cd, tbl, o.e, y);
            Resume(cd, tbl, e, BitsFor(cd, o.x) + y) == Head(h.left + 1, b + h.rest)
  {
    var f := P.Eob(e.run + 1, e.bits + b);
    var o := P.EndBand(tbl, e, b);
    if o.e == P.NO_EOB {
      assert o.x == P.EobItems(tbl, f);
      hide P.EndBand, P.EobItems, P.Bounded;
      JoinSent(cd, tbl, e, f, b, y);
    } else {
      assert o.x == [] && o.e == f;
      hide P.EndBand, P.EobItems, P.Bounded;
      NoBitsFor(cd);
      hide BitsFor, Readable, Resume;
      assert [] + y == y;
      ResumeEarlier(cd, tbl, e, f, b, y);
    }
  }

  lemma JoinSent(cd: Codes, tbl: nat, e: P.Eob, f: P.Eob, b: seq<bit>, y: seq<bit>)
    requires tbl < NUM_HUFF_TBLS && 0 < e.run < f.run <= P.MAX_EOBRUN && f.run == e.run + 1 && f.bits == e.bits + b
    requires Readable(cd, P.EobItems(tbl, f))
    ensures Resume(cd, tbl, P.NO_EOB, y) == Head(0, y)
    ensures Resume(cd, tbl, e, BitsFor(cd, P.EobItems(tbl, f)) + y) == Head(1, b + y)
  {
    NoBitsFor(cd);
    ResumeNothing(cd, tbl, y);
    hide BitsFor, Readable, Resume, P.EobItems;
    assert P.EobItems(tbl, f) + [] == P.EobItems(tbl, f) && [] + y == y;
    ResumeSent(cd, tbl, e, f, b, [], y);
  }

  // ---- First scan of a band ----

  datatype BandOut = BadBand | Band(b: Block, left: nat, rest: seq<bit>)

  /** The coefficients from k to se, shifted left by al, into b; no run is pending. */
  ghost function ReadFirst(cd: Codes, tbl: nat, se: nat, al: nat, x: seq<bit>, k: nat, b: Block): (r: BandOut)
    requires GoodCodes(cd) && tbl < NUM_HUFF_TBLS && se < DCTSIZE2 && k <= se + 1
    decreases se + 1 - k
  {
    if k > se then Band(b, 0, x)
    else
      var o := ReadSymbol(cd.co[AcTable(tbl)], cd.si[AcTable(tbl)], x, 0);
      if o.NoSymbol? then BadBand
      else if o.s == 0xF0 then
        if k + 16 <= se + 1 then ReadFirst(cd, tbl, se, al, o.rest, k + 16, b) else BadBand
      else if o.s % 16 == 0 then
        var e := ReadLength(o.rest, o.s / 16);
        if e.NoRun? then BadBand else Band(b, e.run - 1, e.rest)
      else ReadFirstCoef(cd, tbl, se, al, o.rest, k + o.s / 16, o.s % 16, b)
  }

  ghost function ReadFirstCoef(cd: Codes, tbl: nat, se: nat, al: nat, x: seq<bit>, k: nat, t: nat,
                               b: Block): (r: BandOut)
    requires GoodCodes(cd) && tbl < NUM_HUFF_TBLS && se < DCTSIZE2
    decreases se + 1 - k, 0
  {
    if k > se then BadBand
    else
      var o := ReadBits(x, t);
      if o.NoBits? then BadBand else ReadFirst(cd, tbl, se, al, o.rest, k + 1, b[k := Extend(o.v, t) * Pow2(al)])
  }

  lemma FirstRun(cd: Codes, tbl: nat, se: nat, al: nat, more: seq<Item>, y: seq<bit>, k: nat, b: Block)
    requires Readable(cd, [Symbol(AcTable(tbl), 0xF0)] + more) && tbl < NUM_HUFF_TBLS && k + 16 <= se + 1
             && se < DCTSIZE2
    ensures Readable(cd, more)
    ensures ReadFirst(cd, tbl, se, al, BitsFor(cd, [Symbol(AcTable(tbl), 0xF0)] + more) + y, k, b)
            == ReadFirst(cd, tbl, se, al, BitsFor(cd, more) + y, k + 16, b)
  {
    hide BitsFor, Legible, ReadSymbol;
    SymbolRead(cd, AcTable(tbl), 0xF0, more, y);
  }

  lemma {:induction false} FirstRuns(cd: Codes, tbl: nat, se: nat, al: nat, r: nat, more: seq<Item>, y: seq<bit>,
                                     k: nat, b: Block)
    requires Readable(cd, ZeroRuns(tbl, r) + more) && k + r <= se < DCTSIZE2 && tbl < NUM_HUFF_TBLS
    ensures Readable(cd, more)
    ensures ReadFirst(cd, tbl, se, al, BitsFor(cd, ZeroRuns(tbl, r) + more) + y, k, b)
            == ReadFirst(cd, tbl, se, al, BitsFor(cd, more) + y, k + (r - r % 16), b)
    decreases r
  {
    hide BitsFor, Legible, ReadFirst;
    if r > 15 {
      var rest := ZeroRuns(tbl, r - 16) + more;
      assert ZeroRuns(tbl, r) + more == [Symbol(AcTable(tbl), 0xF0)] + rest;
      FirstRun(cd, tbl, se, al, rest, y, k, b);
      FirstRuns(cd, tbl, se, al, r - 16, more, y, k + 16, b);
    } else {
      assert ZeroRuns(tbl, r) + more == more;
    }
  }

  lemma FirstStep(cd: Codes, tbl: nat, se: nat, al: nat, x: seq<bit>, z: seq<bit>, rest: seq<bit>, k: nat, b: Block,
                  sym: nat, n: nat, v: nat, i: nat)
    requires GoodCodes(cd) && tbl < NUM_HUFF_TBLS && k + sym / 16 == i <= se < DCTSIZE2 && sym % 16 == n > 0
    requires ReadSymbol(cd.co[AcTable(tbl)], cd.si[AcTable(tbl)], x, 0) == Found(sym, z)
             && ReadBits(z, n) == Bits(v, rest)
    ensures ReadFirst(cd, tbl, se, al, x, k, b)
            == ReadFirst(cd, tbl, se, al, rest, i + 1, b[i := Extend(v, n) * Pow2(al)])
  {
    hide ReadSymbol, ReadBits, Extend, Pow2, ReadLength;
  }

  lemma FirstCoefRest(cd: Codes, tbl: nat, se: nat, al: nat, sym: nat, v: int, more: seq<Item>, y: seq<bit>,
                      k: nat, i: nat, b: Block)
    requires v != 0 && sym % 16 == NBits(Abs(v)) && k + sym / 16 == i <= se < DCTSIZE2 && tbl < NUM_HUFF_TBLS
    requires Readable(cd, [Symbol(AcTable(tbl), sym)] + ([ValueItem(v)] + more))
    ensures Readable(cd, more)
    ensures ReadFirst(cd, tbl, se, al, BitsFor(cd, [Symbol(AcTable(tbl), sym)] + ([ValueItem(v)] + more)) + y, k, b)
            == ReadFirst(cd, tbl, se, al, BitsFor(cd, more) + y, i + 1, b[i := v * Pow2(al)])
  {
    PositiveBits(v);
    ExtendIs(v);
    hide BitsFor, Legible, NBits, LowBits, ReadFirst, ReadSymbol, ReadBits, Extend, Abs, Pow2;
    var t, n := AcTable(tbl), NBits(Abs(v));
    var rest := [ValueItem(v)] + more;
    SymbolRead(cd, t, sym, rest, y);
    ExtraRead(cd, LowBits(v, n), n, more, y);
    FirstStep(cd, tbl, se, al, BitsFor(cd, [Symbol(t, sym)] + rest) + y, BitsFor(cd, rest) + y,
              BitsFor(cd, more) + y, k, b, sym, n, LowBits(v, n), i);
  }

  /** A nonzero coefficient at index i after a run of zeros. */
  lemma FirstCoefRead(cd: Codes, tbl: nat, se: nat, al: nat, r: nat, v: int, more: seq<Item>, y: seq<bit>,
                      k: nat, i: nat, b: Block)
    requires Readable(cd, CoefItems(tbl, r, v) + more) && k + r == i <= se < DCTSIZE2 && tbl < NUM_HUFF_TBLS
    requires v != 0 && NBits(Abs(v)) < 16
    ensures Readable(cd, more)
    ensures ReadFirst(cd, tbl, se, al, BitsFor(cd, CoefItems(tbl, r, v) + more) + y, k, b)
            == ReadFirst(cd, tbl, se, al, BitsFor(cd, more) + y, i + 1, b[i := v * Pow2(al)])
  {
    hide BitsFor, Legible, NBits, LowBits, ReadFirst, ZeroRuns, Pow2;
    var rest := [Symbol(AcTable(tbl), r % 16 * 16 + NBits(Abs(v)))] + ([ValueItem(v)] + more);
    assert CoefItems(tbl, r, v) + more == ZeroRuns(tbl, r) + rest;
    FirstRuns(cd, tbl, se, al, r, rest, y, k, b);
    SymbolParts(r % 16, NBits(Abs(v)));
    FirstCoefRest(cd, tbl, se, al, r % 16 * 16 + NBits(Abs(v)), v, more, y, k + (r - r % 16), i, b);
  }

  /** An end of band inside a block: the block is done, and the rest of the run is for
      the blocks that follow. */
  lemma FirstEob(cd: Codes, tbl: nat, se: nat, al: nat, y: seq<bit>, k: nat, b: Block)
    requires GoodCodes(cd) && tbl < NUM_HUFF_TBLS && k <= se < DCTSIZE2
    requires Resume(cd, tbl, P.Eob(1, []), y).Head?
    ensures var h := Resume(cd, tbl, P.Eob(1, []), y);
            ReadFirst(cd, tbl, se, al, y, k, b) == Band(b, h.left, h.rest)
  {
    hide ReadSymbol, ReadLength;
    var o := ReadRunLength(cd, tbl, y);
    assert o.rest[0..] == o.rest;
  }

  predicate NameableBand(t: Block, k: nat, se: nat) {
    forall j :: k <= j <= se && j < DCTSIZE2 ==> NBits(Abs(t[j])) < 16
  }

  lemma BandNext(t: Block, k: nat, se: nat)
    requires NameableBand(t, k, se) && k <= se < DCTSIZE2
    ensures NBits(Abs(t[k])) < 16 && NameableBand(t, k + 1, se)
  {
  }

  lemma FirstZeroIs(tbl: nat, t: Block, k: nat, se: nat, r: nat, e: P.Eob)
    requires k <= se < DCTSIZE2 && t[k] == 0
    ensures P.FirstFrom(tbl, t, k, se, r, e) == P.FirstFrom(tbl, t, k + 1, se, r + 1, e)
  {
  }

  /** Inside a block: the decoder is at index p, r zeros behind the encoder. */
  lemma {:induction false} FirstRead(cd: Codes, tbl: nat, se: nat, al: nat, t: Block, k: nat, r: nat, p: nat, b: Block,
                                     y: seq<bit>)
    requires tbl < NUM_HUFF_TBLS && k <= se + 1 && se < DCTSIZE2 && p + r == k && NameableBand(t, k, se)
    requires var o := P.FirstFrom(tbl, t, k, se, r, P.NO_EOB);
             Readable(cd, o.x) && Resume(cd, tbl, o.e, y).Head?
    ensures var o := P.FirstFrom(tbl, t, k, se, r, P.NO_EOB);
            var h := Resume(cd, tbl, o.e, y);
            ReadFirst(cd, tbl, se, al, BitsFor(cd, o.x) + y, p, b) == Band(B.Fill(b, t, k, se, al), h.left, h.rest)
    decreases se + 1 - k
  {
    hide BitsFor, Legible, NBits, CoefItems, ReadFirst, Pow2, B.Fill, P.FirstFrom, Resume, NameableBand;
    if k > se {
      FirstEnd(cd, tbl, se, al, t, r, p, b, y);
    } else {
      B.FillStep(b, t, k, se, al);
      BandNext(t, k, se);
      if t[k] == 0 {
        FirstZeroIs(tbl, t, k, se, r, P.NO_EOB);
        FirstRead(cd, tbl, se, al, t, k + 1, r + 1, p, b, y);
      } else {
        FirstNonzero(cd, tbl, se, al, t, k, r, p, b, y);
        FirstRead(cd, tbl, se, al, t, k + 1, 0, k + 1, b[k := t[k] * Pow2(al)], y);
      }
    }
  }

  lemma FirstEnd(cd: Codes, tbl: nat, se: nat, al: nat, t: Block, r: nat, p: nat, b: Block, y: seq<bit>)
    requires GoodCodes(cd) && tbl < NUM_HUFF_TBLS && se < DCTSIZE2 && p + r == se + 1
    requires var o := P.FirstFrom(tbl, t, se + 1, se, r, P.NO_EOB); Resume(cd, tbl, o.e, y).Head?
    ensures var o := P.FirstFrom(tbl, t, se + 1, se, r, P.NO_EOB);
            var h := Resume(cd, tbl, o.e, y);
            ReadFirst(cd, tbl, se, al, BitsFor(cd, o.x) + y, p, b) == Band(B.Fill(b, t, se + 1, se, al), h.left, h.rest)
  {
    B.FillDone(b, t, se + 1, se, al);
    NoBitsFor(cd);
    assert [] + y == y;
    if r > 0 {
      hide ReadFirst, Resume, B.Fill;
      assert P.NO_EOB.bits + [] == [];
      FirstEob(cd, tbl, se, al, y, p, b);
    }
  }

  lemma FirstNonzero(cd: Codes, tbl: nat, se: nat, al: nat, t: Block, k: nat, r: nat, p: nat, b: Block, y: seq<bit>)
    requires tbl < NUM_HUFF_TBLS && k <= se < DCTSIZE2 && p + r == k && t[k] != 0 && NBits(Abs(t[k])) < 16
    requires Readable(cd, P.FirstFrom(tbl, t, k, se, r, P.NO_EOB).x)
    ensures var o := P.FirstFrom(tbl, t, k, se, r, P.NO_EOB);
            var more := P.FirstFrom(tbl, t, k + 1, se, 0, P.NO_EOB);
            && o.e == more.e && Readable(cd, more.x)
            && ReadFirst(cd, tbl, se, al, BitsFor(cd, o.x) + y, p, b)
               == ReadFirst(cd, tbl, se, al, BitsFor(cd, more.x) + y, k + 1, b[k := t[k] * Pow2(al)])
  {
    hide BitsFor, Legible, NBits, CoefItems, ReadFirst, Pow2;
    var more := P.FirstFrom(tbl, t, k + 1, se, 0, P.NO_EOB);
    assert [] + (CoefItems(tbl, r, t[k]) + more.x) == CoefItems(tbl, r, t[k]) + more.x;
    hide P.FirstFrom;
    FirstCoefRead(cd, tbl, se, al, r, t[k], more.x, y, p, k, b);
  }

  /** A block of a first scan, when `left` blocks of a run are still to come. */
  ghost function ReadFirstBlock(cd: Codes, tbl: nat, ss: nat, se: nat, al: nat, left: nat, x: seq<bit>,
                                b: Block): (r: BandOut)
    requires GoodCodes(cd) && tbl < NUM_HUFF_TBLS && ss <= se < DCTSIZE2
  {
    if left > 0 then Band(b, left - 1, x) else ReadFirst(cd, tbl, se, al, x, ss, b)
  }

  /** The same, for an encoder that has e pending. */
  ghost function FirstBlockFrom(cd: Codes, tbl: nat, ss: nat, se: nat, al: nat, e: P.Eob, x: seq<bit>,
                                b: Block): (r: BandOut)
    requires GoodCodes(cd) && tbl < NUM_HUFF_TBLS && ss <= se < DCTSIZE2
  {
    var h := Resume(cd, tbl, e, x);
    if h.BadHead? then BadBand else ReadFirstBlock(cd, tbl, ss, se, al, h.left, h.rest, b)
  }

  lemma FromRun(cd: Codes, tbl: nat, ss: nat, se: nat, al: nat, e: P.Eob, x: seq<bit>, left: nat, z: seq<bit>, b: Block)
    requires GoodCodes(cd) && tbl < NUM_HUFF_TBLS && ss <= se < DCTSIZE2 && Resume(cd, tbl, e, x) == Head(left + 1, z)
    ensures FirstBlockFrom(cd, tbl, ss, se, al, e, x, b) == Band(b, left, z)
  {
    hide Resume, ReadFirst;
  }

  /** The end of a block of zeros, with a run pending: it is the next block of the run. */
  lemma FirstJoins(cd: Codes, tbl: nat, ss: nat, se: nat, al: nat, e: P.Eob, b: Block, y: seq<bit>)
    requires tbl < NUM_HUFF_TBLS && ss <= se < DCTSIZE2 && P.Bounded(e) && e.run > 0
    requires var o := P.EndBand(tbl, e, []); Readable(cd, o.x) && Resume(cd, tbl, o.e, y).Head?
    ensures var o := P.EndBand(tbl, e, []);
            var h := Resume(cd, tbl, o.e, y);
            FirstBlockFrom(cd, tbl, ss, se, al, e, BitsFor(cd, o.x) + y, b) == Band(b, h.left, h.rest)
  {
    hide BitsFor, Legible, Resume, FirstBlockFrom, P.EndBand;
    var o := P.EndBand(tbl, e, []);
    var h := Resume(cd, tbl, o.e, y);
    JoinResume(cd, tbl, e, [], y);
    assert [] + h.rest == h.rest;
    FromRun(cd, tbl, ss, se, al, e, BitsFor(cd, o.x) + y, h.left, h.rest, b);
  }

  /** A block of a first scan while a run is pending and only zeros have been seen. */
  lemma {:induction false} FirstLead(cd: Codes, tbl: nat, ss: nat, se: nat, al: nat, t: Block, k: nat, e: P.Eob,
                                     b: Block, y: seq<bit>)
    requires tbl < NUM_HUFF_TBLS && ss <= k <= se + 1 && ss <= se < DCTSIZE2 && NameableBand(t, k, se)
    requires P.Bounded(e) && e.run > 0
    requires var o := P.FirstFrom(tbl, t, k, se, k - ss, e); Readable(cd, o.x) && Resume(cd, tbl, o.e, y).Head?
    ensures var o := P.FirstFrom(tbl, t, k, se, k - ss, e);
            var h := Resume(cd, tbl, o.e, y);
            FirstBlockFrom(cd, tbl, ss, se, al, e, BitsFor(cd, o.x) + y, b)
              == Band(B.Fill(b, t, k, se, al), h.left, h.rest)
    decreases se + 1 - k
  {
    hide BitsFor, Legible, NBits, CoefItems, P.EndBand, FirstBlockFrom, Resume, Pow2, B.Fill;
    if k > se {
      B.FillDone(b, t, k, se, al);
      FirstJoins(cd, tbl, ss, se, al, e, b, y);
    } else {
      B.FillStep(b, t, k, se, al);
      if t[k] == 0 {
        FirstLead(cd, tbl, ss, se, al, t, k + 1, e, b, y);
      } else {
        FirstFlush(cd, tbl, ss, se, al, t, k, e, b, y);
      }
    }
  }

  /** The first nonzero coefficient sends the pending run. */
  lemma FirstFlush(cd: Codes, tbl: nat, ss: nat, se: nat, al: nat, t: Block, k: nat, e: P.Eob, b: Block, y: seq<bit>)
    requires tbl < NUM_HUFF_TBLS && ss <= k <= se < DCTSIZE2 && NameableBand(t, k, se) && t[k] != 0
    requires P.Bounded(e) && e.run > 0
    requires var o := P.FirstFrom(tbl, t, k, se, k - ss, e); Readable(cd, o.x) && Resume(cd, tbl, o.e, y).Head?
    ensures var o := P.FirstFrom(tbl, t, k, se, k - ss, e);
            var h := Resume(cd, tbl, o.e, y);
            FirstBlockFrom(cd, tbl, ss, se, al, e, BitsFor(cd, o.x) + y, b)
              == Band(B.Fill(b, t, k, se, al), h.left, h.rest)
  {
    FirstFlushIs(tbl, t, k, se, k - ss, e);
    hide BitsFor, Legible, ReadFirst, Resume, B.Fill, P.FirstFrom, P.EobItems, NameableBand, FirstBlockFrom;
    FlushHead(cd, tbl, ss, se, al, e, P.FirstFrom(tbl, t, k, se, k - ss, P.NO_EOB).x, y, b);
    FirstRead(cd, tbl, se, al, t, k, k - ss, ss, b, y);
  }

  lemma FlushHead(cd: Codes, tbl: nat, ss: nat, se: nat, al: nat, e: P.Eob, rest: seq<Item>, y: seq<bit>, b: Block)
    requires tbl < NUM_HUFF_TBLS && ss <= se < DCTSIZE2 && P.Bounded(e) && e.run > 0
    requires Readable(cd, P.EobItems(tbl, e) + rest)
    ensures Readable(cd, rest)
    ensures FirstBlockFrom(cd, tbl, ss, se, al, e, BitsFor(cd, P.EobItems(tbl, e) + rest) + y, b)
            == ReadFirst(cd, tbl, se, al, BitsFor(cd, rest) + y, ss, b)
  {
    hide BitsFor, Legible, ReadFirst, Resume, P.EobItems, FirstBlockFrom;
    ResumeFlushed(cd, tbl, e, rest, y);
    FromHead(cd, tbl, ss, se, al, e, BitsFor(cd, P.EobItems(tbl, e) + rest) + y, BitsFor(cd, rest) + y, b);
  }

  /** A nonzero coefficient sends what is pending; the rest does not depend on it. */
  lemma FirstFlushIs(tbl: nat, t: Block, k: nat, se: nat, r: nat, e: P.Eob)
    requires k <= se < DCTSIZE2 && t[k] != 0
    ensures var o := P.FirstFrom(tbl, t, k, se, r, P.NO_EOB);
            P.FirstFrom(tbl, t, k, se, r, e) == P.Out(P.EobItems(tbl, e) + o.x, o.e)
  {
    hide CoefItems;
    var more := P.FirstFrom(tbl, t, k + 1, se, 0, P.NO_EOB);
    assert [] + (CoefItems(tbl, r, t[k]) + more.x) == CoefItems(tbl, r, t[k]) + more.x;
  }

  /** All of e is sent, so nothing of its run is left. */
  lemma ResumeFlushed(cd: Codes, tbl: nat, e: P.Eob, more: seq<Item>, y: seq<bit>)
    requires tbl < NUM_HUFF_TBLS && P.Bounded(e) && e.run > 0 && Readable(cd, P.EobItems(tbl, e) + more)
    ensures Readable(cd, more)
    ensures Resume(cd, tbl, e, BitsFor(cd, P.EobItems(tbl, e) + more) + y) == Head(0, BitsFor(cd, more) + y)
  {
    hide BitsFor, Legible, Resume, P.EobItems;
    assert e.bits == e.bits + [];
    ResumeSent(cd, tbl, e, e, [], more, y);
    assert [] + (BitsFor(cd, more) + y) == BitsFor(cd, more) + y;
  }

  lemma FromHead(cd: Codes, tbl: nat, ss: nat, se: nat, al: nat, e: P.Eob, x: seq<bit>, z: seq<bit>, b: Block)
    requires GoodCodes(cd) && tbl < NUM_HUFF_TBLS && ss <= se < DCTSIZE2 && Resume(cd, tbl, e, x) == Head(0, z)
    ensures FirstBlockFrom(cd, tbl, ss, se, al, e, x, b) == ReadFirst(cd, tbl, se, al, z, ss, b)
  {
    hide Resume, ReadFirst;
  }

  /** A block of a first scan is read back, whatever is pending before and after it. */
  lemma FirstBlockRead(cd: Codes, tbl: nat, ss: nat, se: nat, al: nat, t: Block, e: P.Eob, b: Block, y: seq<bit>)
    requires tbl < NUM_HUFF_TBLS && ss <= se < DCTSIZE2 && NameableBand(t, ss, se) && P.Bounded(e)
    requires var o := P.FirstFrom(tbl, t, ss, se, 0, e); Readable(cd, o.x) && Resume(cd, tbl, o.e, y).Head?
    ensures var o := P.FirstFrom(tbl, t, ss, se, 0, e);
            var h := Resume(cd, tbl, o.e, y);
            FirstBlockFrom(cd, tbl, ss, se, al, e, BitsFor(cd, o.x) + y, b)
              == Band(B.Fill(b, t, ss, se, al), h.left, h.rest)
  {
    hide BitsFor, Legible, NameableBand, ReadFirst, P.FirstFrom, B.Fill;
    if e.run > 0 {
      hide FirstBlockFrom, Resume;
      FirstLead(cd, tbl, ss, se, al, t, ss, e, b, y);
    } else {
      assert e == P.NO_EOB;
      FirstRead(cd, tbl, se, al, t, ss, 0, ss, b, y);
      hide ReadRunLength;
    }
  }

  // ---- Refinement of a band ----

  datatype SkipOut = BadSkip | Skipped(b: Block, k: nat, rest: seq<bit>)

  /** A correction bit for a coefficient that is not zero; nothing is done if it was set
      already. */
  function Corrected(v: int, c: bit, al: nat): (w: int) {
    if c == 0 || v / Pow2(al) % 2 == 1 then v else if v < 0 then v - Pow2(al) else v + Pow2(al)
  }

  /** A coefficient that becomes nonzero, with the sign bit c. */
  function NewValue(c: bit, al: nat): (w: int) {
    var p: int := Pow2(al);
    if c == 1 then p else -p
  }

  /** Pass over n coefficients that are still zero, correcting the others, up to the next
      one that is zero, or to the end of the band. */
  function Skip(x: seq<bit>, b: Block, k: nat, se: nat, n: nat, al: nat): (r: SkipOut)
    requires se < DCTSIZE2 && k <= se + 1
    decreases se + 1 - k
  {
    if k > se then Skipped(b, k, x)
    else if b[k] != 0 then
      if x == [] then BadSkip else Skip(x[1..], b[k := Corrected(b[k], x[0], al)], k + 1, se, n, al)
    else if n == 0 then Skipped(b, k, x)
    else Skip(x, b, k + 1, se, n - 1, al)
  }

  /** The coefficients from k to se; no run is pending. */
  ghost function ReadRefine(cd: Codes, tbl: nat, se: nat, al: nat, x: seq<bit>, k: nat, b: Block): (r: BandOut)
    requires GoodCodes(cd) && tbl < NUM_HUFF_TBLS && se < DCTSIZE2 && k <= se + 1
    decreases se + 1 - k
  {
    if k > se then Band(b, 0, x)
    else
      var o := ReadSymbol(cd.co[AcTable(tbl)], cd.si[AcTable(tbl)], x, 0);
      if o.NoSymbol? then BadBand
      else if o.s == 0xF0 then
        var z := Skip(o.rest, b, k, se, 15, al);
        if z.BadSkip? || z.k > se || z.k < k then BadBand else ReadRefine(cd, tbl, se, al, z.rest, z.k + 1, z.b)
      else if o.s % 16 == 0 then
        var e := ReadLength(o.rest, o.s / 16);
        if e.NoRun? then BadBand
        else
          var z := Skip(e.rest, b, k, se, DCTSIZE2, al);
          if z.BadSkip? then BadBand else Band(z.b, e.run - 1, z.rest)
      else if o.rest != [] then
        var z := Skip(o.rest[1..], b, k, se, o.s / 16, al);
        if z.BadSkip? || z.k > se || z.k < k then BadBand
        else ReadRefine(cd, tbl, se, al, z.rest, z.k + 1, z.b[z.k := NewValue(o.rest[0], al)])
      else BadBand
  }

  /** A block of a refinement scan, when `left` blocks of a run are still to come. */
  ghost function ReadRefineBlock(cd: Codes, tbl: nat, ss: nat, se: nat, al: nat, left: nat, x: seq<bit>,
                                 b: Block): (r: BandOut)
    requires GoodCodes(cd) && tbl < NUM_HUFF_TBLS && ss <= se < DCTSIZE2
  {
    if left > 0 then
      var z := Skip(x, b, ss, se, DCTSIZE2, al);
      if z.BadSkip? then BadBand else Band(z.b, left - 1, z.rest)
    else ReadRefine(cd, tbl, se, al, x, ss, b)
  }

  // The stretch p .. k - 1 of a band that the encoder has passed without sending a symbol.

  /** How many of its coefficients are zero. */
  function Zeros(t: Block, p: nat, k: nat): (n: nat)
    requires p <= k <= DCTSIZE2
    ensures n <= k - p
    decreases k - p
  {
    if p == k then 0 else (if t[p] == 0 then 1 else 0) + Zeros(t, p + 1, k)
  }

  /** The correction bits of the others. */
  function Corrections(t: Block, p: nat, k: nat): (b: seq<bit>)
    requires p <= k <= DCTSIZE2
    ensures |b| <= k - p
    decreases k - p
  {
    if p == k then [] else (if Abs(t[p]) > 1 then [Abs(t[p]) % 2] else []) + Corrections(t, p + 1, k)
  }

  /** None of them becomes nonzero in this scan. */
  predicate NothingNew(t: Block, p: nat, k: nat) {
    forall j :: p <= j < k && j < DCTSIZE2 ==> Abs(t[j]) != 1
  }

  /** The decoder holds t up to its last bit, from p to se. */
  predicate HoldsFrom(b: Block, t: Block, p: nat, se: nat, al: nat) {
    forall j :: p <= j <= se && j < DCTSIZE2 ==> b[j] == B.DropBit(t[j]) * Pow2(al)
  }

  lemma {:induction false} ZerosSnoc(t: Block, p: nat, k: nat)
    requires p <= k < DCTSIZE2
    ensures Zeros(t, p, k + 1) == Zeros(t, p, k) + if t[k] == 0 then 1 else 0
    decreases k - p
  {
    if p < k {
      ZerosSnoc(t, p + 1, k);
    }
  }

  lemma {:induction false} CorrectionsSnoc(t: Block, p: nat, k: nat)
    requires p <= k < DCTSIZE2
    ensures Corrections(t, p, k + 1) == Corrections(t, p, k) + if Abs(t[k]) > 1 then [Abs(t[k]) % 2] else []
    decreases k - p
  {
    if p < k {
      CorrectionsSnoc(t, p + 1, k);
    }
  }

  /** What a scan does to one coefficient that it does not make nonzero. */
  lemma OneCorrection(v: int, t: int, al: nat)
    requires v == B.DropBit(t) * Pow2(al) && Abs(t) != 1
    ensures v != 0 <==> Abs(t) > 1
    ensures Abs(t) > 1 ==> t * Pow2(al) == Corrected(v, Abs(t) % 2, al)
    ensures t == 0 ==> v == 0 == t * Pow2(al)
  {
    hide Pow2;
    B.RefineCoef(t, Pow2(al));
    BitUnset(t, Pow2(al));
  }

  /** The bit that a correction sets is still zero. */
  lemma BitUnset(t: int, p: nat)
    requires p > 0
    ensures B.DropBit(t) * p / p % 2 == 0
  {
    var h := Abs(t) / 2;
    assert B.DropBit(t) == if t < 0 then -(h * 2) else h * 2;
    DivModUnique(B.DropBit(t) * p, p, B.DropBit(t), 0);
  }

  /** The band up to k corrected. */
  function PutUpto(b: Block, t: Block, p: nat, k: nat, al: nat): (r: Block) {
    seq(DCTSIZE2, j requires 0 <= j < DCTSIZE2 => if p <= j < k then t[j] * Pow2(al) else b[j])
  }

  lemma PutUptoFirst(b: Block, t: Block, p: nat, k: nat, al: nat)
    requires p < k <= DCTSIZE2
    ensures PutUpto(b[p := t[p] * Pow2(al)], t, p + 1, k, al) == PutUpto(b, t, p, k, al)
  {
    hide Pow2;
  }

  lemma PutUptoNothing(b: Block, t: Block, p: nat, al: nat)
    ensures PutUpto(b, t, p, p, al) == b
  {
    hide Pow2;
  }

  /** The decoder passes over one coefficient. */
  lemma SkipOne(t: Block, b: Block, p: nat, k: nat, se: nat, n: nat, al: nat, y: seq<bit>)
    requires p < k <= se + 1 && se < DCTSIZE2 && HoldsFrom(b, t, p, se, al) && Abs(t[p]) != 1
    requires t[p] == 0 ==> n > 0
    ensures HoldsFrom(b[p := t[p] * Pow2(al)], t, p + 1, se, al)
    ensures Skip(Corrections(t, p, k) + y, b, p, se, n, al)
            == Skip(Corrections(t, p + 1, k) + y, b[p := t[p] * Pow2(al)], p + 1, se,
                    if t[p] == 0 then n - 1 else n, al)
  {
    OneCorrection(b[p], t[p], al);
    hide Pow2, Corrected;
    var more := Corrections(t, p + 1, k);
    if Abs(t[p]) > 1 {
      var c := Abs(t[p]) % 2;
      assert Corrections(t, p, k) + y == [c] + (more + y) && ([c] + (more + y))[1..] == more + y;
    } else {
      assert [] + more == more;
      assert b[p := t[p] * Pow2(al)] == b;
    }
  }

  /** Passing over the stretch p .. k - 1: its bits are used up, and its zeros counted. */
  lemma {:induction false} SkipStretch(t: Block, b: Block, p: nat, k: nat, se: nat, n: nat, al: nat, y: seq<bit>)
    requires p <= k <= se + 1 && se < DCTSIZE2 && HoldsFrom(b, t, p, se, al) && NothingNew(t, p, k)
             && Zeros(t, p, k) <= n
    ensures Skip(Corrections(t, p, k) + y, b, p, se, n, al)
            == Skip(y, PutUpto(b, t, p, k, al), k, se, n - Zeros(t, p, k), al)
    decreases k - p
  {
    hide Pow2, Corrected, PutUpto, Skip, HoldsFrom, Corrections;
    if p == k {
      PutUptoNothing(b, t, p, al);
      assert Corrections(t, p, p) + y == y by { NoCorrections(t, p); }
    } else {
      SkipOne(t, b, p, k, se, n, al, y);
      PutUptoFirst(b, t, p, k, al);
      SkipStretch(t, b[p := t[p] * Pow2(al)], p + 1, k, se, if t[p] == 0 then n - 1 else n, al, y);
    }
  }

  lemma NoCorrections(t: Block, p: nat)
    requires p <= DCTSIZE2
    ensures Corrections(t, p, p) == []
  {
  }

  // ---- A newly nonzero coefficient ----

  /** The decoder stops at k, which is still zero. */
  lemma StopAt(t: Block, b: Block, p: nat, k: nat, se: nat, al: nat, y: seq<bit>)
    requires p <= k <= se < DCTSIZE2 && HoldsFrom(b, t, p, se, al) && NothingNew(t, p, k) && B.DropBit(t[k]) == 0
    ensures Skip(Corrections(t, p, k) + y, b, p, se, Zeros(t, p, k), al) == Skipped(PutUpto(b, t, p, k, al), k, y)
  {
    SkipStretch(t, b, p, k, se, Zeros(t, p, k), al, y);
    assert PutUpto(b, t, p, k, al)[k] == b[k] == 0;
  }

  lemma NewStep(cd: Codes, tbl: nat, se: nat, al: nat, x: seq<bit>, z: seq<bit>, k: nat, b: Block, sym: nat, sign: bit,
                i: nat, c: Block, y: seq<bit>)
    requires GoodCodes(cd) && tbl < NUM_HUFF_TBLS && se < DCTSIZE2 && k <= i <= se && sym % 16 == 1
    requires ReadSymbol(cd.co[AcTable(tbl)], cd.si[AcTable(tbl)], x, 0) == Found(sym, [sign] + z)
    requires Skip(z, b, k, se, sym / 16, al) == Skipped(c, i, y)
    ensures ReadRefine(cd, tbl, se, al, x, k, b) == ReadRefine(cd, tbl, se, al, y, i + 1, c[i := NewValue(sign, al)])
  {
    hide ReadSymbol, ReadLength, Skip, NewValue;
    assert ([sign] + z)[1..] == z;
  }

  lemma NewSymbol(r: nat)
    requires r <= 15
    ensures (r * 16 + 1) % 16 == 1 && (r * 16 + 1) / 16 == r
  {
  }

  lemma SignOf(v: int, al: nat)
    requires Abs(v) == 1
    ensures NewValue(if v < 0 then 0 else 1, al) == v * Pow2(al) && B.DropBit(v) == 0
  {
    hide Pow2;
  }

  lemma PutUptoSnoc(b: Block, t: Block, p: nat, k: nat, al: nat)
    requires p <= k < DCTSIZE2
    ensures PutUpto(b, t, p, k, al)[k := t[k] * Pow2(al)] == PutUpto(b, t, p, k + 1, al)
  {
    hide Pow2;
  }

  /** The bits behind the symbol of a new coefficient. */
  lemma NewBits(cd: Codes, sign: bit, b: seq<bit>, more: seq<Item>, y: seq<bit>)
    ensures BitsFor(cd, [Extra(sign, 1)] + (P.BitItems(b) + more)) + y == [sign] + (b + (BitsFor(cd, more) + y))
  {
    hide P.BitItems;
    FirstBit(cd, sign, P.BitItems(b) + more);
    hide BitsFor;
    BitItemsAre(cd, b, more);
    Associate(b, BitsFor(cd, more), y);
    Associate([sign], b + BitsFor(cd, more), y);
  }

  lemma NewItemsAre(tbl: nat, r: nat, v: int, b: seq<bit>, more: seq<Item>)
    ensures P.NewItems(tbl, r, v, b, P.NO_EOB) + more
            == [Symbol(AcTable(tbl), r * 16 + 1)] + ([Extra(if v < 0 then 0 else 1, 1)] + (P.BitItems(b) + more))
  {
    hide P.BitItems;
  }

  /** A newly nonzero coefficient at k is read, with the corrections before it. */
  lemma NewRead(cd: Codes, tbl: nat, se: nat, al: nat, t: Block, p: nat, k: nat, b: Block, more: seq<Item>, y: seq<bit>)
    requires tbl < NUM_HUFF_TBLS && p <= k <= se < DCTSIZE2 && HoldsFrom(b, t, p, se, al) && NothingNew(t, p, k)
    requires Abs(t[k]) == 1 && Zeros(t, p, k) <= 15
    requires Readable(cd, P.NewItems(tbl, Zeros(t, p, k), t[k], Corrections(t, p, k), P.NO_EOB) + more)
    ensures Readable(cd, more)
    ensures ReadRefine(cd, tbl, se, al,
                       BitsFor(cd, P.NewItems(tbl, Zeros(t, p, k), t[k], Corrections(t, p, k), P.NO_EOB) + more) + y, p,
                         b)
            == ReadRefine(cd, tbl, se, al, BitsFor(cd, more) + y, k + 1, PutUpto(b, t, p, k + 1, al))
  {
    var r, c, sign: bit := Zeros(t, p, k), Corrections(t, p, k), if t[k] < 0 then 0 else 1;
    hide BitsFor, Readable, ReadRefine, ReadSymbol, PutUpto, P.NewItems, HoldsFrom, NothingNew, Zeros, Corrections, Abs;
    NewHead(cd, tbl, r, t[k], c, more, y);
    NewAfterSymbol(cd, tbl, se, al, t, p, k, b, BitsFor(cd, P.NewItems(tbl, r, t[k], c, P.NO_EOB) + more) + y,
                   BitsFor(cd, more) + y, r, sign);
  }

  lemma NewAfterSymbol(cd: Codes, tbl: nat, se: nat, al: nat, t: Block, p: nat, k: nat, b: Block, x: seq<bit>,
                       rest: seq<bit>, r: nat, sign: bit)
    requires GoodCodes(cd) && tbl < NUM_HUFF_TBLS && p <= k <= se < DCTSIZE2 && HoldsFrom(b, t, p, se, al)
             && NothingNew(t, p, k)
    requires Abs(t[k]) == 1 && r == Zeros(t, p, k) <= 15 && sign == if t[k] < 0 then 0 else 1
    requires ReadSymbol(cd.co[AcTable(tbl)], cd.si[AcTable(tbl)], x, 0)
             == Found(r * 16 + 1, [sign] + (Corrections(t, p, k) + rest))
    ensures ReadRefine(cd, tbl, se, al, x, p, b)
            == ReadRefine(cd, tbl, se, al, rest, k + 1, PutUpto(b, t, p, k + 1, al))
  {
    SignOf(t[k], al);
    NewSymbol(r);
    hide ReadRefine, ReadSymbol, Skip, PutUpto, NewValue, Pow2, HoldsFrom, NothingNew, Zeros, Corrections, B.DropBit,
         Abs;
    StopAt(t, b, p, k, se, al, rest);
    PutUptoSnoc(b, t, p, k, al);
    NewStep(cd, tbl, se, al, x, Corrections(t, p, k) + rest, p, b, r * 16 + 1, sign, k, PutUpto(b, t, p, k, al), rest);
  }

  lemma NewHead(cd: Codes, tbl: nat, r: nat, v: int, c: seq<bit>, more: seq<Item>, y: seq<bit>)
    requires tbl < NUM_HUFF_TBLS && Readable(cd, P.NewItems(tbl, r, v, c, P.NO_EOB) + more)
    ensures Readable(cd, more)
    ensures ReadSymbol(cd.co[AcTable(tbl)], cd.si[AcTable(tbl)],
                       BitsFor(cd, P.NewItems(tbl, r, v, c, P.NO_EOB) + more) + y, 0)
            == Found(r * 16 + 1, [if v < 0 then 0 else 1] + (c + (BitsFor(cd, more) + y)))
  {
    hide BitsFor, Legible, ReadSymbol, P.NewItems, P.BitItems;
    var sign: bit := if v < 0 then 0 else 1;
    NewItemsAre(tbl, r, v, c, more);
    SymbolRead(cd, AcTable(tbl), r * 16 + 1, [Extra(sign, 1)] + (P.BitItems(c) + more), y);
    NewBits(cd, sign, c, more, y);
    ReadableSuffix(cd, [Extra(sign, 1)], P.BitItems(c) + more);
    ReadableSuffix(cd, P.BitItems(c), more);
  }

  // ---- Runs of 16 zeros ----

  predicate AllZero(t: Block, p: nat, k: nat) {
    forall j :: p <= j < k && j < DCTSIZE2 ==> t[j] == 0
  }

  lemma {:induction false} AllZeroStretch(t: Block, p: nat, k: nat)
    requires p <= k <= DCTSIZE2 && AllZero(t, p, k)
    ensures Zeros(t, p, k) == k - p && Corrections(t, p, k) == [] && NothingNew(t, p, k)
    decreases k - p
  {
    if p < k {
      AllZeroStretch(t, p + 1, k);
    }
  }

  /** Where the 16th zero of a stretch is. */
  predicate IsSixteenth(t: Block, p: nat, q: nat, k: nat)
    requires p <= q < k <= DCTSIZE2
  {
    t[q] == 0 && Zeros(t, p, q) == 15 && Corrections(t, p, q) == Corrections(t, p, k) && AllZero(t, q + 1, k)
  }

  /** While symbols can still follow, no coefficient that is not zero comes after the
      16th zero of the stretch. */
  predicate Early(t: Block, p: nat, k: nat)
    requires p <= k <= DCTSIZE2
  {
    forall j :: p <= j < k && t[j] != 0 ==> Zeros(t, p, j) <= 15
  }

  lemma BackOne(t: Block, p: nat, n: nat)
    requires p <= n < DCTSIZE2 && Early(t, p, n + 1) && NothingNew(t, p, n + 1) && Zeros(t, p, n + 1) > 15
    ensures t[n] == 0 && Zeros(t, p, n + 1) == Zeros(t, p, n) + 1 && Early(t, p, n) && NothingNew(t, p, n)
  {
    ZerosSnoc(t, p, n);
    hide Zeros;
    EarlyAt(t, p, n + 1, n);
  }

  lemma EarlyAt(t: Block, p: nat, k: nat, j: nat)
    requires p <= j < k <= DCTSIZE2 && Early(t, p, k)
    ensures t[j] == 0 || Zeros(t, p, j) <= 15
  {
  }

  lemma SixteenthHere(t: Block, p: nat, n: nat)
    requires p <= n < DCTSIZE2 && t[n] == 0 && Zeros(t, p, n) == 15
    ensures IsSixteenth(t, p, n, n + 1)
  {
    CorrectionsSnoc(t, p, n);
    hide Zeros, Corrections;
  }

  lemma SixteenthStays(t: Block, p: nat, q: nat, n: nat)
    requires p <= q < n < DCTSIZE2 && t[n] == 0 && IsSixteenth(t, p, q, n)
    ensures IsSixteenth(t, p, q, n + 1)
  {
    CorrectionsSnoc(t, p, n);
    hide Zeros, Corrections;
  }

  /** The 16th zero, looking back from k. */
  lemma {:induction false} FindSixteenth(t: Block, p: nat, k: nat) returns (q: nat)
    requires p <= k <= DCTSIZE2 && Early(t, p, k) && NothingNew(t, p, k) && Zeros(t, p, k) > 15
    ensures p <= q < k && IsSixteenth(t, p, q, k)
    ensures k - (q + 1) == Zeros(t, p, k) - 16
    decreases k - p
  {
    hide Zeros, Early, NothingNew, IsSixteenth;
    var n: nat := k - 1;
    BackOne(t, p, n);
    if Zeros(t, p, n) == 15 {
      q := n;
      SixteenthHere(t, p, n);
    } else {
      q := FindSixteenth(t, p, n);
      SixteenthStays(t, p, q, n);
    }
  }

  lemma RunSkipStep(cd: Codes, tbl: nat, se: nat, al: nat, x: seq<bit>, z: seq<bit>, k: nat, b: Block, i: nat, c: Block,
                    y: seq<bit>)
    requires GoodCodes(cd) && tbl < NUM_HUFF_TBLS && se < DCTSIZE2 && k <= i <= se
    requires ReadSymbol(cd.co[AcTable(tbl)], cd.si[AcTable(tbl)], x, 0) == Found(0xF0, z)
    requires Skip(z, b, k, se, 15, al) == Skipped(c, i, y)
    ensures ReadRefine(cd, tbl, se, al, x, k, b) == ReadRefine(cd, tbl, se, al, y, i + 1, c)
  {
    hide ReadSymbol, ReadLength, Skip;
  }

  /** One run-length-16 symbol with the correction bits of the stretch. */
  lemma RunRead(cd: Codes, tbl: nat, se: nat, al: nat, t: Block, p: nat, q: nat, k: nat, b: Block, more: seq<Item>,
                y: seq<bit>)
    requires tbl < NUM_HUFF_TBLS && p <= q < k <= se + 1 && se < DCTSIZE2
    requires HoldsFrom(b, t, p, se, al) && NothingNew(t, p, k) && IsSixteenth(t, p, q, k)
    requires Readable(cd, [Symbol(AcTable(tbl), 0xF0)] + (P.BitItems(Corrections(t, p, k)) + more))
    ensures Readable(cd, more)
    ensures ReadRefine(cd, tbl, se, al,
                       BitsFor(cd, [Symbol(AcTable(tbl), 0xF0)] + (P.BitItems(Corrections(t, p, k)) + more)) + y, p, b)
            == ReadRefine(cd, tbl, se, al, BitsFor(cd, more) + y, q + 1, PutUpto(b, t, p, q + 1, al))
  {
    var c, rest := Corrections(t, p, k), BitsFor(cd, more) + y;
    assert B.DropBit(t[q]) == 0 && t[q] * Pow2(al) == 0;
    PutZero(t, b, p, q, se, al);
    hide BitsFor, Legible, ReadRefine, ReadSymbol, Skip, PutUpto, P.BitItems, Pow2, HoldsFrom, Zeros, Corrections,
         B.DropBit;
    SymbolRead(cd, AcTable(tbl), 0xF0, P.BitItems(c) + more, y);
    BitItemsAre(cd, c, more);
    Associate(c, BitsFor(cd, more), y);
    StopAt(t, b, p, q, se, al, rest);
    RunSkipStep(cd, tbl, se, al, BitsFor(cd, [Symbol(AcTable(tbl), 0xF0)] + (P.BitItems(c) + more)) + y, c + rest, p, b,
                q, PutUpto(b, t, p, q, al), rest);
    ReadableSuffix(cd, P.BitItems(c), more);
  }

  lemma PutZero(t: Block, b: Block, p: nat, q: nat, se: nat, al: nat)
    requires p <= q <= se < DCTSIZE2 && HoldsFrom(b, t, p, se, al) && t[q] == 0
    ensures PutUpto(b, t, p, q, al) == PutUpto(b, t, p, q + 1, al)
  {
    assert b[q] == 0 == t[q] * Pow2(al);
    hide Pow2;
  }

  lemma PutAllZero(t: Block, b: Block, p: nat, q: nat, k: nat, se: nat, al: nat)
    requires p <= q <= k <= se + 1 && se < DCTSIZE2 && HoldsFrom(b, t, p, se, al) && AllZero(t, q, k)
    ensures PutUpto(b, t, p, q, al) == PutUpto(b, t, p, k, al)
  {
    forall j | q <= j < k ensures b[j] == t[j] * Pow2(al) {
      assert t[j] == 0 && b[j] == B.DropBit(0) * Pow2(al);
    }
    hide Pow2;
  }

  lemma RefineRunsAre(tbl: nat, r: nat, c: seq<bit>, more: seq<Item>)
    requires r > 15
    ensures P.RefineRuns(tbl, r, c, P.NO_EOB) + more
            == [Symbol(AcTable(tbl), 0xF0)] + (P.BitItems(c) + (P.RefineRuns(tbl, r - 16, [], P.NO_EOB) + more))
  {
    hide P.BitItems;
    var rest := P.RefineRuns(tbl, r - 16, [], P.NO_EOB);
    assert P.RefineRuns(tbl, r, c, P.NO_EOB) == [Symbol(AcTable(tbl), 0xF0)] + P.BitItems(c) + rest;
    hide P.RefineRuns;
    Associate([Symbol(AcTable(tbl), 0xF0)], P.BitItems(c), rest);
    Associate([Symbol(AcTable(tbl), 0xF0)], P.BitItems(c) + rest, more);
    Associate(P.BitItems(c), rest, more);
  }

  /** The 16th zero of a stretch of zeros. */
  lemma SixteenthOfZeros(t: Block, p: nat, k: nat)
    requires p + 15 < k <= DCTSIZE2 && AllZero(t, p, k)
    ensures IsSixteenth(t, p, p + 15, k) && NothingNew(t, p, k) && Corrections(t, p, k) == []
  {
    AllZeroStretch(t, p, p + 15);
    AllZeroStretch(t, p, k);
    hide Zeros, Corrections;
  }

  /** How many of r zeros the run-length-16 symbols cover. */
  function Whole(r: nat): (n: nat)
    ensures n <= r <= n + 15
  {
    if r > 15 then 16 + Whole(r - 16) else 0
  }

  lemma {:induction false} WholeIs(r: nat)
    ensures Whole(r) == r - r % 16
    decreases r
  {
    if r > 15 {
      WholeIs(r - 16);
    }
  }

  /** One run-length-16 symbol over zeros. */
  lemma ZeroRunRead(cd: Codes, tbl: nat, se: nat, al: nat, t: Block, p: nat, k: nat, b: Block, more: seq<Item>,
                    y: seq<bit>)
    requires tbl < NUM_HUFF_TBLS && p + 15 < k <= se + 1 && se < DCTSIZE2 && HoldsFrom(b, t, p, se, al)
             && AllZero(t, p, k)
    requires Readable(cd, [Symbol(AcTable(tbl), 0xF0)] + (P.BitItems([]) + more))
    ensures Readable(cd, more)
    ensures ReadRefine(cd, tbl, se, al, BitsFor(cd, [Symbol(AcTable(tbl), 0xF0)] + (P.BitItems([]) + more)) + y, p, b)
            == ReadRefine(cd, tbl, se, al, BitsFor(cd, more) + y, p + 16, b)
  {
    SixteenthOfZeros(t, p, k);
    PutAllZero(t, b, p, p, p + 16, se, al);
    PutUptoNothing(b, t, p, al);
    hide BitsFor, Legible, ReadRefine, PutUpto, P.BitItems, Pow2, IsSixteenth, Corrections, Zeros, B.DropBit, HoldsFrom,
         NothingNew;
    RunRead(cd, tbl, se, al, t, p, p + 15, k, b, more, y);
  }

  lemma WholeStep(r: nat)
    ensures Whole(r) == if r > 15 then 16 + Whole(r - 16) else 0
  {
  }

  lemma HoldsLater(t: Block, b: Block, p: nat, q: nat, se: nat, al: nat)
    requires p <= q && HoldsFrom(b, t, p, se, al)
    ensures HoldsFrom(b, t, q, se, al)
  {
    hide Pow2, B.DropBit;
  }

  lemma AllZeroPart(t: Block, p: nat, q: nat, i: nat, k: nat)
    requires p <= q && i <= k && AllZero(t, p, k)
    ensures AllZero(t, q, i)
  {
  }

  /** Run-length-16 symbols over a stretch of zeros. */
  lemma {:induction false} ZeroRunsRead(cd: Codes, tbl: nat, se: nat, al: nat, t: Block, p: nat, k: nat, r: nat,
                                        b: Block, more: seq<Item>, y: seq<bit>)
    requires tbl < NUM_HUFF_TBLS && p + r == k <= se + 1 && se < DCTSIZE2 && HoldsFrom(b, t, p, se, al)
             && AllZero(t, p, k)
    requires Readable(cd, P.RefineRuns(tbl, r, [], P.NO_EOB) + more)
    ensures Readable(cd, more)
    ensures ReadRefine(cd, tbl, se, al, BitsFor(cd, P.RefineRuns(tbl, r, [], P.NO_EOB) + more) + y, p, b)
            == ReadRefine(cd, tbl, se, al, BitsFor(cd, more) + y, p + Whole(r), b)
    decreases r
  {
    WholeStep(r);
    hide BitsFor, Legible, ReadRefine, P.BitItems, HoldsFrom, AllZero, Whole;
    if r > 15 {
      RefineRunsAre(tbl, r, [], more);
      hide P.RefineRuns;
      HoldsLater(t, b, p, p + 16, se, al);
      AllZeroPart(t, p, p + 16, k, k);
      ZeroRunRead(cd, tbl, se, al, t, p, k, b, P.RefineRuns(tbl, r - 16, [], P.NO_EOB) + more, y);
      ZeroRunsRead(cd, tbl, se, al, t, p + 16, k, r - 16, b, more, y);
    } else {
      assert P.RefineRuns(tbl, r, [], P.NO_EOB) + more == more;
    }
  }

  /** The first run-length-16 symbol of a stretch, up to its 16th zero at s, then the
      others; q is where they end. */
  lemma StretchRunsFrom(cd: Codes, tbl: nat, se: nat, al: nat, t: Block, p: nat, s: nat, q: nat, k: nat, r: nat,
                        c: seq<bit>, b: Block, more: seq<Item>, y: seq<bit>)
    requires tbl < NUM_HUFF_TBLS && p <= s < k <= se + 1 && se < DCTSIZE2 && HoldsFrom(b, t, p, se, al)
             && NothingNew(t, p, k)
    requires IsSixteenth(t, p, s, k) && AllZero(t, s + 1, k) && r > 15 && k == s + 1 + (r - 16)
             && q == s + 1 + Whole(r - 16)
    requires c == Corrections(t, p, k) && Readable(cd, P.RefineRuns(tbl, r, c, P.NO_EOB) + more)
    ensures Readable(cd, more)
    ensures ReadRefine(cd, tbl, se, al, BitsFor(cd, P.RefineRuns(tbl, r, c, P.NO_EOB) + more) + y, p, b)
            == ReadRefine(cd, tbl, se, al, BitsFor(cd, more) + y, q, PutUpto(b, t, p, s + 1, al))
  {
    hide BitsFor, Legible, ReadRefine, PutUpto, P.RefineRuns, P.BitItems, IsSixteenth, Corrections, HoldsFrom,
         NothingNew, AllZero, Whole;
    RefineRunsAre(tbl, r, c, more);
    StillHolds(t, b, p, s + 1, se, al);
    RunRead(cd, tbl, se, al, t, p, s, k, b, P.RefineRuns(tbl, r - 16, [], P.NO_EOB) + more, y);
    ZeroRunsRead(cd, tbl, se, al, t, s + 1, k, r - 16, PutUpto(b, t, p, s + 1, al), more, y);
  }

  lemma SixteenthZeros(t: Block, p: nat, q: nat, k: nat)
    requires p <= q < k <= DCTSIZE2 && IsSixteenth(t, p, q, k)
    ensures AllZero(t, q + 1, k)
  {
    hide Zeros, Corrections;
  }

  /** Where the run-length-16 symbols of a stretch end; only zeros are left of it. */
  lemma RunsEnd(t: Block, p: nat, k: nat) returns (q: nat)
    requires p <= k <= DCTSIZE2 && NothingNew(t, p, k) && Early(t, p, k) && Zeros(t, p, k) > 15
    ensures p <= q <= k && AllZero(t, q, k) && k - q == Zeros(t, p, k) - Whole(Zeros(t, p, k))
  {
    WholeStep(Zeros(t, p, k));
    hide IsSixteenth, Zeros, NothingNew, Early, AllZero, Whole;
    var s := FindSixteenth(t, p, k);
    SixteenthZeros(t, p, s, k);
    q := s + 1 + Whole(Zeros(t, p, k) - 16);
    AllZeroPart(t, s + 1, q, k, k);
  }

  /** Run-length-16 symbols with the correction bits of the stretch p .. k - 1. */
  lemma StretchRunsRead(cd: Codes, tbl: nat, se: nat, al: nat, t: Block, p: nat, k: nat, r: nat, q: nat, b: Block,
                        more: seq<Item>, y: seq<bit>)
    requires tbl < NUM_HUFF_TBLS && p <= q <= k <= se + 1 && se < DCTSIZE2 && HoldsFrom(b, t, p, se, al)
             && NothingNew(t, p, k)
    requires Early(t, p, k) && r == Zeros(t, p, k) && r > 15 && k - q == r - Whole(r)
    requires Readable(cd, P.RefineRuns(tbl, r, Corrections(t, p, k), P.NO_EOB) + more)
    ensures Readable(cd, more)
    ensures ReadRefine(cd, tbl, se, al, BitsFor(cd, P.RefineRuns(tbl, r, Corrections(t, p, k), P.NO_EOB) + more) + y, p,
                       b)
            == ReadRefine(cd, tbl, se, al, BitsFor(cd, more) + y, q, PutUpto(b, t, p, q, al))
  {
    WholeStep(r);
    hide BitsFor, Legible, ReadRefine, PutUpto, P.RefineRuns, IsSixteenth, Corrections, Zeros, HoldsFrom, NothingNew,
         Early, AllZero, Whole;
    var s := FindSixteenth(t, p, k);
    SixteenthZeros(t, p, s, k);
    AllZeroPart(t, s + 1, s + 1, q, k);
    PutAllZero(t, b, p, s + 1, q, se, al);
    StretchRunsFrom(cd, tbl, se, al, t, p, s, q, k, r, Corrections(t, p, k), b, more, y);
  }

  lemma StillHolds(t: Block, b: Block, p: nat, k: nat, se: nat, al: nat)
    requires p <= k && HoldsFrom(b, t, p, se, al)
    ensures HoldsFrom(PutUpto(b, t, p, k, al), t, k, se, al)
  {
    hide Pow2, B.DropBit;
  }

  // ---- The rest of a block of a refinement scan ----

  /** No coefficient becomes nonzero after eob. */
  predicate LastIs(t: Block, k: nat, se: nat, eob: nat) {
    forall j :: k <= j <= se && j < DCTSIZE2 && Abs(t[j]) == 1 ==> j <= eob
  }

  /** The encoder is at k, and has sent what concerns the coefficients before p; the
      decoder is at p and holds b. */
  predicate InBand(t: Block, b: Block, p: nat, k: nat, se: nat, eob: nat, al: nat) {
    && p <= k <= se + 1 <= DCTSIZE2
    && HoldsFrom(b, t, p, se, al) && NothingNew(t, p, k) && LastIs(t, k, se, eob) && (k <= eob ==> Early(t, p, k))
  }

  /** What the decoder has when the block c is done and the encoder has e pending. */
  ghost function Done(cd: Codes, tbl: nat, e: P.Eob, y: seq<bit>, c: Block): (r: BandOut)
    requires GoodCodes(cd) && tbl < NUM_HUFF_TBLS
  {
    var h := Resume(cd, tbl, e, y);
    if h.BadHead? then BadBand else Band(c, h.left, h.rest)
  }

  /** What the encoder sends from k on. */
  function Rest(tbl: nat, t: Block, p: nat, k: nat, se: nat, eob: nat, e: P.Eob): (o: P.Out)
    requires p <= k <= se + 1 <= DCTSIZE2
  {
    P.RefineFrom(tbl, t, k, se, eob, Zeros(t, p, k), Corrections(t, p, k), e)
  }

  lemma PassZero(t: Block, b: Block, p: nat, k: nat, se: nat, eob: nat, al: nat)
    requires InBand(t, b, p, k, se, eob, al) && k <= se && t[k] == 0
    ensures InBand(t, b, p, k + 1, se, eob, al)
  {
    hide Zeros, Pow2, B.DropBit;
  }

  lemma RestZero(tbl: nat, t: Block, p: nat, k: nat, se: nat, eob: nat, e: P.Eob)
    requires p <= k <= se < DCTSIZE2 && t[k] == 0
    ensures Rest(tbl, t, p, k, se, eob, e) == Rest(tbl, t, p, k + 1, se, eob, e)
  {
    ZerosSnoc(t, p, k);
    CorrectionsSnoc(t, p, k);
    hide Zeros, Corrections, P.RefineCoef, P.RefineRuns;
    assert Corrections(t, p, k) + [] == Corrections(t, p, k);
  }

  /** A coefficient that was nonzero before, unless run-length-16 symbols are due. */
  lemma PassOld(t: Block, b: Block, p: nat, k: nat, se: nat, eob: nat, al: nat)
    requires InBand(t, b, p, k, se, eob, al) && k <= se && Abs(t[k]) > 1 && !(Zeros(t, p, k) > 15 && k <= eob)
    ensures InBand(t, b, p, k + 1, se, eob, al)
  {
    hide Zeros, Pow2, B.DropBit;
  }

  lemma RestOld(tbl: nat, t: Block, p: nat, k: nat, se: nat, eob: nat, e: P.Eob)
    requires p <= k <= se < DCTSIZE2 && Abs(t[k]) > 1 && !(Zeros(t, p, k) > 15 && k <= eob)
    ensures Rest(tbl, t, p, k, se, eob, e) == Rest(tbl, t, p, k + 1, se, eob, e)
  {
    ZerosSnoc(t, p, k);
    CorrectionsSnoc(t, p, k);
    hide Zeros, Corrections, P.RefineRuns;
    assert P.RefineFrom(tbl, t, k, se, eob, Zeros(t, p, k), Corrections(t, p, k), e)
           == P.RefineCoef(tbl, t, k, se, eob, Zeros(t, p, k), Corrections(t, p, k), e);
  }

  lemma PassNew(t: Block, b: Block, p: nat, k: nat, se: nat, eob: nat, al: nat)
    requires InBand(t, b, p, k, se, eob, al) && k <= se && Abs(t[k]) == 1 && !(Zeros(t, p, k) > 15 && k <= eob)
    ensures Zeros(t, p, k) <= 15 && k <= eob
    ensures InBand(t, PutUpto(b, t, p, k + 1, al), k + 1, k + 1, se, eob, al)
  {
    StillHolds(t, b, p, k + 1, se, al);
    hide Zeros, HoldsFrom, PutUpto;
  }

  lemma RestNew(tbl: nat, t: Block, p: nat, k: nat, se: nat, eob: nat, e: P.Eob)
    requires p <= k <= se < DCTSIZE2 && Abs(t[k]) == 1 && !(Zeros(t, p, k) > 15 && k <= eob)
    ensures var o := Rest(tbl, t, k + 1, k + 1, se, eob, P.NO_EOB);
            Rest(tbl, t, p, k, se, eob, e) == P.Out(P.NewItems(tbl, Zeros(t, p, k), t[k], Corrections(t, p, k), e)
                                                    + o.x, o.e)
  {
    NoStretch(t, k + 1);
    hide Zeros, Corrections, P.RefineRuns, P.NewItems;
    assert P.RefineFrom(tbl, t, k, se, eob, Zeros(t, p, k), Corrections(t, p, k), e)
           == P.RefineCoef(tbl, t, k, se, eob, Zeros(t, p, k), Corrections(t, p, k), e);
  }

  lemma NoStretch(t: Block, p: nat)
    requires p <= DCTSIZE2
    ensures Zeros(t, p, p) == 0 && Corrections(t, p, p) == []
  {
  }

  /** After the run-length-16 symbols, at q. */
  lemma PassRuns(t: Block, b: Block, p: nat, q: nat, k: nat, se: nat, eob: nat, al: nat)
    requires InBand(t, b, p, k, se, eob, al) && p <= q <= k && AllZero(t, q, k)
    ensures InBand(t, PutUpto(b, t, p, q, al), q, k, se, eob, al)
  {
    StillHolds(t, b, p, q, se, al);
    hide Zeros, HoldsFrom, PutUpto;
  }

  lemma RestRuns(tbl: nat, t: Block, p: nat, q: nat, k: nat, se: nat, eob: nat, e: P.Eob)
    requires p <= q <= k <= se < DCTSIZE2 && t[k] != 0 && Zeros(t, p, k) > 15 && k <= eob
    requires AllZero(t, q, k) && k - q == Zeros(t, p, k) - Whole(Zeros(t, p, k))
    ensures var o := Rest(tbl, t, q, k, se, eob, P.NO_EOB);
            Rest(tbl, t, p, k, se, eob, e) == P.Out(P.RefineRuns(tbl, Zeros(t, p, k), Corrections(t, p, k), e) + o.x,
                                                    o.e)
    ensures Zeros(t, q, k) <= 15
  {
    AllZeroStretch(t, q, k);
    WholeIs(Zeros(t, p, k));
    hide Zeros, Corrections, P.RefineRuns, P.NewItems, Whole;
  }

  lemma PutUptoTwice(b: Block, t: Block, p: nat, q: nat, k: nat, al: nat)
    requires p <= q <= k
    ensures PutUpto(PutUpto(b, t, p, q, al), t, q, k, al) == PutUpto(b, t, p, k, al)
  {
    hide Pow2;
  }

  /** Inside a block, with nothing pending. */
  lemma {:induction false} RefineRead(cd: Codes, tbl: nat, t: Block, b: Block, p: nat, k: nat, se: nat, eob: nat,
                                      al: nat, y: seq<bit>)
    requires tbl < NUM_HUFF_TBLS && InBand(t, b, p, k, se, eob, al)
    requires var o := Rest(tbl, t, p, k, se, eob, P.NO_EOB); Readable(cd, o.x) && Resume(cd, tbl, o.e, y).Head?
    ensures var o := Rest(tbl, t, p, k, se, eob, P.NO_EOB);
            ReadRefine(cd, tbl, se, al, BitsFor(cd, o.x) + y, p, b)
              == Done(cd, tbl, o.e, y, PutUpto(b, t, p, se + 1, al))
    decreases se + 1 - k, Zeros(t, p, k)
  {
    hide BitsFor, Legible, ReadRefine, Resume, Rest, PutUpto, Done, HoldsFrom, NothingNew, Early, LastIs, Zeros,
         Corrections, P.NewItems, P.RefineRuns;
    if k > se {
      RefineEnd(cd, tbl, t, b, p, se, eob, al, y);
    } else if t[k] == 0 {
      PassZero(t, b, p, k, se, eob, al);
      RestZero(tbl, t, p, k, se, eob, P.NO_EOB);
      RefineRead(cd, tbl, t, b, p, k + 1, se, eob, al, y);
    } else if Zeros(t, p, k) > 15 && k <= eob {
      RefineRunsThen(cd, tbl, t, b, p, k, se, eob, al, y);
    } else if Abs(t[k]) > 1 {
      PassOld(t, b, p, k, se, eob, al);
      RestOld(tbl, t, p, k, se, eob, P.NO_EOB);
      RefineRead(cd, tbl, t, b, p, k + 1, se, eob, al, y);
    } else {
      RefineNewThen(cd, tbl, t, b, p, k, se, eob, al, y);
    }
  }

  lemma {:induction false} RefineRunsThen(cd: Codes, tbl: nat, t: Block, b: Block, p: nat, k: nat, se: nat, eob: nat,
                                          al: nat, y: seq<bit>)
    requires tbl < NUM_HUFF_TBLS && InBand(t, b, p, k, se, eob, al) && k <= se && t[k] != 0 && Zeros(t, p, k) > 15
             && k <= eob
    requires var o := Rest(tbl, t, p, k, se, eob, P.NO_EOB); Readable(cd, o.x) && Resume(cd, tbl, o.e, y).Head?
    ensures var o := Rest(tbl, t, p, k, se, eob, P.NO_EOB);
            ReadRefine(cd, tbl, se, al, BitsFor(cd, o.x) + y, p, b)
              == Done(cd, tbl, o.e, y, PutUpto(b, t, p, se + 1, al))
    decreases se + 1 - k, Zeros(t, p, k), 0
  {
    hide BitsFor, Legible, ReadRefine, Resume, Rest, PutUpto, Done, HoldsFrom, NothingNew, Early, LastIs, Zeros,
         Corrections, P.NewItems, P.RefineRuns, Whole, AllZero;
    var r := Zeros(t, p, k);
    var q: nat := RunsEnd(t, p, k);
    RestRuns(tbl, t, p, q, k, se, eob, P.NO_EOB);
    var o := Rest(tbl, t, q, k, se, eob, P.NO_EOB);
    StretchRunsRead(cd, tbl, se, al, t, p, k, r, q, b, o.x, y);
    PassRuns(t, b, p, q, k, se, eob, al);
    RefineRead(cd, tbl, t, PutUpto(b, t, p, q, al), q, k, se, eob, al, y);
    PutUptoTwice(b, t, p, q, se + 1, al);
  }

  lemma {:induction false} RefineNewThen(cd: Codes, tbl: nat, t: Block, b: Block, p: nat, k: nat, se: nat, eob: nat,
                                         al: nat, y: seq<bit>)
    requires tbl < NUM_HUFF_TBLS && InBand(t, b, p, k, se, eob, al) && k <= se && Abs(t[k]) == 1
    requires !(Zeros(t, p, k) > 15 && k <= eob)
    requires var o := Rest(tbl, t, p, k, se, eob, P.NO_EOB); Readable(cd, o.x) && Resume(cd, tbl, o.e, y).Head?
    ensures var o := Rest(tbl, t, p, k, se, eob, P.NO_EOB);
            ReadRefine(cd, tbl, se, al, BitsFor(cd, o.x) + y, p, b)
              == Done(cd, tbl, o.e, y, PutUpto(b, t, p, se + 1, al))
    decreases se + 1 - k, Zeros(t, p, k), 0
  {
    PassNew(t, b, p, k, se, eob, al);
    RestNew(tbl, t, p, k, se, eob, P.NO_EOB);
    hide BitsFor, Legible, ReadRefine, Resume, Rest, PutUpto, Done, HoldsFrom, NothingNew, Early, LastIs, Zeros,
         Corrections, P.NewItems;
    var o := Rest(tbl, t, k + 1, k + 1, se, eob, P.NO_EOB);
    NewRead(cd, tbl, se, al, t, p, k, b, o.x, y);
    RefineRead(cd, tbl, t, PutUpto(b, t, p, k + 1, al), k + 1, k + 1, se, eob, al, y);
    PutUptoTwice(b, t, p, k + 1, se + 1, al);
  }

  /** The end of a block: what is pending is one end of band, with the corrections. */
  lemma RefineEnd(cd: Codes, tbl: nat, t: Block, b: Block, p: nat, se: nat, eob: nat, al: nat, y: seq<bit>)
    requires GoodCodes(cd) && tbl < NUM_HUFF_TBLS && InBand(t, b, p, se + 1, se, eob, al)
    requires var o := Rest(tbl, t, p, se + 1, se, eob, P.NO_EOB); Resume(cd, tbl, o.e, y).Head?
    ensures var o := Rest(tbl, t, p, se + 1, se, eob, P.NO_EOB);
            ReadRefine(cd, tbl, se, al, BitsFor(cd, o.x) + y, p, b)
              == Done(cd, tbl, o.e, y, PutUpto(b, t, p, se + 1, al))
  {
    RestEnd(tbl, t, p, se, eob);
    NoBitsFor(cd);
    assert [] + y == y;
    hide BitsFor, Rest, HoldsFrom, NothingNew, LastIs, Early, Zeros, Corrections, PutUpto, ReadRunLength;
    if p == se + 1 {
      PutUptoNothing(b, t, p, al);
    } else {
      hide ReadRefine, Resume;
      SkipToEnd(t, b, p, se, al, Resume(cd, tbl, P.Eob(1, Corrections(t, p, se + 1)), y).rest);
      EndStep(cd, tbl, se, al, Corrections(t, p, se + 1), y, p, b, PutUpto(b, t, p, se + 1, al));
    }
  }

  lemma EndFromNothing(tbl: nat, b: seq<bit>)
    requires |b| <= DCTSIZE2
    ensures P.EndBand(tbl, P.NO_EOB, b) == P.Out([], P.Eob(1, b))
  {
    assert P.NO_EOB.bits + b == b;
    hide P.EobItems;
  }

  lemma SomethingPassed(t: Block, p: nat, k: nat)
    requires p < k <= DCTSIZE2 && NothingNew(t, p, k)
    ensures Zeros(t, p, k) > 0 || Corrections(t, p, k) != []
  {
    assert Abs(t[p]) != 1;
  }

  lemma RestEnd(tbl: nat, t: Block, p: nat, se: nat, eob: nat)
    requires p <= se + 1 <= DCTSIZE2 && NothingNew(t, p, se + 1)
    ensures Rest(tbl, t, p, se + 1, se, eob, P.NO_EOB)
            == P.Out([], if p == se + 1 then P.NO_EOB else P.Eob(1, Corrections(t, p, se + 1)))
  {
    EndFromNothing(tbl, Corrections(t, p, se + 1));
    if p == se + 1 {
      NoStretch(t, p);
    } else {
      SomethingPassed(t, p, se + 1);
    }
    hide P.EndBand, Zeros, Corrections;
  }

  lemma SkipToEnd(t: Block, b: Block, p: nat, se: nat, al: nat, y: seq<bit>)
    requires p <= se + 1 <= DCTSIZE2 && HoldsFrom(b, t, p, se, al) && NothingNew(t, p, se + 1)
    ensures Skip(Corrections(t, p, se + 1) + y, b, p, se, DCTSIZE2, al)
            == Skipped(PutUpto(b, t, p, se + 1, al), se + 1, y)
  {
    hide HoldsFrom, NothingNew, Corrections, PutUpto;
    SkipStretch(t, b, p, se + 1, se, DCTSIZE2, al, y);
    hide Zeros;
  }

  /** An end of band read inside a block, with correction bits c for the rest of it. */
  lemma EndStep(cd: Codes, tbl: nat, se: nat, al: nat, c: seq<bit>, y: seq<bit>, k: nat, b: Block, d: Block)
    requires GoodCodes(cd) && tbl < NUM_HUFF_TBLS && k <= se < DCTSIZE2 && Resume(cd, tbl, P.Eob(1, c), y).Head?
    requires Skip(c + Resume(cd, tbl, P.Eob(1, c), y).rest, b, k, se, DCTSIZE2, al)
             == Skipped(d, se + 1, Resume(cd, tbl, P.Eob(1, c), y).rest)
    ensures ReadRefine(cd, tbl, se, al, y, k, b) == Done(cd, tbl, P.Eob(1, c), y, d)
  {
    hide ReadSymbol, ReadLength, Skip;
    var o := ReadRunLength(cd, tbl, y);
    assert c + o.rest[|c|..] == o.rest;
  }

  // ---- A block of a refinement scan, whatever is pending ----

  /** A block of a refinement scan, for an encoder that has e pending. */
  ghost function RefineBlockFrom(cd: Codes, tbl: nat, ss: nat, se: nat, al: nat, e: P.Eob, x: seq<bit>,
                                 b: Block): (r: BandOut)
    requires GoodCodes(cd) && tbl < NUM_HUFF_TBLS && ss <= se < DCTSIZE2
  {
    var h := Resume(cd, tbl, e, x);
    if h.BadHead? then BadBand else ReadRefineBlock(cd, tbl, ss, se, al, h.left, h.rest, b)
  }

  /** The items that send what is pending come first; the others do not depend on it. */
  lemma RestFlushes(tbl: nat, t: Block, p: nat, k: nat, se: nat, eob: nat, e: P.Eob)
    requires p <= k <= se < DCTSIZE2 && t[k] != 0 && ((Zeros(t, p, k) > 15 && k <= eob) || Abs(t[k]) == 1)
    ensures var o := Rest(tbl, t, p, k, se, eob, P.NO_EOB);
            Rest(tbl, t, p, k, se, eob, e) == P.Out(P.EobItems(tbl, e) + o.x, o.e)
  {
    hide Zeros, Corrections, P.RefineRuns, P.NewItems;
    if Zeros(t, p, k) > 15 && k <= eob {
      RunsFlush(tbl, Zeros(t, p, k), Corrections(t, p, k), e);
      Associate(P.EobItems(tbl, e), P.RefineRuns(tbl, Zeros(t, p, k), Corrections(t, p, k), P.NO_EOB),
                P.RefineCoef(tbl, t, k, se, eob, Zeros(t, p, k) % 16, [], P.NO_EOB).x);
    } else {
      RestNew(tbl, t, p, k, se, eob, e);
      RestNew(tbl, t, p, k, se, eob, P.NO_EOB);
      hide Rest;
      NewFlush(tbl, Zeros(t, p, k), t[k], Corrections(t, p, k), e);
      Associate(P.EobItems(tbl, e), P.NewItems(tbl, Zeros(t, p, k), t[k], Corrections(t, p, k), P.NO_EOB),
                Rest(tbl, t, k + 1, k + 1, se, eob, P.NO_EOB).x);
    }
  }

  lemma NothingToSend(tbl: nat, x: seq<Item>)
    ensures P.EobItems(tbl, P.NO_EOB) + x == x
  {
  }

  lemma RunsFlush(tbl: nat, r: nat, b: seq<bit>, e: P.Eob)
    requires r > 15
    ensures P.RefineRuns(tbl, r, b, e) == P.EobItems(tbl, e) + P.RefineRuns(tbl, r, b, P.NO_EOB)
  {
    NothingToSend(tbl, [Symbol(AcTable(tbl), 0xF0)] + P.BitItems(b) + P.RefineRuns(tbl, r - 16, [], P.NO_EOB));
    hide P.EobItems, P.BitItems;
  }

  lemma NewFlush(tbl: nat, r: nat, v: int, b: seq<bit>, e: P.Eob)
    ensures P.NewItems(tbl, r, v, b, e) == P.EobItems(tbl, e) + P.NewItems(tbl, r, v, b, P.NO_EOB)
  {
    NothingToSend(tbl, [Symbol(AcTable(tbl), r * 16 + 1)] + [Extra(if v < 0 then 0 else 1, 1)] + P.BitItems(b));
    hide P.EobItems, P.BitItems;
  }

  /** While a run is pending and no symbol was sent for the block. */
  lemma {:induction false} RefineLead(cd: Codes, tbl: nat, t: Block, b: Block, ss: nat, k: nat, se: nat, eob: nat,
                                      al: nat, e: P.Eob, y: seq<bit>)
    requires tbl < NUM_HUFF_TBLS && InBand(t, b, ss, k, se, eob, al) && ss <= se && P.Bounded(e) && e.run > 0
    requires var o := Rest(tbl, t, ss, k, se, eob, e); Readable(cd, o.x) && Resume(cd, tbl, o.e, y).Head?
    ensures var o := Rest(tbl, t, ss, k, se, eob, e);
            RefineBlockFrom(cd, tbl, ss, se, al, e, BitsFor(cd, o.x) + y, b)
              == Done(cd, tbl, o.e, y, PutUpto(b, t, ss, se + 1, al))
    decreases se + 1 - k
  {
    hide BitsFor, Legible, RefineBlockFrom, Resume, Rest, PutUpto, Done, HoldsFrom, NothingNew, Early, LastIs, Zeros,
         Corrections;
    if k > se {
      LeadEnd(cd, tbl, t, b, ss, se, eob, al, e, y);
    } else if t[k] == 0 {
      PassZero(t, b, ss, k, se, eob, al);
      RestZero(tbl, t, ss, k, se, eob, e);
      RefineLead(cd, tbl, t, b, ss, k + 1, se, eob, al, e, y);
    } else if (Zeros(t, ss, k) > 15 && k <= eob) || Abs(t[k]) == 1 {
      RestFlushes(tbl, t, ss, k, se, eob, e);
      var o := Rest(tbl, t, ss, k, se, eob, P.NO_EOB);
      RefineFlushHead(cd, tbl, ss, se, al, e, o.x, y, b);
      RefineRead(cd, tbl, t, b, ss, k, se, eob, al, y);
    } else {
      PassOld(t, b, ss, k, se, eob, al);
      RestOld(tbl, t, ss, k, se, eob, e);
      RefineLead(cd, tbl, t, b, ss, k + 1, se, eob, al, e, y);
    }
  }

  lemma RefineFlushHead(cd: Codes, tbl: nat, ss: nat, se: nat, al: nat, e: P.Eob, rest: seq<Item>, y: seq<bit>,
                        b: Block)
    requires tbl < NUM_HUFF_TBLS && ss <= se < DCTSIZE2 && P.Bounded(e) && e.run > 0
    requires Readable(cd, P.EobItems(tbl, e) + rest)
    ensures Readable(cd, rest)
    ensures RefineBlockFrom(cd, tbl, ss, se, al, e, BitsFor(cd, P.EobItems(tbl, e) + rest) + y, b)
            == ReadRefine(cd, tbl, se, al, BitsFor(cd, rest) + y, ss, b)
  {
    hide BitsFor, Legible, ReadRefine, Resume, P.EobItems;
    ResumeFlushed(cd, tbl, e, rest, y);
  }

  /** The block ends in the pending run, with its corrections. */
  lemma LeadEnd(cd: Codes, tbl: nat, t: Block, b: Block, ss: nat, se: nat, eob: nat, al: nat, e: P.Eob, y: seq<bit>)
    requires tbl < NUM_HUFF_TBLS && InBand(t, b, ss, se + 1, se, eob, al) && ss <= se && P.Bounded(e) && e.run > 0
    requires var o := Rest(tbl, t, ss, se + 1, se, eob, e); Readable(cd, o.x) && Resume(cd, tbl, o.e, y).Head?
    ensures var o := Rest(tbl, t, ss, se + 1, se, eob, e);
            RefineBlockFrom(cd, tbl, ss, se, al, e, BitsFor(cd, o.x) + y, b)
              == Done(cd, tbl, o.e, y, PutUpto(b, t, ss, se + 1, al))
  {
    RestEndsBand(tbl, t, ss, se, eob, e);
    hide BitsFor, Legible, Resume, Rest, HoldsFrom, NothingNew, Early, LastIs, Zeros, Corrections, PutUpto, P.EndBand;
    var c := Corrections(t, ss, se + 1);
    var o := P.EndBand(tbl, e, c);
    JoinResume(cd, tbl, e, c, y);
    SkipToEnd(t, b, ss, se, al, Resume(cd, tbl, o.e, y).rest);
    hide Skip, ReadRefine;
  }

  lemma RestEndsBand(tbl: nat, t: Block, p: nat, se: nat, eob: nat, e: P.Eob)
    requires p <= se < DCTSIZE2 && NothingNew(t, p, se + 1)
    ensures Rest(tbl, t, p, se + 1, se, eob, e) == P.EndBand(tbl, e, Corrections(t, p, se + 1))
  {
    SomethingPassed(t, p, se + 1);
    hide P.EndBand, Zeros, Corrections;
  }

  lemma BandStart(t: Block, b: Block, ss: nat, se: nat, eob: nat, al: nat)
    requires ss <= se < DCTSIZE2 && HoldsFrom(b, t, ss, se, al) && eob == P.LastNew(t, ss, se + 1)
    ensures InBand(t, b, ss, ss, se, eob, al) && Zeros(t, ss, ss) == 0 && Corrections(t, ss, ss) == []
  {
    hide HoldsFrom, Pow2;
  }

  /** A block of a refinement scan is read back, whatever is pending before and after it:
      the decoder, which held every coefficient up to its last bit, holds that bit too. */
  lemma RefineBlockRead(cd: Codes, tbl: nat, ss: nat, se: nat, al: nat, t: Block, e: P.Eob, b: Block, y: seq<bit>)
    requires tbl < NUM_HUFF_TBLS && ss <= se < DCTSIZE2 && HoldsFrom(b, t, ss, se, al) && P.Bounded(e)
    requires var o := P.RefineFrom(tbl, t, ss, se, P.LastNew(t, ss, se + 1), 0, [], e);
             Readable(cd, o.x) && Resume(cd, tbl, o.e, y).Head?
    ensures var o := P.RefineFrom(tbl, t, ss, se, P.LastNew(t, ss, se + 1), 0, [], e);
            RefineBlockFrom(cd, tbl, ss, se, al, e, BitsFor(cd, o.x) + y, b)
              == Done(cd, tbl, o.e, y, PutUpto(b, t, ss, se + 1, al))
  {
    var eob := P.LastNew(t, ss, se + 1);
    BandStart(t, b, ss, se, eob, al);
    assert Rest(tbl, t, ss, ss, se, eob, e) == P.RefineFrom(tbl, t, ss, se, eob, 0, [], e);
    hide BitsFor, Legible, Rest, HoldsFrom, Zeros, Corrections, PutUpto, ReadRefine, P.RefineFrom, InBand, Done;
    if e.run > 0 {
      hide RefineBlockFrom, Resume;
      RefineLead(cd, tbl, t, b, ss, ss, se, eob, al, e, y);
    } else {
      assert e == P.NO_EOB;
      RefineRead(cd, tbl, t, b, ss, ss, se, eob, al, y);
      hide ReadRunLength;
    }
  }
}
