/** Huffman optimisation over two passes: the tables made from what the gathering
    pass counted have a code for every symbol that the output pass sends. */
module HuffTwoPass {
  import opened Numbers
  import opened Sums
  import opened HuffmanOptimality
  import opened HuffmanTree
  import opened LengthLimit
  import opened HuffmanTable
  import opened DerivedTable
  import opened HuffItems
  import opened HuffEncoder
  import opened BitPacking
  import R = HuffReading
  import F = HuffFlush

  /** The uses of each symbol of a table, as jpeg_gen_optimal_table expects them. */
  function UseRow(x: seq<Item>, t: nat): (f: seq<nat>) {
    seq(COUNTS, s requires 0 <= s < COUNTS => Uses(x, t, s))
  }

  // ---- The preconditions of jpeg_gen_optimal_table ----

  /** Ones at the symbols whose size category is at most 11, and at 256. */
  function Alphabet(n: nat): (a: seq<int>) {
    seq(n, s requires 0 <= s < n => if s % 16 <= MAX_COEF_BITS + 1 then 1 else 0)
  }

  lemma AlphabetStep(n: nat)
    ensures Sum(Alphabet(n + 1)) == Sum(Alphabet(n)) + if n % 16 <= MAX_COEF_BITS + 1 then 1 else 0
  {
    assert Alphabet(n + 1)[..n] == Alphabet(n);
  }

  lemma {:induction false} AlphabetSize(q: nat, r: nat)
    requires r < 16
    ensures Sum(Alphabet(16 * q + r)) == 12 * q + if r < 12 then r else 12
    decreases q, r
  {
    hide Alphabet, Sum;
    if r > 0 {
      AlphabetSize(q, r - 1);
      AlphabetStep(16 * q + r - 1);
      DivModUnique(16 * q + r - 1, 16, q, r - 1);
    } else if q > 0 {
      AlphabetSize(q - 1, 15);
      AlphabetStep(16 * (q - 1) + 15);
      DivModUnique(16 * (q - 1) + 15, 16, q - 1, 15);
    } else {
      NoAlphabet();
      SumZero([]);
    }
  }

  lemma NoAlphabet()
    ensures Alphabet(0) == []
  {
  }

  /** JPEG alphabets are small enough for the byte-sized counts of lengths. */
  lemma AlphabetFits(ly: Layout, x: seq<Item>, t: nat)
    requires AllRegular(ly, x)
    ensures Count(Counted(UseRow(x, t))) <= 255
  {
    hide Sum, TableInUse, Uses;
    var f := Counted(UseRow(x, t));
    var a := Alphabet(COUNTS);
    forall s | 0 <= s < COUNTS ensures Indicator(f)[s] <= a[s] {
      if s < 256 && f[s] > 0 {
        PresentIfUsed(x, t, s);
        var i :| 0 <= i < |x| && x[i] == Symbol(t, s);
        assert Regular(ly, x[i]);
      }
    }
    SumMono(Indicator(f), a);
    AlphabetSize(16, 1);
  }

  /** A table that is mentioned has a symbol with a count. */
  lemma MentionedNonempty(ly: Layout, x: seq<Item>, t: nat)
    requires AllRegular(ly, x) && Mentions(x, t)
    ensures exists p :: 0 <= p < 256 && UseRow(x, t)[p] > 0
  {
    hide TableInUse;
    var i :| 0 <= i < |x| && x[i].Symbol? && x[i].tbl == t;
    assert Regular(ly, x[i]);
    UsedIfPresent(x, i);
    assert UseRow(x, t)[x[i].sym] > 0;
  }

  // ---- Tables that serve a scan ----

  /** co and si code exactly the symbols of the row, by a prefix code without an
      all-ones word. */
  ghost predicate Serves(f: seq<nat>, co: seq<nat>, si: seq<nat>) {
    && |f| == COUNTS && |co| == |si| == 256
    && (forall s: nat :: s < 256 ==> (si[s] > 0 <==> f[s] > 0) && si[s] <= 16)
    && (forall s: nat :: s < 256 && si[s] > 0 ==> co[s] + 1 < Pow2(si[s]))
    && PrefixFree(si, Words(co, si))
  }

  lemma ServesWell(f: seq<nat>, co: seq<nat>, si: seq<nat>)
    requires Serves(f, co, si)
    ensures R.GoodTable(co, si)
  {
    hide PrefixFree, Words;
  }

  /** If the tables that are mentioned serve the scan, they have a code for each of its
      symbols, and can be read. */
  lemma ScanSendable(ly: Layout, x: seq<Item>, cd: Codes)
    requires AllRegular(ly, x) && GoodCodes(cd)
    requires forall t: nat :: t < 2 * NUM_HUFF_TBLS && Mentions(x, t) ==> Serves(UseRow(x, t), cd.co[t], cd.si[t])
    ensures AllSendable(cd, x) && R.Readable(cd, x)
  {
    hide TableInUse, PrefixFree, R.GoodTable;
    forall i | 0 <= i < |x| ensures R.Legible(cd, x[i]) {
      assert Regular(ly, x[i]);
      if x[i].Symbol? {
        assert Mentions(x, x[i].tbl);
        UsedIfPresent(x, i);
        assert UseRow(x, x[i].tbl)[x[i].sym] > 0;
        assert Serves(UseRow(x, x[i].tbl), cd.co[x[i].tbl], cd.si[x[i].tbl]);
        ServesWell(UseRow(x, x[i].tbl), cd.co[x[i].tbl], cd.si[x[i].tbl]);
      }
    }
    forall i | 0 <= i < |x| ensures Sendable(cd, x[i]) {
      assert R.Legible(cd, x[i]);
    }
  }

  /** One table: jpeg_gen_optimal_table on its counts, then jpeg_make_c_derived_tbl.
      It succeeds if and only if Huffman's algorithm gives no symbol more than 32 bits. */
  method OptimalCodes(freq: array<nat>, isDC: bool) returns (ok: bool, co: seq<nat>, si: seq<nat>)
    requires freq.Length == COUNTS && Sum(Counted(freq[..])) <= MAX_COUNT && Count(Counted(freq[..])) <= 255
    requires exists p :: 0 <= p < 256 && freq[p] > 0
    requires isDC ==> forall s :: 16 <= s < 256 ==> freq[s] == 0
    modifies freq
    ensures ok <==> Codable(Counted(old(freq[..])))
    ensures ok ==> Serves(old(freq[..]), co, si)
  {
    hide Sum, Count, Optimal, Complete, Legal, Covers, Stored, Upto, Words, PrefixFree, Codable, HuffmanSizes;
    co, si := [], [];
    ghost var f := freq[..];
    var htbl := new HuffTbl();
    ok := GenOptimalTable(htbl, freq);
    if ok {
      GeneratedTableAccepted(Counted(f), HuffmanSizes(Counted(f)), htbl.bits[..], htbl.huffval[..],
                             if isDC then 15 else 255);
      var dtbl;
      var accepted;
      accepted, dtbl := MakeDerivedTable(htbl, isDC);
      co, si := dtbl.ehufco[..], dtbl.ehufsi[..];
      DerivedServes(f, htbl.bits[..], htbl.huffval[..], if isDC then 15 else 255, co, si);
    }
  }

  lemma DerivedServes(f: seq<nat>, bits: seq<nat>, huffval: seq<nat>, maxsymbol: nat, co: seq<nat>, si: seq<nat>)
    requires |f| == COUNTS && Legal(bits, huffval, maxsymbol) && Derived(bits, huffval, co, si)
    requires Covers(Counted(f), bits, huffval)
    ensures Serves(f, co, si)
  {
    hide PrefixFree, Words, Legal, Derived, Upto, Pow2;
    assert |bits| == 17 && |co| == |si| == |huffval| == 256 by { DerivedShape(bits, huffval, co, si); }
    DerivedCode(bits, huffval, maxsymbol, co, si);
  }

  lemma DerivedShape(bits: seq<nat>, huffval: seq<nat>, co: seq<nat>, si: seq<nat>)
    requires Derived(bits, huffval, co, si)
    ensures |bits| == 17 && |co| == |si| == |huffval| == 256 && Upto(bits, 16) <= 256
  {
  }

  // ---- The two passes ----

  /** The counts of the gathering pass, ready for jpeg_gen_optimal_table. */
  ghost predicate Gathered(counts: array2<nat>, x: seq<Item>)
    reads counts
  {
    && counts.Length0 == 2 * NUM_HUFF_TBLS && counts.Length1 == COUNTS
    && forall t, s :: 0 <= t < 2 * NUM_HUFF_TBLS && 0 <= s < COUNTS ==> counts[t, s] == Uses(x, t, s)
  }

  /** What the scan must satisfy: each of its tables is mentioned, and fewer than
      10^9 symbols are coded with it. */
  ghost predicate Countable(ly: Layout, x: seq<Item>) {
    && AllRegular(ly, x)
    && forall t: nat :: t < 2 * NUM_HUFF_TBLS && TableInUse(ly, t) ==>
         Mentions(x, t) && Sum(Counted(UseRow(x, t))) <= MAX_COUNT
  }

  /** Tables done so far serve the scan, and the others are empty. */
  ghost predicate Partly(x: seq<Item>, did: seq<bool>, cd: Codes) {
    && |did| == |cd.co| == |cd.si| == 2 * NUM_HUFF_TBLS
    && forall t :: 0 <= t < 2 * NUM_HUFF_TBLS ==>
         if did[t] then Serves(UseRow(x, t), cd.co[t], cd.si[t]) && Codable(Counted(UseRow(x, t)))
         else cd.co[t] == cd.si[t] == Nothing()
  }

  function Nothing(): (r: seq<nat>) {
    seq(256, s => 0)
  }

  lemma PartlyGood(x: seq<Item>, did: seq<bool>, cd: Codes)
    requires Partly(x, did, cd)
    ensures GoodCodes(cd)
  {
    hide PrefixFree, Words, Codable;
  }

  lemma PartlyMore(x: seq<Item>, did: seq<bool>, cd: Codes, t: nat, co: seq<nat>, si: seq<nat>)
    requires Partly(x, did, cd) && t < 2 * NUM_HUFF_TBLS && Serves(UseRow(x, t), co, si)
             && Codable(Counted(UseRow(x, t)))
    ensures Partly(x, did[t := true], Codes(cd.co[t := co], cd.si[t := si]))
  {
    hide Serves, Codable;
  }

  /** The table number t, unless it was done already. */
  method OptimiseTable(counts: array2<nat>, t: nat, did0: seq<bool>, cd0: Codes, ghost ly: Layout, ghost x: seq<Item>)
    returns (ok: bool, did: seq<bool>, cd: Codes)
    requires Gathered(counts, x) && AllRegular(ly, x) && t < 2 * NUM_HUFF_TBLS
    requires Mentions(x, t) && Sum(Counted(UseRow(x, t))) <= MAX_COUNT
    requires Partly(x, did0, cd0)
    ensures ok <==> Codable(Counted(UseRow(x, t)))
    ensures ok ==> Partly(x, did, cd) && |did| == |did0| && did[t] && forall k :: 0 <= k < |did0| && did0[k] ==> did[k]
  {
    hide Serves, TableInUse, Regular, Sum, Count, Codable, Mentions;
    did, cd, ok := did0, cd0, true;
    if !did[t] {
      var freq := new nat[COUNTS];
      for s := 0 to COUNTS
        invariant forall k :: 0 <= k < s ==> freq[k] == counts[t, k]
      {
        freq[s] := counts[t, s];
      }
      assert freq[..] == UseRow(x, t);
      AlphabetFits(ly, x, t);
      MentionedNonempty(ly, x, t);
      ghost var p: nat :| p < 256 && UseRow(x, t)[p] > 0;
      assert freq[p] > 0;
      if t < NUM_HUFF_TBLS {
        DcSymbolsSmall(ly, x, t);
      }
      var co, si;
      ok, co, si := OptimalCodes(freq, t < NUM_HUFF_TBLS);
      if ok {
        PartlyMore(x, did, cd, t, co, si);
        did, cd := did[t := true], Codes(cd.co[t := co], cd.si[t := si]);
      }
    }
  }

  lemma DcSymbolsSmall(ly: Layout, x: seq<Item>, t: nat)
    requires AllRegular(ly, x) && t < NUM_HUFF_TBLS
    ensures forall s :: 16 <= s < 256 ==> UseRow(x, t)[s] == 0
  {
    hide TableInUse;
    forall s: nat | 16 <= s < 256 ensures UseRow(x, t)[s] == 0 {
      forall i | 0 <= i < |x| ensures x[i] != Symbol(t, s) {
        assert Regular(ly, x[i]);
      }
      AbsentUnused(x, t, s);
    }
  }

  lemma MentionedInUse(ly: Layout, x: seq<Item>, t: nat)
    requires AllRegular(ly, x) && Mentions(x, t)
    ensures TableInUse(ly, t)
  {
    hide TableInUse;
    var i :| 0 <= i < |x| && x[i].Symbol? && x[i].tbl == t;
    assert Regular(ly, x[i]);
  }

  /** Huffman's algorithm gives no symbol of the scan more than 32 bits. */
  ghost predicate AllCodable(ly: Layout, x: seq<Item>) {
    forall t: nat :: t < 2 * NUM_HUFF_TBLS && TableInUse(ly, t) ==> Codable(Counted(UseRow(x, t)))
  }

  /** A scan of fewer than 9227465 symbols to a table is always codable. */
  lemma SafeScan(ly: Layout, x: seq<Item>)
    requires forall t: nat :: t < 2 * NUM_HUFF_TBLS && TableInUse(ly, t) ==> Sum(Counted(UseRow(x, t))) < SAFE_COUNT
    ensures AllCodable(ly, x)
  {
    hide TableInUse, Sum, Codable;
    forall t: nat | t < 2 * NUM_HUFF_TBLS && TableInUse(ly, t) ensures Codable(Counted(UseRow(x, t))) {
      SafeIsCodable(Counted(UseRow(x, t)));
    }
  }

  /** finish_pass_gather: an optimal table for each table of the scan, once. */
  method FinishPassGather(e: Encoder, ghost x: seq<Item>) returns (ok: bool)
    requires e.Shape() && Gathered(e.counts, x) && Countable(e.ly, x)
    modifies e`codes
    ensures ok <==> AllCodable(e.ly, x)
    ensures ok ==> GoodCodes(e.codes) && AllSendable(e.codes, x) && R.Readable(e.codes, x)
  {
    hide R.Readable, Serves, Regular, Sum, Count, AllSendable, Codable;
    var did := seq(2 * NUM_HUFF_TBLS, t => false);
    var cd := Codes(seq(2 * NUM_HUFF_TBLS, t => Nothing()), seq(2 * NUM_HUFF_TBLS, t => Nothing()));
    for ci := 0 to |e.ly.dcTbl|
      invariant Partly(x, did, cd)
      invariant forall c :: 0 <= c < ci ==> did[DcTable(e.ly.dcTbl[c])] && did[AcTable(e.ly.acTbl[c])]
    {
      ok, did, cd := OptimiseTable(e.counts, DcTable(e.ly.dcTbl[ci]), did, cd, e.ly, x);
      if !ok {
        return;
      }
      ok, did, cd := OptimiseTable(e.counts, AcTable(e.ly.acTbl[ci]), did, cd, e.ly, x);
      if !ok {
        return;
      }
    }
    PartlyGood(x, did, cd);
    forall t: nat | t < 2 * NUM_HUFF_TBLS && TableInUse(e.ly, t)
      ensures Serves(UseRow(x, t), cd.co[t], cd.si[t]) && Codable(Counted(UseRow(x, t)))
    {
    }
    forall t: nat | t < 2 * NUM_HUFF_TBLS && Mentions(x, t) ensures Serves(UseRow(x, t), cd.co[t], cd.si[t]) {
      MentionedInUse(e.ly, x, t);
    }
    ScanSendable(e.ly, x, cd);
    e.codes := cd;
    ok := true;
  }

  lemma {:induction false} NameableMcu(ly: Layout, last: seq<int>, i: nat, mcu: Mcu, j: nat)
    requires GoodLayout(ly) && |last| == |ly.dcTbl| && i <= j < |mcu| == |ly.membership| && McuInRange(ly, last, i, mcu)
    ensures R.Nameable(mcu[j])
    decreases |mcu| - i
  {
    hide NBits;
    if i < j {
      NameableMcu(ly, last[ly.membership[i] := mcu[i][0]], i + 1, mcu, j);
    }
  }

  /** Coefficients that pass the range check have categories that a symbol can name. */
  lemma {:induction false} NameableScan(ly: Layout, interval: nat, h: Place, mcus: seq<Mcu>)
    requires GoodLayout(ly) && GoodPlace(ly, h) && Shaped(ly, mcus) && ScanInRange(ly, interval, h, mcus)
    ensures R.NameableScan(mcus)
    decreases |mcus|
  {
    hide R.Nameable, GoodLayout, McuInRange;
    if mcus != [] {
      var last := Entering(ly, interval, h);
      forall j | 0 <= j < |mcus[0]| ensures R.Nameable(mcus[0][j]) {
        NameableMcu(ly, last, 0, mcus[0], j);
      }
      NameableScan(ly, interval, After(ly, interval, h, mcus[0]), mcus[1..]);
      forall i | 0 <= i < |mcus| ensures R.NameableMcu(mcus[i]) {
        assert i > 0 ==> mcus[i] == mcus[1..][i - 1];
      }
    }
  }

  /** Both passes over a scan. They succeed if and only if the coefficients are in range
      and Huffman's algorithm gives no symbol more than 32 bits. Then the output pass
      never meets a symbol without a code, and writes bytes that decode to the MCUs,
      unless flush_bits loses something with 64-bit words. */
  method OptimisedScan(e: Encoder, mcus: seq<Mcu>) returns (ok: bool)
    requires e.Shape() && (e.w.wordBits == 32 || e.w.wordBits == 64) && Shaped(e.ly, mcus) && mcus != []
    requires (forall i :: 0 <= i < |mcus| ==> ShortMcu(mcus[i])) && Populated(e.ly)
    requires var x := ScanItems(e.ly, e.interval, StartPlace(e.ly, e.interval), mcus);
             forall t: nat :: t < 2 * NUM_HUFF_TBLS ==> Sum(Counted(UseRow(x, t))) <= MAX_COUNT
    modifies e, e.w, e.lastDc, e.counts
    ensures var h := StartPlace(e.ly, e.interval);
            ok <==> ScanInRange(e.ly, e.interval, h, mcus) && AllCodable(e.ly, ScanItems(e.ly, e.interval, h, mcus))
    ensures var h := StartPlace(e.ly, e.interval);
            ok ==> && GoodCodes(e.codes) && AllSendable(e.codes, ScanItems(e.ly, e.interval, h, mcus))
                   && R.Readable(e.codes, ScanItems(e.ly, e.interval, h, mcus))
    ensures var h := StartPlace(e.ly, e.interval);
            ok ==> e.w.out == old(e.w.out) + Written(e.codes, e.w.wordBits, e.ly, e.interval, h, Held([], 0), mcus)
    ensures ok && F.NothingLost(e.codes, e.w.wordBits, e.ly, e.interval, StartPlace(e.ly, e.interval), Held([], 0),
                                mcus)
            ==> R.Decode(e.codes, e.ly, e.interval, e.w.out[|old(e.w.out)|..], |mcus|) == R.ScanOut(mcus)
    ensures ok && (e.w.wordBits == 32 || F.ShortEnds(e.codes, e.ly))
            ==> F.NothingLost(e.codes, e.w.wordBits, e.ly, e.interval, StartPlace(e.ly, e.interval), Held([], 0), mcus)
  {
    hide ScanItems, ScanInRange, Stream, Written, AllSendable, GoodCodes, Mentions, Sum, AllRegular, ShortMcu,
         AllCodable;
    hide R.Readable, R.Decode, R.NameableScan, F.NothingLost, F.ShortEnds;
    ghost var x := ScanItems(e.ly, e.interval, StartPlace(e.ly, e.interval), mcus);
    ok := e.GatherScan(mcus);
    if !ok {
      return;
    }
    ScanRegular(e.ly, e.interval, StartPlace(e.ly, e.interval), mcus);
    forall t: nat | t < 2 * NUM_HUFF_TBLS && TableInUse(e.ly, t) ensures Mentions(x, t) {
      ScanMentions(e.ly, e.interval, StartPlace(e.ly, e.interval), mcus, t);
    }
    ok := FinishPassGather(e, x);
    if ok {
      e.EncodeScan(mcus);
      NameableScan(e.ly, e.interval, StartPlace(e.ly, e.interval), mcus);
      ReadIfKept(e.codes, e.w.wordBits, e.ly, e.interval, mcus);
      if e.w.wordBits == 32 || F.ShortEnds(e.codes, e.ly) {
        F.ShortEndsLoseNothing(e.codes, e.w.wordBits, e.ly, e.interval, mcus);
      }
      ghost var written := Written(e.codes, e.w.wordBits, e.ly, e.interval, StartPlace(e.ly, e.interval), Held([], 0),
                                   mcus);
      assert (old(e.w.out) + written)[|old(e.w.out)|..] == written;
    }
  }

  lemma ReadIfKept(cd: Codes, w: nat, ly: Layout, interval: nat, mcus: seq<Mcu>)
    requires GoodCodes(cd) && GoodLayout(ly) && Shaped(ly, mcus) && R.NameableScan(mcus) && w >= 7
    requires R.Readable(cd, ScanItems(ly, interval, StartPlace(ly, interval), mcus))
    ensures F.NothingLost(cd, w, ly, interval, StartPlace(ly, interval), Held([], 0), mcus)
            ==> R.Decode(cd, ly, interval, Written(cd, w, ly, interval, StartPlace(ly, interval), Held([], 0), mcus),
                         |mcus|)
                == R.ScanOut(mcus)
  {
    hide GoodCodes, GoodLayout, R.NameableScan, R.Readable, R.Decode, Written, Stream, F.NothingLost, ScanItems;
    F.LosslessExactly(cd, w, ly, interval, StartPlace(ly, interval), Held([], 0), mcus);
    R.HuffmanScanRoundTrip(cd, ly, interval, mcus);
  }
}
