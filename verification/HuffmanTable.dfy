/** jpeg_gen_optimal_table as a whole: from symbol counts to a Huffman table. */
module HuffmanTable {
  import opened Numbers
  import opened Sums
  import opened HuffmanOptimality
  import opened HuffmanTree
  import opened LengthLimit

  /** JHUFF_TBL: the number of codes of each length, and the symbols in code order. */
  class HuffTbl {
    const bits: array<nat>
    const huffval: array<nat>

    ghost predicate Valid() {
      bits.Length == 17 && huffval.Length == 256 && bits != huffval
    }

    constructor ()
      ensures Valid() && fresh(bits) && fresh(huffval)
    {
      bits := new nat[17];
      huffval := new nat[256];
    }
  }

  // ---- The order of the symbols ----

  /** The symbols below n with code length k, in increasing order. */
  function WithLength(l: seq<nat>, k: nat, n: nat): (r: seq<nat>)
    requires n <= |l|
  {
    if n == 0 then [] else WithLength(l, k, n - 1) + if l[n - 1] == k then [n - 1] else []
  }

  /** The real symbols of code lengths 1 .. k, sorted by code length. */
  function Ranked(l: seq<nat>, k: nat): (r: seq<nat>)
    requires |l| == SYMBOLS
  {
    if k == 0 then [] else Ranked(l, k - 1) + WithLength(l, k, 256)
  }

  ghost predicate Distinct(s: seq<nat>) {
    forall i, j :: 0 <= i < j < |s| ==> s[i] != s[j]
  }

  ghost predicate ShorterFirst(l: seq<nat>, r: seq<nat>) {
    && (forall i :: 0 <= i < |r| ==> r[i] < |l|)
    && forall i, j :: 0 <= i < j < |r| ==> l[r[i]] <= l[r[j]]
  }

  lemma {:induction false} WithLengthMembers(l: seq<nat>, k: nat, n: nat)
    requires n <= |l|
    ensures forall s: nat :: s in WithLength(l, k, n) <==> s < n && l[s] == k
    ensures Distinct(WithLength(l, k, n))
    decreases n
  {
    if n > 0 {
      WithLengthMembers(l, k, n - 1);
    }
  }

  lemma {:induction false} WithLengthTallied(l: seq<nat>, k: nat, n: nat)
    requires n <= |l| && 1 <= k <= MAX_CLEN && forall i :: 0 <= i < |l| ==> l[i] <= MAX_CLEN
    ensures |WithLength(l, k, n)| == Tally(l, n)[k]
    decreases n
  {
    if n > 0 {
      WithLengthTallied(l, k, n - 1);
    }
  }

  /** Exactly the real symbols with a code, each once, shorter codes first. */
  lemma {:induction false} RankedMembers(l: seq<nat>, k: nat)
    requires |l| == SYMBOLS
    ensures forall s: nat :: s in Ranked(l, k) <==> s < 256 && 1 <= l[s] <= k
    ensures Distinct(Ranked(l, k))
    ensures ShorterFirst(l, Ranked(l, k))
    decreases k
  {
    if k > 0 {
      RankedMembers(l, k - 1);
      WithLengthMembers(l, k, 256);
      var a, b := Ranked(l, k - 1), WithLength(l, k, 256);
      forall i | 0 <= i < |a| ensures a[i] < 256 && l[a[i]] < k {
        assert a[i] in a;
      }
      forall i | 0 <= i < |b| ensures b[i] < 256 && l[b[i]] == k {
        assert b[i] in b;
      }
      assert forall i :: 0 <= i < |a + b| ==> (a + b)[i] == if i < |a| then a[i] else b[i - |a|];
    }
  }

  lemma {:induction false} RankedCount(l: seq<nat>, k: nat)
    requires |l| == SYMBOLS && k <= MAX_CLEN && forall i :: 0 <= i < |l| ==> l[i] <= MAX_CLEN
    ensures |Ranked(l, k)| == Sum(Tally(l, 256)[..k + 1])
    decreases k
  {
    hide Sum, Tally;
    var b := Tally(l, 256);
    SumSnoc(b, k);
    if k == 0 {
      SumZero(b[..0]);
    } else {
      RankedCount(l, k - 1);
      WithLengthTallied(l, k, 256);
    }
  }

  // ---- The table for given code sizes ----

  /** The counts after limiting the lengths and dropping the pseudo-symbol. */
  function FinalBits(l: seq<nat>): (b: seq<nat>)
    requires |l| == SYMBOLS && forall i :: 0 <= i < SYMBOLS ==> l[i] <= MAX_CLEN
    requires Balanced(Tally(l, SYMBOLS), MAX_CLEN)
    ensures |b| == MAX_CLEN + 1
  {
    DropPseudo(Limit(Tally(l, SYMBOLS), MAX_CLEN))
  }

  /** The code sizes of an optimal code for the counts f0, no more than 32 each. */
  ghost predicate GoodSizes(f0: seq<nat>, l: seq<nat>) {
    && |f0| == |l| == SYMBOLS && f0[256] > 0
    && Complete(f0, l) && Optimal(f0, l)
    && forall i :: 0 <= i < SYMBOLS ==> l[i] <= MAX_CLEN && (l[i] > 0 <==> f0[i] > 0)
  }

  lemma SizesBalanced(f0: seq<nat>, l: seq<nat>)
    requires GoodSizes(f0, l)
    ensures Balanced(Tally(l, SYMBOLS), MAX_CLEN) && Sum(Tally(l, SYMBOLS)) == Count(f0) <= SYMBOLS
  {
    hide Tally, Sum, KraftBits, Optimal;
    TallyComplete(f0, l);
    AtMostAll(Indicator(f0));
  }

  lemma {:induction false} AtMostAll(t: seq<int>)
    requires forall i :: 0 <= i < |t| ==> t[i] <= 1
    ensures Sum(t) <= |t|
    decreases |t|
  {
    if t != [] {
      AtMostAll(t[..|t| - 1]);
    }
  }

  /** Symbol 256 is the only one that is tallied but not ranked. */
  lemma RankedIsTally(l: seq<nat>)
    requires |l| == SYMBOLS && l[256] > 0 && forall i :: 0 <= i < |l| ==> l[i] <= MAX_CLEN
    ensures |Ranked(l, MAX_CLEN)| == Sum(Tally(l, SYMBOLS)) - 1
  {
    hide Sum, Tally, Ranked;
    RankedCount(l, MAX_CLEN);
    assert Tally(l, 256)[..MAX_CLEN + 1] == Tally(l, 256);
    TallyNext(l, 256);
    SumUpdate(Tally(l, 256), l[256], Tally(l, 256)[l[256]] + 1);
  }

  /** There are as many code words as real symbols, none is longer than 16, and
      the code space is not used up. */
  lemma FinalBitsFit(f0: seq<nat>, l: seq<nat>)
    requires GoodSizes(f0, l)
    ensures Balanced(Tally(l, SYMBOLS), MAX_CLEN)
    ensures var b := FinalBits(l);
            && b[0] == 0 && Sum(b) == Count(f0) - 1 == |Ranked(l, MAX_CLEN)|
            && KraftBits(b) < Pow2(MAX_CLEN)
            && forall k :: 16 < k <= MAX_CLEN ==> b[k] == 0
  {
    hide Sum, KraftBits, Optimal, Complete, Limit, Tally, Balanced, DropPseudo, Ranked, Count, Pow2;
    SizesBalanced(f0, l);
    RankedIsTally(l);
    PseudoDropped(Limit(Tally(l, SYMBOLS), MAX_CLEN));
  }

  // ---- The method ----

  /** "Return a list of the symbols sorted by code length". */
  method SortSymbols(codesize: array<nat>, huffval: array<nat>)
    requires codesize.Length == SYMBOLS && huffval.Length == 256 && codesize != huffval
    requires |Ranked(codesize[..], MAX_CLEN)| <= 256
    modifies huffval
    ensures var r := Ranked(codesize[..], MAX_CLEN); huffval[..|r|] == r
  {
    hide Ranked;
    ghost var l := codesize[..];
    RankedNone(l);
    var p := 0;
    for i := 1 to MAX_CLEN + 1
      invariant codesize[..] == l && p == |Ranked(l, i - 1)| <= 256 && huffval[..p] == Ranked(l, i - 1)
    {
      RankedGrows(l, i, MAX_CLEN);
      p := AppendSymbols(codesize, huffval, i, p, Ranked(l, i - 1));
    }
  }

  /** The symbols of code length i. */
  method AppendSymbols(codesize: array<nat>, huffval: array<nat>, i: nat, p0: nat, ghost before: seq<nat>)
    returns (p: nat)
    requires codesize.Length == SYMBOLS && huffval.Length == 256 && codesize != huffval
    requires p0 == |before| && |before + WithLength(codesize[..], i, 256)| <= 256 && huffval[..p0] == before
    modifies huffval
    ensures var r := before + WithLength(codesize[..], i, 256); p == |r| && huffval[..p] == r
  {
    hide WithLength;
    ghost var l := codesize[..];
    WithLengthGrows(l, i, 0, 256);
    p := p0;
    for j := 0 to 256
      invariant codesize[..] == l && p == |before + WithLength(l, i, j)| <= 256
      invariant huffval[..p] == before + WithLength(l, i, j)
    {
      WithLengthGrows(l, i, j + 1, 256);
      if codesize[j] == i {
        huffval[p] := j;
        p := p + 1;
      }
    }
  }

  lemma RankedNone(l: seq<nat>)
    requires |l| == SYMBOLS
    ensures Ranked(l, 0) == []
  {
  }

  lemma {:induction false} RankedGrows(l: seq<nat>, k: nat, m: nat)
    requires |l| == SYMBOLS && k <= m
    ensures |Ranked(l, k)| <= |Ranked(l, m)|
    ensures k > 0 ==> Ranked(l, k) == Ranked(l, k - 1) + WithLength(l, k, 256)
    decreases m
  {
    if k < m {
      RankedGrows(l, k, m - 1);
    }
  }

  lemma {:induction false} WithLengthGrows(l: seq<nat>, k: nat, n: nat, m: nat)
    requires n <= m <= |l|
    ensures |WithLength(l, k, n)| <= |WithLength(l, k, m)|
    ensures WithLength(l, k, n) == if n == 0 then [] else WithLength(l, k, n - 1) + if l[n - 1] == k then [n - 1]
            else []
    decreases m
  {
    if n < m {
      WithLengthGrows(l, k, n, m - 1);
    }
  }

  /** Huffman's algorithm gives no symbol more than 32 bits. */
  ghost predicate Codable(f0: seq<nat>) {
    forall i :: 0 <= i < |f0| ==> HuffmanSizes(f0)[i] <= MAX_CLEN
  }

  lemma SafeIsCodable(f0: seq<nat>)
    requires Sum(f0) < SAFE_COUNT
    ensures Codable(f0)
  {
    SafeCount();
    hide HuffmanSizes, Weight, Sum;
    forall i | 0 <= i < |f0| ensures HuffmanSizes(f0)[i] <= MAX_CLEN {
      if f0[i] > 0 {
        SizesBounded(f0, MAX_CLEN, i);
      } else {
        UncountedSize(f0, i);
      }
    }
  }

  /** jpeg_gen_optimal_table. It succeeds if and only if no code size is over 32, which
      counts of less than 9227465 in all guarantee. */
  method GenOptimalTable(htbl: HuffTbl, freq: array<nat>) returns (ok: bool)
    requires htbl.Valid() && freq.Length == SYMBOLS && Sum(Counted(freq[..])) <= MAX_COUNT
    requires exists p :: 0 <= p < 256 && freq[p] > 0
    requires Count(Counted(freq[..])) <= 255
    modifies freq, htbl.bits, htbl.huffval
    ensures var f0 := Counted(old(freq[..]));
            var sizes := HuffmanSizes(f0);
            && Complete(f0, sizes) && Optimal(f0, sizes)
            && (forall i :: 0 <= i < SYMBOLS ==> (sizes[i] > 0 <==> f0[i] > 0))
            && (ok <==> Codable(f0)) && (Sum(f0) < SAFE_COUNT ==> ok)
            && (ok ==> Stored(f0, sizes, htbl.bits[..], htbl.huffval[..]))
  {
    hide Complete, Optimal, Sum, Count, HuffmanSizes, Stored, Counted, GoodSizes;
    ghost var f0 := Counted(freq[..]);
    PseudoCounted(freq[..]);
    var codesize := CodeSizes(freq);
    ghost var sizes := codesize[..];
    if Sum(f0) < SAFE_COUNT {
      SafeIsCodable(f0);
    }
    var bits;
    ok, bits := CountLengths(codesize);
    if ok {
      assert GoodSizes(f0, sizes) by { AreGoodSizes(f0, sizes); }
      StoreCounted(htbl, bits, codesize, f0);
    }
  }

  lemma PseudoCounted(freq: seq<nat>)
    requires |freq| == SYMBOLS
    ensures |Counted(freq)| == SYMBOLS && Counted(freq)[256] > 0
  {
  }

  lemma AreGoodSizes(f0: seq<nat>, l: seq<nat>)
    requires |f0| == |l| == SYMBOLS && f0[256] > 0 && Complete(f0, l) && Optimal(f0, l)
    requires forall i :: 0 <= i < SYMBOLS ==> l[i] <= MAX_CLEN
    requires forall i :: 0 <= i < SYMBOLS ==> (l[i] > 0 <==> f0[i] > 0)
    ensures GoodSizes(f0, l)
  {
    hide Complete, Optimal;
  }

  /** bits and huffval hold the code with the lengths l, limited to 16 bits. */
  ghost predicate Stored(f0: seq<nat>, l: seq<nat>, bits: seq<nat>, huffval: seq<nat>) {
    && GoodSizes(f0, l) && Balanced(Tally(l, SYMBOLS), MAX_CLEN)
    && bits == FinalBits(l)[..17]
    && |huffval| == 256 && |Ranked(l, MAX_CLEN)| <= 256
    && huffval[..|Ranked(l, MAX_CLEN)|] == Ranked(l, MAX_CLEN)
  }

  method StoreCounted(htbl: HuffTbl, bits: array<nat>, codesize: array<nat>, ghost f0: seq<nat>)
    requires htbl.Valid() && bits.Length == MAX_CLEN + 1 && codesize.Length == SYMBOLS
    requires bits != codesize && htbl.bits != codesize && htbl.huffval != codesize
    requires bits != htbl.bits && bits != htbl.huffval
    requires GoodSizes(f0, codesize[..]) && Count(f0) <= 255
    requires forall k :: 0 <= k <= MAX_CLEN ==> bits[k] == Tally(codesize[..], SYMBOLS)[k] % 256
    modifies bits, htbl.bits, htbl.huffval
    ensures Stored(f0, codesize[..], htbl.bits[..], htbl.huffval[..])
  {
    hide Complete, Optimal, Sum, Count, Tally, Balanced, FinalBits, Ranked;
    ghost var sizes := codesize[..];
    SizesBalanced(f0, sizes);
    TallyFits(sizes);
    FinalBitsFit(f0, sizes);
    assert bits[..] == Tally(sizes, SYMBOLS);
    StoreTable(htbl, bits, codesize);
  }

  /** The second half: lengths limited, counts and symbols into the table. */
  method StoreTable(htbl: HuffTbl, bits: array<nat>, codesize: array<nat>)
    requires htbl.Valid() && bits.Length == MAX_CLEN + 1 && codesize.Length == SYMBOLS
    requires bits != codesize && htbl.bits != codesize && htbl.huffval != codesize
    requires bits != htbl.bits && bits != htbl.huffval
    requires forall i :: 0 <= i < SYMBOLS ==> codesize[i] <= MAX_CLEN
    requires bits[..] == Tally(codesize[..], SYMBOLS) && Balanced(bits[..], MAX_CLEN) && Sum(bits[..]) <= 255
    requires |Ranked(codesize[..], MAX_CLEN)| <= 256
    modifies bits, htbl.bits, htbl.huffval
    ensures htbl.bits[..] == FinalBits(codesize[..])[..17]
    ensures htbl.huffval[..|Ranked(codesize[..], MAX_CLEN)|] == Ranked(codesize[..], MAX_CLEN)
  {
    hide Sum, Tally, Balanced, FinalBits, Ranked, Limit, DropPseudo;
    ghost var l := codesize[..];
    LimitLengths(bits);
    assert bits[..] == FinalBits(l) by { FinalBitsAre(l); }
    forall k | 0 <= k < 17 {
      htbl.bits[k] := bits[k];
    }
    assert htbl.bits[..] == FinalBits(l)[..17];
    assert codesize[..] == l;
    SortSymbols(codesize, htbl.huffval);
  }

  lemma FinalBitsAre(l: seq<nat>)
    requires |l| == SYMBOLS && (forall i :: 0 <= i < SYMBOLS ==> l[i] <= MAX_CLEN)
    requires Balanced(Tally(l, SYMBOLS), MAX_CLEN)
    ensures FinalBits(l) == DropPseudo(Limit(Tally(l, SYMBOLS), MAX_CLEN))
  {
  }
}
