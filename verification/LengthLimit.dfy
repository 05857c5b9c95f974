/** The counts of code lengths in jpeg_gen_optimal_table: how they are gathered
    from codesize[], and the adjustment of section K.2 of T.81 that brings every
    length down to 16. */
module LengthLimit {
  import opened Numbers
  import opened Sums
  import opened HuffmanOptimality
  import opened HuffmanTree

  const MAX_CLEN := 32

  // ---- bits[] on values ----

  /** bits[k] for the first n symbols; symbols without a code do not count. */
  function Tally(l: seq<nat>, n: nat): (b: seq<nat>)
    requires n <= |l| && forall i :: 0 <= i < |l| ==> l[i] <= MAX_CLEN
    ensures |b| == MAX_CLEN + 1 && b[0] == 0
  {
    if n == 0 then seq(MAX_CLEN + 1, k => 0)
    else
      var b := Tally(l, n - 1);
      if l[n - 1] == 0 then b else b[l[n - 1] := b[l[n - 1]] + 1]
  }

  /** n code words that each take up 2^d of the code space. */
  function Slots(n: nat, d: nat): (v: nat) {
    n * Pow2(d)
  }

  lemma SlotsAdd(n: nat, k: nat, d: nat)
    ensures Slots(n + k, d) == Slots(n, d) + Slots(k, d)
  {
    Distribute(n, k, Pow2(d));
  }

  lemma SlotsTwice(n: nat, d: nat)
    ensures Slots(n, d + 1) == 2 * Slots(n, d) == Slots(2 * n, d)
  {
    MulTwo(n, Pow2(d));
  }

  lemma SlotsUp(n: nat, d: nat, e: nat)
    ensures Slots(n, d + e) == Pow2(e) * Slots(n, d)
  {
    hide Pow2;
    Pow2Add(d, e);
    var p, q := Pow2(d), Pow2(e);
    MulAssoc(n, p, q);
    assert n * p * q == q * (n * p);
  }

  lemma SlotsOne(d: nat)
    ensures Slots(0, d) == 0 && Slots(1, d) == Pow2(d)
  {
  }

  function BitTerms(b: seq<nat>): (t: seq<int>)
    requires |b| == MAX_CLEN + 1
  {
    seq(MAX_CLEN + 1, k requires 0 <= k < MAX_CLEN + 1 => Slots(b[k], MAX_CLEN - k))
  }

  /** The Kraft sum of the counts, in units of 2^-32. */
  function KraftBits(b: seq<nat>): int
    requires |b| == MAX_CLEN + 1
  {
    Sum(BitTerms(b))
  }

  lemma SetBits(b: seq<nat>, k: nat, v: nat)
    requires |b| == MAX_CLEN + 1 && k <= MAX_CLEN
    ensures KraftBits(b[k := v]) == KraftBits(b) - Slots(b[k], MAX_CLEN - k) + Slots(v, MAX_CLEN - k)
    ensures Sum(b[k := v]) == Sum(b) - b[k] + v
  {
    hide Slots, Sum;
    SumUpdate(b, k, v);
    SumUpdate(BitTerms(b), k, Slots(v, MAX_CLEN - k));
    assert BitTerms(b[k := v]) == BitTerms(b)[k := Slots(v, MAX_CLEN - k)];
  }

  lemma AddWords(b: seq<nat>, k: nat, n: nat)
    requires |b| == MAX_CLEN + 1 && k <= MAX_CLEN
    ensures KraftBits(b[k := b[k] + n]) == KraftBits(b) + Slots(n, MAX_CLEN - k)
    ensures Sum(b[k := b[k] + n]) == Sum(b) + n
  {
    hide Sum, Slots, KraftBits;
    SetBits(b, k, b[k] + n);
    SlotsAdd(b[k], n, MAX_CLEN - k);
  }

  lemma TakeWords(b: seq<nat>, k: nat, n: nat)
    requires |b| == MAX_CLEN + 1 && k <= MAX_CLEN && n <= b[k]
    ensures KraftBits(b[k := b[k] - n]) == KraftBits(b) - Slots(n, MAX_CLEN - k)
    ensures Sum(b[k := b[k] - n]) == Sum(b) - n
  {
    hide Sum, Slots, KraftBits;
    SetBits(b, k, b[k] - n);
    SlotsAdd(b[k] - n, n, MAX_CLEN - k);
  }

  lemma {:induction false} TallyCounts(f: seq<nat>, l: seq<nat>, n: nat)
    requires Fits(f, l, MAX_CLEN) && n <= |f|
    requires forall i :: 0 <= i < |f| ==> l[i] <= MAX_CLEN && (l[i] > 0 <==> f[i] > 0)
    ensures KraftBits(Tally(l, n)) == Sum(KraftTerms(f, l, MAX_CLEN)[..n])
    ensures Sum(Tally(l, n)) == Sum(Indicator(f)[..n])
    decreases n
  {
    hide Pow2, Sum, Slots;
    if n == 0 {
      EmptyTally(Tally(l, 0));
      SumZero([]);
    } else {
      TallyCounts(f, l, n - 1);
      var t, u := KraftTerms(f, l, MAX_CLEN), Indicator(f);
      SumSnoc(t, n - 1);
      SumSnoc(u, n - 1);
      var b, k := Tally(l, n - 1), l[n - 1];
      if k != 0 {
        AddWords(b, k, 1);
        SlotsOne(MAX_CLEN - k);
      }
    }
  }

  lemma EmptyTally(b: seq<nat>)
    requires |b| == MAX_CLEN + 1 && forall k :: 0 <= k <= MAX_CLEN ==> b[k] == 0
    ensures KraftBits(b) == 0 && Sum(b) == 0
  {
    hide Sum;
    SumZero(b);
    SumZero(BitTerms(b));
  }

  /** A complete code on n symbols gives counts with Kraft sum one and total n. */
  lemma TallyComplete(f: seq<nat>, l: seq<nat>)
    requires |l| == |f| && Complete(f, l)
    requires forall i :: 0 <= i < |f| ==> l[i] <= MAX_CLEN && (l[i] > 0 <==> f[i] > 0)
    ensures KraftBits(Tally(l, |l|)) == Pow2(MAX_CLEN) && Sum(Tally(l, |l|)) == Count(f)
  {
    hide Pow2, Tally;
    TallyCounts(f, l, |f|);
    var t, u := KraftTerms(f, l, MAX_CLEN), Indicator(f);
    assert t[..|f|] == t && u[..|f|] == u;
    assert Kraft(f, l, MAX_CLEN) == Pow2(MAX_CLEN);
  }

  // ---- The adjustment on values ----

  /** Counts of a complete code on at most 257 symbols, none longer than i. */
  ghost predicate Balanced(b: seq<nat>, i: nat) {
    && |b| == MAX_CLEN + 1 && b[0] == 0 && Sum(b) <= SYMBOLS
    && KraftBits(b) == Pow2(MAX_CLEN)
    && forall k :: i < k <= MAX_CLEN ==> b[k] == 0
  }

  /** while (bits[j] == 0) j--; */
  function Shorter(b: seq<nat>, j: nat): (r: nat)
    requires j < |b|
    ensures r <= j && (r > 0 ==> b[r] > 0) && forall k :: r < k <= j ==> b[k] == 0
  {
    if j == 0 || b[j] != 0 then j else Shorter(b, j - 1)
  }

  /** Two symbols leave length i, and one goes into the length below. */
  function PairOff(b: seq<nat>, i: nat): (r: seq<nat>)
    requires 1 <= i < |b| && b[i] >= 2
  {
    var r := b[i := b[i] - 2];
    r[i - 1 := r[i - 1] + 1]
  }

  /** A symbol of length j becomes a prefix for two new ones. */
  function Split(b: seq<nat>, j: nat): (r: seq<nat>)
    requires j + 1 < |b| && b[j] > 0
  {
    var r := b[j + 1 := b[j + 1] + 2];
    r[j := r[j] - 1]
  }

  function Adjust(b: seq<nat>, i: nat, j: nat): (r: seq<nat>)
    requires j + 2 <= i < |b| && b[i] >= 2 && b[j] > 0
  {
    Split(PairOff(b, i), j)
  }

  lemma {:induction false} SumScale(a: seq<int>, b: seq<int>, p: int)
    requires |a| == |b| && forall i :: 0 <= i < |a| ==> b[i] == p * a[i]
    ensures Sum(b) == p * Sum(a)
    decreases |a|
  {
    if a != [] {
      var n := |a| - 1;
      SumScale(a[..n], b[..n], p);
      Distribute(Sum(a[..n]), a[n], p);
      assert p * (Sum(a[..n]) + a[n]) == p * Sum(a[..n]) + p * a[n];
    }
  }

  /** The longest codes come in pairs. */
  lemma LongestPaired(b: seq<nat>, i: nat)
    requires Balanced(b, i) && 1 <= i <= MAX_CLEN
    ensures b[i] % 2 == 0
  {
    hide Pow2, Sum, Slots;
    var u := Coarse(b, i);
    var t := BitTerms(b);
    forall k | 0 <= k < |t| ensures t[k] == Pow2(MAX_CLEN - i) * u[k] {
      if k <= i {
        SlotsUp(b[k], i - k, MAX_CLEN - i);
      } else {
        SlotsOne(MAX_CLEN - k);
      }
    }
    SumScale(u, t, Pow2(MAX_CLEN - i));
    Pow2Add(i, MAX_CLEN - i);
    SameFactor(Sum(u), Pow2(i), Pow2(MAX_CLEN - i));
    Pow2Twice(i - 1);
    EvenBelow(b, i);
  }

  /** The Kraft terms in units of 2^-i. */
  function Coarse(b: seq<nat>, i: nat): (u: seq<int>)
    requires |b| == MAX_CLEN + 1 && i <= MAX_CLEN
  {
    seq(MAX_CLEN + 1, k requires 0 <= k < MAX_CLEN + 1 => if k <= i then Slots(b[k], i - k) else 0)
  }

  lemma EvenBelow(b: seq<nat>, i: nat)
    requires |b| == MAX_CLEN + 1 && 1 <= i <= MAX_CLEN && Sum(Coarse(b, i)) % 2 == 0
    ensures b[i] % 2 == 0
  {
    hide Sum, Slots;
    var u := Coarse(b, i);
    assert u[i] == b[i] by { SlotsSingle(b[i]); }
    var others := u[i := 0];
    forall k | 0 <= k < |others| ensures others[k] % 2 == 0 {
      if k < i {
        SlotsTwice(b[k], i - k - 1);
        EvenTwice(Slots(b[k], i - k - 1));
      }
    }
    SumEven(others);
    SumUpdate(u, i, 0);
  }

  lemma SlotsSingle(n: nat)
    ensures Slots(n, 0) == n
  {
  }

  lemma EvenTwice(x: int)
    ensures 2 * x % 2 == 0
  {
  }

  /** There is always a shorter code word to split: 257 symbols cannot fill a
      complete code using only lengths of 16 and more. */
  lemma ShorterExists(b: seq<nat>, i: nat)
    requires Balanced(b, i) && 16 < i <= MAX_CLEN
    ensures 1 <= Shorter(b, i - 2)
  {
    hide Sum, Pow2, Slots;
    if Shorter(b, i - 2) == 0 {
      var t := BitTerms(b);
      var u := seq(MAX_CLEN + 1, k requires 0 <= k < MAX_CLEN + 1 => Pow2(16) * b[k]);
      forall k | 0 <= k < |t| ensures t[k] <= u[k] {
        SlotsAtMost(b[k], MAX_CLEN - k, 16);
      }
      SumMono(t, u);
      SumScale(b, u, Pow2(16));
      Pow2Values();
      Pow2Add(16, 16);
      assert false;
    }
  }

  lemma SlotsAtMost(n: nat, d: nat, e: nat)
    requires n == 0 || d <= e
    ensures Slots(n, d) <= Pow2(e) * n
  {
    if n > 0 {
      Pow2Mono(d, e);
      MulMono(Pow2(d), Pow2(e), n);
    }
  }

  lemma AdjustBalanced(b: seq<nat>, i: nat, j: nat)
    requires Balanced(b, i) && 16 < i <= MAX_CLEN && 1 <= j <= i - 2 && b[i] >= 2 && b[j] > 0
    ensures Balanced(Adjust(b, i, j), i) && Sum(Adjust(b, i, j)) == Sum(b)
    ensures Adjust(b, i, j)[i] == b[i] - 2
  {
    hide Sum, KraftBits;
    PairOffKraft(b, i);
    SplitWordKraft(PairOff(b, i), j);
  }

  lemma PairOffKraft(b: seq<nat>, i: nat)
    requires |b| == MAX_CLEN + 1 && 1 <= i <= MAX_CLEN && b[i] >= 2
    ensures KraftBits(PairOff(b, i)) == KraftBits(b) && Sum(PairOff(b, i)) == Sum(b) - 1
  {
    hide Sum, Slots, KraftBits;
    TakeWords(b, i, 2);
    AddWords(b[i := b[i] - 2], i - 1, 1);
    SlotsTwice(1, MAX_CLEN - i);
  }

  lemma SplitWordKraft(b: seq<nat>, j: nat)
    requires |b| == MAX_CLEN + 1 && j < MAX_CLEN && b[j] > 0
    ensures KraftBits(Split(b, j)) == KraftBits(b) && Sum(Split(b, j)) == Sum(b) + 1
  {
    hide Sum, Slots, KraftBits;
    AddWords(b, j + 1, 2);
    TakeWords(b[j + 1 := b[j + 1] + 2], j, 1);
    SlotsTwice(1, MAX_CLEN - j - 1);
  }

  /** while (bits[i] > 0) { ... } */
  function LimitAt(b: seq<nat>, i: nat): (r: seq<nat>)
    requires Balanced(b, i) && 16 < i <= MAX_CLEN
    ensures Balanced(r, i - 1) && Sum(r) == Sum(b)
    decreases b[i]
  {
    if b[i] == 0 then b
    else
      LongestPaired(b, i);
      ShorterExists(b, i);
      AdjustBalanced(b, i, Shorter(b, i - 2));
      LimitAt(Adjust(b, i, Shorter(b, i - 2)), i)
  }

  /** for (i = MAX_CLEN; i > 16; i--): the Kraft sum and the number of symbols are
      kept, and no length over 16 is left. */
  function Limit(b: seq<nat>, i: nat): (r: seq<nat>)
    requires Balanced(b, i) && 16 <= i <= MAX_CLEN
    ensures Balanced(r, 16) && Sum(r) == Sum(b)
    decreases i
  {
    if i == 16 then b else Limit(LimitAt(b, i), i - 1)
  }

  /** Codes that already fit are left alone. */
  lemma {:induction false} ShortCodesKept(b: seq<nat>, i: nat)
    requires Balanced(b, 16) && 16 <= i <= MAX_CLEN
    ensures Limit(b, i) == b
  {
    if i > 16 {
      ShortCodesKept(b, i - 1);
    }
  }

  /** The pseudo-symbol 256 gives up one of the longest code words. */
  function DropPseudo(b: seq<nat>): (r: seq<nat>)
    requires Balanced(b, 16)
    ensures |r| == MAX_CLEN + 1
  {
    var i := Shorter(b, 16);
    if b[i] == 0 then b else b[i := b[i] - 1]
  }

  /** Dropping it leaves room in the code: the Kraft sum falls below one. */
  lemma PseudoDropped(b: seq<nat>)
    requires Balanced(b, 16)
    ensures b[Shorter(b, 16)] > 0 && Shorter(b, 16) >= 1
    ensures var r := DropPseudo(b);
            && r[0] == 0 && Sum(r) == Sum(b) - 1 && KraftBits(r) < Pow2(MAX_CLEN)
            && forall k :: 16 < k <= MAX_CLEN ==> r[k] == 0
  {
    hide Sum, Slots;
    var i := Shorter(b, 16);
    if i == 0 {
      EmptyTally(b);
      assert false;
    }
    TakeWords(b, i, 1);
    SlotsOne(MAX_CLEN - i);
  }

  // ---- The loops ----

  /** "Now count the number of symbols of each code length": bits[] is UINT8. */
  method CountLengths(codesize: array<nat>) returns (ok: bool, bits: array<nat>)
    requires codesize.Length == SYMBOLS
    ensures fresh(bits) && bits.Length == MAX_CLEN + 1
    ensures ok <==> forall i :: 0 <= i < SYMBOLS ==> codesize[i] <= MAX_CLEN
    ensures ok ==> forall k :: 0 <= k <= MAX_CLEN ==> bits[k] == Tally(codesize[..], SYMBOLS)[k] % 256
  {
    hide Tally;
    bits := new nat[MAX_CLEN + 1](k => 0);
    ghost var l := seq(SYMBOLS, i requires 0 <= i < SYMBOLS reads codesize =>
                         if codesize[i] <= MAX_CLEN then codesize[i] else 0);
    NoneTallied(l);
    for i := 0 to SYMBOLS
      invariant forall k :: 0 <= k < i ==> codesize[k] <= MAX_CLEN
      invariant forall k :: 0 <= k <= MAX_CLEN ==> bits[k] == Tally(l, i)[k] % 256
    {
      TallyNext(l, i);
      if codesize[i] != 0 {
        if codesize[i] > MAX_CLEN {
          return false, bits;
        }
        bits[codesize[i]] := (bits[codesize[i]] + 1) % 256;
      }
    }
    assert codesize[..] == l;
    ok := true;
  }

  lemma NoneTallied(l: seq<nat>)
    requires forall i :: 0 <= i < |l| ==> l[i] <= MAX_CLEN
    ensures Tally(l, 0) == seq(MAX_CLEN + 1, k => 0)
  {
  }

  lemma TallyNext(l: seq<nat>, n: nat)
    requires n < |l| && forall i :: 0 <= i < |l| ==> l[i] <= MAX_CLEN
    ensures var b := Tally(l, n);
            Tally(l, n + 1) == if l[n] == 0 then b else b[l[n] := b[l[n]] + 1]
  {
  }

  /** With at most 255 symbols the counts fit their bytes. */
  lemma TallyFits(l: seq<nat>)
    requires |l| == SYMBOLS && (forall i :: 0 <= i < SYMBOLS ==> l[i] <= MAX_CLEN) && Sum(Tally(l, SYMBOLS)) <= 255
    ensures forall k :: 0 <= k <= MAX_CLEN ==> Tally(l, SYMBOLS)[k] % 256 == Tally(l, SYMBOLS)[k]
  {
    forall k | 0 <= k <= MAX_CLEN ensures Tally(l, SYMBOLS)[k] <= 255 {
      SumOne(Tally(l, SYMBOLS), k);
    }
  }

  /** The adjustment of section K.2 in place, and the removal of symbol 256. */
  method LimitLengths(bits: array<nat>)
    requires bits.Length == MAX_CLEN + 1 && Balanced(bits[..], MAX_CLEN) && Sum(bits[..]) <= 255
    modifies bits
    ensures bits[..] == DropPseudo(Limit(old(bits[..]), MAX_CLEN))
  {
    hide Balanced, Sum, Limit, LimitAt;
    ghost var goal := Limit(bits[..], MAX_CLEN);
    var i := MAX_CLEN;
    LimitOpen(bits[..], i);
    while i > 16
      invariant 16 <= i <= MAX_CLEN && Balanced(bits[..], i) && Limit(bits[..], i) == goal
    {
      LimitOpen(bits[..], i);
      ShortenCodes(bits, i);
      i := i - 1;
    }
    LimitOpen(bits[..], i);
    PseudoDropped(bits[..]);
    // Remove the count for the pseudo-symbol 256 from the largest codelength
    ghost var top := Shorter(bits[..], 16);
    while bits[i] == 0
      invariant 1 <= top <= i <= 16 && Shorter(bits[..], i) == top
      decreases i
    {
      i := i - 1;
    }
    bits[i] := bits[i] - 1;
  }

  lemma LimitOpen(b: seq<nat>, i: nat)
    requires Balanced(b, i) && 16 <= i <= MAX_CLEN
    ensures |b| == MAX_CLEN + 1
    ensures Limit(b, i) == if i == 16 then b else Limit(LimitAt(b, i), i - 1)
  {
  }

  /** The body of the loop: a pair of length i makes way, a word of length j is split. */
  method MovePrefix(bits: array<nat>, i: nat, j: nat)
    requires j + 2 <= i < bits.Length && bits[i] >= 2 && bits[j] > 0
    modifies bits
    ensures bits[..] == Adjust(old(bits[..]), i, j)
  {
    ghost var b := bits[..];
    bits[i] := bits[i] - 2;                       // remove two symbols
    bits[i - 1] := bits[i - 1] + 1;               // one goes in this length
    assert bits[..] == PairOff(b, i);
    bits[j + 1] := bits[j + 1] + 2;               // two new symbols in this length
    bits[j] := bits[j] - 1;                       // symbol of this length is now a prefix
  }

  /** while (bits[i] > 0): one length is emptied. */
  method ShortenCodes(bits: array<nat>, i: nat)
    requires bits.Length == MAX_CLEN + 1 && 16 < i <= MAX_CLEN && Balanced(bits[..], i)
    modifies bits
    ensures bits[..] == LimitAt(old(bits[..]), i) && Balanced(bits[..], i - 1)
  {
    hide Balanced;
    ghost var goal := LimitAt(bits[..], i);
    while bits[i] > 0
      invariant Balanced(bits[..], i) && LimitAt(bits[..], i) == goal
      decreases bits[i]
    {
      ghost var b: seq<nat> := bits[..];
      LongestPaired(b, i);
      ShorterExists(b, i);
      var j: nat := i - 2;                        // find length of new prefix to be used
      while bits[j] == 0
        invariant 1 <= Shorter(b, j) == Shorter(b, i - 2) && j <= i - 2 && bits[..] == b
        decreases j
      {
        j := j - 1;
      }
      MovePrefix(bits, i, j);
      AdjustBalanced(b, i, j);
    }
  }
}
