/** The choices that jpeg_gen_optimal_table and jpeg_make_c_derived_tbl make where any
    legal code would do: which branches are merged, which code is split to shorten
    others, in which order symbols are listed, and which code words they get (sections
    K.2 and C.2 of T.81). */
module HuffmanRules {
  import opened Numbers
  import opened Sums
  import opened HuffmanOptimality
  import opened HuffmanTree
  import opened LengthLimit
  import opened HuffmanTable
  import opened DerivedTable

  // ---- Shortening codes ----

  /** One adjustment at length i with the prefix of length j: two codes of length i go,
      one comes at i - 1, and one of length j becomes two of length j + 1. */
  predicate Adjusted(b: seq<nat>, c: seq<nat>, i: nat, j: nat)
    requires |b| == |c| && j + 2 <= i < |b|
  {
    && c[i] + 2 == b[i] && c[j] + 1 == b[j]
    && (if j + 2 == i then c[j + 1] == b[j + 1] + 3 else c[j + 1] == b[j + 1] + 2 && c[i - 1] == b[i - 1] + 1)
    && forall k :: 0 <= k < |b| && k != i && k != i - 1 && k != j && k != j + 1 ==> c[k] == b[k]
  }

  /** The prefix has the greatest length in use that is at most i - 2. */
  predicate LongestPrefix(b: seq<nat>, i: nat, j: nat)
    requires 2 <= i < |b|
  {
    1 <= j <= i - 2 && b[j] > 0 && forall k :: j < k <= i - 2 ==> b[k] == 0
  }

  /** As long as there are codes of length i, they are shortened in pairs. */
  lemma TakesLongestPrefix(b: seq<nat>, i: nat) returns (j: nat, c: seq<nat>)
    requires Balanced(b, i) && 16 < i <= MAX_CLEN && b[i] > 0
    ensures b[i] >= 2 && LongestPrefix(b, i, j) && Balanced(c, i) && Adjusted(b, c, i, j)
    ensures LimitAt(b, i) == LimitAt(c, i)
  {
    LongestPaired(b, i);
    ShorterExists(b, i);
    j := Shorter(b, i - 2);
    AdjustBalanced(b, i, j);
    c := Adjust(b, i, j);
  }

  lemma NothingLeft(b: seq<nat>, i: nat)
    requires Balanced(b, i) && 16 < i <= MAX_CLEN && b[i] == 0
    ensures LimitAt(b, i) == b
  {
  }

  /** Lengths are dealt with from 32 down to 17. */
  lemma FromTheLongest(b: seq<nat>, i: nat)
    requires Balanced(b, i) && 16 < i <= MAX_CLEN
    ensures Balanced(LimitAt(b, i), i - 1) && Limit(b, i) == Limit(LimitAt(b, i), i - 1)
    ensures i == 17 ==> Limit(b, i) == LimitAt(b, i)
  {
  }

  lemma {:induction false} LimitEmpty(b: seq<nat>, i: nat, n: nat)
    requires Balanced(b, i) && 16 < i <= n <= MAX_CLEN
    ensures Balanced(b, n) && Limit(b, n) == Limit(b, i)
    decreases n
  {
    if i < n {
      LimitEmpty(b, i, n - 1);
      LongerBalanced(b, n);
      hide Balanced, Limit, LimitAt;
      NothingLeft(b, n);
      FromTheLongest(b, n);
    }
  }

  lemma LongerBalanced(b: seq<nat>, n: nat)
    requires 0 < n <= MAX_CLEN && Balanced(b, n - 1)
    ensures Balanced(b, n) && |b| == MAX_CLEN + 1 && b[n] == 0
  {
    hide Sum, KraftBits, Pow2;
  }

  /** A table whose only codes over 16 bits are two of length 17: they become one more of
      length 16, and the longest code of at most 15 bits is split. */
  lemma TwoTooLong(b: seq<nat>) returns (j: nat)
    requires Balanced(b, 17) && b[17] == 2
    ensures LongestPrefix(b, 17, j) && Balanced(b, MAX_CLEN) && Adjusted(b, Limit(b, MAX_CLEN), 17, j)
  {
    var c;
    j, c := TakesLongestPrefix(b, 17);
    NothingLeft(c, 17);
    FromTheLongest(b, 17);
    LimitEmpty(b, 17, MAX_CLEN);
  }

  /** The pseudo-symbol's code is the last of the longest ones. */
  lemma LongestDropped(b: seq<nat>) returns (i: nat)
    requires Balanced(b, 16)
    ensures 1 <= i <= 16 && b[i] > 0 && (forall k :: i < k <= MAX_CLEN ==> b[k] == 0)
    ensures DropPseudo(b) == b[i := b[i] - 1]
  {
    PseudoDropped(b);
    i := Shorter(b, 16);
  }

  // ---- Merging branches ----

  /** The root of a smallest count, of those but `skip`; the last of equals. */
  ghost predicate LastOfLeast(f: seq<nat>, skip: int, c: int) {
    && 0 <= c < |f| && c != skip && f[c] > 0
    && forall i :: 0 <= i < |f| && i != skip && f[i] > 0 ==> f[c] <= f[i] && (f[i] == f[c] ==> i <= c)
  }

  /** One round: the second smallest root is hung onto the smallest, which takes over its
      count, and every symbol of both branches moves a level down. */
  ghost predicate Merged(f0: seq<nat>, s: Forest, t: Forest, c1: int, c2: int)
    requires Sized(f0, s) && Sized(f0, t) && 0 <= c1 < |f0| && 0 <= c2 < |f0|
  {
    && t.freq[c1] == s.freq[c1] + s.freq[c2] && t.freq[c2] == 0
    && (forall i :: 0 <= i < |f0| && i != c1 && i != c2 ==> t.freq[i] == s.freq[i])
    && forall i :: 0 <= i < |f0| && f0[i] > 0 ==>
         var below := s.own[i] == c1 || s.own[i] == c2;
         && t.size[i] == (if below then s.size[i] + 1 else s.size[i])
         && t.own[i] == (if below then c1 else s.own[i])
  }

  lemma MergesSmallest(f0: seq<nat>, s: Forest, p: nat, q: nat) returns (c1: int, c2: int, t: Forest)
    requires Sized(f0, s) && p < q < |f0| && s.freq[p] > 0 && s.freq[q] > 0
    ensures LastOfLeast(s.freq, -1, c1) && LastOfLeast(s.freq, c1, c2)
    ensures Sized(f0, t) && Merged(f0, s, t, c1, c2) && Grown(f0, s) == Grown(f0, t)
  {
    c1, c2 := First(s.freq), Second(s.freq);
    SmallestTwo(s.freq, p, q);
    GrownStep(f0, s, c1, c2);
    t := Join(f0, s, c1, c2);
    JoinMerges(f0, s, c1, c2);
    hide Grown, First, Second, LastOfLeast, Join, Merged;
  }

  lemma SmallestTwo(f: seq<nat>, p: nat, q: nat)
    requires p < q < |f| && f[p] > 0 && f[q] > 0
    ensures LastOfLeast(f, -1, First(f)) && LastOfLeast(f, First(f), Second(f))
  {
    LeastTie(f, -1, |f|);
    LeastTie(f, First(f), |f|);
    hide Least;
  }

  lemma JoinMerges(f0: seq<nat>, s: Forest, c1: nat, c2: nat)
    requires Sized(f0, s) && c1 < |f0| && c2 < |f0| && c1 != c2
    ensures Sized(f0, Join(f0, s, c1, c2)) && Merged(f0, s, Join(f0, s, c1, c2), c1, c2)
  {
  }

  // ---- The pseudo-symbol ----

  /** Root r is merged after root q: it has the greater count, or comes earlier among
      equals. */
  predicate Later(f: seq<nat>, r: nat, q: nat)
    requires r < |f| && q < |f|
  {
    f[r] > f[q] || (f[r] == f[q] && r < q)
  }

  /** Symbol z is as deep as any other, and where another is as deep, its branch is merged
      later; any two other branches together are merged later too. */
  ghost predicate Deepest(f0: seq<nat>, s: Forest, z: nat) {
    && Sized(f0, s) && z < |f0| && f0[z] > 0
    && (forall i :: 0 <= i < |f0| && f0[i] > 0 ==> s.own[i] < |f0| && s.freq[s.own[i]] > 0 && s.size[i] <= s.size[z])
    && (forall i :: 0 <= i < |f0| && f0[i] > 0 && s.own[i] != s.own[z] && s.size[i] == s.size[z] ==>
          Later(s.freq, s.own[i], s.own[z]))
    && forall q, r :: 0 <= q < r < |f0| && s.freq[q] > 0 && s.freq[r] > 0 && q != s.own[z] && r != s.own[z] ==>
         PairLater(s.freq, q, r, s.own[z])
  }

  predicate PairLater(f: seq<nat>, q: nat, r: nat, p: nat)
    requires q < |f| && r < |f| && p < |f|
  {
    f[q] + f[r] > f[p] || (f[q] + f[r] == f[p] && q < p && r < p)
  }

  lemma StartDeepest(f0: seq<nat>, z: nat)
    requires z + 1 == |f0| && f0[z] == 1
    ensures Deepest(f0, Start(f0), z)
  {
  }

  /** Neither of the two roots merged is that of z. */
  lemma OthersMerge(f0: seq<nat>, s: Forest, t: Forest, c1: nat, c2: nat, z: nat)
    requires Deepest(f0, s, z) && Sized(f0, t) && LastOfLeast(s.freq, -1, c1) && LastOfLeast(s.freq, c1, c2)
    requires Merged(f0, s, t, c1, c2) && c1 != s.own[z] && c2 != s.own[z]
    ensures Deepest(f0, t, z)
  {
    var p := s.own[z];
    assert !Later(s.freq, c1, p) && !Later(s.freq, c2, p);
    assert if c1 < c2 then PairLater(s.freq, c1, c2, p) else PairLater(s.freq, c2, c1, p);
    forall i | 0 <= i < |f0| && f0[i] > 0
      ensures t.own[i] < |f0| && t.freq[t.own[i]] > 0 && t.size[i] <= t.size[z]
      ensures t.own[i] != p && t.size[i] == t.size[z] ==> Later(t.freq, t.own[i], p)
    {
      hide PairLater;
      assert s.own[i] == c1 || s.own[i] == c2 ==> t.own[i] == c1 && s.size[i] < s.size[z];
    }
    forall q, r | 0 <= q < r < |f0| && t.freq[q] > 0 && t.freq[r] > 0 && q != p && r != p
      ensures PairLater(t.freq, q, r, p)
    {
      assert PairLater(s.freq, q, r, p);
    }
  }

  /** The root of z takes part. */
  lemma OwnMerges(f0: seq<nat>, s: Forest, t: Forest, c1: nat, c2: nat, z: nat)
    requires Deepest(f0, s, z) && Sized(f0, t) && LastOfLeast(s.freq, -1, c1) && LastOfLeast(s.freq, c1, c2)
    requires Merged(f0, s, t, c1, c2) && (c1 == s.own[z] || c2 == s.own[z])
    ensures Deepest(f0, t, z)
  {
  }

  lemma {:induction false} GrownDeepest(f0: seq<nat>, s: Forest, z: nat)
    requires Deepest(f0, s, z)
    ensures Deepest(f0, Grown(f0, s), z)
    decreases Count(s.freq)
  {
    var c1, c2 := First(s.freq), Second(s.freq);
    GrownStep(f0, s, c1, c2);
    if c2 >= 0 {
      SmallestTwo(s.freq, if c1 < c2 then c1 else c2, if c1 < c2 then c2 else c1);
      var t := Join(f0, s, c1, c2);
      JoinMerges(f0, s, c1, c2);
      MergeCount(s.freq, c1, c2);
      JoinSized(f0, s, c1, c2);
      hide Grown, First, Second, LastOfLeast, Join, Merged, Deepest, Count;
      if c1 == s.own[z] || c2 == s.own[z] {
        OwnMerges(f0, s, t, c1, c2, z);
      } else {
        OthersMerge(f0, s, t, c1, c2, z);
      }
      GrownDeepest(f0, t, z);
    }
  }

  lemma DeepestSize(f0: seq<nat>, i: nat)
    requires |f0| == SYMBOLS && f0[256] == 1 && i < SYMBOLS && f0[i] > 0
    ensures HuffmanSizes(f0)[i] <= HuffmanSizes(f0)[256]
  {
    hide Grown, Later, PairLater, Merge;
    StartDeepest(f0, 256);
    GrownDeepest(f0, Start(f0), 256);
  }

  /** "256 will be placed last in the largest codeword category": the pseudo-symbol gets the
      count 1, whatever is counted, and no real symbol has a longer code. */
  lemma PseudoLongest(freq: seq<nat>, i: nat)
    requires |freq| == SYMBOLS && i < SYMBOLS
    ensures var f0 := Counted(freq);
            && |f0| == SYMBOLS && f0[i] == (if i == 256 then 1 else freq[i])
            && (f0[i] > 0 ==> HuffmanSizes(f0)[i] <= HuffmanSizes(f0)[256])
  {
    hide HuffmanSizes;
    var f0 := Counted(freq);
    if f0[i] > 0 {
      DeepestSize(f0, i);
    }
  }

  // ---- The order of the symbols ----

  lemma {:induction false} SameLengthAscends(l: seq<nat>, k: nat, n: nat, i: nat, j: nat)
    requires n <= |l| && i < j < |WithLength(l, k, n)|
    ensures WithLength(l, k, n)[i] < WithLength(l, k, n)[j]
    decreases n
  {
    WithLengthMembers(l, k, n - 1);
    var r := WithLength(l, k, n - 1);
    if j < |r| {
      SameLengthAscends(l, k, n - 1, i, j);
    } else {
      assert r[i] in r;
    }
  }

  /** huffval[]: among symbols with codes of one length, the smaller comes first. */
  lemma {:induction false} SymbolsAscend(l: seq<nat>, k: nat, i: nat, j: nat)
    requires |l| == SYMBOLS && i < j < |Ranked(l, k)|
    ensures Ranked(l, k)[i] < SYMBOLS && Ranked(l, k)[j] < SYMBOLS
    ensures l[Ranked(l, k)[i]] == l[Ranked(l, k)[j]] ==> Ranked(l, k)[i] < Ranked(l, k)[j]
    decreases k
  {
    RankedMembers(l, k);
    hide WithLength;
    var m := |Ranked(l, k - 1)|;
    if j < m {
      SymbolsAscend(l, k - 1, i, j);
    } else if i >= m {
      SameLengthAscends(l, k, 256, i - m, j - m);
    } else {
      RankedMembers(l, k - 1);
      WithLengthMembers(l, k, 256);
      assert Ranked(l, k - 1)[i] in Ranked(l, k - 1) && WithLength(l, k, 256)[j - m] in WithLength(l, k, 256);
    }
  }

  // ---- The code words ----

  /** The first code word is all zeros. */
  lemma FirstCode(bits: seq<nat>, huffval: seq<nat>, co: seq<nat>, si: seq<nat>)
    requires Derived(bits, huffval, co, si) && Upto(bits, 16) > 0
    ensures huffval[0] < 256 && co[huffval[0]] == 0
  {
    var l := LengthOf(bits, 0, 16);
    NoneBefore(bits, l - 1);
  }

  lemma {:induction false} NoneBefore(bits: seq<nat>, l: nat)
    requires l < |bits| && Upto(bits, l) == 0
    ensures NextCode(bits, l) == 0
  {
    if l > 0 {
      NoneBefore(bits, l - 1);
    }
  }

  /** Each code word is the one before it plus one, with zeros behind it where codes
      become longer. */
  lemma NextCodeWord(bits: seq<nat>, huffval: seq<nat>, co: seq<nat>, si: seq<nat>, p: nat)
    requires Derived(bits, huffval, co, si) && p + 1 < Upto(bits, 16)
    ensures var s, t := huffval[p], huffval[p + 1];
            && s < 256 && t < 256 && si[s] <= si[t]
            && co[t] == (co[s] + 1) * Pow2(si[t] - si[s])
  {
    var l := LengthOf(bits, p, 16);
    var m := LengthOf(bits, p + 1, 16);
    CodeStep(bits, l, m, p);
    hide Pow2, NextCode, Upto, CodeAt;
    assert si[huffval[p]] == l && co[huffval[p]] == CodeAt(bits, l, p);
    assert si[huffval[p + 1]] == m && co[huffval[p + 1]] == CodeAt(bits, m, p + 1);
  }

  lemma CodeStep(bits: seq<nat>, l: nat, m: nat, p: nat)
    requires |bits| == 17 && 1 <= l <= 16 && 1 <= m <= 16 && AtLength(bits, l, p) && AtLength(bits, m, p + 1)
    ensures l <= m && CodeAt(bits, m, p + 1) == (CodeAt(bits, l, p) + 1) * Pow2(m - l)
  {
    assert Pow2(0) == 1;
    UptoStep(bits, l);
    UptoStep(bits, m);
    hide Pow2, Upto, NextCode;
    if m < l {
      UptoMono(bits, m, l - 1);
    } else if l < m {
      UptoMono(bits, l, m - 1);
      CodesGrow(bits, l, m - 1);
      Pow2Twice(m - 1 - l);
      Doubled(NextCode(bits, l), Pow2(m - 1 - l));
    }
  }

  lemma Doubled(n: nat, p: nat)
    ensures 2 * (n * p) == n * (2 * p)
  {
  }

  /** bits[l] is the number of symbols with codes of l bits, shorter ones first. */
  lemma EntriesOfLength(bits: seq<nat>, huffval: seq<nat>, co: seq<nat>, si: seq<nat>, l: nat, p: nat)
    requires Derived(bits, huffval, co, si) && 1 <= l <= 16 && p < Upto(bits, 16)
    ensures huffval[p] < 256
    ensures si[huffval[p]] == l <==> Upto(bits, l - 1) <= p < Upto(bits, l - 1) + bits[l]
  {
    var m := LengthOf(bits, p, 16);
    assert AtLength(bits, m, p);
    UptoStep(bits, l);
    if l < m {
      UptoMono(bits, l, m - 1);
    } else if m < l {
      UptoMono(bits, m, l - 1);
    }
  }

  /** Upto is the sum of bits[1] .. bits[l]. */
  lemma {:induction false} UptoIsSum(bits: seq<nat>, l: nat)
    requires l < |bits|
    ensures Upto(bits, l) == Sum(bits[1..l + 1])
  {
    if l > 0 {
      UptoIsSum(bits, l - 1);
      assert bits[1..l + 1][..l - 1] == bits[1..l];
    }
  }
}
