/** Huffman's algorithm as jpeg_gen_optimal_table runs it, on counts alone, and
    the proof that no prefix code does better than the sum of its merges. */
module HuffmanOptimality {
  import opened Numbers
  import opened Sums

  // ---- Counts, lengths and the Kraft sum ----

  /** Every symbol with a count has a length of at most m. */
  ghost predicate Fits(f: seq<nat>, l: seq<nat>, m: nat) {
    |l| == |f| && forall i :: 0 <= i < |f| && f[i] > 0 ==> l[i] <= m
  }

  ghost function CostTerms(f: seq<nat>, l: seq<nat>): (t: seq<int>)
    requires |l| == |f|
  {
    seq(|f|, i requires 0 <= i < |f| => f[i] * l[i])
  }

  /** The number of bits that the lengths l spend on the counts f. */
  ghost function Cost(f: seq<nat>, l: seq<nat>): int
    requires |l| == |f|
  {
    Sum(CostTerms(f, l))
  }

  ghost function KraftTerms(f: seq<nat>, l: seq<nat>, m: nat): (t: seq<int>)
    requires Fits(f, l, m)
  {
    seq(|f|, i requires 0 <= i < |f| => if f[i] > 0 then Pow2(m - l[i]) else 0)
  }

  /** The Kraft sum of the symbols with a count, in units of 2^-m. */
  ghost function Kraft(f: seq<nat>, l: seq<nat>, m: nat): int
    requires Fits(f, l, m)
  {
    Sum(KraftTerms(f, l, m))
  }

  function Indicator(f: seq<nat>): (t: seq<int>) {
    seq(|f|, i requires 0 <= i < |f| => if f[i] > 0 then 1 else 0)
  }

  /** How many symbols have a count. */
  function Count(f: seq<nat>): (n: nat) {
    SumNonneg(Indicator(f));
    Sum(Indicator(f))
  }

  // ---- The algorithm ----

  /** The scan for the smallest nonzero count among the first n, ties going to the
      larger symbol, leaving out `skip`. */
  function Least(f: seq<nat>, skip: int, n: nat): (c: int)
    requires n <= |f|
    ensures -1 <= c < n
    ensures c >= 0 ==> f[c] > 0 && c != skip
    ensures forall i :: 0 <= i < n && f[i] > 0 && i != skip ==> c >= 0 && f[c] <= f[i]
  {
    if n == 0 then -1
    else
      var b := Least(f, skip, n - 1);
      if f[n - 1] > 0 && n - 1 != skip && (b < 0 || f[n - 1] <= f[b]) then n - 1 else b
  }

  function First(f: seq<nat>): int { Least(f, -1, |f|) }

  function Second(f: seq<nat>): int { Least(f, First(f), |f|) }

  /** freq[c1] += freq[c2]; freq[c2] = 0; */
  function Merge(f: seq<nat>, c1: nat, c2: nat): (r: seq<nat>)
    requires c1 < |f| && c2 < |f| && c1 != c2
  {
    f[c1 := f[c1] + f[c2]][c2 := 0]
  }

  lemma MergeCount(f: seq<nat>, c1: nat, c2: nat)
    requires c1 < |f| && c2 < |f| && c1 != c2 && f[c1] > 0 && f[c2] > 0
    ensures Count(Merge(f, c1, c2)) == Count(f) - 1
  {
    SumUpdate(Indicator(f), c2, 0);
    assert Indicator(Merge(f, c1, c2)) == Indicator(f)[c2 := 0];
  }

  /** The merged counts add up to the cost of the code that the algorithm builds. */
  function Merges(f: seq<nat>): (h: nat)
    decreases Count(f)
  {
    var c1, c2 := First(f), Second(f);
    if c2 < 0 then 0
    else
      MergeCount(f, c1, c2);
      f[c1] + f[c2] + Merges(Merge(f, c1, c2))
  }

  // ---- No code does better ----

  lemma CostNonneg(f: seq<nat>, l: seq<nat>)
    requires |l| == |f|
    ensures Cost(f, l) >= 0
  {
    forall i | 0 <= i < |f| ensures CostTerms(f, l)[i] >= 0 {
      MulMono(0, f[i], l[i]);
    }
    SumNonneg(CostTerms(f, l));
  }

  /** Changing the length of one symbol. */
  lemma SetLength(f: seq<nat>, l: seq<nat>, m: nat, a: nat, v: nat)
    requires Fits(f, l, m) && a < |f| && f[a] > 0 && v <= m
    ensures Fits(f, l[a := v], m)
    ensures Cost(f, l[a := v]) == Cost(f, l) - f[a] * l[a] + f[a] * v
    ensures Kraft(f, l[a := v], m) == Kraft(f, l, m) - Pow2(m - l[a]) + Pow2(m - v)
  {
    hide Pow2;
    SumUpdate(CostTerms(f, l), a, f[a] * v);
    assert CostTerms(f, l[a := v]) == CostTerms(f, l)[a := f[a] * v];
    SumUpdate(KraftTerms(f, l, m), a, Pow2(m - v));
    assert KraftTerms(f, l[a := v], m) == KraftTerms(f, l, m)[a := Pow2(m - v)];
  }

  /** Giving the longest code word to the smaller count costs nothing. */
  lemma Exchange(f: seq<nat>, l: seq<nat>, m: nat, a: nat, p: nat) returns (r: seq<nat>)
    requires Fits(f, l, m) && a < |f| && p < |f| && 0 < f[a] <= f[p] && l[p] == m
    ensures Fits(f, r, m) && r[a] == m && (forall i :: 0 <= i < |l| && i != a && i != p ==> r[i] == l[i])
    ensures r[p] == l[a] || a == p
    ensures Cost(f, r) <= Cost(f, l) && Kraft(f, r, m) == Kraft(f, l, m)
  {
    hide Cost, Kraft, Pow2;
    if a == p {
      r := l;
    } else {
      SetLength(f, l, m, a, m);
      SetLength(f, l[a := m], m, p, l[a]);
      r := l[a := m][p := l[a]];
      Rearrangement(f[a], f[p], l[a], m);
    }
  }

  lemma Rearrangement(x: int, y: int, v: int, m: int)
    requires x <= y && v <= m
    ensures x * m + y * v <= x * v + y * m
  {
    assert (y - x) * (m - v) >= 0;
    assert (y - x) * (m - v) == y * m - y * v - x * m + x * v;
  }

  /** Two siblings at the greatest depth merge into one symbol a level up. */
  lemma MergeSiblings(f: seq<nat>, l: seq<nat>, m: nat, c1: nat, c2: nat)
    requires Fits(f, l, m) && c1 < |f| && c2 < |f| && c1 != c2 && f[c1] > 0 && f[c2] > 0
    requires l[c1] == m && l[c2] == m && m > 0
    ensures Fits(Merge(f, c1, c2), l[c1 := m - 1], m)
    ensures Cost(Merge(f, c1, c2), l[c1 := m - 1]) == Cost(f, l) - (f[c1] + f[c2])
    ensures Kraft(Merge(f, c1, c2), l[c1 := m - 1], m) == Kraft(f, l, m)
  {
    var g, r := Merge(f, c1, c2), l[c1 := m - 1];
    var t := CostTerms(f, l);
    var v := (f[c1] + f[c2]) * (m - 1);
    SumUpdate(t, c1, v);
    SumUpdate(t[c1 := v], c2, 0);
    assert CostTerms(g, r) == t[c1 := v][c2 := 0];
    Siblings(f[c1], f[c2], m);
    var k := KraftTerms(f, l, m);
    SumUpdate(k, c1, 2);
    SumUpdate(k[c1 := 2], c2, 0);
    assert Pow2(0) == 1 && Pow2(1) == 2;
    assert KraftTerms(g, r, m) == k[c1 := 2][c2 := 0];
  }

  lemma Siblings(x: int, y: int, m: int)
    ensures (x + y) * (m - 1) == x * m + y * m - (x + y)
  {
    Distribute(x, y, m - 1);
  }

  /** With all lengths below m, one level fewer is enough. */
  lemma Shallower(f: seq<nat>, l: seq<nat>, m: nat)
    requires Fits(f, l, m) && m > 0 && forall i :: 0 <= i < |f| && f[i] > 0 ==> l[i] < m
    ensures Fits(f, l, m - 1) && Kraft(f, l, m) == 2 * Kraft(f, l, m - 1)
  {
    hide Pow2;
    var a, b := KraftTerms(f, l, m - 1), KraftTerms(f, l, m);
    forall i | 0 <= i < |f| ensures b[i] == 2 * a[i] {
      if f[i] > 0 {
        Pow2Twice(m - 1 - l[i]);
      }
    }
    SumTwice(a, b);
  }

  /** A lone symbol at depth m leaves room to shorten it. */
  lemma LoneSymbol(f: seq<nat>, l: seq<nat>, m: nat, p: nat)
    requires Fits(f, l, m) && p < |f| && f[p] > 0 && l[p] == m && m > 0
    requires forall i :: 0 <= i < |f| && f[i] > 0 && i != p ==> l[i] < m
    ensures Kraft(f, l, m) % 2 == 1
  {
    var k := KraftTerms(f, l, m);
    assert k[p] == 1;
    var others := k[p := 0];
    forall i | 0 <= i < |others| ensures others[i] % 2 == 0 {
      if i != p && f[i] > 0 {
        Pow2Twice(m - l[i] - 1);
      }
    }
    SumEven(others);
    SumUpdate(k, p, 0);
  }

  lemma TwoSymbolsNeedDepth(f: seq<nat>, l: seq<nat>, m: nat, p: nat, q: nat)
    requires Fits(f, l, m) && p < |f| && q < |f| && p != q && f[p] > 0 && f[q] > 0
    requires Kraft(f, l, m) <= Pow2(m)
    ensures m > 0
  {
    SumTwo(KraftTerms(f, l, m), p, q);
  }

  /** The two smallest counts go to the two deepest places. */
  lemma Deepest(f: seq<nat>, l: seq<nat>, m: nat, c1: nat, c2: nat, p: nat, q: nat) returns (r: seq<nat>)
    requires Fits(f, l, m) && c1 < |f| && c2 < |f| && p < |f| && q < |f| && c1 != c2 && p != q
    requires 0 < f[c1] <= f[c2] && l[p] == m && l[q] == m && f[p] > 0 && f[q] > 0
    requires forall i :: 0 <= i < |f| && f[i] > 0 && i != c1 ==> f[c2] <= f[i]
    ensures Fits(f, r, m) && r[c1] == m && r[c2] == m
    ensures Cost(f, r) <= Cost(f, l) && Kraft(f, r, m) == Kraft(f, l, m)
  {
    hide Cost, Kraft;
    if l[c1] == m {
      r := Exchange(f, l, m, c2, if p == c1 then q else p);
    } else {
      var s := Exchange(f, l, m, c1, p);
      r := Exchange(f, s, m, c2, q);
    }
  }

  /** No lengths that satisfy the Kraft inequality cost less than the merges. */
  lemma {:induction false} MergesAreMinimal(f: seq<nat>, l: seq<nat>, m: nat)
    requires Fits(f, l, m) && Kraft(f, l, m) <= Pow2(m)
    ensures Merges(f) <= Cost(f, l)
    decreases Count(f), m
  {
    hide Cost, Kraft, Count, Pow2;
    var c1, c2 := First(f), Second(f);
    CostNonneg(f, l);
    if c2 >= 0 {
      TwoSymbolsNeedDepth(f, l, m, c1, c2);
      Pow2Twice(m - 1);
      if p: nat :| p < |f| && f[p] > 0 && l[p] == m {
        if q: nat :| q < |f| && f[q] > 0 && l[q] == m && q != p {
          var r := Deepest(f, l, m, c1, c2, p, q);
          MergeSiblings(f, r, m, c1, c2);
          MergeCount(f, c1, c2);
          MergesAreMinimal(Merge(f, c1, c2), r[c1 := m - 1], m);
        } else {
          LoneSymbol(f, l, m, p);
          ShortenLone(f, l, m, p);
          Shallower(f, l[p := m - 1], m);
          MergesAreMinimal(f, l[p := m - 1], m - 1);
        }
      } else {
        Shallower(f, l, m);
        MergesAreMinimal(f, l, m - 1);
      }
    }
  }

  lemma ShortenLone(f: seq<nat>, l: seq<nat>, m: nat, p: nat)
    requires Fits(f, l, m) && p < |f| && f[p] > 0 && l[p] == m && m > 0
    ensures Fits(f, l[p := m - 1], m) && Cost(f, l[p := m - 1]) <= Cost(f, l)
    ensures Kraft(f, l[p := m - 1], m) == Kraft(f, l, m) + 1
  {
    SetLength(f, l, m, p, m - 1);
    assert Pow2(0) == 1 && Pow2(1) == 2;
    assert f[p] * (m - 1) <= f[p] * m;
  }

  // ---- Prefix codes ----

  /** A code word for every symbol with a count, none the beginning of another. */
  ghost predicate PrefixFree(f: seq<nat>, code: seq<seq<bit>>) {
    && |code| == |f|
    && forall i, j :: 0 <= i < |f| && 0 <= j < |f| && i != j && f[i] > 0 && f[j] > 0 ==> !(code[i] <= code[j])
  }

  function Lengths(code: seq<seq<bit>>): (l: seq<nat>) {
    seq(|code|, i requires 0 <= i < |code| => |code[i]|)
  }

  /** The symbols whose code word starts with b. */
  function Branch(f: seq<nat>, code: seq<seq<bit>>, b: bit): (g: seq<nat>)
    requires |code| == |f|
  {
    seq(|f|, i requires 0 <= i < |f| => if code[i] != [] && code[i][0] == b then f[i] else 0)
  }

  function Tails(code: seq<seq<bit>>): (r: seq<seq<bit>>) {
    seq(|code|, i requires 0 <= i < |code| => if code[i] == [] then [] else code[i][1..])
  }

  lemma ConsPrefix(b: bit, x: seq<bit>, y: seq<bit>)
    ensures [b] + x <= [b] + y <==> x <= y
  {
    var u, v := [b] + x, [b] + y;
    assert u[1..] == x && v[1..] == y;
    if u <= v {
      assert x == v[..|u|][1..];
    }
  }

  lemma BranchPrefixFree(f: seq<nat>, code: seq<seq<bit>>, b: bit)
    requires PrefixFree(f, code)
    ensures PrefixFree(Branch(f, code, b), Tails(code))
  {
    var g, t := Branch(f, code, b), Tails(code);
    forall i, j | 0 <= i < |g| && 0 <= j < |g| && i != j && g[i] > 0 && g[j] > 0
      ensures !(t[i] <= t[j])
    {
      ConsPrefix(b, t[i], t[j]);
      assert code[i] == [b] + t[i] && code[j] == [b] + t[j];
    }
  }

  lemma OnlySymbol(f: seq<nat>, l: seq<nat>, m: nat, p: nat)
    requires Fits(f, l, m) && p < |f| && f[p] > 0 && forall i :: 0 <= i < |f| && i != p ==> f[i] == 0
    ensures Kraft(f, l, m) == Pow2(m - l[p])
  {
    hide Pow2;
    var k := KraftTerms(f, l, m);
    SumUpdate(k, p, 0);
    SumZero(k[p := 0]);
  }

  /** Every prefix code satisfies the Kraft inequality. */
  lemma {:induction false} KraftInequality(f: seq<nat>, code: seq<seq<bit>>, m: nat)
    requires PrefixFree(f, code) && Fits(f, Lengths(code), m)
    ensures Kraft(f, Lengths(code), m) <= Pow2(m)
    decreases m
  {
    hide Pow2, Fits, Kraft;
    var l := Lengths(code);
    if p: nat :| p < |f| && f[p] > 0 && code[p] == [] {
      assert forall i :: 0 <= i < |f| && i != p ==> code[p] <= code[i];
      OnlySymbol(f, l, m, p);
    } else if m == 0 {
      NoSymbols(f, code);
    } else {
      BranchPrefixFree(f, code, 0);
      BranchPrefixFree(f, code, 1);
      SplitKraft(f, code, m);
      KraftInequality(Branch(f, code, 0), Tails(code), m - 1);
      KraftInequality(Branch(f, code, 1), Tails(code), m - 1);
      Pow2Twice(m - 1);
    }
  }

  lemma NoSymbols(f: seq<nat>, code: seq<seq<bit>>)
    requires Fits(f, Lengths(code), 0) && forall p :: 0 <= p < |f| && f[p] > 0 ==> code[p] != []
    ensures Kraft(f, Lengths(code), 0) == 0
  {
    var k := KraftTerms(f, Lengths(code), 0);
    forall i | 0 <= i < |f| ensures k[i] == 0 {
      assert |code[i]| == Lengths(code)[i];
    }
    SumZero(k);
  }

  lemma SplitKraft(f: seq<nat>, code: seq<seq<bit>>, m: nat)
    requires Fits(f, Lengths(code), m) && m > 0 && forall p :: 0 <= p < |f| && f[p] > 0 ==> code[p] != []
    ensures Fits(Branch(f, code, 0), Lengths(Tails(code)), m - 1)
    ensures Fits(Branch(f, code, 1), Lengths(Tails(code)), m - 1)
    ensures Kraft(f, Lengths(code), m) == Kraft(Branch(f, code, 0), Lengths(Tails(code)), m - 1)
                                        + Kraft(Branch(f, code, 1), Lengths(Tails(code)), m - 1)
  {
    hide Pow2;
    var l := Lengths(Tails(code));
    SumPlus(KraftTerms(Branch(f, code, 0), l, m - 1), KraftTerms(Branch(f, code, 1), l, m - 1),
            KraftTerms(f, Lengths(code), m));
  }

  /** An upper bound on the lengths of a code. */
  function Longest(l: seq<nat>): (m: nat)
    ensures forall i :: 0 <= i < |l| ==> l[i] <= m
  {
    if l == [] then 0
    else
      var m := Longest(l[..|l| - 1]);
      if l[|l| - 1] > m then l[|l| - 1] else m
  }

  /** No prefix code on the symbols with a count costs less than the merges. */
  lemma NoPrefixCodeIsCheaper(f: seq<nat>, code: seq<seq<bit>>)
    requires PrefixFree(f, code)
    ensures Merges(f) <= Cost(f, Lengths(code))
  {
    var m := Longest(Lengths(code));
    KraftInequality(f, code, m);
    MergesAreMinimal(f, Lengths(code), m);
  }
}
