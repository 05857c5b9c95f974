/** The merge loop of jpeg_gen_optimal_table: frequencies, code sizes and the
    chains in others[], and what the code sizes are worth. */
module HuffmanTree {
  import opened Numbers
  import opened Sums
  import opened HuffmanOptimality

  const SYMBOLS := 257
  const MAX_COUNT := 1000000000

  // ---- The forest on values ----

  /** freq and codesize; own[i] is the root of the branch that symbol i hangs from. */
  datatype Forest = Forest(freq: seq<nat>, size: seq<nat>, own: seq<nat>)

  /** The counts of the symbols in the branch of r. */
  ghost function Share(f0: seq<nat>, own: seq<nat>, r: nat): (t: seq<int>)
    requires |own| == |f0|
  {
    seq(|f0|, i requires 0 <= i < |f0| => if own[i] == r then f0[i] else 0)
  }

  ghost predicate Sized(f0: seq<nat>, s: Forest) {
    |s.freq| == |s.size| == |s.own| == |f0|
  }

  /** The Kraft terms of the symbols in the branch of r. */
  ghost function KraftShare(f0: seq<nat>, s: Forest, m: nat, r: nat): (t: seq<int>)
    requires Sized(f0, s) && Fits(f0, s.size, m)
  {
    seq(|f0|, i requires 0 <= i < |f0| => if f0[i] > 0 && s.own[i] == r then Pow2(m - s.size[i]) else 0)
  }

  /** Every symbol belongs to the branch of a live root, and a root's count is
      that of its branch. */
  ghost predicate Rooted(f0: seq<nat>, s: Forest) {
    && Sized(f0, s)
    && (forall i :: 0 <= i < |f0| && f0[i] > 0 ==> s.own[i] < |f0| && s.freq[s.own[i]] > 0)
    && (forall r :: 0 <= r < |f0| && s.freq[r] > 0 ==> s.own[r] == r && f0[r] > 0)
    && (forall r :: 0 <= r < |f0| ==> s.freq[r] == Sum(Share(f0, s.own, r)))
  }

  /** Every branch is a complete code on its symbols. */
  ghost predicate Full(f0: seq<nat>, s: Forest) {
    && Sized(f0, s)
    && (forall i :: 0 <= i < |f0| && f0[i] > 0 ==> s.size[i] + Count(s.freq) <= Count(f0))
    && Fits(f0, s.size, Count(f0))
    && (forall r :: 0 <= r < |f0| && s.freq[r] > 0 ==> Sum(KraftShare(f0, s, Count(f0), r)) == Pow2(Count(f0)))
  }

  /** What has been spent and what the live roots will still cost. */
  ghost predicate Paid(f0: seq<nat>, s: Forest) {
    Sized(f0, s) && Cost(f0, s.size) + Merges(s.freq) == Merges(f0)
  }

  ghost predicate Built(f0: seq<nat>, s: Forest) {
    && Rooted(f0, s) && Full(f0, s) && Paid(f0, s)
    && forall i :: 0 <= i < |f0| && f0[i] == 0 ==> s.size[i] == 0
  }

  function Start(f0: seq<nat>): (s: Forest) {
    Forest(f0, seq(|f0|, i => 0), seq(|f0|, i requires 0 <= i < |f0| => i))
  }

  lemma SingleTerm(t: seq<int>, r: nat)
    requires r < |t| && forall i :: 0 <= i < |t| && i != r ==> t[i] == 0
    ensures Sum(t) == t[r]
  {
    SumUpdate(t, r, 0);
    SumZero(t[r := 0]);
  }

  lemma StartShares(f0: seq<nat>, m: nat, r: nat)
    requires r < |f0|
    ensures Sum(Share(f0, Start(f0).own, r)) == f0[r]
    ensures Fits(f0, Start(f0).size, m)
    ensures f0[r] > 0 ==> Sum(KraftShare(f0, Start(f0), m, r)) == Pow2(m)
  {
    hide Pow2;
    SingleTerm(Share(f0, Start(f0).own, r), r);
    SingleTerm(KraftShare(f0, Start(f0), m, r), r);
  }

  lemma StartBuilt(f0: seq<nat>)
    ensures Built(f0, Start(f0))
  {
    hide Pow2, Count, Merges, Share, KraftShare;
    var s := Start(f0);
    forall r | 0 <= r < |f0|
      ensures Sum(Share(f0, s.own, r)) == f0[r]
      ensures f0[r] > 0 ==> Sum(KraftShare(f0, s, Count(f0), r)) == Pow2(Count(f0))
    {
      StartShares(f0, Count(f0), r);
    }
    SumZero(CostTerms(f0, s.size));
  }

  /** The branch of c2 is hung onto that of c1. */
  function Rehang(own: seq<nat>, c1: nat, c2: nat): (r: seq<nat>) {
    seq(|own|, i requires 0 <= i < |own| => if own[i] == c2 then c1 else own[i])
  }

  /** Its symbols and those of c1 move a level down. */
  function Lower(f0: seq<nat>, size: seq<nat>, own: seq<nat>, c1: nat, c2: nat): (r: seq<nat>)
    requires |size| == |own| == |f0|
  {
    seq(|f0|, i requires 0 <= i < |f0| =>
      if f0[i] > 0 && (own[i] == c1 || own[i] == c2) then size[i] + 1 else size[i])
  }

  /** One round of the loop. */
  function Join(f0: seq<nat>, s: Forest, c1: nat, c2: nat): (r: Forest)
    requires |s.freq| == |s.size| == |s.own| == |f0| && c1 < |f0| && c2 < |f0| && c1 != c2
  {
    Forest(Merge(s.freq, c1, c2), Lower(f0, s.size, s.own, c1, c2), Rehang(s.own, c1, c2))
  }

  lemma JoinShare(f0: seq<nat>, own: seq<nat>, c1: nat, c2: nat, r: nat)
    requires |own| == |f0| && c1 != c2
    ensures Sum(Share(f0, Rehang(own, c1, c2), r)) == if r == c1 then Sum(Share(f0, own, c1)) + Sum(Share(f0, own, c2))
                                                     else if r == c2 then 0 else Sum(Share(f0, own, r))
  {
    var own' := Rehang(own, c1, c2);
    if r == c1 {
      SumPlus(Share(f0, own, c1), Share(f0, own, c2), Share(f0, own', c1));
    } else if r == c2 {
      SumZero(Share(f0, own', c2));
    } else {
      assert Share(f0, own', r) == Share(f0, own, r);
    }
  }

  lemma JoinRooted(f0: seq<nat>, s: Forest, c1: nat, c2: nat)
    requires Rooted(f0, s) && c1 < |f0| && c2 < |f0| && c1 != c2 && s.freq[c1] > 0 && s.freq[c2] > 0
    ensures Rooted(f0, Join(f0, s, c1, c2))
  {
    hide Share, Lower;
    var t := Join(f0, s, c1, c2);
    assert Sized(f0, t) by { LowerSize(f0, s.size, s.own, c1, c2); }
    forall r | 0 <= r < |f0| ensures t.freq[r] == Sum(Share(f0, t.own, r)) {
      hide Rooted;
      RootCount(f0, s, r);
      RootCount(f0, s, c1);
      RootCount(f0, s, c2);
      JoinShare(f0, s.own, c1, c2, r);
    }
  }

  lemma RootCount(f0: seq<nat>, s: Forest, r: nat)
    requires Rooted(f0, s) && r < |f0|
    ensures Sized(f0, s) && s.freq[r] == Sum(Share(f0, s.own, r))
  {
  }

  lemma LowerSize(f0: seq<nat>, size: seq<nat>, own: seq<nat>, c1: nat, c2: nat)
    requires |size| == |own| == |f0|
    ensures |Lower(f0, size, own, c1, c2)| == |f0|
    ensures forall i :: 0 <= i < |f0| ==>
              Lower(f0, size, own, c1, c2)[i] == if f0[i] > 0 && (own[i] == c1 || own[i] == c2) then size[i] + 1
                else size[i]
  {
  }

  lemma JoinFull(f0: seq<nat>, s: Forest, c1: nat, c2: nat)
    requires Rooted(f0, s) && Full(f0, s) && c1 < |f0| && c2 < |f0| && c1 != c2 && s.freq[c1] > 0 && s.freq[c2] > 0
    ensures Full(f0, Join(f0, s, c1, c2))
  {
    hide Count, Pow2, Rooted, KraftShare, Rehang;
    RootCount(f0, s, c1);
    var t, m := Join(f0, s, c1, c2), Count(f0);
    MergeCount(s.freq, c1, c2);
    assert Sized(f0, t) by { RehangSize(s.own, c1, c2); }
    LowerSize(f0, s.size, s.own, c1, c2);
    forall r | 0 <= r < |f0| && t.freq[r] > 0 ensures Sum(KraftShare(f0, t, m, r)) == Pow2(m) {
      JoinKraft(f0, s, m, c1, c2, r);
    }
  }

  lemma RehangSize(own: seq<nat>, c1: nat, c2: nat)
    ensures |Rehang(own, c1, c2)| == |own|
  {
  }

  lemma JoinKraft(f0: seq<nat>, s: Forest, m: nat, c1: nat, c2: nat, r: nat)
    requires Sized(f0, s) && c1 < |f0| && c2 < |f0| && c1 != c2 && r != c2
    requires Fits(f0, s.size, m) && Fits(f0, Join(f0, s, c1, c2).size, m)
    ensures var k := Sum(KraftShare(f0, Join(f0, s, c1, c2), m, r));
            if r == c1 then 2 * k == Sum(KraftShare(f0, s, m, c1)) + Sum(KraftShare(f0, s, m, c2))
            else k == Sum(KraftShare(f0, s, m, r))
  {
    hide Pow2;
    var t := Join(f0, s, c1, c2);
    var c := KraftShare(f0, t, m, r);
    if r == c1 {
      var a, b := KraftShare(f0, s, m, c1), KraftShare(f0, s, m, c2);
      var both := seq(|f0|, i requires 0 <= i < |f0| => 2 * c[i]);
      forall i | 0 <= i < |f0| ensures both[i] == a[i] + b[i] {
        if f0[i] > 0 && (s.own[i] == c1 || s.own[i] == c2) {
          Pow2Twice(m - t.size[i]);
        }
      }
      SumPlus(a, b, both);
      SumTwice(c, both);
    } else {
      assert c == KraftShare(f0, s, m, r);
    }
  }

  lemma JoinCost(f0: seq<nat>, s: Forest, c1: nat, c2: nat)
    requires Sized(f0, s) && c1 < |f0| && c2 < |f0| && c1 != c2
    ensures |Lower(f0, s.size, s.own, c1, c2)| == |f0|
    ensures Cost(f0, Lower(f0, s.size, s.own, c1, c2))
         == Cost(f0, s.size) + Sum(Share(f0, s.own, c1)) + Sum(Share(f0, s.own, c2))
  {
    var l := Lower(f0, s.size, s.own, c1, c2);
    var a := CostTerms(f0, s.size);
    var b, c := Share(f0, s.own, c1), Share(f0, s.own, c2);
    var bc := seq(|f0|, i requires 0 <= i < |f0| => b[i] + c[i]);
    SumPlus(b, c, bc);
    forall i | 0 <= i < |f0| ensures CostTerms(f0, l)[i] == a[i] + bc[i] {
      assert f0[i] * (s.size[i] + 1) == f0[i] * s.size[i] + f0[i];
    }
    SumPlus(a, bc, CostTerms(f0, l));
  }

  lemma JoinPaid(f0: seq<nat>, s: Forest, c1: nat, c2: nat)
    requires Rooted(f0, s) && Paid(f0, s) && c1 == First(s.freq) && c2 == Second(s.freq)
    ensures Sized(f0, s) && c1 < |f0| && c2 < |f0| && c1 != c2
    ensures Paid(f0, Join(f0, s, c1, c2))
  {
    hide Least, Count, Cost, Rooted, Lower, Share, Rehang;
    RootCount(f0, s, c1);
    RootCount(f0, s, c2);
    JoinCost(f0, s, c1, c2);
    RehangSize(s.own, c1, c2);
  }

  lemma JoinBuilt(f0: seq<nat>, s: Forest, c1: nat, c2: nat)
    requires Built(f0, s) && c1 == First(s.freq) && c2 == Second(s.freq)
    ensures Sized(f0, s) && c1 < |f0| && c2 < |f0| && c1 != c2
    ensures Built(f0, Join(f0, s, c1, c2))
  {
    hide Rooted, Full, Paid, Rehang, Lower;
    JoinPaid(f0, s, c1, c2);
    JoinRooted(f0, s, c1, c2);
    JoinFull(f0, s, c1, c2);
    LowerSize(f0, s.size, s.own, c1, c2);
  }

  /** No count grows beyond the sum of all. */
  lemma CountsBounded(f0: seq<nat>, s: Forest, r: nat)
    requires Rooted(f0, s) && r < |f0|
    ensures s.freq[r] <= Sum(f0)
  {
    SumMono(Share(f0, s.own, r), f0);
  }

  // ---- The whole loop on values ----

  lemma JoinSized(f0: seq<nat>, s: Forest, c1: nat, c2: nat)
    requires Sized(f0, s) && c1 < |f0| && c2 < |f0| && c1 != c2
    ensures Sized(f0, Join(f0, s, c1, c2)) && Join(f0, s, c1, c2).freq == Merge(s.freq, c1, c2)
  {
  }

  /** Rounds of the loop until one root is left. */
  ghost function Grown(f0: seq<nat>, s: Forest): (t: Forest)
    requires Sized(f0, s)
    ensures Sized(f0, t)
    decreases Count(s.freq)
  {
    var c1, c2 := First(s.freq), Second(s.freq);
    if c2 < 0 then s
    else
      MergeCount(s.freq, c1, c2);
      JoinSized(f0, s, c1, c2);
      Grown(f0, Join(f0, s, c1, c2))
  }

  lemma GrownStep(f0: seq<nat>, s: Forest, c1: int, c2: int)
    requires Sized(f0, s) && c1 == First(s.freq) && c2 == Second(s.freq)
    ensures c2 < 0 ==> Grown(f0, s) == s
    ensures c2 >= 0 ==> && c1 >= 0 && c1 != c2 && Sized(f0, Join(f0, s, c1, c2))
                        && Grown(f0, s) == Grown(f0, Join(f0, s, c1, c2))
  {
    hide Count, Join, Least;
    if c2 >= 0 {
      JoinSized(f0, s, c1, c2);
    }
  }

  /** The code sizes that the loop gives the counts f0. */
  ghost function HuffmanSizes(f0: seq<nat>): (l: seq<nat>)
    ensures |l| == |f0|
  {
    Grown(f0, Start(f0)).size
  }

  /** The forest s is on the way to these code sizes. */
  ghost predicate Towards(f0: seq<nat>, s: Forest) {
    Sized(f0, s) && Grown(f0, s).size == HuffmanSizes(f0)
  }

  lemma TowardsStart(f0: seq<nat>)
    ensures Towards(f0, Start(f0))
  {
    hide Grown;
  }

  lemma TowardsJoin(f0: seq<nat>, s: Forest, c1: nat, c2: nat)
    requires Towards(f0, s) && c1 == First(s.freq) && c2 == Second(s.freq)
    ensures c1 < |f0| && c2 < |f0| && c1 != c2 && Sized(f0, s) && Towards(f0, Join(f0, s, c1, c2))
  {
    GrownStep(f0, s, c1, c2);
    hide Grown, Join, Least, HuffmanSizes;
  }

  lemma TowardsEnd(f0: seq<nat>, s: Forest)
    requires Towards(f0, s) && Second(s.freq) < 0
    ensures s.size == HuffmanSizes(f0)
  {
    GrownStep(f0, s, First(s.freq), Second(s.freq));
    hide Grown, Least, HuffmanSizes;
  }

  // ---- How long a code can be ----

  /** Fibonacci numbers: what a branch of the given height weighs at least. */
  function Weight(h: nat): (w: nat)
    ensures w > 0
  {
    if h < 2 then h + 1 else Weight(h - 1) + Weight(h - 2)
  }

  lemma {:induction false} WeightGrows(g: nat, h: nat)
    requires g <= h
    ensures Weight(g) <= Weight(h)
    decreases h
  {
    if g < h {
      WeightGrows(g, h - 1);
    }
  }

  lemma WeightStep(h: nat)
    ensures Weight(h + 1) == if h == 0 then 2 else Weight(h) + Weight(h - 1)
  {
  }

  lemma EightOn(h: nat)
    ensures Weight(h + 8) == 13 * Weight(h) + 21 * Weight(h + 1)
    ensures Weight(h + 9) == 21 * Weight(h) + 34 * Weight(h + 1)
  {
    WeightStep(h + 1);
    WeightStep(h + 2);
    WeightStep(h + 3);
    WeightStep(h + 4);
    WeightStep(h + 5);
    WeightStep(h + 6);
    WeightStep(h + 7);
    WeightStep(h + 8);
    hide Weight;
  }

  const SAFE_COUNT := 9227465

  lemma SafeCount()
    ensures Weight(33) == SAFE_COUNT
  {
    EightOn(0);
    EightOn(8);
    EightOn(16);
    EightOn(24);
    assert Weight(0) == 1 && Weight(1) == 2;
    hide Weight;
  }

  /** Each branch weighs enough for its height, and m, the larger count of the last
      merge, is no more than any count that is left. */
  ghost predicate Heavy(f0: seq<nat>, s: Forest, m: nat) {
    Rooted(f0, s) && AllHeavy(f0, s, m) && AllOver(s.freq, m)
  }

  ghost predicate AllHeavy(f0: seq<nat>, s: Forest, m: nat) {
    forall i :: 0 <= i < |f0| && f0[i] > 0 ==> HeavyAt(s, m, i)
  }

  predicate AllOver(f: seq<nat>, m: nat) {
    forall r :: 0 <= r < |f| && f[r] > 0 ==> f[r] >= m
  }

  ghost predicate HeavyAt(s: Forest, m: nat, i: nat) {
    && i < |s.size| && i < |s.own| && s.own[i] < |s.freq|
    && s.freq[s.own[i]] >= Weight(s.size[i]) && (s.size[i] > 0 ==> m >= Weight(s.size[i] - 1))
  }

  lemma StartHeavy(f0: seq<nat>)
    ensures Heavy(f0, Start(f0), 1)
  {
    StartBuilt(f0);
    hide Built, Full, Paid;
    assert Rooted(f0, Start(f0)) by { BuiltRooted(f0, Start(f0)); }
    hide Rooted;
  }

  lemma JoinHeavyAt(f0: seq<nat>, s: Forest, m: nat, c1: nat, c2: nat, i: nat)
    requires Sized(f0, s) && i < |f0| && f0[i] > 0 && HeavyAt(s, m, i)
    requires c1 < |f0| && c2 < |f0| && c1 != c2 && m <= s.freq[c1] <= s.freq[c2] && 0 < s.freq[c1]
    ensures HeavyAt(Join(f0, s, c1, c2), s.freq[c2], i)
  {
    WeightStep(s.size[i]);
    hide Weight;
  }

  /** The larger count of the merge is no more than any count that is left. */
  lemma MergedOver(f: seq<nat>, c1: nat, c2: nat, m: nat)
    requires c1 == First(f) && c2 == Second(f) && AllOver(f, m)
    ensures c1 < |f| && c2 < |f| && c1 != c2 && 0 < f[c1] <= f[c2] && m <= f[c1]
    ensures AllOver(Merge(f, c1, c2), f[c2])
  {
    hide Least;
  }

  lemma JoinAllHeavy(f0: seq<nat>, s: Forest, m: nat, c1: nat, c2: nat)
    requires Sized(f0, s) && AllHeavy(f0, s, m)
    requires c1 < |f0| && c2 < |f0| && c1 != c2 && m <= s.freq[c1] <= s.freq[c2] && 0 < s.freq[c1]
    ensures AllHeavy(f0, Join(f0, s, c1, c2), s.freq[c2])
  {
    hide Join, HeavyAt;
    forall i | 0 <= i < |f0| && f0[i] > 0 ensures HeavyAt(Join(f0, s, c1, c2), s.freq[c2], i) {
      JoinHeavyAt(f0, s, m, c1, c2, i);
    }
  }

  lemma JoinHeavy(f0: seq<nat>, s: Forest, m: nat, c1: nat, c2: nat)
    requires Heavy(f0, s, m) && c1 == First(s.freq) && c2 == Second(s.freq)
    ensures c1 < |f0| && c2 < |f0| && c1 != c2 && Sized(f0, s) && Heavy(f0, Join(f0, s, c1, c2), s.freq[c2])
  {
    HeavySized(f0, s, m);
    hide Join, Rooted, Least, AllHeavy, AllOver, Merge;
    MergedOver(s.freq, c1, c2, m);
    JoinRooted(f0, s, c1, c2);
    JoinSized(f0, s, c1, c2);
    JoinAllHeavy(f0, s, m, c1, c2);
  }

  lemma HeavySized(f0: seq<nat>, s: Forest, m: nat)
    requires Heavy(f0, s, m)
    ensures Sized(f0, s)
  {
  }

  /** No code is longer than the Fibonacci numbers allow. */
  lemma {:induction false} GrownHeavy(f0: seq<nat>, s: Forest, m: nat) returns (n: nat)
    requires Heavy(f0, s, m)
    ensures Sized(f0, s) && Heavy(f0, Grown(f0, s), n)
    decreases Count(s.freq)
  {
    HeavySized(f0, s, m);
    var c1, c2 := First(s.freq), Second(s.freq);
    GrownStep(f0, s, c1, c2);
    hide Heavy, Grown, Join, Count, Least;
    if c2 < 0 {
      n := m;
    } else {
      MergeCount(s.freq, c1, c2);
      JoinSized(f0, s, c1, c2);
      JoinHeavy(f0, s, m, c1, c2);
      n := GrownHeavy(f0, Join(f0, s, c1, c2), s.freq[c2]);
    }
  }

  /** A code of more than d bits needs counts that add up to a Fibonacci number at least. */
  lemma SizesBounded(f0: seq<nat>, d: nat, i: nat)
    requires i < |f0| && f0[i] > 0 && Sum(f0) < Weight(d + 1)
    ensures HuffmanSizes(f0)[i] <= d
  {
    hide Grown, Rooted, Start, Sum;
    StartHeavy(f0);
    var n := GrownHeavy(f0, Start(f0), 1);
    var t := Grown(f0, Start(f0));
    assert HeavyAt(t, n, i);
    CountsBounded(f0, t, t.own[i]);
    if t.size[i] > d {
      WeightGrows(d + 1, t.size[i]);
    }
  }

  lemma {:induction false} GrownUncounted(f0: seq<nat>, s: Forest, i: nat)
    requires Sized(f0, s) && i < |f0| && f0[i] == 0
    ensures Grown(f0, s).size[i] == s.size[i]
    decreases Count(s.freq)
  {
    var c1, c2 := First(s.freq), Second(s.freq);
    GrownStep(f0, s, c1, c2);
    if c2 >= 0 {
      MergeCount(s.freq, c1, c2);
      JoinFields(f0, s, c1, c2);
      LowerSize(f0, s.size, s.own, c1, c2);
      hide Grown, Join, Count, Least;
      GrownUncounted(f0, Join(f0, s, c1, c2), i);
    }
  }

  lemma UncountedSize(f0: seq<nat>, i: nat)
    requires i < |f0| && f0[i] == 0
    ensures HuffmanSizes(f0)[i] == 0
  {
    StartFields(f0);
    hide Grown;
    GrownUncounted(f0, Start(f0), i);
  }

  // ---- What the finished code sizes are ----

  /** A complete code: its Kraft sum is exactly one. */
  ghost predicate Complete(f: seq<nat>, l: seq<nat>) {
    forall m: nat :: Fits(f, l, m) ==> Kraft(f, l, m) == Pow2(m)
  }

  /** No prefix code on the symbols with a count does better. */
  ghost predicate Optimal(f: seq<nat>, l: seq<nat>) {
    && |l| == |f|
    && forall code: seq<seq<bit>> :: PrefixFree(f, code) ==> Cost(f, l) <= Cost(f, Lengths(code))
  }

  lemma {:induction false} Deeper(f: seq<nat>, l: seq<nat>, m: nat, d: nat)
    requires Fits(f, l, m)
    ensures Kraft(f, l, m + d) == Kraft(f, l, m) * Pow2(d)
    decreases d
  {
    hide Kraft;
    if d == 0 {
      assert Pow2(0) == 1;
    } else {
      Deeper(f, l, m, d - 1);
      Shallower(f, l, m + d);
      MulTwo(Kraft(f, l, m), Pow2(d - 1));
    }
  }

  lemma CompleteAnywhere(f: seq<nat>, l: seq<nat>, m: nat)
    requires Fits(f, l, m) && Kraft(f, l, m) == Pow2(m)
    ensures Complete(f, l)
  {
    hide Kraft, Pow2, Fits;
    forall n: nat | Fits(f, l, n) ensures Kraft(f, l, n) == Pow2(n) {
      if n >= m {
        Deeper(f, l, m, n - m);
        Pow2Add(m, n - m);
      } else {
        Deeper(f, l, n, m - n);
        Pow2Add(n, m - n);
        SameFactor(Kraft(f, l, n), Pow2(n), Pow2(m - n));
      }
    }
  }

  lemma SameFactor(x: int, y: int, p: nat)
    requires x * p == y * p && p > 0
    ensures x == y
  {
    if x < y {
      MulMono(x + 1, y, p);
      Distribute(x, 1, p);
    } else if y < x {
      MulMono(y + 1, x, p);
      Distribute(y, 1, p);
    }
  }

  /** With one root left the code sizes are those of a complete, optimal code. */
  lemma Finished(f0: seq<nat>, s: Forest, root: nat)
    requires Built(f0, s) && root < |f0| && s.freq[root] > 0
    requires forall r :: 0 <= r < |f0| && s.freq[r] > 0 ==> r == root
    requires Second(s.freq) < 0
    ensures Complete(f0, s.size) && Optimal(f0, s.size)
  {
    hide Pow2, Count, Kraft, Cost;
    var m := Count(f0);
    assert Kraft(f0, s.size, m) == Pow2(m) by {
      hide Merges, Count;
      assert KraftTerms(f0, s.size, m) == KraftShare(f0, s, m, root);
      assert Kraft(f0, s.size, m) == Sum(KraftTerms(f0, s.size, m)) by { KraftIsSum(f0, s.size, m); }
    }
    CompleteAnywhere(f0, s.size, m);
    assert Merges(s.freq) == 0;
    forall code: seq<seq<bit>> | PrefixFree(f0, code)
      ensures Cost(f0, s.size) <= Cost(f0, Lengths(code))
    {
      NoPrefixCodeIsCheaper(f0, code);
    }
  }

  lemma KraftIsSum(f: seq<nat>, l: seq<nat>, m: nat)
    requires Fits(f, l, m)
    ensures Kraft(f, l, m) == Sum(KraftTerms(f, l, m))
  {
  }

  /** In a complete code on two or more symbols no code word is empty. */
  lemma NoEmptyWord(f: seq<nat>, l: seq<nat>, m: nat, p: nat, q: nat)
    requires Fits(f, l, m) && Complete(f, l)
    requires p < |f| && q < |f| && p != q && f[p] > 0 && f[q] > 0
    ensures l[p] > 0
  {
    SumTwo(KraftTerms(f, l, m), p, q);
  }

  // ---- The loop ----

  /** The chain of symbols hanging from each root, in the order of others[]. */
  ghost predicate Chain(others: seq<int>, own: seq<nat>, f0: seq<nat>, ch: seq<nat>, r: nat) {
    && |others| == |own| == |f0|
    && |ch| > 0 && ch[0] == r
    && (forall k :: 0 <= k < |ch| ==> ch[k] < |f0| && own[ch[k]] == r && f0[ch[k]] > 0)
    && (forall k :: 0 <= k < |ch| ==> others[ch[k]] == if k + 1 < |ch| then ch[k + 1] else -1)
    && (forall j, k :: 0 <= j < k < |ch| ==> ch[j] != ch[k])
    && (forall i :: 0 <= i < |f0| && f0[i] > 0 && own[i] == r ==> i in ch)
  }

  ghost predicate Chained(others: seq<int>, s: Forest, f0: seq<nat>, chains: seq<seq<nat>>) {
    && Sized(f0, s) && |others| == |f0| == |chains|
    && forall r :: 0 <= r < |f0| && s.freq[r] > 0 ==> Chain(others, s.own, f0, chains[r], r)
  }

  lemma ChainLink(others: seq<int>, own: seq<nat>, f0: seq<nat>, ch: seq<nat>, r: nat, k: nat)
    requires Chain(others, own, f0, ch, r) && k < |ch|
    ensures ch[k] < |f0| && others[ch[k]] == (if k + 1 < |ch| then ch[k + 1] else -1)
    ensures k + 1 < |ch| ==> ch[k + 1] !in ch[..k + 1]
  {
  }

  /** "In case of ties, take the larger symbol number". */
  lemma {:induction false} LeastTie(f: seq<nat>, skip: int, n: nat)
    requires n <= |f|
    ensures var c := Least(f, skip, n);
            c >= 0 ==> forall i :: 0 <= i < n && i != skip && f[i] == f[c] ==> i <= c
    decreases n
  {
    if n > 0 {
      LeastTie(f, skip, n - 1);
    }
  }

  /** The scan for the smallest count, leaving out `skip`. */
  method FindLeast(freq: array<nat>, skip: int) returns (c: int)
    requires freq.Length == SYMBOLS && forall i :: 0 <= i < SYMBOLS ==> freq[i] <= MAX_COUNT
    ensures c == Least(freq[..], skip, SYMBOLS)
    ensures c >= 0 ==> forall i :: 0 <= i < SYMBOLS && i != skip && freq[i] == freq[c] ==> i <= c
  {
    c := -1;
    var v := MAX_COUNT;
    for i := 0 to SYMBOLS
      invariant c == Least(freq[..], skip, i) && v == if c < 0 then MAX_COUNT else freq[c]
    {
      if freq[i] != 0 && freq[i] <= v && i != skip {
        v := freq[i];
        c := i;
      }
    }
    LeastTie(freq[..], skip, SYMBOLS);
  }

  /** "Increment the codesize of everything in c's tree branch": ends at the tail
      of the chain. */
  method Deepen(codesize: array<nat>, others: array<int>, root: nat, ghost own: seq<nat>, ghost f0: seq<nat>,
                ghost ch: seq<nat>) returns (tail: nat)
    requires codesize.Length == SYMBOLS && others.Length == SYMBOLS
    requires Chain(others[..], own, f0, ch, root)
    modifies codesize
    ensures tail == ch[|ch| - 1]
    ensures forall i :: 0 <= i < SYMBOLS ==> codesize[i] == if i in ch then old(codesize[i]) + 1 else old(codesize[i])
  {
    ghost var links := others[..];
    tail := root;
    codesize[tail] := codesize[tail] + 1;
    ghost var k: nat := 0;
    while others[tail] >= 0
      invariant k < |ch| && tail == ch[k] && others[..] == links
      invariant forall i :: 0 <= i < SYMBOLS ==>
                  codesize[i] == if i in ch[..k + 1] then old(codesize[i]) + 1 else old(codesize[i])
      decreases |ch| - k
    {
      ChainLink(links, own, f0, ch, root, k);
      tail := others[tail];
      k := k + 1;
      assert ch[..k + 1] == ch[..k] + [tail];
      codesize[tail] := codesize[tail] + 1;
    }
    ChainLink(links, own, f0, ch, root, k);
    assert ch[..k + 1] == ch;
  }

  /** The chain of c2 now continues that of c1; the other chains are untouched. */
  lemma JoinChains(others: seq<int>, s: Forest, f0: seq<nat>, chains: seq<seq<nat>>, c1: nat, c2: nat)
    requires Sized(f0, s) && Chained(others, s, f0, chains)
    requires c1 < |f0| && c2 < |f0| && c1 != c2 && s.freq[c1] > 0 && s.freq[c2] > 0
    ensures var ch1 := chains[c1];
            && |ch1| > 0 && ch1[|ch1| - 1] < |others|
            && Chained(others[ch1[|ch1| - 1] := c2], Join(f0, s, c1, c2), f0, chains[c1 := ch1 + chains[c2]])
  {
    var ch1, ch2 := chains[c1], chains[c2];
    var tail := ch1[|ch1| - 1];
    var links, t := others[tail := c2], Join(f0, s, c1, c2);
    forall r | 0 <= r < |f0| && t.freq[r] > 0
      ensures Chain(links, t.own, f0, chains[c1 := ch1 + ch2][r], r)
    {
      if r == c1 {
        JoinedChain(others, s.own, f0, ch1, ch2, c1, c2);
      } else {
        OtherChain(others, s.own, f0, ch1, chains[r], c1, c2, r);
      }
    }
  }

  lemma JoinedChain(others: seq<int>, own: seq<nat>, f0: seq<nat>, ch1: seq<nat>, ch2: seq<nat>, c1: nat, c2: nat)
    requires Chain(others, own, f0, ch1, c1) && Chain(others, own, f0, ch2, c2) && c1 != c2
    ensures Chain(others[ch1[|ch1| - 1] := c2], Rehang(own, c1, c2), f0, ch1 + ch2, c1)
  {
    var ch, links := ch1 + ch2, others[ch1[|ch1| - 1] := c2];
    forall k | 0 <= k < |ch|
      ensures ch[k] < |f0| && links[ch[k]] == if k + 1 < |ch| then ch[k + 1] else -1
    {
      if k < |ch1| {
        ChainLink(others, own, f0, ch1, c1, k);
        assert k + 1 < |ch1| ==> ch1[k] != ch1[|ch1| - 1];
      } else {
        ChainLink(others, own, f0, ch2, c2, k - |ch1|);
        assert own[ch[k]] == c2;
      }
    }
    forall j, k | 0 <= j < k < |ch| ensures ch[j] != ch[k] {
      if j < |ch1| <= k {
        assert own[ch1[j]] == c1 && own[ch2[k - |ch1|]] == c2;
      }
    }
  }

  lemma OtherChain(others: seq<int>, own: seq<nat>, f0: seq<nat>, ch1: seq<nat>, ch: seq<nat>,
                   c1: nat, c2: nat, r: nat)
    requires Chain(others, own, f0, ch1, c1) && Chain(others, own, f0, ch, r) && r != c1 && r != c2
    ensures Chain(others[ch1[|ch1| - 1] := c2], Rehang(own, c1, c2), f0, ch, r)
  {
    assert own[ch1[|ch1| - 1]] == c1;
  }

  lemma StartChains(f0: seq<nat>)
    ensures Chained(seq(|f0|, i => -1), Start(f0), f0, seq(|f0|, r requires 0 <= r < |f0| => [r]))
  {
  }

  lemma LiveRoot(f0: seq<nat>, s: Forest, p: nat)
    requires Rooted(f0, s) && p < |f0| && f0[p] > 0
    ensures exists r :: 0 <= r < |f0| && s.freq[r] > 0
  {
    assert s.freq[s.own[p]] > 0;
  }

  lemma BuiltRooted(f0: seq<nat>, s: Forest)
    requires Built(f0, s)
    ensures Rooted(f0, s) && Sized(f0, s)
    ensures forall i :: 0 <= i < |f0| && f0[i] == 0 ==> s.size[i] == 0
    ensures exists m: nat :: Fits(f0, s.size, m)
  {
    assert Fits(f0, s.size, Count(f0));
  }

  /** The counts with the pseudo-symbol 256 added. */
  function Counted(freq: seq<nat>): (f0: seq<nat>)
    requires |freq| == SYMBOLS
  {
    freq[256 := 1]
  }

  lemma StartFields(f0: seq<nat>)
    ensures Start(f0).freq == f0 && Start(f0).size == seq(|f0|, i => 0)
  {
  }

  lemma JoinFields(f0: seq<nat>, s: Forest, c1: nat, c2: nat)
    requires Sized(f0, s) && c1 < |f0| && c2 < |f0| && c1 != c2
    ensures Join(f0, s, c1, c2).freq == Merge(s.freq, c1, c2)
    ensures Join(f0, s, c1, c2).size == Lower(f0, s.size, s.own, c1, c2)
  {
  }

  /** Nothing is left to merge. */
  lemma AllMerged(f0: seq<nat>, s: Forest, p: nat, q: nat)
    requires Built(f0, s) && Second(s.freq) < 0
    requires p < |f0| && q < |f0| && p != q && f0[p] > 0 && f0[q] > 0
    ensures Sized(f0, s) && Complete(f0, s.size) && Optimal(f0, s.size)
    ensures forall i :: 0 <= i < |f0| ==> (s.size[i] > 0 <==> f0[i] > 0)
  {
    hide Complete, Optimal, Rooted, Full, Paid, Merge, Merges, Kraft;
    BuiltRooted(f0, s);
    LiveRoot(f0, s, p);
    var c1 := First(s.freq);
    Finished(f0, s, c1);
    var m: nat :| Fits(f0, s.size, m);
    forall i | 0 <= i < |f0| ensures s.size[i] > 0 <==> f0[i] > 0 {
      if f0[i] > 0 {
        NoEmptyWord(f0, s.size, m, i, if i == p then q else p);
      }
    }
  }

  /** "Increment the codesize of everything" in both branches, and chain c2 onto
      c1's. */
  method MergeBranches(codesize: array<nat>, others: array<int>, c1: nat, c2: nat,
                       ghost f0: seq<nat>, ghost s: Forest, ghost chains: seq<seq<nat>>)
    requires codesize.Length == SYMBOLS && others.Length == SYMBOLS && |f0| == SYMBOLS
    requires Chained(others[..], s, f0, chains) && codesize[..] == s.size
    requires c1 < SYMBOLS && c2 < SYMBOLS && c1 != c2 && s.freq[c1] > 0 && s.freq[c2] > 0
    modifies codesize, others
    ensures codesize[..] == Lower(f0, s.size, s.own, c1, c2)
    ensures var ch := chains[c1];
            |ch| > 0 && ch[|ch| - 1] < SYMBOLS && others[..] == old(others[..])[ch[|ch| - 1] := c2]
  {
    ghost var ch1, ch2 := chains[c1], chains[c2];
    assert Chain(others[..], s.own, f0, ch1, c1) && Chain(others[..], s.own, f0, ch2, c2);
    assert ch1[|ch1| - 1] !in ch2;
    var tail := Deepen(codesize, others, c1, s.own, f0, ch1);
    others[tail] := c2;                           // chain c2 onto c1's tree branch
    var end := Deepen(codesize, others, c2, s.own, f0, ch2);
    InBranch(old(others[..]), s.own, f0, ch1, c1);
    InBranch(old(others[..]), s.own, f0, ch2, c2);
  }

  lemma InBranch(others: seq<int>, own: seq<nat>, f0: seq<nat>, ch: seq<nat>, r: nat)
    requires Chain(others, own, f0, ch, r)
    ensures forall i: nat :: i < |f0| ==> (i in ch <==> f0[i] > 0 && own[i] == r)
  {
  }

  /** The two smallest counts, or -1 for the second when everything is merged. */
  method FindTwo(freq: array<nat>, ghost f0: seq<nat>, ghost s: Forest) returns (c1: int, c2: int)
    requires freq.Length == SYMBOLS && freq[..] == s.freq && Built(f0, s) && Sum(f0) <= MAX_COUNT
    ensures c1 == First(s.freq) && c2 == Second(s.freq)
  {
    hide Built, Rooted, Least, Sum;
    BuiltRooted(f0, s);
    forall i | 0 <= i < SYMBOLS ensures freq[i] <= MAX_COUNT {
      CountsBounded(f0, s, i);
      assert s.freq[i] == freq[i];
    }
    c1 := FindLeast(freq, -1);
    c2 := FindLeast(freq, c1);
  }

  /** One round: merge the two smallest counts and their branches. */
  method MergeSmallest(freq: array<nat>, codesize: array<nat>, others: array<int>,
                       ghost f0: seq<nat>, ghost s: Forest, ghost chains: seq<seq<nat>>)
    returns (more: bool, ghost s': Forest, ghost chains': seq<seq<nat>>)
    requires freq.Length == codesize.Length == others.Length == SYMBOLS && freq != codesize
    requires freq[..] == s.freq && codesize[..] == s.size && Sum(f0) <= MAX_COUNT
    requires Built(f0, s) && Chained(others[..], s, f0, chains) && Towards(f0, s)
    modifies freq, codesize, others
    ensures freq[..] == s'.freq && codesize[..] == s'.size
    ensures Built(f0, s') && Chained(others[..], s', f0, chains')
    ensures Towards(f0, s')
    ensures if more then Count(s'.freq) < Count(s.freq) else Second(s'.freq) < 0
  {
    hide Built, Least, Chained, Join, Count, Lower, Sum, Towards;
    var c1, c2 := FindTwo(freq, f0, s);
    if c2 < 0 {
      return false, s, chains;
    }
    MergeCount(s.freq, c1, c2);
    JoinBuilt(f0, s, c1, c2);
    JoinFields(f0, s, c1, c2);
    ChainedSized(others[..], s, f0, chains);
    TowardsJoin(f0, s, c1, c2);
    JoinChains(others[..], s, f0, chains, c1, c2);
    freq[c1] := freq[c1] + freq[c2];
    freq[c2] := 0;
    MergeBranches(codesize, others, c1, c2, f0, s, chains);
    more, s', chains' := true, Join(f0, s, c1, c2), chains[c1 := chains[c1] + chains[c2]];
  }

  lemma ChainedSized(others: seq<int>, s: Forest, f0: seq<nat>, chains: seq<seq<nat>>)
    requires Chained(others, s, f0, chains)
    ensures Sized(f0, s) && |others| == |f0| == |chains|
  {
  }

  /** "Huffman's basic algorithm to assign optimal code lengths to symbols". */
  method CodeSizes(freq: array<nat>) returns (codesize: array<nat>)
    requires freq.Length == SYMBOLS && Sum(Counted(freq[..])) <= MAX_COUNT
    requires exists p :: 0 <= p < 256 && freq[p] > 0
    modifies freq
    ensures fresh(codesize) && codesize.Length == SYMBOLS
    ensures var f0 := Counted(old(freq[..]));
            && codesize[..] == HuffmanSizes(f0)
            && Complete(f0, codesize[..]) && Optimal(f0, codesize[..])
            && forall i :: 0 <= i < SYMBOLS ==> (codesize[i] > 0 <==> f0[i] > 0)
  {
    hide Built, Complete, Optimal, Least, Chained, Join, Start, Rooted, Sum, Count, Lower, Towards;
    codesize := new nat[SYMBOLS](i => 0);
    var others := new int[SYMBOLS](i => -1);
    ghost var p: nat :| p < 256 && freq[p] > 0;
    freq[256] := 1;
    ghost var f0 := freq[..];
    ghost var s := Start(f0);
    ghost var chains: seq<seq<nat>> := seq(SYMBOLS, r requires 0 <= r < |f0| => [r]);
    StartChains(f0);
    StartBuilt(f0);
    assert s.freq == f0 && s.size == seq(SYMBOLS, i => 0) by { StartFields(f0); }
    assert others[..] == seq(|f0|, i => -1);
    TowardsStart(f0);
    var more := true;
    while more
      invariant freq[..] == s.freq && codesize[..] == s.size
      invariant Built(f0, s) && Chained(others[..], s, f0, chains)
      invariant Towards(f0, s)
      invariant more || Second(s.freq) < 0
      decreases more, Count(s.freq)
    {
      more, s, chains := MergeSmallest(freq, codesize, others, f0, s, chains);
    }
    TowardsEnd(f0, s);
    AllMerged(f0, s, p, 256);
  }
}
