/** The arithmetic coder of T.81 sections D.1 and D.2 on unbounded numbers: the
    reference that the registers of the encoder and of the decoder refine.

    An interval (base, a, k) stands for [base, base + a) at a scale of 16 + k
    fractional bits; k counts the doublings made by renormalisation. */
module IntervalCoder {
  import opened Numbers
  import opened ProbabilityTable

  datatype Interval = Interval(base: nat, a: nat, k: nat)

  /** A binary decision: the statistics bin it is coded with and its value. */
  datatype Decision = Decision(bin: nat, val: bit)

  /** How a decision splits an interval: which part is kept, how wide that part
      is, and what becomes of the statistics bin. */
  datatype Choice = Choice(upper: bool, a: nat, sv: byte)

  datatype Outcome = Outcome(val: bit, a: nat, sv: byte)

  /** The encoder's side of the estimation rules (D.1.4, D.1.5). */
  function EncodeChoice(entry: nat, sv: byte, a: nat, val: bit): (ch: Choice)
    requires 1 <= Qe(entry) < 0x8000 <= a
    ensures 0 < ch.a < a
    ensures ch.upper ==> a - Qe(entry) + ch.a == a
    ensures !ch.upper ==> ch.a == a - Qe(entry)
  {
    var qe := Qe(entry);
    var a1 := a - qe;
    if val != Mps(sv) then
      if a1 >= qe then
        Choice(true, qe, Successor(sv, NextLps(entry)))
      else
        Choice(false, a1, Successor(sv, NextLps(entry)))
    else if a1 >= 0x8000 then
      Choice(false, a1, sv)
    else if a1 < qe then
      Choice(true, qe, Successor(sv, NextMps(entry)))
    else
      Choice(false, a1, Successor(sv, NextMps(entry)))
  }

  /** The decoder's side (D.2.4, D.2.5): the part of the interval that holds
      the code determines the decision. */
  function DecodeChoice(entry: nat, sv: byte, a: nat, upper: bool): (o: Outcome)
    requires Qe(entry) < a
  {
    var qe := Qe(entry);
    var a1 := a - qe;
    if upper then
      if a1 < qe then
        Outcome(Mps(sv), qe, Successor(sv, NextMps(entry)))
      else
        Outcome(1 - Mps(sv), qe, Successor(sv, NextLps(entry)))
    else if a1 < 0x8000 then
      if a1 < qe then
        Outcome(1 - Mps(sv), a1, Successor(sv, NextLps(entry)))
      else
        Outcome(Mps(sv), a1, Successor(sv, NextMps(entry)))
    else
      Outcome(Mps(sv), a1, sv)
  }

  /** Both sides agree on the decision, the new interval and the new bin. */
  lemma ChoicesAgree(entry: nat, sv: byte, a: nat, val: bit)
    requires 1 <= Qe(entry) < 0x8000 <= a
    ensures var ch := EncodeChoice(entry, sv, a, val);
            DecodeChoice(entry, sv, a, ch.upper) == Outcome(val, ch.a, ch.sv)
  {
  }

  /** Renormalisation: double until at least half of the full scale. */
  function Norm(i: Interval): (r: Interval)
    requires i.a > 0
    ensures r.a >= 0x8000 && r.k >= i.k
    decreases 0x8000 - i.a
  {
    if i.a >= 0x8000 then i else Norm(Interval(2 * i.base, 2 * i.a, i.k + 1))
  }

  datatype Coder = Coder(i: Interval, stats: seq<byte>)

  ghost predicate ValidCoder(tab: seq<nat>, s: Coder) {
    && ValidTable(tab) && ValidStats(tab, s.stats)
    && s.i.a >= 0x8000
  }

  ghost predicate ValidScript(script: seq<Decision>, bins: nat) {
    forall i :: 0 <= i < |script| ==> script[i].bin < bins
  }

  lemma SuccessorInTable(tab: seq<nat>, sv: byte, next: byte)
    requires next % 128 < |tab|
    ensures Index(Successor(sv, next)) < |tab|
  {
  }

  ghost function ChoiceOf(tab: seq<nat>, s: Coder, d: Decision): (ch: Choice)
    requires ValidCoder(tab, s) && d.bin < |s.stats|
    ensures Index(ch.sv) < |tab|
  {
    var sv := s.stats[d.bin];
    assert GoodEntry(tab[Index(sv)], |tab|);
    EncodeChoice(tab[Index(sv)], sv, s.i.a, d.val)
  }

  /** The interval that a decision keeps, before renormalisation. */
  ghost function Kept(tab: seq<nat>, s: Coder, d: Decision): (r: Interval)
    requires ValidCoder(tab, s) && d.bin < |s.stats|
    ensures 0 < r.a && s.i.base <= r.base && r.base + r.a <= s.i.base + s.i.a && r.k == s.i.k
  {
    var entry := tab[Index(s.stats[d.bin])];
    assert GoodEntry(entry, |tab|);
    var ch := ChoiceOf(tab, s, d);
    Interval(if ch.upper then s.i.base + s.i.a - Qe(entry) else s.i.base, ch.a, s.i.k)
  }

  /** One coded decision. */
  ghost function Step(tab: seq<nat>, s: Coder, d: Decision): (r: Coder)
    requires ValidCoder(tab, s) && d.bin < |s.stats|
    ensures ValidCoder(tab, r) && |r.stats| == |s.stats|
  {
    Coder(Norm(Kept(tab, s, d)), s.stats[d.bin := ChoiceOf(tab, s, d).sv])
  }

  ghost function Run(tab: seq<nat>, s: Coder, script: seq<Decision>): (r: Coder)
    requires ValidCoder(tab, s) && ValidScript(script, |s.stats|)
    ensures ValidCoder(tab, r) && |r.stats| == |s.stats|
    decreases |script|
  {
    if script == [] then s else Run(tab, Step(tab, s, script[0]), script[1..])
  }

  // ---- Moving the base: coding commutes with adding an offset ----

  /** i seen from an interval that started `off` higher and k0 doublings earlier. */
  function Offset(i: Interval, off: nat, k0: nat): (r: Interval) {
    Interval(off * Pow2(i.k) + i.base, i.a, k0 + i.k)
  }

  lemma {:induction false} NormOffset(i: Interval, off: nat, k0: nat)
    requires i.a > 0
    ensures Norm(Offset(i, off, k0)) == Offset(Norm(i), off, k0)
    decreases 0x8000 - i.a
  {
    if i.a < 0x8000 {
      var j := Interval(2 * i.base, 2 * i.a, i.k + 1);
      assert off * Pow2(i.k + 1) == 2 * (off * Pow2(i.k));
      NormOffset(j, off, k0);
    }
  }

  lemma StepOffset(tab: seq<nat>, s: Coder, d: Decision, off: nat, k0: nat)
    requires ValidCoder(tab, s) && d.bin < |s.stats|
    ensures var r := Step(tab, s, d);
            Step(tab, Coder(Offset(s.i, off, k0), s.stats), d) == Coder(Offset(r.i, off, k0), r.stats)
  {
    NormOffset(Kept(tab, s, d), off, k0);
  }

  lemma {:induction false} RunOffset(tab: seq<nat>, s: Coder, script: seq<Decision>, off: nat, k0: nat)
    requires ValidCoder(tab, s) && ValidScript(script, |s.stats|)
    ensures var r := Run(tab, s, script);
            Run(tab, Coder(Offset(s.i, off, k0), s.stats), script) == Coder(Offset(r.i, off, k0), r.stats)
    decreases |script|
  {
    if script != [] {
      StepOffset(tab, s, script[0], off, k0);
      RunOffset(tab, Step(tab, s, script[0]), script[1..], off, k0);
    }
  }

  // ---- Nesting: a code for a later interval is a code for every earlier one ----

  /** The number w, written with 16 + n fractional bits, lies in i. */
  ghost predicate In(i: Interval, w: int, n: nat) {
    && n >= i.k
    && i.base * Pow2(n - i.k) <= w < (i.base + i.a) * Pow2(n - i.k)
  }

  lemma {:induction false} InNorm(i: Interval, w: int, n: nat)
    requires i.a > 0 && In(Norm(i), w, n)
    ensures In(i, w, n)
    decreases 0x8000 - i.a
  {
    if i.a < 0x8000 {
      InNorm(Interval(2 * i.base, 2 * i.a, i.k + 1), w, n);
      var p := Pow2(n - i.k - 1);
      MulTwo(i.base, p);
      MulTwo(i.base + i.a, p);
    }
  }

  lemma InStep(tab: seq<nat>, s: Coder, d: Decision, w: int, n: nat)
    requires ValidCoder(tab, s) && d.bin < |s.stats|
    requires In(Step(tab, s, d).i, w, n)
    ensures In(Kept(tab, s, d), w, n) && In(s.i, w, n)
  {
    var r := Kept(tab, s, d);
    InNorm(r, w, n);
    var p := Pow2(n - s.i.k);
    MulMono(s.i.base, r.base, p);
    MulMono(r.base + r.a, s.i.base + s.i.a, p);
  }

  lemma {:induction false} InRun(tab: seq<nat>, s: Coder, script: seq<Decision>, w: int, n: nat)
    requires ValidCoder(tab, s) && ValidScript(script, |s.stats|)
    requires In(Run(tab, s, script).i, w, n)
    ensures In(s.i, w, n)
    decreases |script|
  {
    if script != [] {
      InRun(tab, Step(tab, s, script[0]), script[1..], w, n);
      InStep(tab, s, script[0], w, n);
    }
  }
}
