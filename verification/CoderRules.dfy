/** What one decision does, in terms of the rows of Table D.2 and of the two parts of
    the interval: the rules of T.81 sections D.1.4 to D.1.8 that both coders obey. */
module CoderRules {
  import opened Numbers
  import opened ProbabilityTable
  import opened IntervalCoder
  import Enc = EncoderRegisters
  import Dec = DecoderRegisters

  // ---- The statistics ----

  /** A bin after a decision whose value was (or was not) the more probable one, when the
      part for that value was narrower (or not) than half of the full scale: the row of its
      state says where it goes, and only the less probable value can exchange the sense. */
  predicate Moves(was: byte, now: byte, mps: bool, narrow: bool, nextLps: nat, nextMps: nat, switchMps: nat) {
    if !mps then now % 128 == nextLps && (now / 128 != was / 128 <==> switchMps == 1)
    else if narrow then now % 128 == nextMps && now / 128 == was / 128
    else now == was
  }

  ghost predicate OnlyBin(before: seq<byte>, after: seq<byte>, bin: nat) {
    |after| == |before| && forall i :: 0 <= i < |before| && i != bin ==> after[i] == before[i]
  }

  lemma UnpackRow(qe: nat, nextLps: nat, nextMps: nat, switchMps: nat)
    requires nextLps < 128 && nextMps < 128 && switchMps <= 1
    ensures var e := Pack(qe, nextLps, nextMps, switchMps);
            Qe(e) == qe && NextMps(e) == nextMps && NextLps(e) == 128 * switchMps + nextLps
  {
    Unpack(qe, nextLps, nextMps, switchMps);
  }

  /** The two low bytes of a row, put into a bin. */
  lemma SuccessorIs(sv: byte, next: byte)
    ensures Successor(sv, next) % 128 == next % 128
    ensures Successor(sv, next) / 128 != sv / 128 <==> next / 128 == 1
  {
  }

  lemma ChoiceMoves(entry: nat, sv: byte, a: nat, val: bit, nextLps: nat, nextMps: nat, switchMps: nat)
    requires 1 <= Qe(entry) < 0x8000 <= a && nextLps < 128 && nextMps < 128 && switchMps <= 1
    requires NextMps(entry) == nextMps && NextLps(entry) == 128 * switchMps + nextLps
    ensures Moves(sv, EncodeChoice(entry, sv, a, val).sv, val == sv / 128, a - Qe(entry) < 0x8000,
                  nextLps, nextMps, switchMps)
  {
    SuccessorIs(sv, NextLps(entry));
    SuccessorIs(sv, NextMps(entry));
    hide Successor, NextLps, NextMps, Qe;
  }

  lemma OutcomeMoves(entry: nat, sv: byte, a: nat, upper: bool, nextLps: nat, nextMps: nat, switchMps: nat)
    requires 1 <= Qe(entry) < 0x8000 <= a && nextLps < 128 && nextMps < 128 && switchMps <= 1
    requires NextMps(entry) == nextMps && NextLps(entry) == 128 * switchMps + nextLps
    ensures var o := DecodeChoice(entry, sv, a, upper);
            Moves(sv, o.sv, o.val == sv / 128, a - Qe(entry) < 0x8000, nextLps, nextMps, switchMps)
  {
    SuccessorIs(sv, NextLps(entry));
    SuccessorIs(sv, NextMps(entry));
    hide Successor, NextLps, NextMps, Qe;
  }

  /** The row of a bin. */
  ghost predicate RowOf(tab: seq<nat>, stats: seq<byte>, bin: nat, qe: nat, nextLps: nat, nextMps: nat,
                        switchMps: nat) {
    && bin < |stats| && nextLps < 128 && nextMps < 128 && switchMps <= 1
    && stats[bin] % 128 < |tab| && tab[stats[bin] % 128] == Pack(qe, nextLps, nextMps, switchMps)
  }

  /** arith_encode. */
  lemma EncodeMoves(tab: seq<nat>, s: Enc.State, d: Decision, qe: nat, nextLps: nat, nextMps: nat, switchMps: nat)
    requires Enc.ValidState(tab, s) && RowOf(tab, s.stats, d.bin, qe, nextLps, nextMps, switchMps)
    ensures var sv, r := s.stats[d.bin], Enc.Encode(tab, s, d);
            && OnlyBin(s.stats, r.stats, d.bin)
            && Moves(sv, r.stats[d.bin], d.val == sv / 128, s.e.a - qe < 0x8000, nextLps, nextMps, switchMps)
  {
    UnpackRow(qe, nextLps, nextMps, switchMps);
    hide Pack, Qe, NextLps, NextMps, Enc.Renorm, EncodeChoice, Moves;
    var entry := tab[s.stats[d.bin] % 128];
    assert GoodEntry(entry, |tab|);
    ChoiceMoves(entry, s.stats[d.bin], s.e.a, d.val, nextLps, nextMps, switchMps);
  }

  /** arith_decode, for any input; A is what it is once renormalised. */
  lemma DecodeMoves(tab: seq<nat>, s: Dec.State, bin: nat, qe: nat, nextLps: nat, nextMps: nat, switchMps: nat)
    requires Dec.ValidState(tab, s) && RowOf(tab, s.stats, bin, qe, nextLps, nextMps, switchMps)
    ensures var sv, r := s.stats[bin], Dec.Decode(tab, s, bin);
            && OnlyBin(s.stats, r.s.stats, bin)
            && Moves(sv, r.s.stats[bin], r.val == sv / 128, Dec.Renorm(s.d).a - qe < 0x8000, nextLps, nextMps,
                     switchMps)
  {
    UnpackRow(qe, nextLps, nextMps, switchMps);
    Dec.RenormValid(s.d);
    hide Pack, Qe, NextLps, NextMps, Dec.Renorm, DecodeChoice, Moves, Pow2, Dec.Valid;
    var entry, e := tab[s.stats[bin] % 128], Dec.Renorm(s.d);
    assert GoodEntry(entry, |tab|);
    OutcomeMoves(entry, s.stats[bin], e.a, true, nextLps, nextMps, switchMps);
    OutcomeMoves(entry, s.stats[bin], e.a, false, nextLps, nextMps, switchMps);
  }

  // ---- The interval ----

  /** The upper part has the width Qe. The more probable value never has the narrower
      part, and has the lower one unless the parts were exchanged for that reason. */
  lemma PartsOfInterval(entry: nat, sv: byte, a: nat)
    requires 1 <= Qe(entry) < 0x8000 <= a
    ensures var m := EncodeChoice(entry, sv, a, sv / 128);
            var l := EncodeChoice(entry, sv, a, 1 - sv / 128);
            && m.upper != l.upper && m.a + l.a == a && m.a >= l.a
            && (if m.upper then m.a else l.a) == Qe(entry)
            && (m.upper ==> m.a > l.a)
  {
    hide Successor, NextLps, NextMps;
  }

  /** The code that ends a segment: no number in the interval has more trailing zero
      bits. */
  lemma EndsWithZeros(c: nat, a: nat, x: nat, n: nat)
    requires 0x8000 <= a <= 0x10000 && c <= x < c + a && x % Pow2(n) == 0
    ensures c <= Enc.FinalC(c, a) < c + a && Enc.FinalC(c, a) % Pow2(n) == 0
  {
    var y := Enc.FinalCInside(c, a);
    hide Enc.FinalC, Pow2;
    if n <= 15 {
      LowPower(n);
      MultipleOf(y, Pow2(15 - n), Pow2(n));
    } else {
      HighPower(n);
      var q := Factor(x, Pow2(n));
      OneMultiple(c, a, x, q, Pow2(n - 16));
    }
  }

  lemma LowPower(n: nat)
    requires n <= 15
    ensures Pow2(15 - n) * Pow2(n) == 0x8000
  {
    Pow2Values();
    Pow2Twice(15);
    Pow2Add(15 - n, n);
  }

  lemma HighPower(n: nat)
    requires n >= 16
    ensures Pow2(n) == 0x10000 * Pow2(n - 16)
  {
    Pow2Values();
    Pow2Add(16, n - 16);
  }

  lemma Factor(x: nat, p: nat) returns (q: nat)
    requires p > 0 && x % p == 0
    ensures x == q * p
  {
    q := x / p;
  }

  lemma MultipleOf(y: nat, q: nat, p: nat)
    requires p > 0
    ensures y * (q * p) % p == 0
  {
    DivModUnique(y * (q * p), p, y * q, 0);
  }

  /** At most one multiple of 0x10000 lies in the interval. */
  lemma OneMultiple(c: nat, a: nat, x: nat, q: nat, p: nat)
    requires a <= 0x10000 && c <= x < c + a && x == q * (0x10000 * p)
    ensures Enc.FinalC(c, a) == x
  {
    var k, t := q * p, (c + a - 1) / 0x10000;
    assert x == k * 0x10000;
    assert k <= t;
  }
}
