/** The registers of arith_decode (jdarith.c): one register C that holds the code
    relative to the interval base together with ct unread bits, with a floating
    cut between the two; and the proof that they follow the unbounded coder. */
module DecoderRegisters {
  import opened Numbers
  import opened ProbabilityTable
  import opened IntervalCoder
  import opened ByteSource

  datatype Regs = Regs(c: nat, a: nat, ct: int, src: Source)

  /** start_pass and process_restart: force reading two initial bytes. */
  function Start(src: Source): Regs { Regs(0, 0, -16, src) }

  /** a == 0 only while the two initial bytes are being read; afterwards the code
      lies inside the current interval. */
  ghost predicate Valid(d: Regs) {
    if d.a == 0 then (d.ct == -16 && d.c == 0) || (d.ct == -8 && d.c < 256)
    else 0 <= d.ct <= 7 && d.a <= 0x10000 && d.c < d.a * Pow2(d.ct)
  }

  lemma StartValid(src: Source)
    ensures Valid(Start(src))
  {
  }

  /** One round of the renormalisation loop. */
  function Shift(d: Regs): (r: Regs)
    ensures d.a > 0 && d.ct >= 0 ==> r.a == 2 * d.a && r.ct >= 0
  {
    var ct := d.ct - 1;
    if ct >= 0 then d.(a := 2 * d.a, ct := ct)
    else
      var f := NextByte(d.src);
      var c := 256 * d.c + f.b;
      if ct + 8 >= 0 then Regs(c, 2 * d.a, ct + 8, f.src)
      else Regs(c, 2 * (if ct + 9 == 0 then 0x8000 else d.a), ct + 9, f.src)
  }

  lemma ShiftValid(d: Regs)
    requires Valid(d) && d.a < 0x8000
    ensures Valid(Shift(d))
    ensures d.a == 0 ==> Shift(d).ct == d.ct + 8 && (d.ct == -8 ==> Shift(d).a == 0x10000)
  {
    if d.a == 0 {
      assert Pow2(0) == 1;
    } else if d.ct > 0 {
      Pow2Twice(d.ct - 1);
      MulTwo(d.a, Pow2(d.ct - 1));
    } else {
      assert Pow2(0) == 1;
      Pow2Add(7, 1);
      assert Pow2(8) == 256;
      assert Pow2(7) == 128;
    }
  }

  /** The renormalisation loop. */
  function Renorm(d: Regs): (r: Regs)
    requires d.a == 0 ==> d.ct == -16 || d.ct == -8
    requires d.a > 0 ==> d.ct >= 0
    ensures r.a >= 0x8000 && r.ct >= 0
    decreases d.a == 0, if d.a == 0 then -d.ct else 0x8000 - d.a
  {
    if d.a >= 0x8000 then d else Renorm(Shift(d))
  }

  lemma {:induction false} RenormValid(d: Regs)
    requires Valid(d)
    ensures Valid(Renorm(d)) && NextMarker(Renorm(d).src) == NextMarker(d.src)
    decreases d.a == 0, if d.a == 0 then -d.ct else 0x8000 - d.a
  {
    if d.a < 0x8000 {
      ShiftValid(d);
      NextByteKeepsMarker(d.src);
      RenormValid(Shift(d));
    }
  }

  datatype State = State(d: Regs, stats: seq<byte>)

  ghost predicate ValidState(tab: seq<nat>, s: State) {
    ValidTable(tab) && ValidStats(tab, s.stats) && Valid(s.d)
  }

  datatype Result = Result(val: bit, s: State)

  /** The comparison and the estimation, once the registers are renormalised. */
  ghost function Decide(tab: seq<nat>, s: State, bin: nat): (r: Result)
    requires ValidTable(tab) && ValidStats(tab, s.stats) && bin < |s.stats|
    requires s.d.a >= 0x8000 && s.d.ct >= 0
    ensures |r.s.stats| == |s.stats| && r.s.d.src == s.d.src
  {
    var sv := s.stats[bin];
    var entry := tab[Index(sv)];
    assert GoodEntry(entry, |tab|);
    var temp := (s.d.a - Qe(entry)) * Pow2(s.d.ct);
    var upper := s.d.c >= temp;
    var o := DecodeChoice(entry, sv, s.d.a, upper);
    var c := if upper then s.d.c - temp else s.d.c;
    Result(o.val, State(s.d.(c := c, a := o.a), s.stats[bin := o.sv]))
  }

  lemma OutcomeBasics(tab: seq<nat>, sv: byte, a: nat, upper: bool)
    requires ValidTable(tab) && Index(sv) < |tab| && a >= 0x8000
    ensures GoodEntry(tab[Index(sv)], |tab|)
    ensures var entry := tab[Index(sv)];
            var o := DecodeChoice(entry, sv, a, upper);
            Index(o.sv) < |tab| && o.a == if upper then Qe(entry) else a - Qe(entry)
  {
    var entry := tab[Index(sv)];
    assert GoodEntry(entry, |tab|);
    SuccessorInTable(tab, sv, NextLps(entry));
    SuccessorInTable(tab, sv, NextMps(entry));
  }

  lemma DecideValid(tab: seq<nat>, s: State, bin: nat)
    requires ValidState(tab, s) && bin < |s.stats| && s.d.a >= 0x8000
    ensures var r := Decide(tab, s, bin).s;
            ValidState(tab, r) && r.d.a > 0 && r.d.ct == s.d.ct
  {
    hide DecodeChoice, Successor, Qe, NextLps, NextMps, ValidTable, Pow2;
    var sv := s.stats[bin];
    OutcomeBasics(tab, sv, s.d.a, true);
    OutcomeBasics(tab, sv, s.d.a, false);
    var qe := Qe(tab[Index(sv)]);
    Distribute(s.d.a - qe, qe, Pow2(s.d.ct));
  }

  /** arith_decode. For any input at all the registers stay valid, the bins stay
      in the table, and the marker ahead is not overrun. */
  ghost function Decode(tab: seq<nat>, s: State, bin: nat): (r: Result)
    requires ValidState(tab, s) && bin < |s.stats|
    ensures ValidState(tab, r.s) && |r.s.stats| == |s.stats| && r.s.d.a > 0
    ensures NextMarker(r.s.d.src) == NextMarker(s.d.src)
  {
    RenormValid(s.d);
    DecideValid(tab, State(Renorm(s.d), s.stats), bin);
    Decide(tab, State(Renorm(s.d), s.stats), bin)
  }

  // ---- Following the unbounded coder ----

  function Fresh(a: nat): (r: Interval)
    requires a > 0
    ensures r.a >= 0x8000
  {
    Norm(Interval(0, a, 0))
  }

  /** The code ahead lies in the interval that `script` leads to from here. */
  ghost predicate Tracks(tab: seq<nat>, s: State, script: seq<Decision>) {
    && ValidState(tab, s) && s.d.a > 0 && ValidScript(script, |s.stats|)
    && var r := Run(tab, Coder(Fresh(s.d.a), s.stats), script);
       forall j: nat :: s.d.ct + 8 * j >= r.i.k ==> In(r.i, Ahead(s.d.c, s.d.src, j), s.d.ct + 8 * j)
  }

  /** The statistics bins at the end of `script`, on the encoder's side. */
  ghost function EndStats(tab: seq<nat>, s: State, script: seq<Decision>): seq<byte>
    requires ValidTable(tab) && ValidStats(tab, s.stats) && ValidScript(script, |s.stats|) && s.d.a > 0
  {
    Run(tab, Coder(Fresh(s.d.a), s.stats), script).stats
  }

  /** The decoder is about to decode exactly the decisions of `script`. */
  ghost predicate Synced(tab: seq<nat>, s: State, script: seq<Decision>) {
    ValidState(tab, s) && Tracks(tab, State(Renorm(s.d), s.stats), script)
  }

  lemma FreshDouble(a: nat)
    requires 0 < a < 0x8000
    ensures Fresh(a) == Offset(Fresh(2 * a), 0, 1)
  {
    NormOffset(Interval(0, 2 * a, 0), 0, 1);
  }

  lemma InOffsetZero(i: Interval, w: int, n: nat)
    requires n >= 1 && In(Offset(i, 0, 1), w, n)
    ensures In(i, w, n - 1)
  {
  }

  lemma InUnderOffset(i: Interval, off: nat, w: int, n: nat)
    requires In(Offset(i, off, 0), w + off * Pow2(n), n)
    ensures In(i, w, n)
  {
    Pow2Add(i.k, n - i.k);
    UnderOffset(i.base, off, Pow2(i.k), Pow2(n - i.k));
    UnderOffset(i.base + i.a, off, Pow2(i.k), Pow2(n - i.k));
  }

  lemma UnderOffset(x: int, off: int, p: int, q: int)
    ensures (off * p + x) * q == off * (p * q) + x * q
  {
    Distribute(off * p, x, q);
    MulAssoc(off, p, q);
  }

  /** Reading ahead of a shifted register is reading ahead of the old one. */
  lemma ShiftAhead(d: Regs, j: nat)
    requires Valid(d) && 0 < d.a < 0x8000
    ensures var r := Shift(d);
            var m: nat := if d.ct > 0 then j else j + 1;
            Ahead(r.c, r.src, j) == Ahead(d.c, d.src, m) && r.ct + 8 * j + 1 == d.ct + 8 * m
  {
  }

  lemma ShiftTracks(tab: seq<nat>, s: State, script: seq<Decision>)
    requires Tracks(tab, s, script) && s.d.a < 0x8000
    ensures Tracks(tab, State(Shift(s.d), s.stats), script)
    ensures EndStats(tab, State(Shift(s.d), s.stats), script) == EndStats(tab, s, script)
  {
    hide Valid, Shift, Ahead, In, Offset, Norm;
    var d' := Shift(s.d);
    ShiftValid(s.d);
    FreshDouble(s.d.a);
    assert d'.a == 2 * s.d.a by { ShiftWidth(s.d); }
    var g' := Coder(Fresh(d'.a), s.stats);
    var g := Coder(Fresh(s.d.a), s.stats);
    var r' := Run(tab, g', script).i;
    RunOffset(tab, g', script, 0, 1);
    var r := Run(tab, g, script).i;
    assert r == Offset(r', 0, 1);
    assert r.k == r'.k + 1 by { OffsetScale(r', 0, 1); }
    forall j: nat | d'.ct + 8 * j >= r'.k
      ensures In(r', Ahead(d'.c, d'.src, j), d'.ct + 8 * j)
    {
      ShiftAhead(s.d, j);
      var m: nat := if s.d.ct > 0 then j else j + 1;
      assert In(r, Ahead(s.d.c, s.d.src, m), s.d.ct + 8 * m);
      InOffsetZero(r', Ahead(d'.c, d'.src, j), s.d.ct + 8 * m);
    }
  }

  lemma ShiftWidth(d: Regs)
    requires Valid(d) && d.a > 0
    ensures Shift(d).a == 2 * d.a && Shift(d).ct >= 0 && d.ct >= 0
  {
  }

  lemma OffsetScale(i: Interval, off: nat, k0: nat)
    ensures Offset(i, off, k0).k == k0 + i.k
  {
  }

  lemma {:induction false} RenormTracks(tab: seq<nat>, s: State, script: seq<Decision>)
    requires Tracks(tab, s, script)
    ensures Synced(tab, s, script)
    ensures EndStats(tab, State(Renorm(s.d), s.stats), script) == EndStats(tab, s, script)
    decreases 0x8000 - s.d.a
  {
    hide Valid, Tracks;
    TracksBasics(tab, s, script);
    if s.d.a < 0x8000 {
      ShiftTracks(tab, s, script);
      ShiftWidth(s.d);
      RenormTracks(tab, State(Shift(s.d), s.stats), script);
    }
  }

  lemma TracksBasics(tab: seq<nat>, s: State, script: seq<Decision>)
    requires Tracks(tab, s, script)
    ensures ValidState(tab, s) && s.d.a > 0 && s.d.ct >= 0 && ValidScript(script, |s.stats|)
  {
  }

  // ---- One decision ----

  lemma DropByte(x: int, y: int, p: int, w: int, w1: int)
    requires x * (256 * p) <= w1 < y * (256 * p) && 256 * w <= w1 < 256 * w + 256
    ensures x * p <= w < y * p
  {
    MulByteShift(x, p);
    MulByteShift(y, p);
  }

  /** If the code extended by whole bytes lies in i, so does the code itself. */
  lemma {:induction false} InPrefix(i: Interval, c: nat, src: Source, ct: nat, j: nat)
    requires i.k <= ct && In(i, Ahead(c, src, j), ct + 8 * j)
    ensures In(i, c, ct)
    decreases j
  {
    if j > 0 {
      AheadMore(c, src, j - 1);
      var n := ct + 8 * (j - 1);
      Pow2Add8(n - i.k);
      DropByte(i.base, i.base + i.a, Pow2(n - i.k), Ahead(c, src, j - 1), Ahead(c, src, j));
      InPrefix(i, c, src, ct, j - 1);
    }
  }

  /** The code lies in the part of the interval that the decision kept. */
  lemma CodeInKept(tab: seq<nat>, s: State, script: seq<Decision>)
    requires Tracks(tab, s, script) && script != [] && s.d.a >= 0x8000
    ensures var g := Coder(Interval(0, s.d.a, 0), s.stats);
            && ValidCoder(tab, g)
            && In(Kept(tab, g, script[0]), s.d.c, s.d.ct)
  {
    hide Ahead, In, Kept;
    var g := Coder(Interval(0, s.d.a, 0), s.stats);
    assert Fresh(s.d.a) == g.i;
    var r := Run(tab, g, script).i;
    var j := r.k;
    assert In(r, Ahead(s.d.c, s.d.src, j), s.d.ct + 8 * j);
    InRun(tab, Step(tab, g, script[0]), script[1..], Ahead(s.d.c, s.d.src, j), s.d.ct + 8 * j);
    InStep(tab, g, script[0], Ahead(s.d.c, s.d.src, j), s.d.ct + 8 * j);
    KeptScale(tab, g, script[0]);
    InPrefix(Kept(tab, g, script[0]), s.d.c, s.d.src, s.d.ct, j);
  }

  lemma KeptScale(tab: seq<nat>, g: Coder, x: Decision)
    requires ValidCoder(tab, g) && x.bin < |g.stats|
    ensures Kept(tab, g, x).k == g.i.k
  {
  }

  /** So the comparison of arith_decode finds the decision that was encoded. */
  lemma DecideFinds(tab: seq<nat>, s: State, script: seq<Decision>)
    requires Tracks(tab, s, script) && script != [] && s.d.a >= 0x8000
    ensures var g := Coder(Interval(0, s.d.a, 0), s.stats);
            && ValidCoder(tab, g)
            && var kept := Kept(tab, g, script[0]);
            && var r := Decide(tab, s, script[0].bin);
            && r.val == script[0].val
            && r.s.stats == Step(tab, g, script[0]).stats
            && r.s.d.a == kept.a && r.s.d.ct == s.d.ct && r.s.d.src == s.d.src
            && s.d.c == r.s.d.c + kept.base * Pow2(s.d.ct)
  {
    hide Pow2, Ahead, Run, Norm, Successor, NextLps, NextMps, NextByte;
    CodeInKept(tab, s, script);
    var g := Coder(Interval(0, s.d.a, 0), s.stats);
    var x := script[0];
    var sv := s.stats[x.bin];
    var entry := tab[Index(sv)];
    assert GoodEntry(entry, |tab|);
    ChoicesAgree(entry, sv, s.d.a, x.val);
  }

  /** The run from the kept part, seen from the new position of C. */
  lemma RunFromKept(tab: seq<nat>, s: State, script: seq<Decision>, a: nat, stats: seq<byte>, base: nat)
    requires ValidTable(tab) && ValidStats(tab, s.stats) && s.d.a >= 0x8000
    requires script != [] && ValidScript(script, |s.stats|)
    requires var g := Coder(Interval(0, s.d.a, 0), s.stats);
             && Kept(tab, g, script[0]) == Interval(base, a, 0)
             && stats == Step(tab, g, script[0]).stats
    ensures ValidStats(tab, stats) && a > 0 && |stats| == |s.stats|
    ensures var r' := Run(tab, Coder(Fresh(a), stats), script[1..]);
            Run(tab, Coder(Fresh(s.d.a), s.stats), script) == Coder(Offset(r'.i, base, 0), r'.stats)
  {
    hide Kept, Norm, Offset, ChoiceOf;
    var g := Coder(Interval(0, s.d.a, 0), s.stats);
    assert Fresh(s.d.a) == g.i by { NormDone(g.i); }
    KeptFresh(Interval(base, a, 0));
    RunOffset(tab, Coder(Fresh(a), stats), script[1..], base, 0);
  }

  lemma DecideTracks(tab: seq<nat>, s: State, script: seq<Decision>)
    requires Tracks(tab, s, script) && script != [] && s.d.a >= 0x8000
    ensures s.d.ct >= 0
    ensures var r := Decide(tab, s, script[0].bin);
            && r.val == script[0].val && Tracks(tab, r.s, script[1..])
            && EndStats(tab, r.s, script[1..]) == EndStats(tab, s, script)
  {
    hide Valid, Ahead, In, Kept, Offset, Norm, Decide, Run, Fresh, Step;
    ShiftWidth(s.d);
    DecideFinds(tab, s, script);
    DecideValid(tab, s, script[0].bin);
    var g := Coder(Interval(0, s.d.a, 0), s.stats);
    var kept := Kept(tab, g, script[0]);
    KeptScale(tab, g, script[0]);
    var s' := Decide(tab, s, script[0].bin).s;
    RunFromKept(tab, s, script, kept.a, s'.stats, kept.base);
    var r' := Run(tab, Coder(Fresh(s'.d.a), s'.stats), script[1..]).i;
    var r := Run(tab, Coder(Fresh(s.d.a), s.stats), script).i;
    OffsetScale(r', kept.base, 0);
    forall j: nat | s'.d.ct + 8 * j >= r'.k
      ensures In(r', Ahead(s'.d.c, s'.d.src, j), s'.d.ct + 8 * j)
    {
      assert In(r, Ahead(s.d.c, s.d.src, j), s.d.ct + 8 * j);
      AheadUnderOffset(s'.d.c, kept.base, s.d.src, s.d.ct, j);
      InUnderOffset(r', kept.base, Ahead(s'.d.c, s.d.src, j), s.d.ct + 8 * j);
    }
  }

  lemma NormDone(i: Interval)
    requires i.a >= 0x8000
    ensures Norm(i) == i
  {
  }

  lemma KeptFresh(kept: Interval)
    requires kept.a > 0 && kept.k == 0
    ensures Norm(kept) == Offset(Fresh(kept.a), kept.base, 0)
  {
    NormOffset(Interval(0, kept.a, 0), kept.base, 0);
    assert Pow2(0) == 1;
  }

  lemma AheadUnderOffset(c: nat, off: nat, src: Source, ct: nat, j: nat)
    ensures Ahead(c + off * Pow2(ct), src, j) == Ahead(c, src, j) + off * Pow2(ct + 8 * j)
  {
    AheadOffset(c, off * Pow2(ct), src, j);
    Pow2Add(ct, 8 * j);
    MulAssoc(off, Pow2(ct), Pow2(8 * j));
  }

  lemma SyncedBasics(tab: seq<nat>, s: State, script: seq<Decision>)
    requires Synced(tab, s, script)
    ensures ValidState(tab, s) && ValidScript(script, |s.stats|)
    ensures Renorm(s.d).a >= 0x8000 && Renorm(s.d).ct >= 0
  {
  }

  /** EndStats before the pending renormalisation. */
  ghost function EndOf(tab: seq<nat>, s: State, script: seq<Decision>): seq<byte>
    requires Synced(tab, s, script)
  {
    SyncedBasics(tab, s, script);
    EndStats(tab, State(Renorm(s.d), s.stats), script)
  }

  /** arith_decode returns the decision that was encoded and is then ready for
      the ones that follow it. */
  lemma DecodeSynced(tab: seq<nat>, s: State, script: seq<Decision>)
    requires Synced(tab, s, script) && script != []
    ensures script[0].bin < |s.stats|
    ensures var r := Decode(tab, s, script[0].bin);
            && r.val == script[0].val && Synced(tab, r.s, script[1..])
            && EndOf(tab, r.s, script[1..]) == EndOf(tab, s, script)
  {
    hide Tracks, Decide, Renorm;
    var n := State(Renorm(s.d), s.stats);
    SyncedBasics(tab, s, script);
    DecideTracks(tab, n, script);
    RenormTracks(tab, Decide(tab, n, script[0].bin).s, script[1..]);
  }
}
