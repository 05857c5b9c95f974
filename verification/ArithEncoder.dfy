/** The arithmetic entropy encoder object of jcarith.c. */
module ArithEncoder {
  import opened Numbers
  import opened ProbabilityTable
  import opened IntervalCoder
  import opened ByteSource
  import opened Binarisation
  import opened AcBand
  import opened McuCoding
  import opened ScriptBins
  import opened ScanCoding
  import opened StatisticsAreas
  import Enc = EncoderRegisters

  lemma RepeatNone(start: seq<byte>, b: byte)
    ensures start + Repeat(b, 0) == start
  {
  }

  lemma RepeatMore(start: seq<byte>, b: byte, n: nat)
    ensures start + Repeat(b, n) + [b] == start + Repeat(b, n + 1)
  {
    RepeatSnoc(b, n + 1);
  }

  class Encoder {
    const tab: seq<nat>
    const scan: Scan
    const interval: nat          // cinfo->restart_interval

    var c: nat                   // base of the coding interval
    var a: nat                   // normalized size of the coding interval
    var sc: nat                  // stacked 0xFF values which might overflow
    var zc: nat                  // pending 0x00 values which might be discarded
    var ct: nat                  // bit shift counter
    var buffer: int              // most recent output byte != 0xFF, or -1
    var out: seq<byte>           // everything written to the destination

    const stats: array<byte>     // the statistics areas and the fixed bin
    const lastDc: array<int>     // last_dc_val
    const context: array<nat>    // dc_context
    var restartsToGo: nat
    var nextRestartNum: nat

    ghost var head: seq<byte>    // the finished segments
    ghost var done: seq<byte>    // what the current segment has written, unstuffed
    ghost var g: Coder           // the unbounded coder that the registers refine

    ghost function Regs(): Enc.Regs
      reads this
    {
      Enc.Regs(c, a, sc, zc, ct, buffer, done)
    }

    ghost function State(): Enc.State
      reads this, stats
    {
      Enc.State(Regs(), stats[..])
    }

    ghost function View(): EncScan
      reads this, stats, lastDc, context
    {
      EncScan(State(), Pred(lastDc[..], context[..]), head, restartsToGo, nextRestartNum)
    }

    ghost predicate Shape()
      reads this
    {
      && stats.Length == BINS && lastDc.Length == |scan.dcTbl| && context.Length == |scan.dcTbl|
      && out == head + Stuff(done)
    }

    /** The registers denote the interval of the unbounded coder, and what has been
        written is the stuffed form of the bytes they have let go. */
    ghost predicate Valid()
      reads this, stats, lastDc, context
    {
      && Shape() && |tab| > 0
      && Enc.Refines(tab, State(), g)
      && GoodScan(scan) && GoodPred(scan, View().p) && nextRestartNum < 8
    }

    /** jinit_arith_encoder: the areas are zeroed and the fixed bin is set. */
    constructor (tab: seq<nat>, scan: Scan, interval: nat)
      ensures this.tab == tab && this.scan == scan && this.interval == interval && out == []
      ensures fresh(stats) && fresh(lastDc) && fresh(context)
      ensures stats[..] == InitialStats() && Pred(lastDc[..], context[..]) == ZeroPred(scan)
    {
      this.tab, this.scan, this.interval := tab, scan, interval;
      stats := new byte[BINS](i => if i == FIXED_BIN then FIXED_STATE else 0);
      lastDc := new int[|scan.dcTbl|](i => 0);
      context := new nat[|scan.dcTbl|](i => 0);
      c, a, sc, zc, ct, buffer := 0, 0, 0, 0, 0, -1;
      out, head, done := [], [], [];
      restartsToGo, nextRestartNum := 0, 0;
      new;
      assert stats[..] == InitialStats();
    }

    /** start_pass: the first segment begins where the output stands. */
    method StartPass()
      requires ValidTable(tab) && |tab| > 0 && ValidStats(tab, stats[..]) && stats.Length == BINS
      requires GoodScan(scan) && GoodPred(scan, Pred(lastDc[..], context[..]))
      modifies this, stats, lastDc, context
      ensures Valid() && out == old(out)
      ensures View() == StartEncoder(tab, scan, interval, old(stats[..]), old(Pred(lastDc[..], context[..])))
                        .(out := out)
    {
      hide Stuff, Enc.Refines, ResetStats, ResetPred;
      StartSegment();
      restartsToGo := interval;
      nextRestartNum := 0;
    }

    // ---- Output ----

    method EmitByte(val: int)
      modifies this`out
      ensures out == old(out) + [(val % 256) as byte]
    {
      out := out + [val % 256];
    }

    /** if (e->zc) do emit_byte(0x00, cinfo); while (--e->zc); */
    method EmitZeros()
      requires out == head + Stuff(done)
      modifies this`out, this`zc, this`done
      ensures out == head + Stuff(done)
      ensures zc == 0 && done == old(done) + Repeat(0, old(zc))
    {
      hide Stuff, Repeat;
      ghost var n, start := zc, done;
      assert start == start + Repeat(0, 0) by { RepeatNone(start, 0); }
      while zc > 0
        invariant zc <= n && out == head + Stuff(done) && done == start + Repeat(0, n - zc)
      {
        StuffSnoc(head, done, 0);
        RepeatMore(start, 0, n - zc);
        EmitByte(0x00);
        done := done + [0];
        zc := zc - 1;
      }
    }

    /** The pending zeros, then the byte b, stuffed when it is 0xFF. */
    method EmitHeld(b: int)
      requires out == head + Stuff(done) && 0 <= b < 256
      modifies this`out, this`zc, this`done
      ensures out == head + Stuff(done)
      ensures zc == 0 && done == old(done) + Repeat(0, old(zc)) + [b as byte]
    {
      hide Stuff, Repeat;
      EmitZeros();
      StuffSnoc(head, done, b);
      ghost var written := out;
      EmitByte(b);
      if b == 0xFF {
        EmitByte(0x00);
        assert out == written + [0xFF, 0x00];
      }
      done := done + [b];
    }

    /** do { emit_byte(0xFF); emit_byte(0x00); } while (--e->sc); */
    method EmitStacked()
      requires out == head + Stuff(done)
      modifies this`out, this`sc, this`done
      ensures out == head + Stuff(done)
      ensures sc == 0 && done == old(done) + Repeat(255, old(sc))
    {
      hide Stuff, Repeat;
      ghost var n, start := sc, done;
      assert start == start + Repeat(255, 0) by { RepeatNone(start, 255); }
      while sc > 0
        invariant sc <= n && out == head + Stuff(done) && done == start + Repeat(255, n - sc)
      {
        StuffSnoc(head, done, 255);
        RepeatMore(start, 255, n - sc);
        ghost var written := out;
        EmitByte(0xFF);
        EmitByte(0x00);
        assert out == written + [0xFF, 0x00];
        done := done + [255];
        sc := sc - 1;
      }
    }

    /** Handle overflow over all stacked 0xFF bytes. */
    method HandleCarry()
      requires out == head + Stuff(done) && -1 <= buffer < 255
      modifies this`out, this`zc, this`sc, this`done
      ensures out == head + Stuff(done)
      ensures Regs() == Enc.Carry(old(Regs()))
    {
      hide Stuff, Repeat;
      if buffer >= 0 {
        EmitHeld(buffer + 1);
      }
      zc := zc + sc;
      sc := 0;
    }

    /** Output the buffered byte and all stacked 0xFF bytes. */
    method SettleBytes()
      requires out == head + Stuff(done) && -1 <= buffer < 255
      modifies this`out, this`zc, this`sc, this`done
      ensures out == head + Stuff(done)
      ensures Regs() == Enc.Settle(old(Regs()))
    {
      hide Stuff, Repeat;
      if buffer == 0 {
        zc := zc + 1;
      } else if buffer >= 0 {
        EmitHeld(buffer);
      }
      assert Regs() == Enc.Held(old(Regs()));
      if sc > 0 {
        EmitZeros();
        EmitStacked();
      }
    }

    /** "Another byte is ready for output". */
    method ByteReady()
      requires out == head + Stuff(done) && -1 <= buffer < 255
      modifies this`out, this`zc, this`sc, this`done, this`buffer, this`c, this`ct
      ensures out == head + Stuff(done)
      ensures Regs() == Enc.ByteOut(old(Regs()))
    {
      var temp := c / 0x80000;
      if temp > 0xFF {
        HandleCarry();
        buffer := temp % 256;
      } else if temp == 0xFF {
        sc := sc + 1;
      } else {
        SettleBytes();
        buffer := temp % 256;
      }
      c := c % 0x80000;
      ct := ct + 8;
    }

    /** One round of the renormalisation loop. */
    method ShiftOnce()
      requires out == head + Stuff(done) && -1 <= buffer < 255 && ct > 0
      modifies this`out, this`zc, this`sc, this`done, this`buffer, this`c, this`ct, this`a
      ensures out == head + Stuff(done)
      ensures Regs() == Enc.Shift(old(Regs()))
    {
      a := 2 * a;
      c := 2 * c;
      ct := ct - 1;
      if ct == 0 {
        ByteReady();
      }
    }

    /** Renormalization and data output (D.1.6): do { ... } while (e->a < 0x8000). */
    method Renormalise(ghost i: Interval)
      requires out == head + Stuff(done) && Enc.Denotes(Regs(), i) && ct > 0 && a < 0x8000
      modifies this`out, this`zc, this`sc, this`done, this`buffer, this`c, this`ct, this`a
      ensures out == head + Stuff(done)
      ensures Regs() == Enc.Renorm(old(Regs()))
    {
      hide Enc.Denotes, Enc.Shift, Norm;
      ghost var j := i;
      Enc.DenotesBasics(Regs(), j);
      ghost var goal := Enc.Renorm(Regs());
      while a < 0x8000
        invariant out == head + Stuff(done)
        invariant Enc.Denotes(Regs(), j) && ct > 0 && Enc.Renorm(Regs()) == goal
        invariant a > 0 && -1 <= buffer < 255
        decreases 0x8000 - a
      {
        Enc.ShiftDenotes(Regs(), j);
        j := Interval(2 * j.base, 2 * j.a, j.k + 1);
        ShiftOnce();
        Enc.DenotesBasics(Regs(), j);
      }
    }

    // ---- One decision ----

    ghost predicate Coding()
      reads this, stats
    {
      && stats.Length == BINS && |tab| > 0 && out == head + Stuff(done)
      && Enc.Refines(tab, State(), g)
    }

    /** arith_encode. */
    method ArithEncode(st: nat, val: bit)
      requires Coding() && st < BINS
      modifies this`out, this`zc, this`sc, this`done, this`buffer, this`c, this`ct, this`a, this`g, stats
      ensures Coding()
      ensures State() == Enc.Encode(tab, old(State()), Decision(st, val))
    {
      hide Stuff, Enc.Denotes, Norm, EncodeChoice, Enc.Finish, Enc.Shift;
      ghost var s0, d := State(), Decision(st, val);
      Enc.EncodeRefines(tab, s0, g, d);
      var sv := stats[st];
      assert GoodEntry(tab[Index(sv)], |tab|);
      var entry := tab[Index(sv)];
      var qe := Qe(entry);
      ghost var ch := EncodeChoice(entry, sv, a, val);
      ghost var kept := Kept(tab, g, d);
      Enc.DenotesBasics(s0.e, g.i);
      Enc.NarrowDenotes(s0.e, g.i, s0.e.(c := if ch.upper then c + a - qe else c, a := ch.a), kept);
      var changed := Narrow(entry, sv, val);
      g := Step(tab, g, d);
      if changed {
        var next := if val != Mps(sv) then NextLps(entry) else NextMps(entry);
        stats[st] := Successor(sv, next);
      }
      assert stats[..] == s0.stats[st := ch.sv];
      if a < 0x8000 {
        Renormalise(kept);
      }
    }

    /** a -= qe, then the choice between the two parts of the interval; false when
        an MPS leaves A normalised, so that nothing else happens. */
    method Narrow(entry: nat, sv: byte, val: bit) returns (changed: bool)
      requires 1 <= Qe(entry) < 0x8000 <= a
      modifies this`c, this`a
      ensures var ch := EncodeChoice(entry, sv, old(a), val);
              && a == ch.a && c == (if ch.upper then old(c) + old(a) - Qe(entry) else old(c))
              && ch.sv == (if !changed then sv
                           else if val != Mps(sv) then Successor(sv, NextLps(entry))
                           else Successor(sv, NextMps(entry)))
    {
      var qe := Qe(entry);
      a := a - qe;
      if val != Mps(sv) {
        if a >= qe {
          c := c + a;
          a := qe;
        }
      } else {
        if a >= 0x8000 {
          return false;
        }
        if a < qe {
          c := c + a;
          a := qe;
        }
      }
      changed := true;
    }

    // ---- Termination and restarts ----

    /** finish_pass. */
    method FinishPass()
      requires Coding()
      modifies this`out, this`zc, this`sc, this`done, this`c
      ensures out == head + Stuff(Enc.Finish(old(Regs())))
    {
      hide Stuff, Enc.Denotes, Repeat, Enc.Carry, Enc.Settle, Pow2;
      Enc.DenotesBasics(Regs(), g.i);
      ghost var e := Regs();
      var temp := (a - 1 + c) / 0x10000 * 0x10000;
      c := if temp < c then temp + 0x8000 else temp;
      assert c == Enc.FinalC(e.c, e.a);
      c := c * Pow2(ct);
      ghost var v := c;
      if c / 0x8000000 % 32 != 0 {
        Enc.SameFields(e, Regs());
        HandleCarry();
      } else {
        Enc.SameFields(e, Regs());
        SettleBytes();
      }
      EmitFinal();
    }

    /** "Output final bytes only if they are not 0x00". */
    method EmitFinal()
      requires out == head + Stuff(done)
      modifies this`out, this`zc, this`done
      ensures out == head + Stuff(done)
      ensures done == if c / 0x800 % 0x10000 == 0 then old(done)
                      else if c / 0x800 % 256 == 0 then Enc.Front(old(Regs())) + [(c / 0x80000 % 256) as byte]
                      else Enc.Front(old(Regs())) + [(c / 0x80000 % 256) as byte, (c / 0x800 % 256) as byte]
    {
      hide Stuff, Repeat;
      if c / 0x800 % 0x10000 != 0 {
        EmitHeld(c / 0x80000 % 256);
        if c / 0x800 % 256 != 0 {
          ghost var before := done;
          EmitHeld(c / 0x800 % 256);
          assert before + Repeat(0, 0) == before by { RepeatNone(before, 0); }
        }
      }
    }

    /** "Reset arithmetic encoding variables", at the start of a segment. */
    method StartSegment()
      requires GoodScan(scan) && stats.Length == BINS && ValidTable(tab) && |tab| > 0 && ValidStats(tab, stats[..])
      requires lastDc.Length == context.Length == |scan.dcTbl| && GoodPred(scan, Pred(lastDc[..], context[..]))
      modifies stats, lastDc, context, this`c, this`a, this`sc, this`zc, this`ct, this`buffer, this`head, this`done,
               this`g
      ensures Coding() && head == out && Regs() == Enc.START
      ensures State().stats == ResetStats(scan, old(stats[..]))
      ensures View().p == ResetPred(scan, old(Pred(lastDc[..], context[..]))) && GoodPred(scan, View().p)
    {
      hide ResetStats, ResetPred, Enc.Denotes;
      ResetGood(tab, scan, stats[..], Pred(lastDc[..], context[..]));
      ResetAreas(scan, stats, lastDc, context);
      c := 0;
      a := 0x10000;
      sc := 0;
      zc := 0;
      ct := 11;
      buffer := -1;
      head, done := out, [];
      g := Coder(Interval(0, 0x10000, 0), stats[..]);
      Enc.StartDenotes();
      assert Stuff([]) == [];
    }

    /** emit_restart, when the restart counter has run out. */
    method RestartIfNeeded()
      requires Valid()
      modifies this, stats, lastDc, context
      ensures Valid()
      ensures View() == BeforeMcu(tab, scan, interval, old(View()))
    {
      hide ResetStats, ResetPred, Enc.Denotes, GoodScan, GoodPred, Enc.Finish, Stuff;
      if interval > 0 && restartsToGo == 0 {
        ghost var es := View();
        FinishPass();
        EmitByte(0xFF);
        EmitByte(RST0 + nextRestartNum);
        assert out == es.out + Stuff(Enc.Finish(es.st.e)) + [0xFF, RST0 + nextRestartNum];
        StartSegment();
        restartsToGo := interval;
        nextRestartNum := (nextRestartNum + 1) % 8;
      }
    }

    // ---- Blocks ----

    /** m = 1 (or 2); while (v2 >>= 1) { encode 1; m <<= 1; st += 1; } encode 0. */
    method CodeCategory(x: nat, v: nat, ghost e: nat, m0: nat) returns (m: nat, st: nat)
      requires Coding() && v > 0 && ValidScript(Unary(x, Log2(v)), BINS) && m0 == Pow2(e)
      modifies this`out, this`zc, this`sc, this`done, this`buffer, this`c, this`ct, this`a, this`g, stats
      ensures Coding()
      ensures State() == Enc.EncodeAll(tab, old(State()), Unary(x, Log2(v)))
      ensures m == Pow2(e + Log2(v)) && st == x + Log2(v)
    {
      hide Enc.Refines, Enc.Encode, Enc.EncodeAll, Stuff, Pow2, ValidStats, ValidTable, Log2, Enc.ValidState;
      Refined();
      ghost var shifts := Log2(v);
      ghost var goal := Enc.EncodeAll(tab, State(), Unary(x, shifts));
      st, m := x, m0;
      var v2: nat := v / 2;
      LogHalf(v);
      ghost var n: nat := 0;
      while v2 != 0
        invariant n <= shifts
        invariant Coding() && Owes(tab, State(), Unary(st, shifts - n), goal)
        invariant st == x + n && m == Pow2(e + n)
        invariant if v2 == 0 then n == shifts else shifts - n == Log2(v2) + 1
        decreases v2
      {
        Pay(tab, State(), Decision(st, 1), Unary(st + 1, shifts - n - 1), goal);
        ArithEncode(st, 1);
        Pow2Twice(e + n);
        LogHalf(v2);
        m := 2 * m;
        st := st + 1;
        v2 := v2 / 2;
        n := n + 1;
      }
      PayLast(tab, State(), Decision(st, 0), goal);
      ArithEncode(st, 0);
    }

    /** while (m >>= 1) arith_encode(cinfo, st, (m & v) ? 1 : 0); m is a power of 2. */
    method CodePattern(st: nat, v: nat, m0: nat)
      requires Coding() && ValidScript(Pattern(st, v, m0), BINS)
      modifies this`out, this`zc, this`sc, this`done, this`buffer, this`c, this`ct, this`a, this`g, stats
      ensures Coding()
      ensures State() == Enc.EncodeAll(tab, old(State()), Pattern(st, v, m0))
    {
      hide Enc.Refines, Enc.Encode, Enc.EncodeAll, Stuff, ValidStats, ValidTable, Enc.ValidState;
      Refined();
      ghost var goal := Enc.EncodeAll(tab, State(), Pattern(st, v, m0));
      var m: nat := m0;
      while m / 2 != 0
        invariant Coding() && Owes(tab, State(), Pattern(st, v, m), goal)
        decreases m
      {
        m := m / 2;
        Pay(tab, State(), Decision(st, v / m % 2), Pattern(st, v, m), goal);
        ArithEncode(st, v / m % 2);
      }
      Paid(tab, State(), goal);
    }

    /** Encode_DC_DIFF for the difference v with the DC table tbl, and the new
        conditioning category of component ci (figures F.4, F.6 to F.9). */
    method CodeDcDiff(tbl: nat, ci: nat, v0: int)
      requires Coding() && GoodScan(scan) && ci < |scan.dcTbl| == context.Length && context[ci] <= 16
      requires tbl < NUM_ARITH_TBLS && ValidScript(DcDecisions(DcBase(tbl), context[ci], v0), BINS)
      modifies this`out, this`zc, this`sc, this`done, this`buffer, this`c, this`ct, this`a, this`g, stats, context
      ensures Coding()
      ensures State() == Enc.EncodeAll(tab, old(State()), DcDecisions(DcBase(tbl), old(context[ci]), v0))
      ensures context[..] == old(context[..])[ci := DcContext(v0, scan.lower[tbl], scan.upper[tbl])]
    {
      hide Enc.Refines, Enc.Encode, Enc.EncodeAll, Stuff, DcMagnitude, ValidStats, ValidTable, Log2;
      Refined();
      var base := DcBase(tbl);
      var st := base + context[ci];
      ghost var goal := Enc.EncodeAll(tab, State(), DcDecisions(base, context[ci], v0));
      if v0 == 0 {
        PayLast(tab, State(), Decision(st, 0), goal);
        ArithEncode(st, 0);
        context[ci] := 0;                       // zero diff category
      } else {
        ghost var mag := DcMagnitude(st + 2 + SignBit(v0), base + 20, Abs(v0) - 1);
        Pay(tab, State(), Decision(st, 1), [Decision(st + 1, SignBit(v0))] + mag, goal);
        ArithEncode(st, 1);
        Pay(tab, State(), Decision(st + 1, SignBit(v0)), mag, goal);
        var v := Abs(v0);
        if v0 > 0 {
          ArithEncode(st + 1, 0);
          st := st + 2;
          context[ci] := 4;                     // small positive diff category
        } else {
          ArithEncode(st + 1, 1);
          st := st + 3;
          context[ci] := 8;                     // small negative diff category
        }
        OwesBasics(tab, State(), mag, goal);
        var m := CodeDcMagnitude(st, base + 20, v - 1, scan.lower[tbl], scan.upper[tbl], ci);
      }
    }

    /** Category, conditioning and bit pattern of the magnitude v + 1. */
    method CodeDcMagnitude(st0: nat, x1: nat, v: nat, lower: nat, upper: nat, ci: nat) returns (m: nat)
      requires Coding() && ValidScript(DcMagnitude(st0, x1, v), BINS) && ci < context.Length
      modifies this`out, this`zc, this`sc, this`done, this`buffer, this`c, this`ct, this`a, this`g, stats, context
      ensures Coding() && m == Category(v)
      ensures State() == Enc.EncodeAll(tab, old(State()), DcMagnitude(st0, x1, v))
      ensures context[..] == old(context[..])[ci := if m < Pow2(lower) / 2 then 0
                                                    else if m > Pow2(upper) / 2 then old(context[ci]) + 8
                                                    else old(context[ci])]
    {
      hide Enc.Refines, Enc.Encode, Enc.EncodeAll, Stuff, ValidStats, ValidTable, Log2, Pow2, Unary, Pattern;
      Refined();
      ghost var goal := Enc.EncodeAll(tab, State(), DcMagnitude(st0, x1, v));
      m := 0;
      var st := st0;
      ghost var e: nat := 0;
      if v != 0 {
        e := Log2(v);
        ghost var pattern := Pattern(x1 + e + 14, v, Pow2(e));
        Pay(tab, State(), Decision(st, 1), Unary(x1, e) + pattern, goal);
        ArithEncode(st, 1);
        Group(tab, State(), Unary(x1, e), pattern, goal);
        PowZero();
        m, st := CodeCategory(x1, v, 0, 1);
      } else {
        PayLast(tab, State(), Decision(st, 0), goal);
        ArithEncode(st, 0);
        PatternNone(st + 14, v);
        NothingOwed(tab, State(), goal);
      }
      assert Owes(tab, State(), Pattern(st + 14, v, m), goal);
      if m < Pow2(lower) / 2 {
        context[ci] := 0;                       // zero diff category
      } else if m > Pow2(upper) / 2 {
        context[ci] := context[ci] + 8;         // large diff category
      }
      OwesBasics(tab, State(), Pattern(st + 14, v, m), goal);
      CodePattern(st + 14, v, m);
    }

    /** Figures F.8 and F.9 for an AC coefficient of magnitude v + 1. */
    method CodeAcMagnitude(st0: nat, x: nat, v: nat)
      requires Coding() && ValidScript(AcMagnitude(st0, x, v), BINS)
      modifies this`out, this`zc, this`sc, this`done, this`buffer, this`c, this`ct, this`a, this`g, stats
      ensures Coding()
      ensures State() == Enc.EncodeAll(tab, old(State()), AcMagnitude(st0, x, v))
    {
      hide Enc.Refines, Enc.Encode, Enc.EncodeAll, Stuff, ValidStats, ValidTable, Pow2, Unary, Pattern;
      Refined();
      ghost var goal := Enc.EncodeAll(tab, State(), AcMagnitude(st0, x, v));
      var m := 0;
      var st := st0;
      ghost var e: nat := 0;
      if v != 0 {
        m := 1;
        var v2: nat := v / 2;
        if v2 != 0 {
          e := Log2(v);
          ghost var n := e - 1;
          ghost var pattern := Pattern(x + n + 14, v, Pow2(e));
          Pay(tab, State(), Decision(st, 1), [Decision(st, 1)] + (Unary(x, n) + pattern), goal);
          ArithEncode(st, 1);
          Pay(tab, State(), Decision(st, 1), Unary(x, n) + pattern, goal);
          ArithEncode(st, 1);
          Group(tab, State(), Unary(x, n), pattern, goal);
          PowZero();
          m, st := CodeCategory(x, v2, 1, 2);
        } else {
          Pay(tab, State(), Decision(st, 1), [Decision(st, 0)], goal);
          ArithEncode(st, 1);
          PayLast(tab, State(), Decision(st, 0), goal);
          ArithEncode(st, 0);
          PowZero();
        }
      } else {
        PayLast(tab, State(), Decision(st, 0), goal);
        ArithEncode(st, 0);
      }
      if v <= 1 {
        PatternTop(st + 14, v, m);
        NothingOwed(tab, State(), goal);
      }
      OwesBasics(tab, State(), Pattern(st + 14, v, m), goal);
      CodePattern(st + 14, v, m);
    }

    /** for (ke = Se; ke > 0; ke--) if the transformed coefficient is not zero: break. */
    method FindEob(x: Block, al: nat, se: nat) returns (ke: nat)
      requires se < DCTSIZE2
      ensures ke == LastNonzero(ShiftBlock(x, al), se)
    {
      ke := se;
      while ke > 0
        invariant ke <= se && LastNonzero(ShiftBlock(x, al), se) == LastNonzero(ShiftBlock(x, al), ke)
      {
        if Abs(x[ke]) / Pow2(al) != 0 {
          break;
        }
        ke := ke - 1;
      }
    }

    /** Encode_AC_Coefficients (figure F.5) for the band, with the point transform
        by Al applied on the way; the sequential routine is the case al == 0. */
    method CodeAcBand(bd: Band, x: Block, al: nat)
      requires Coding() && GoodBand(bd)
      requires var t := ShiftBlock(x, al);
               ValidScript(AcFrom(bd, t, bd.ss, LastNonzero(t, bd.se)), BINS)
      modifies this`out, this`zc, this`sc, this`done, this`buffer, this`c, this`ct, this`a, this`g, stats
      ensures Coding()
      ensures var t := ShiftBlock(x, al);
              State() == Enc.EncodeAll(tab, old(State()), AcFrom(bd, t, bd.ss, LastNonzero(t, bd.se)))
    {
      hide Enc.Refines, Enc.Encode, Enc.EncodeAll, Stuff, ValidStats, ValidTable, Pow2, ShiftBlock, AcShift,
           LastNonzero;
      Refined();
      ghost var t := ShiftBlock(x, al);
      var ke := FindEob(x, al, bd.se);
      ghost var goal := Enc.EncodeAll(tab, State(), AcFrom(bd, t, bd.ss, ke));
      var k := bd.ss;
      while k <= ke
        invariant bd.ss <= k && Coding() && Owes(tab, State(), AcFrom(bd, t, k, ke), goal)
        decreases ke + 1 - k
      {
        Pay(tab, State(), Decision(At(bd, k), 0), AcRun(bd, t, k, ke), goal);
        ArithEncode(At(bd, k), 0);              // EOB decision
        k := CodeAcRun(bd, x, al, k, ke, goal);
        CodeAcCoef(bd, x, al, k, ke, goal);
        k := k + 1;
      }
      if k <= bd.se {
        PayLast(tab, State(), Decision(At(bd, k), 1), goal);
        ArithEncode(At(bd, k), 1);
      } else {
        Paid(tab, State(), goal);
      }
    }

    /** The inner loop: zeros up to the next coefficient, and "1" for that one. */
    method CodeAcRun(bd: Band, x: Block, al: nat, k0: nat, ke: nat, ghost goal: Enc.State) returns (k: nat)
      requires Coding() && GoodBand(bd) && 1 <= k0 <= ke <= bd.se && ShiftBlock(x, al)[ke] != 0
      requires Owes(tab, State(), AcRun(bd, ShiftBlock(x, al), k0, ke), goal)
      modifies this`out, this`zc, this`sc, this`done, this`buffer, this`c, this`ct, this`a, this`g, stats
      ensures Coding() && k0 <= k <= ke && ShiftBlock(x, al)[k] != 0
      ensures Owes(tab, State(), AcCoef(bd, ShiftBlock(x, al), k, ke), goal)
    {
      hide Enc.Refines, Enc.Encode, Enc.EncodeAll, Stuff, ValidStats, ValidTable, Pow2, ShiftBlock, AcShift, AcCoef;
      ghost var t := ShiftBlock(x, al);
      k := k0;
      ShiftAt(x, al, k);
      while Abs(x[k]) / Pow2(al) == 0
        invariant k0 <= k <= ke && Coding() && Owes(tab, State(), AcRun(bd, t, k, ke), goal)
        invariant t[k] == 0 <==> Abs(x[k]) / Pow2(al) == 0
        decreases ke - k
      {
        Pay(tab, State(), Decision(At(bd, k) + 1, 0), AcRun(bd, t, k + 1, ke), goal);
        ArithEncode(At(bd, k) + 1, 0);
        k := k + 1;
        ShiftAt(x, al, k);
      }
      Pay(tab, State(), Decision(At(bd, k) + 1, 1), AcCoef(bd, t, k, ke), goal);
      ArithEncode(At(bd, k) + 1, 1);
    }

    /** Sign and magnitude of coefficient k. */
    method CodeAcCoef(bd: Band, x: Block, al: nat, k: nat, ke: nat, ghost goal: Enc.State)
      requires Coding() && GoodBand(bd) && 1 <= k <= ke <= bd.se
      requires ShiftBlock(x, al)[ke] != 0 && ShiftBlock(x, al)[k] != 0
      requires Owes(tab, State(), AcCoef(bd, ShiftBlock(x, al), k, ke), goal)
      modifies this`out, this`zc, this`sc, this`done, this`buffer, this`c, this`ct, this`a, this`g, stats
      ensures Coding()
      ensures Owes(tab, State(), AcFrom(bd, ShiftBlock(x, al), k + 1, ke), goal)
    {
      hide Enc.Refines, Enc.Encode, Enc.EncodeAll, Stuff, ValidStats, ValidTable, Pow2, ShiftBlock, AcShift, AcFrom,
           AcMagnitude;
      ghost var t := ShiftBlock(x, al);
      ShiftAt(x, al, k);
      var v := Abs(x[k]) / Pow2(al);
      ghost var mag := AcMagnitude(At(bd, k) + 2, X2(bd, k), v - 1);
      ghost var more := AcFrom(bd, t, k + 1, ke);
      Pay(tab, State(), Decision(FIXED_BIN, SignBit(t[k])), mag + more, goal);
      ArithEncode(FIXED_BIN, if x[k] < 0 then 1 else 0);
      Group(tab, State(), mag, more, goal);
      CodeAcMagnitude(At(bd, k) + 2, X2(bd, k), v - 1);
    }

    /** Encode_AC_Coefficients_SA (figure G.10). */
    method CodeAcRefine(bd: Band, x: Block, al: nat)
      requires Coding() && GoodBand(bd)
      requires var t := ShiftBlock(x, al);
               var ke := LastNonzero(t, bd.se);
               ValidScript(RefFrom(bd, t, bd.ss, ke, LastNonzero(ShiftBlock(x, al + 1), ke)), BINS)
      modifies this`out, this`zc, this`sc, this`done, this`buffer, this`c, this`ct, this`a, this`g, stats
      ensures Coding()
      ensures var t := ShiftBlock(x, al);
              var ke := LastNonzero(t, bd.se);
              State() == Enc.EncodeAll(tab, old(State()),
                                       RefFrom(bd, t, bd.ss, ke, LastNonzero(ShiftBlock(x, al + 1), ke)))
    {
      hide Enc.Refines, Enc.Encode, Enc.EncodeAll, Stuff, ValidStats, ValidTable, Pow2, ShiftBlock, AcShift,
           LastNonzero;
      Refined();
      ghost var t := ShiftBlock(x, al);
      var ke := FindEob(x, al, bd.se);
      var kex := FindEob(x, al + 1, ke);
      ghost var goal := Enc.EncodeAll(tab, State(), RefFrom(bd, t, bd.ss, ke, kex));
      var k := bd.ss;
      while k <= ke
        invariant bd.ss <= k && Coding() && Owes(tab, State(), RefFrom(bd, t, k, ke, kex), goal)
        decreases ke + 1 - k
      {
        if k > kex {
          Pay(tab, State(), Decision(At(bd, k), 0), RefRun(bd, t, k, ke, kex), goal);
          ArithEncode(At(bd, k), 0);            // EOB decision
        }
        k := CodeRefRun(bd, x, al, k, ke, kex, goal);
        CodeRefCoef(bd, x, al, k, ke, kex, goal);
        k := k + 1;
      }
      if k <= bd.se {
        PayLast(tab, State(), Decision(At(bd, k), 1), goal);
        ArithEncode(At(bd, k), 1);
      } else {
        Paid(tab, State(), goal);
      }
    }

    /** Zeros up to the next coefficient to send or to refine. */
    method CodeRefRun(bd: Band, x: Block, al: nat, k0: nat, ke: nat, kex: nat, ghost goal: Enc.State) returns (k: nat)
      requires Coding() && GoodBand(bd) && 1 <= k0 <= ke <= bd.se && ShiftBlock(x, al)[ke] != 0
      requires Owes(tab, State(), RefRun(bd, ShiftBlock(x, al), k0, ke, kex), goal)
      modifies this`out, this`zc, this`sc, this`done, this`buffer, this`c, this`ct, this`a, this`g, stats
      ensures Coding() && k0 <= k <= ke && ShiftBlock(x, al)[k] != 0
      ensures Owes(tab, State(), RefRun(bd, ShiftBlock(x, al), k, ke, kex), goal)
    {
      hide Enc.Refines, Enc.Encode, Enc.EncodeAll, Stuff, ValidStats, ValidTable, Pow2, ShiftBlock, AcShift, RefFrom;
      ghost var t := ShiftBlock(x, al);
      k := k0;
      ShiftAt(x, al, k);
      while Abs(x[k]) / Pow2(al) == 0
        invariant k0 <= k <= ke && Coding() && Owes(tab, State(), RefRun(bd, t, k, ke, kex), goal)
        invariant t[k] == 0 <==> Abs(x[k]) / Pow2(al) == 0
        decreases ke - k
      {
        Pay(tab, State(), Decision(At(bd, k) + 1, 0), RefRun(bd, t, k + 1, ke, kex), goal);
        ArithEncode(At(bd, k) + 1, 0);
        k := k + 1;
        ShiftAt(x, al, k);
      }
    }

    /** A previously nonzero coefficient sends a bit, a new one its sign. */
    method CodeRefCoef(bd: Band, x: Block, al: nat, k: nat, ke: nat, kex: nat, ghost goal: Enc.State)
      requires Coding() && GoodBand(bd) && 1 <= k <= ke <= bd.se
      requires ShiftBlock(x, al)[ke] != 0 && ShiftBlock(x, al)[k] != 0
      requires Owes(tab, State(), RefRun(bd, ShiftBlock(x, al), k, ke, kex), goal)
      modifies this`out, this`zc, this`sc, this`done, this`buffer, this`c, this`ct, this`a, this`g, stats
      ensures Coding()
      ensures Owes(tab, State(), RefFrom(bd, ShiftBlock(x, al), k + 1, ke, kex), goal)
    {
      hide Enc.Refines, Enc.Encode, Enc.EncodeAll, Stuff, ValidStats, ValidTable, Pow2, ShiftBlock, AcShift, RefFrom;
      ghost var t := ShiftBlock(x, al);
      ShiftAt(x, al, k);
      var v := Abs(x[k]) / Pow2(al);
      ghost var more := RefFrom(bd, t, k + 1, ke, kex);
      if v / 2 != 0 {
        Pay(tab, State(), Decision(At(bd, k) + 2, v % 2), more, goal);
        ArithEncode(At(bd, k) + 2, v % 2);
      } else {
        Pay(tab, State(), Decision(At(bd, k) + 1, 1), [Decision(FIXED_BIN, SignBit(t[k]))] + more, goal);
        ArithEncode(At(bd, k) + 1, 1);
        Pay(tab, State(), Decision(FIXED_BIN, SignBit(t[k])), more, goal);
        ArithEncode(FIXED_BIN, if x[k] < 0 then 1 else 0);
      }
    }

    /** The DC part of a block: the difference to the prediction. */
    method CodeDcPart(i: nat, x: Block)
      requires Valid() && i < |scan.membership| && (scan.kind.Sequential? || scan.kind.DcFirst?)
      requires ValidScript(DcScript(scan, View().p, i, x), BINS)
      modifies this`out, this`zc, this`sc, this`done, this`buffer, this`c, this`ct, this`a, this`g, stats, lastDc,
               context
      ensures Valid() && View() == old(View()).(st := State(), p := NextPred(scan, old(View().p), i, x))
      ensures State() == Enc.EncodeAll(tab, old(State()), DcScript(scan, old(View().p), i, x))
    {
      hide Enc.Refines, Enc.EncodeAll, Stuff, DcDecisions, DcContext;
      var ci := scan.membership[i];
      var tbl := scan.dcTbl[ci];
      var m := if scan.kind.DcFirst? then x[0] / Pow2(scan.al) else x[0];
      var v := m - lastDc[ci];
      CodeDcDiff(tbl, ci, v);
      if v != 0 {
        lastDc[ci] := m;
      }
      assert lastDc[..] == old(lastDc[..])[ci := m];
      assert View().p == NextPred(scan, old(View().p), i, x);
    }

    /** Block i of an MCU, by the routine that start_pass selected. */
    method CodeBlock(i: nat, x: Block)
      requires Valid() && i < |scan.membership| && ValidScript(BlockScript(scan, View().p, i, x), BINS)
      modifies this`out, this`zc, this`sc, this`done, this`buffer, this`c, this`ct, this`a, this`g, stats, lastDc,
               context
      ensures Valid() && View() == old(View()).(st := State(), p := NextPred(scan, old(View().p), i, x))
      ensures State() == Enc.EncodeAll(tab, old(State()), BlockScript(scan, old(View().p), i, x))
    {
      hide Enc.Refines, Enc.Encode, Enc.EncodeAll, Stuff, DcScript, AcScript, NextPred, BandOf, ValidStats, ValidTable;
      Refined();
      ghost var goal := Enc.EncodeAll(tab, State(), BlockScript(scan, View().p, i, x));
      match scan.kind {
        case Sequential =>
          Group(tab, State(), DcScript(scan, View().p, i, x), AcScript(scan, i, x), goal);
          CodeDcPart(i, x);
          OwesBasics(tab, State(), AcScript(scan, i, x), goal);
          CodeAcPart(i, x);
        case DcFirst =>
          CodeDcPart(i, x);
        case DcRefine =>
          OneDecision(tab, State(), Decision(FIXED_BIN, DcShift(x[0], scan.al) % 2));
          ArithEncode(FIXED_BIN, x[0] / Pow2(scan.al) % 2);
          SamePred(scan, View().p, i, x);
        case AcFirst =>
          CodeAcPart(i, x);
          SamePred(scan, View().p, i, x);
        case AcRefine =>
          CodeAcPart(i, x);
          SamePred(scan, View().p, i, x);
      }
    }

    /** The AC part of a block. */
    method CodeAcPart(i: nat, x: Block)
      requires Valid() && i < |scan.membership| && !scan.kind.DcFirst? && !scan.kind.DcRefine?
      requires ValidScript(AcScript(scan, i, x), BINS)
      modifies this`out, this`zc, this`sc, this`done, this`buffer, this`c, this`ct, this`a, this`g, stats
      ensures Valid() && View() == old(View()).(st := State())
      ensures State() == Enc.EncodeAll(tab, old(State()), AcScript(scan, i, x))
    {
      hide Enc.Refines, Enc.EncodeAll, Stuff, AcFrom, RefFrom;
      BandGood(scan, i);
      var tbl := scan.acTbl[scan.membership[i]];
      var bd := if scan.kind.Sequential? then Band(AcBase(tbl), scan.kx[tbl], 1, DCTSIZE2 - 1)
                else Band(AcBase(tbl), scan.kx[tbl], scan.ss, scan.se);
      if scan.kind.AcRefine? {
        CodeAcRefine(bd, x, scan.al);
      } else if scan.kind.AcFirst? {
        CodeAcBand(bd, x, scan.al);
      } else {
        ShiftByZero(x);
        CodeAcBand(bd, x, 0);
      }
    }

    /** encode_mcu, encode_mcu_DC_first, encode_mcu_AC_first, encode_mcu_DC_refine
        and encode_mcu_AC_refine. */
    method EncodeMcu(xs: Mcu)
      requires Valid() && |xs| == |scan.membership|
      requires CodableMcu(scan, BeforeMcu(tab, scan, interval, View()).p, 0, xs)
      modifies this, stats, lastDc, context
      ensures Valid()
      ensures View() == ScanCoding.EncodeMcu(tab, scan, interval, old(View()), xs)
    {
      hide Enc.Refines, Enc.EncodeAll, Stuff, BeforeMcu, BlockScript, NextPred, GoodScan, GoodPred, CodableMcu,
           ValidStats, ValidTable;
      RestartIfNeeded();
      ghost var e1 := View();
      McuScriptValid(scan, e1.p, 0, xs);
      Refined();
      ghost var script := McuScript(scan, e1.p, 0, xs);
      ghost var goal := Enc.EncodeAll(tab, e1.st, script);
      for blkn := 0 to |xs|
        invariant Valid()
        invariant View() == e1.(st := State(), p := View().p)
        invariant Owes(tab, State(), McuScript(scan, View().p, blkn, xs), goal)
        invariant McuPred(scan, View().p, blkn, xs) == McuPred(scan, e1.p, 0, xs)
      {
        ghost var q := NextPred(scan, View().p, blkn, xs[blkn]);
        Group(tab, State(), BlockScript(scan, View().p, blkn, xs[blkn]), McuScript(scan, q, blkn + 1, xs), goal);
        CodeBlock(blkn, xs[blkn]);
      }
      Paid(tab, State(), goal);
      if interval > 0 {
        restartsToGo := restartsToGo - 1;
      }
    }

    lemma Refined()
      requires Coding()
      ensures Enc.ValidState(tab, State()) && |State().stats| == BINS
    {
    }
  }

  // ---- What is still to be encoded ----

  /** Encoding x from s leads to goal. */
  ghost predicate Owes(tab: seq<nat>, s: Enc.State, x: seq<Decision>, goal: Enc.State) {
    && Enc.ValidState(tab, s) && |s.stats| == BINS && ValidScript(x, BINS)
    && Enc.EncodeAll(tab, s, x) == goal
  }

  lemma Pay(tab: seq<nat>, s: Enc.State, x: Decision, more: seq<Decision>, goal: Enc.State)
    requires Owes(tab, s, [x] + more, goal)
    ensures x.bin < BINS && Enc.ValidState(tab, s) && |s.stats| == BINS
    ensures Owes(tab, Enc.Encode(tab, s, x), more, goal)
  {
    hide Enc.Encode;
    var script := [x] + more;
    assert script[0] == x && script[1..] == more;
    assert forall i :: 0 <= i < |more| ==> more[i] == script[i + 1];
  }

  lemma PayLast(tab: seq<nat>, s: Enc.State, x: Decision, goal: Enc.State)
    requires Owes(tab, s, [x], goal)
    ensures x.bin < BINS && Enc.ValidState(tab, s) && |s.stats| == BINS
    ensures Enc.Encode(tab, s, x) == goal
  {
    hide Enc.Encode;
    assert [x] == [x] + [];
    Pay(tab, s, x, [], goal);
  }

  lemma Paid(tab: seq<nat>, s: Enc.State, goal: Enc.State)
    requires Owes(tab, s, [], goal)
    ensures s == goal
  {
  }

  lemma NothingOwed(tab: seq<nat>, s: Enc.State, goal: Enc.State)
    requires Enc.ValidState(tab, s) && |s.stats| == BINS && s == goal
    ensures Owes(tab, s, [], goal)
  {
  }

  lemma OwesBasics(tab: seq<nat>, s: Enc.State, x: seq<Decision>, goal: Enc.State)
    requires Owes(tab, s, x, goal)
    ensures Enc.ValidState(tab, s) && |s.stats| == BINS && ValidScript(x, BINS) && Enc.EncodeAll(tab, s, x) == goal
  {
  }

  /** The transformed coefficient, as the loops compute it. */
  lemma ShiftAt(x: Block, al: nat, k: nat)
    requires k < DCTSIZE2
    ensures var t, v := ShiftBlock(x, al)[k], Abs(x[k]) / Pow2(al);
            Abs(t) == v && (t == 0 <==> v == 0) && (v != 0 ==> SignBit(t) == if x[k] < 0 then 1 else 0)
  {
    hide Pow2;
    var q := Abs(x[k]) / Pow2(al);
    assert ShiftBlock(x, al)[k] == if x[k] < 0 then -q else q;
  }

  lemma ShiftByZero(x: Block)
    ensures ShiftBlock(x, 0) == x
  {
    assert Pow2(0) == 1;
  }

  lemma OneDecision(tab: seq<nat>, s: Enc.State, d: Decision)
    requires Enc.ValidState(tab, s) && d.bin < |s.stats|
    ensures ValidScript([d], |s.stats|) && Enc.EncodeAll(tab, s, [d]) == Enc.Encode(tab, s, d)
  {
    EncodeNothing(tab, Enc.Encode(tab, s, d));
    assert [d][1..] == [];
  }

  lemma SamePred(sc: Scan, p: Pred, i: nat, x: Block)
    requires GoodScan(sc) && GoodPred(sc, p) && i < |sc.membership| && !sc.kind.Sequential? && !sc.kind.DcFirst?
    ensures NextPred(sc, p, i, x) == p
  {
  }

  lemma LogHalf(w: nat)
    requires w > 0
    ensures if w / 2 == 0 then Log2(w) == 0 else Log2(w) == Log2(w / 2) + 1
  {
  }

  lemma PowZero()
    ensures Pow2(0) == 1 && Pow2(1) == 2
  {
  }

  lemma PatternNone(st: nat, v: nat)
    ensures Pattern(st, v, 0) == []
  {
  }

  lemma PatternTop(st: nat, v: nat, m: nat)
    requires m <= 1
    ensures Pattern(st, v, m) == []
  {
  }

  /** A group x at the front of what is owed. */
  lemma Group(tab: seq<nat>, s: Enc.State, x: seq<Decision>, more: seq<Decision>, goal: Enc.State)
    requires Owes(tab, s, x + more, goal)
    ensures Enc.ValidState(tab, s) && |s.stats| == BINS && ValidScript(x, BINS)
    ensures Owes(tab, Enc.EncodeAll(tab, s, x), more, goal)
  {
    hide Enc.Encode;
    var script := x + more;
    assert forall i :: 0 <= i < |x| ==> x[i] == script[i];
    assert forall i :: 0 <= i < |more| ==> more[i] == script[i + |x|];
    EncodeAllConcat(tab, s, x, more);
  }
}
