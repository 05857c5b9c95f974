/** The arithmetic entropy decoder object of jdarith.c. */
module ArithDecoder {
  import opened Numbers
  import opened ProbabilityTable
  import opened IntervalCoder
  import opened ByteSource
  import opened Binarisation
  import opened AcBand
  import opened McuCoding
  import opened ScanCoding
  import opened StatisticsAreas
  import Bins = DecoderBins
  import Dec = DecoderRegisters

  class Decoder {
    const tab: seq<nat>
    const scan: Scan
    const interval: nat

    var c: nat                   // base of the coding interval + input bit buffer
    var a: nat                   // normalized size of the coding interval
    var ct: int                  // bits left in the bit buffer; -16 at first, -1 after an error
    var input: seq<byte>         // what the source manager still holds
    var unreadMarker: byte       // cinfo->unread_marker

    const stats: array<byte>
    const lastDc: array<int>
    const context: array<nat>
    var restartsToGo: nat
    var nextRestartNum: nat      // kept by the marker reader
    var lost: bool               // the restart marker was not the expected one

    ghost var lastCt: int        // ct when an error was flagged

    ghost function Regs(): Dec.Regs
      reads this
    {
      Dec.Regs(c, a, if ct == -1 then lastCt else ct, Source(input, unreadMarker))
    }

    ghost function State(): Dec.State
      reads this, stats
    {
      Dec.State(Regs(), stats[..])
    }

    ghost function Prediction(): Pred
      reads this, lastDc, context
    {
      Pred(lastDc[..], context[..])
    }

    ghost function View(): DecScan
      reads this, stats, lastDc, context
    {
      if lost then Lost else DecScan(State(), Prediction(), restartsToGo, nextRestartNum, ct == -1)
    }

    ghost predicate Valid()
      reads this, stats, lastDc, context
    {
      && stats.Length == BINS && lastDc.Length == context.Length == |scan.dcTbl|
      && |tab| > 0 && Ready(tab, State()) && GoodScan(scan) && GoodPred(scan, Prediction()) && nextRestartNum < 8
      && (scan.kind.DcRefine? ==> ct != -1)
    }

    // ---- Input ----

    /** get_byte: at the end of the data the source manager inserts an EOI marker. */
    method GetByte() returns (b: byte)
      modifies this`input
      ensures old(input) != [] ==> b == old(input)[0] && input == old(input)[1..]
      ensures old(input) == [] ==> b == 0xFF && input == [MARKER_EOI]
    {
      if input == [] {
        input := [0xFF, MARKER_EOI];
      }
      b := input[0];
      input := input[1..];
    }

    /** do data = get_byte(cinfo); while (data == 0xFF); */
    method SwallowFill() returns (b: byte)
      modifies this`input
      ensures Read(b, input) == SkipFill(old(input))
    {
      b := GetByte();
      while b == 0xFF
        invariant if b == 0xFF then SkipFill(input) == SkipFill(old(input)) else Read(b, input) == SkipFill(old(input))
        decreases if b != 0xFF then 0
                  else if input == [] then 2
                  else if input[0] != 0xFF then 1 else 2 + |input|
      {
        b := GetByte();
      }
    }

    /** The next byte for C: data, or zeros once a marker has been hit. */
    method FetchByte() returns (data: byte)
      modifies this`input, this`unreadMarker
      ensures Fetch(data, Source(input, unreadMarker)) == NextByte(old(Source(input, unreadMarker)))
    {
      if unreadMarker != 0 {
        return 0;
      }
      data := GetByte();
      if data == 0xFF {
        assert SkipFill(input) == SkipFill(if old(input) == [] then [] else old(input)[1..]);
        data := SwallowFill();
        if data == 0 {
          data := 0xFF;
        } else {
          unreadMarker := data;
          data := 0;
        }
      }
    }

    // ---- One decision ----

    ghost predicate Decoding()
      reads this, stats
    {
      stats.Length == BINS && Ready(tab, State()) && ct != -1
    }

    /** One round of "while (e->a < 0x8000L)". */
    method ShiftOnce()
      requires ct != -1 && Dec.Valid(Regs()) && a < 0x8000
      modifies this`c, this`a, this`ct, this`input, this`unreadMarker
      ensures ct != -1 && Regs() == Dec.Shift(old(Regs()))
    {
      ct := ct - 1;
      if ct < 0 {
        var data := FetchByte();
        c := 256 * c + data;
        ct := ct + 8;
        if ct < 0 {
          ct := ct + 1;
          if ct == 0 {
            a := 0x8000;
          }
        }
      }
      a := 2 * a;
    }

    method Renormalise()
      requires ct != -1 && Dec.Valid(Regs())
      modifies this`c, this`a, this`ct, this`input, this`unreadMarker
      ensures ct >= 0 && a >= 0x8000
      ensures Startable(old(Regs())) && Regs() == Dec.Renorm(old(Regs()))
    {
      ghost var goal := Dec.Renorm(Regs());
      while a < 0x8000
        invariant ct != -1 && Dec.Valid(Regs()) && Dec.Renorm(Regs()) == goal
        decreases a == 0, if a == 0 then -ct else 0x8000 - a
      {
        Dec.ShiftValid(Regs());
        ShiftOnce();
      }
    }

    /** arith_decode. */
    method ArithDecode(st: nat) returns (val: bit)
      requires Decoding() && st < BINS
      modifies this`c, this`a, this`ct, this`input, this`unreadMarker, stats
      ensures Decoding()
      ensures Dec.Result(val, State()) == Dec.Decode(tab, old(State()), st)
    {
      hide Dec.Renorm, NextMarker, Pow2, Dec.Decide, ValidTable, ValidStats, Dec.Valid;
      ghost var s0 := State();
      ghost var goal := Dec.Decode(tab, s0, st);
      Renormalise();
      assert State() == Dec.State(Dec.Renorm(s0.d), s0.stats);
      val := Decide(st);
    }

    /** The comparison with C, and the move of the statistics bin. */
    method Decide(st: nat) returns (val: bit)
      requires ValidTable(tab) && ValidStats(tab, stats[..]) && st < stats.Length && a >= 0x8000 && ct >= 0
      modifies this`c, this`a, stats
      ensures Dec.Result(val, State()) == Dec.Decide(tab, old(State()), st)
    {
      hide DecodeChoice, Successor, Pow2, Dec.Valid;
      var sv := stats[st];
      assert GoodEntry(tab[Index(sv)], |tab|);
      var entry := tab[Index(sv)];
      ghost var o := DecodeChoice(entry, sv, a, c >= (a - Qe(entry)) * Pow2(ct));
      var next;
      val, next := Split(entry, sv);
      stats[st] := next;
      assert stats[..] == old(stats[..])[st := o.sv];
    }

    /** Which part of the interval holds the code: the decision, and what becomes
        of its bin (unchanged when an MPS leaves A normalised). */
    method Split(entry: nat, sv: byte) returns (val: bit, next: byte)
      requires 1 <= Qe(entry) < 0x8000 <= a && ct >= 0
      modifies this`c, this`a
      ensures var temp := (old(a) - Qe(entry)) * Pow2(ct);
              && Outcome(val, a, next) == DecodeChoice(entry, sv, old(a), old(c) >= temp)
              && c == if old(c) >= temp then old(c) - temp else old(c)
    {
      hide Pow2, Successor;
      var qe := Qe(entry);
      var temp := a - qe;
      a := temp;
      temp := temp * Pow2(ct);
      val, next := Mps(sv), sv;
      if c >= temp {
        c := c - temp;
        // Conditional LPS (less probable symbol) exchange
        if a < qe {
          next := Successor(sv, NextMps(entry));
        } else {
          next := Successor(sv, NextLps(entry));
          val := 1 - Mps(sv);
        }
        a := qe;
      } else if a < 0x8000 {
        // Conditional MPS (more probable symbol) exchange
        if a < qe {
          next := Successor(sv, NextLps(entry));
          val := 1 - Mps(sv);
        } else {
          next := Successor(sv, NextMps(entry));
        }
      }
    }

    /** The error exits: entropy->ct = -1. */
    method Flag()
      requires ct != -1
      modifies this`ct, this`lastCt
      ensures ct == -1 && Regs() == old(Regs())
    {
      lastCt := ct;
      ct := -1;
    }

    // ---- Magnitudes ----

    /** while (arith_decode(cinfo, st)) { if ((m <<= 1) == 0x8000) fail; st += 1; } */
    method DecodeCategory(first: nat, m0: nat, ghost n0: nat) returns (ok: bool, m: nat, st: nat)
      requires Decoding() && n0 <= 14 && m0 == Pow2(n0) && first + 14 - n0 < BINS
      modifies this`c, this`a, this`ct, this`input, this`unreadMarker, stats
      ensures Decoding()
      ensures Mag(ok, m, st, State()) == ReadUnary(tab, old(State()), first, n0)
    {
      hide Dec.Decode, Pow2, Dec.ValidState, SameMarker;
      ghost var goal := ReadUnary(tab, State(), first, n0);
      ghost var n := n0;
      m, st := m0, first;
      while true
        invariant Decoding() && n <= 14 && m == Pow2(n) && st + 14 - n < BINS
        invariant ReadUnary(tab, State(), st, n) == goal
        decreases 15 - n
      {
        var more := ArithDecode(st);
        if more == 0 {
          return true, m, st;
        }
        CategoryStep(n);
        m := 2 * m;
        if m == 0x8000 {
          return false, m, st;
        }
        st := st + 1;
        n := n + 1;
      }
    }

    /** while (m >>= 1) if (arith_decode(cinfo, st)) v |= m; */
    method DecodePattern(st: nat, m0: nat) returns (v: nat)
      requires Decoding() && st < BINS
      modifies this`c, this`a, this`ct, this`input, this`unreadMarker, stats
      ensures Decoding()
      ensures Bits(v, State()) == ReadPattern(tab, old(State()), st, m0, m0)
    {
      hide Dec.Decode, Dec.ValidState, SameMarker, SetBit;
      ghost var goal := ReadPattern(tab, State(), st, m0, m0);
      var m: nat := m0;
      v := m0;
      while m / 2 != 0
        invariant Decoding() && ReadPattern(tab, State(), st, m, v) == goal
        decreases m
      {
        m := m / 2;
        var b := ArithDecode(st);
        if b == 1 {
          v := SetBit(v, m);
        }
      }
    }

    /** The bit pattern and the sign, once the category is known. */
    method DecodeValue(m: nat, st: nat, sign: bit) returns (v: int)
      requires Decoding() && st + 14 < BINS
      modifies this`c, this`a, this`ct, this`input, this`unreadMarker, stats
      ensures Decoding()
      ensures Coef(true, v, m, State()) == ReadValue(tab, Mag(true, m, st, old(State())), sign)
    {
      hide Dec.Decode, Dec.ValidState, SameMarker, ReadPattern;
      v := DecodePattern(st + 14, m);
      v := v + 1;
      if sign == 1 {
        v := -v;
      }
    }

    /** The magnitude category of a DC difference (figure F.23). */
    method DecodeDcCategory(st0: nat, x1: nat) returns (ok: bool, m: nat, st: nat)
      requires Decoding() && st0 + 14 < BINS && x1 + 28 < BINS
      modifies this`c, this`a, this`ct, this`input, this`unreadMarker, stats
      ensures Decoding()
      ensures Mag(ok, m, st, State()) == ReadDcMagnitude(tab, old(State()), st0, x1)
    {
      hide Dec.Decode, Dec.ValidState, SameMarker, ReadUnary;
      ok, st := true, st0;
      m := ArithDecode(st);
      if m != 0 {
        ok, m, st := DecodeCategory(x1, m, 0);
      }
    }

    /** The magnitude category of an AC coefficient. */
    method DecodeAcCategory(st0: nat, x: nat) returns (ok: bool, m: nat, st: nat)
      requires Decoding() && st0 + 14 < BINS && x + 27 < BINS
      modifies this`c, this`a, this`ct, this`input, this`unreadMarker, stats
      ensures Decoding()
      ensures Mag(ok, m, st, State()) == ReadAcMagnitude(tab, old(State()), st0, x)
    {
      hide Dec.Decode, Dec.ValidState, SameMarker, ReadUnary;
      ok, st := true, st0;
      m := ArithDecode(st);
      if m != 0 {
        var more := ArithDecode(st);
        if more == 1 {
          ok, m, st := DecodeCategory(x, 2 * m, 1);
        }
      }
    }

    // ---- Blocks ----

    /** Decode_DC_DIFF for block i, and the new DC value into *block. */
    method DecodeDcPart(i: nat, block: array<int>) returns (ok: bool)
      requires Decoding() && GoodScan(scan) && Shaped() && i < |scan.membership|
      requires block.Length == DCTSIZE2 && block != lastDc
      modifies this`c, this`a, this`ct, this`lastCt, this`input, this`unreadMarker, stats, lastDc, context, block
      ensures BlockRead(ok, block[..], Prediction(), State())
           == ReadDcPart(tab, old(State()), scan, old(Prediction()), i, old(block[..]))
      ensures (ct == -1) == !ok
    {
      hide Dec.Decode, Dec.ValidState, SameMarker, ReadUnary, ReadPattern, Pow2, ReadValue, ReadDcMagnitude;
      var ci := scan.membership[i];
      var tbl := scan.dcTbl[ci];
      ghost var s0 := State();
      ok := DecodeDcDiff(tbl, ci);
      if !ok {
        return;
      }
      block[0] := if scan.kind.DcFirst? then lastDc[ci] * Pow2(scan.al) else lastDc[ci];
    }

    /** The difference: its conditioning category and its value go into the
        prediction of component ci. */
    method DecodeDcDiff(tbl: nat, ci: nat) returns (ok: bool)
      requires Decoding() && GoodScan(scan) && Shaped() && tbl < NUM_ARITH_TBLS && ci < |scan.dcTbl|
      modifies this`c, this`a, this`ct, this`lastCt, this`input, this`unreadMarker, stats, lastDc, context
      ensures var d := ReadDc(tab, old(State()), DcBase(tbl), old(context[ci]), scan.lower[tbl], scan.upper[tbl]);
              && ok == d.ok && State() == d.s
              && lastDc[..] == old(lastDc[..])[ci := old(lastDc[ci]) + d.v]
              && context[..] == old(context[..])[ci := d.ctx]
      ensures (ct == -1) == !ok
    {
      hide Dec.Decode, Dec.ValidState, SameMarker, ReadUnary, ReadPattern, Pow2, ReadValue, ReadDcMagnitude;
      var base := DcBase(tbl);
      var st := base + context[ci];
      var nonzero := ArithDecode(st);
      if nonzero == 0 {
        context[ci] := 0;
        return true;
      }
      var sign := ArithDecode(st + 1);
      var m;
      ok, m, st := DecodeDcCategory(st + 2 + sign, base + 20);
      if !ok {
        NoValue(tab, Mag(ok, m, st, State()), sign);
        Flag();                                   // magnitude overflow
        return;
      }
      context[ci] := ContextOf(m, sign, scan.lower[tbl], scan.upper[tbl]);
      var v := DecodeValue(m, st, sign);
      lastDc[ci] := lastDc[ci] + v;
    }

    /** Decode_AC_coefficients (figure F.20) for a band, scaled by Al. */
    method DecodeAcBand(bd: Band, al: nat, block: array<int>) returns (ok: bool)
      requires Decoding() && GoodBand(bd) && block.Length == DCTSIZE2
      modifies this`c, this`a, this`ct, this`lastCt, this`input, this`unreadMarker, stats, block
      ensures BlockOut(ok, block[..], State()) == ReadAcFrom(tab, old(State()), bd, al, old(block[..]), bd.ss)
      ensures (ct == -1) == !ok
    {
      hide Dec.Decode, Dec.ValidState, SameMarker, ReadAcRun, Pow2;
      ghost var goal := ReadAcFrom(tab, State(), bd, al, block[..], bd.ss);
      var k := bd.ss;
      while k <= bd.se
        invariant bd.ss <= k && Decoding() && ReadAcFrom(tab, State(), bd, al, block[..], k) == goal
        decreases DCTSIZE2 - k
      {
        var eob := ArithDecode(At(bd, k));
        if eob == 1 {
          return true;
        }
        k := SkipZeros(bd, al, block, k, goal);
        if k > bd.se {
          Flag();                                 // spectral overflow
          return false;
        }
        ok := DecodeAcCoef(bd, al, block, k, goal);
        if !ok {
          Flag();                                 // magnitude overflow
          return;
        }
        k := k + 1;
      }
      ok := true;
    }

    /** while (arith_decode(cinfo, st + 1) == 0) { st += 3; k++; if (k > Se) fail; } */
    method SkipZeros(bd: Band, al: nat, block: array<int>, k0: nat, ghost goal: BlockOut) returns (k: nat)
      requires Decoding() && GoodBand(bd) && block.Length == DCTSIZE2 && 1 <= k0 <= bd.se
      requires ReadAcRun(tab, State(), bd, al, block[..], k0) == goal
      modifies this`c, this`a, this`ct, this`input, this`unreadMarker, stats
      ensures Decoding() && k0 <= k
      ensures if k > bd.se then BlockOut(false, block[..], State()) == goal
              else AfterRun(tab, State(), bd, al, block[..], k) == goal
    {
      hide Dec.Decode, Dec.ValidState, SameMarker, ReadAcFrom, Pow2, ReadAcCoef;
      k := k0;
      while true
        invariant Decoding() && k0 <= k <= bd.se && ReadAcRun(tab, State(), bd, al, block[..], k) == goal
        decreases bd.se - k
      {
        var found := ArithDecode(At(bd, k) + 1);
        if found == 1 {
          return;
        }
        k := k + 1;
        if k > bd.se {
          return;
        }
      }
    }

    /** Sign and value of coefficient k. */
    method DecodeAcCoef(bd: Band, al: nat, block: array<int>, k: nat, ghost goal: BlockOut) returns (ok: bool)
      requires Decoding() && GoodBand(bd) && block.Length == DCTSIZE2 && 1 <= k <= bd.se
      requires AfterRun(tab, State(), bd, al, block[..], k) == goal
      modifies this`c, this`a, this`ct, this`input, this`unreadMarker, stats, block
      ensures Decoding()
      ensures if ok then ReadAcFrom(tab, State(), bd, al, block[..], k + 1) == goal
              else BlockOut(false, block[..], State()) == goal
    {
      hide Dec.Decode, Dec.ValidState, SameMarker, ReadAcFrom, Pow2, ReadValue, ReadAcMagnitude;
      ghost var before: Block := block[..];
      var sign := ArithDecode(FIXED_BIN);
      var m, st;
      ok, m, st := DecodeAcCategory(At(bd, k) + 2, X2(bd, k));
      if ok {
        var v := DecodeValue(m, st, sign);
        block[k] := v * Pow2(al);
        assert block[..] == before[k := v * Pow2(al)];
      } else {
        NoValue(tab, Mag(ok, m, st, State()), sign);
      }
    }

    /** The refinement of a band (figure G.10), in place. */
    method RefineAcBand(bd: Band, al: nat, block: array<int>) returns (ok: bool)
      requires Decoding() && GoodBand(bd) && block.Length == DCTSIZE2
      modifies this`c, this`a, this`ct, this`lastCt, this`input, this`unreadMarker, stats, block
      ensures BlockOut(ok, block[..], State())
           == ReadRefFrom(tab, old(State()), bd, al, old(block[..]), bd.ss, LastNonzero(old(block[..]), bd.se))
      ensures (ct == -1) == !ok
    {
      hide Dec.Decode, Dec.ValidState, SameMarker, ReadRefRun, Pow2;
      var kex := FindEobx(block, bd.se);
      ghost var goal := ReadRefFrom(tab, State(), bd, al, block[..], bd.ss, kex);
      var k := bd.ss;
      while k <= bd.se
        invariant bd.ss <= k && Decoding() && ReadRefFrom(tab, State(), bd, al, block[..], k, kex) == goal
        decreases DCTSIZE2 - k
      {
        if k > kex {
          var eob := ArithDecode(At(bd, k));
          if eob == 1 {
            return true;
          }
        }
        k := RefineCoef(bd, al, block, k, kex, goal);
        if k > bd.se {
          Flag();                                 // spectral overflow
          return false;
        }
        k := k + 1;
      }
      ok := true;
    }

    /** for (kex = Se; kex > 0; kex--) if ((*block)[kex]) break; */
    method FindEobx(block: array<int>, se: nat) returns (kex: nat)
      requires block.Length == DCTSIZE2 && se < DCTSIZE2
      ensures kex == LastNonzero(block[..], se)
    {
      kex := se;
      while kex > 0
        invariant kex <= se && LastNonzero(block[..], se) == LastNonzero(block[..], kex)
      {
        if block[kex] != 0 {
          break;
        }
        kex := kex - 1;
      }
    }

    /** for (;;): on to the next coefficient that is refined or newly nonzero. */
    method RefineCoef(bd: Band, al: nat, block: array<int>, k0: nat, kex: nat, ghost goal: BlockOut) returns (k: nat)
      requires Decoding() && GoodBand(bd) && block.Length == DCTSIZE2 && 1 <= k0 <= bd.se
      requires ReadRefRun(tab, State(), bd, al, block[..], k0, kex) == goal
      modifies this`c, this`a, this`ct, this`input, this`unreadMarker, stats, block
      ensures Decoding() && k0 <= k
      ensures if k > bd.se then BlockOut(false, block[..], State()) == goal
              else ReadRefFrom(tab, State(), bd, al, block[..], k + 1, kex) == goal
    {
      hide Dec.Decode, Dec.ValidState, SameMarker, ReadRefFrom, Pow2;
      var p1: int := Pow2(al);
      k := k0;
      while true
        invariant Decoding() && k0 <= k <= bd.se && ReadRefRun(tab, State(), bd, al, block[..], k, kex) == goal
        decreases bd.se - k
      {
        ghost var before: Block := block[..];
        if block[k] != 0 {
          var more := ArithDecode(At(bd, k) + 2);
          if more == 1 {
            block[k] := if block[k] < 0 then block[k] - p1 else block[k] + p1;
          }
          assert block[..] == before[k := block[k]];
          return;
        }
        var found := ArithDecode(At(bd, k) + 1);
        if found == 1 {
          var negative := ArithDecode(FIXED_BIN);
          block[k] := if negative == 1 then -p1 else p1;
          assert block[..] == before[k := block[k]];
          return;
        }
        k := k + 1;
        if k > bd.se {
          return;
        }
      }
    }

    /** The AC coefficients of block i. */
    method DecodeAcPart(i: nat, block: array<int>) returns (ok: bool)
      requires Decoding() && GoodScan(scan) && Shaped() && i < |scan.membership|
      requires !scan.kind.DcFirst? && !scan.kind.DcRefine?
      requires block.Length == DCTSIZE2 && block != lastDc
      modifies this`c, this`a, this`ct, this`lastCt, this`input, this`unreadMarker, stats, block
      ensures BlockRead(ok, block[..], Prediction(), State())
           == ReadAcPart(tab, old(State()), scan, old(Prediction()), i, old(block[..]))
      ensures (ct == -1) == !ok
    {
      hide Dec.Decode, Dec.ValidState, SameMarker, ReadRefFrom, ReadAcFrom, LastNonzero;
      BandGood(scan, i);
      var tbl := scan.acTbl[scan.membership[i]];
      var bd := if scan.kind.Sequential? then Band(AcBase(tbl), scan.kx[tbl], 1, DCTSIZE2 - 1)
                else Band(AcBase(tbl), scan.kx[tbl], scan.ss, scan.se);
      if scan.kind.AcRefine? {
        ok := RefineAcBand(bd, scan.al, block);
      } else {
        ok := DecodeAcBand(bd, if scan.kind.AcFirst? then scan.al else 0, block);
      }
    }

    /** Block i of an MCU, by the routine that start_pass selected. */
    method DecodeBlock(i: nat, block: array<int>) returns (ok: bool)
      requires Decoding() && GoodScan(scan) && Shaped() && i < |scan.membership|
      requires block.Length == DCTSIZE2 && block != lastDc
      modifies this`c, this`a, this`ct, this`lastCt, this`input, this`unreadMarker, stats, lastDc, context, block
      ensures BlockRead(ok, block[..], Prediction(), State())
           == ReadBlock(tab, old(State()), scan, old(Prediction()), i, old(block[..]))
      ensures (ct == -1) == !ok && (scan.kind.DcRefine? ==> ok)
    {
      hide Dec.Decode, Dec.ValidState, SameMarker, ReadDcPart, ReadAcPart;
      match scan.kind {
        case Sequential =>
          ok := DecodeDcPart(i, block);
          if ok {
            ok := DecodeAcPart(i, block);
          }
        case DcFirst =>
          ok := DecodeDcPart(i, block);
        case DcRefine =>
          var more := ArithDecode(FIXED_BIN);
          if more == 1 {
            block[0] := OrBit(block[0], scan.al);
          }
          ok := true;
        case AcFirst =>
          ok := DecodeAcPart(i, block);
        case AcRefine =>
          ok := DecodeAcPart(i, block);
      }
    }

    // ---- Segments and MCUs ----

    /** jinit_arith_decoder. */
    constructor (tab: seq<nat>, scan: Scan, interval: nat)
      ensures this.tab == tab && this.scan == scan && this.interval == interval
      ensures fresh(stats) && fresh(lastDc) && fresh(context)
      ensures stats[..] == InitialStats() && Prediction() == ZeroPred(scan)
    {
      this.tab, this.scan, this.interval := tab, scan, interval;
      stats := new byte[BINS](i => if i == FIXED_BIN then FIXED_STATE else 0);
      lastDc := new int[|scan.dcTbl|](i => 0);
      context := new nat[|scan.dcTbl|](i => 0);
      c, a, ct := 0, 0, -16;
      input, unreadMarker, lost := [], 0, false;
      restartsToGo, nextRestartNum := 0, 0;
      new;
      assert stats[..] == InitialStats();
    }

    /** start_pass, with the source manager about to deliver `data`. */
    method StartPass(data: seq<byte>)
      requires ValidTable(tab) && |tab| > 0 && ValidStats(tab, stats[..]) && stats.Length == BINS
      requires GoodScan(scan) && Shaped()
      modifies this, stats, lastDc, context
      ensures Valid() && View() == StartDecoder(tab, scan, interval, old(stats[..]), old(Prediction()), data)
    {
      hide ResetStats, ResetPred, Dec.Valid, ValidTable, ValidStats;
      StartSegment();
      Dec.StartValid(Source(data, 0));
      input, unreadMarker := data, 0;
      restartsToGo := interval;
      nextRestartNum := 0;
      lost := false;
    }

    /** Statistics areas, predictions and the decoding variables. */
    method StartSegment()
      requires GoodScan(scan) && stats.Length == BINS && |tab| > 0 && ValidStats(tab, stats[..]) && Shaped()
      modifies stats, lastDc, context, this`c, this`a, this`ct
      ensures Regs() == Dec.Start(Source(input, unreadMarker)) && ct == -16
      ensures stats[..] == ResetStats(scan, old(stats[..])) && ValidStats(tab, stats[..])
      ensures Prediction() == ResetPred(scan, old(Prediction())) && Shaped()
    {
      hide ResetStats, ResetPred, ValidStats;
      ResetGood(tab, scan, stats[..], Prediction());
      ResetAreas(scan, stats, lastDc, context);
      c := 0;
      a := 0;
      ct := -16;                                  // force reading 2 initial bytes to fill C
    }

    /** process_restart; read_restart_marker is reduced to finding the next marker
        and comparing it with the expected one. */
    method ProcessRestart()
      requires Valid() && !lost
      modifies this, stats, lastDc, context
      ensures Valid() && View() == ScanCoding.ProcessRestart(tab, scan, interval, old(View()))
      ensures !lost ==> restartsToGo == interval
    {
      hide ResetStats, ResetPred, Dec.Valid, ValidTable, ValidStats, NextMarker, GoodScan;
      var found := NextMarker(Source(input, unreadMarker));
      if found.b != RST0 + nextRestartNum {
        lost := true;
        return;
      }
      StartSegment();
      Dec.StartValid(Source(found.data, 0));
      input, unreadMarker := found.data, 0;
      restartsToGo := interval;
      nextRestartNum := (nextRestartNum + 1) % 8;
    }

    /** decode_mcu and its four progressive versions: the blocks are filled in (or
        improved) in place. */
    method DecodeMcu(blks: seq<array<int>>, ghost curs: Mcu)
      requires Valid() && !lost && |blks| == |scan.membership| && Holding(blks, curs)
      requires lastDc !in blks
      modifies this, stats, lastDc, context, set b | b in blks
      ensures Valid()
      ensures var r := ScanCoding.DecodeMcu(tab, scan, interval, old(View()), curs);
              View() == r.ds && Holding(blks, r.blks)
      ensures interval == 0 || old(restartsToGo) > 0 ==>
                forall i :: 0 <= i < BINS && !Bins.MayUse(scan, i) ==> stats[i] == old(stats[i])
    {
      hide Dec.Valid, ValidTable, ValidStats, GoodScan, ReadMcu, ScanCoding.ProcessRestart, Bins.MayUse;
      ghost var was := View();
      DecodeMcuBlocks(blks, curs);
      if interval == 0 || was.togo > 0 {
        Bins.DecodeMcuConfined(tab, scan, interval, was, was, curs);
        assert View().s.stats == stats[..] && was.s.stats == old(stats[..]);
      }
    }

    method DecodeMcuBlocks(blks: seq<array<int>>, ghost curs: Mcu)
      requires Valid() && !lost && |blks| == |scan.membership| && Holding(blks, curs)
      requires lastDc !in blks
      modifies this, stats, lastDc, context, set b | b in blks
      ensures Valid()
      ensures var r := ScanCoding.DecodeMcu(tab, scan, interval, old(View()), curs);
              View() == r.ds && Holding(blks, r.blks)
    {
      hide Dec.Valid, ValidTable, ValidStats, GoodScan, ReadMcu, ScanCoding.ProcessRestart;
      if interval > 0 {
        if restartsToGo == 0 {
          ProcessRestart();
          if lost {
            return;
          }
        }
        restartsToGo := restartsToGo - 1;
      }
      if ct == -1 {
        return;
      }
      DecodeBlocks(blks, curs);
    }

    /** The outer loop: each block of the MCU. */
    method DecodeBlocks(blks: seq<array<int>>, ghost curs: Mcu)
      requires Valid() && ct != -1 && |blks| == |scan.membership| && Holding(blks, curs)
      requires lastDc !in blks
      modifies this`c, this`a, this`ct, this`lastCt, this`input, this`unreadMarker
      modifies stats, lastDc, context, set b | b in blks
      ensures Valid()
      ensures var r := ReadMcu(tab, old(State()), scan, old(Prediction()), 0, curs);
              && Holding(blks, r.blks) && Prediction() == r.p && State() == r.s && (ct == -1) == !r.ok
    {
      hide Dec.Valid, ValidTable, ValidStats, GoodScan, ReadBlock;
      ghost var goal := ReadMcu(tab, State(), scan, Prediction(), 0, curs);
      ghost var now: Mcu := curs;
      for blkn := 0 to |blks|
        invariant Valid() && ct != -1 && Holding(blks, now)
        invariant ReadMcu(tab, State(), scan, Prediction(), blkn, now) == goal
      {
        var ok := DecodeBlock(blkn, blks[blkn]);
        now := now[blkn := blks[blkn][..]];
        if !ok {
          return;
        }
      }
    }

    ghost predicate Shaped()
      reads this, stats, lastDc, context
    {
      lastDc.Length == context.Length == |scan.dcTbl| && GoodPred(scan, Prediction())
    }
  }

  /** The blocks are different arrays and hold these coefficients. */
  ghost predicate Holding(blks: seq<array<int>>, curs: Mcu)
    reads set b | b in blks
  {
    && |blks| == |curs|
    && (forall i, j :: 0 <= i < j < |blks| ==> blks[i] != blks[j])
    && forall i :: 0 <= i < |blks| ==> blks[i].Length == DCTSIZE2 && blks[i][..] == curs[i]
  }

  /** The registers have a renormalised form. */
  ghost predicate Startable(d: Dec.Regs) {
    (d.a == 0 ==> d.ct == -16 || d.ct == -8) && (d.a > 0 ==> d.ct >= 0)
  }

  lemma CategoryStep(n: nat)
    requires n <= 14
    ensures 2 * Pow2(n) == Pow2(n + 1) && (Pow2(n + 1) == 0x8000 <==> n == 14)
  {
    Pow2Values();
    assert Pow2(16) == 2 * Pow2(15);
    if n < 14 {
      CategoryFits(n + 1);
    }
  }

  /** What ReadAcRun does once it has found the next coefficient. */
  ghost function AfterRun(tab: seq<nat>, s: Dec.State, bd: Band, al: nat, blk: Block, k: nat): (r: BlockOut)
    requires Ready(tab, s) && GoodBand(bd) && 1 <= k <= bd.se
  {
    var c := ReadAcCoef(tab, s, bd, k);
    if !c.ok then BlockOut(false, blk, c.s)
    else ReadAcFrom(tab, c.s, bd, al, blk[k := c.v * Pow2(al)], k + 1)
  }

  lemma NoValue(tab: seq<nat>, mag: Mag, sign: bit)
    requires Ready(tab, mag.s) && mag.st + 14 < BINS && !mag.ok
    ensures ReadValue(tab, mag, sign) == Coef(false, 0, mag.m, mag.s)
  {
  }
}
