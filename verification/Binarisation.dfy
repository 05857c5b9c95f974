/** How coefficients become binary decisions and back: the magnitude trees of
    T.81 figures F.6 to F.9 and F.21 to F.24, as jcarith.c writes them and
    jdarith.c reads them. */
module Binarisation {
  import opened Numbers
  import opened ProbabilityTable
  import opened IntervalCoder
  import opened ByteSource
  import opened DecoderRegisters

  const NUM_ARITH_TBLS := 16
  const DC_STAT_BINS := 64
  const AC_STAT_BINS := 256

  /** The statistics areas laid out one after the other: DC tables, AC tables,
      and the bin with the fixed estimate. */
  function DcBase(tbl: nat): nat { tbl * DC_STAT_BINS }

  function AcBase(tbl: nat): nat { NUM_ARITH_TBLS * DC_STAT_BINS + tbl * AC_STAT_BINS }

  const FIXED_BIN := NUM_ARITH_TBLS * DC_STAT_BINS + NUM_ARITH_TBLS * AC_STAT_BINS
  const BINS := FIXED_BIN + 1

  function SignBit(v: int): bit { if v < 0 then 1 else 0 }

  /** The number of shifts of `while (v2 >>= 1)`. */
  function Log2(w: nat): (n: nat)
    requires w > 0
    ensures Pow2(n) <= w < 2 * Pow2(n)
  {
    if w == 1 then 0 else 1 + Log2(w / 2)
  }

  // ---- The encoder's decisions ----

  /** n ones in successive bins and a closing zero. */
  function Unary(st: nat, n: nat): (x: seq<Decision>)
    decreases n
  {
    if n == 0 then [Decision(st, 0)] else [Decision(st, 1)] + Unary(st + 1, n - 1)
  }

  /** The bits of w below the bit m, most significant first, all in one bin. */
  function Pattern(st: nat, w: nat, m: nat): (x: seq<Decision>)
    decreases m
  {
    if m / 2 == 0 then [] else [Decision(st, w / (m / 2) % 2)] + Pattern(st, w, m / 2)
  }

  /** The magnitude w + 1 of a DC difference; st is SP or SN, x1 is X1. */
  function DcMagnitude(st: nat, x1: nat, w: nat): (x: seq<Decision>) {
    if w == 0 then [Decision(st, 0)]
    else [Decision(st, 1)] + (Unary(x1, Log2(w)) + Pattern(x1 + Log2(w) + 14, w, Pow2(Log2(w))))
  }

  /** Encode_DC_DIFF. */
  function DcDecisions(base: nat, ctx: nat, v: int): (x: seq<Decision>) {
    var st := base + ctx;
    if v == 0 then [Decision(st, 0)]
    else
      [Decision(st, 1)] +
      ([Decision(st + 1, SignBit(v))] + DcMagnitude(st + 2 + SignBit(v), base + 20, Abs(v) - 1))
  }

  /** The conditioning category after a difference v (F.1.4.4.1.2). */
  function DcContext(v: int, lower: nat, upper: nat): (ctx: nat) {
    if v == 0 then 0
    else
      var m := Category(Abs(v) - 1);
      if m < Pow2(lower) / 2 then 0
      else if m > Pow2(upper) / 2 then 12 + 4 * SignBit(v)
      else 4 + 4 * SignBit(v)
  }

  /** The variable m of the magnitude loops: the top bit of w. */
  function Category(w: nat): nat { if w == 0 then 0 else Pow2(Log2(w)) }

  /** The magnitude w + 1 of an AC coefficient; x is X2's base, 189 or 217. */
  function AcMagnitude(st: nat, x: nat, w: nat): (s: seq<Decision>) {
    if w == 0 then [Decision(st, 0)]
    else if w == 1 then [Decision(st, 1)] + [Decision(st, 0)]
    else
      var n := Log2(w) - 1;
      [Decision(st, 1)] + ([Decision(st, 1)] + (Unary(x, n) + Pattern(x + n + 14, w, Pow2(Log2(w)))))
  }

  // ---- The decoder's loops ----

  /** A magnitude being read: the category m, the bin reached, and whether the
      category overflowed ("magnitude overflow", after which nothing is decoded). */
  datatype Mag = Mag(ok: bool, m: nat, st: nat, s: State)

  ghost predicate Ready(tab: seq<nat>, s: State) {
    ValidState(tab, s) && |s.stats| == BINS
  }

  ghost predicate SameMarker(s: State, t: State) {
    NextMarker(t.d.src) == NextMarker(s.d.src)
  }

  /** while (arith_decode(cinfo, st)) { if ((m <<= 1) == 0x8000) fail; st += 1; }
      with m == Pow2(n). */
  ghost function ReadUnary(tab: seq<nat>, s: State, st: nat, n: nat): (r: Mag)
    requires Ready(tab, s) && n <= 14 && st + 14 - n < BINS
    ensures Ready(tab, r.s) && SameMarker(s, r.s)
    ensures r.ok ==> r.m < 0x8000
    ensures st <= r.st <= st + 14 - n
    decreases 15 - n
  {
    var d := Decode(tab, s, st);
    if d.val == 0 then (CategoryFits(n); Mag(true, Pow2(n), st, d.s))
    else if n + 1 == 15 then Mag(false, 0x8000, st, d.s)
    else ReadUnary(tab, d.s, st + 1, n + 1)
  }

  lemma CategoryFits(n: nat)
    requires n <= 14
    ensures Pow2(n) < 0x8000
  {
    Pow2Values();
    Pow2Mono(n, 14);
    assert Pow2(16) == 4 * Pow2(14);
  }

  /** v |= m for a bit m. */
  function SetBit(v: nat, m: nat): nat
    requires m > 0
  {
    if v / m % 2 == 1 then v else v + m
  }

  datatype Bits = Bits(v: nat, s: State)

  /** while (m >>= 1) if (arith_decode(cinfo, st)) v |= m; */
  ghost function ReadPattern(tab: seq<nat>, s: State, st: nat, m: nat, v: nat): (r: Bits)
    requires Ready(tab, s) && st < BINS
    ensures Ready(tab, r.s) && SameMarker(s, r.s)
    decreases m
  {
    if m / 2 == 0 then Bits(v, s)
    else
      var d := Decode(tab, s, st);
      ReadPattern(tab, d.s, st, m / 2, if d.val == 1 then SetBit(v, m / 2) else v)
  }

  /** What a DC difference or an AC coefficient decodes to. */
  datatype Coef = Coef(ok: bool, v: int, m: nat, s: State)

  /** The category is known: read the pattern and apply the sign. */
  ghost function ReadValue(tab: seq<nat>, mag: Mag, sign: bit): (r: Coef)
    requires Ready(tab, mag.s) && mag.st + 14 < BINS
    ensures Ready(tab, r.s) && SameMarker(mag.s, r.s) && r.ok == mag.ok
  {
    if !mag.ok then Coef(false, 0, mag.m, mag.s)
    else
      var b := ReadPattern(tab, mag.s, mag.st + 14, mag.m, mag.m);
      Coef(true, if sign == 1 then -(b.v + 1) else b.v + 1, mag.m, b.s)
  }

  /** The magnitude category of a DC difference. */
  ghost function ReadDcMagnitude(tab: seq<nat>, s: State, st: nat, x1: nat): (r: Mag)
    requires Ready(tab, s) && st + 14 < BINS && x1 + 28 < BINS
    ensures Ready(tab, r.s) && SameMarker(s, r.s)
    ensures r.st == st || x1 <= r.st <= x1 + 14
  {
    var d := Decode(tab, s, st);
    if d.val == 0 then Mag(true, 0, st, d.s) else ReadUnary(tab, d.s, x1, 0)
  }

  datatype Diff = Diff(ok: bool, v: int, ctx: nat, s: State)

  function ContextOf(m: nat, sign: bit, lower: nat, upper: nat): (ctx: nat)
    ensures ctx <= 16
  {
    if m < Pow2(lower) / 2 then 0
    else if m > Pow2(upper) / 2 then 12 + 4 * sign
    else 4 + 4 * sign
  }

  /** Decode_DC_DIFF. */
  ghost function ReadDc(tab: seq<nat>, s: State, base: nat, ctx: nat, lower: nat, upper: nat): (r: Diff)
    requires Ready(tab, s) && base + 48 < BINS && ctx <= 16
    ensures Ready(tab, r.s) && SameMarker(s, r.s) && r.ctx <= 16
  {
    var d0 := Decode(tab, s, base + ctx);
    if d0.val == 0 then Diff(true, 0, 0, d0.s)
    else
      var d1 := Decode(tab, d0.s, base + ctx + 1);
      var mag := ReadDcMagnitude(tab, d1.s, base + ctx + 2 + d1.val, base + 20);
      var c := ReadValue(tab, mag, d1.val);
      if !c.ok then Diff(false, 0, ctx, c.s)
      else Diff(true, c.v, ContextOf(c.m, d1.val, lower, upper), c.s)
  }

  /** The magnitude of an AC coefficient; x is 189 or 217 into the table's area. */
  ghost function ReadAcMagnitude(tab: seq<nat>, s: State, st: nat, x: nat): (r: Mag)
    requires Ready(tab, s) && st + 14 < BINS && x + 27 < BINS
    ensures Ready(tab, r.s) && SameMarker(s, r.s)
    ensures r.st == st || x <= r.st <= x + 13
  {
    var d0 := Decode(tab, s, st);
    if d0.val == 0 then Mag(true, 0, st, d0.s)
    else
      var d1 := Decode(tab, d0.s, st);
      if d1.val == 0 then Mag(true, 1, st, d1.s) else ReadUnary(tab, d1.s, x, 1)
  }

  // ---- Reading back what was written ----

  /** The decoder is about to decode `script` and will end with the bins `end`. */
  ghost predicate Follows(tab: seq<nat>, s: State, script: seq<Decision>, end: seq<byte>) {
    Ready(tab, s) && Synced(tab, s, script) && EndOf(tab, s, script) == end
  }

  lemma FollowsReady(tab: seq<nat>, s: State, script: seq<Decision>, end: seq<byte>)
    requires Follows(tab, s, script, end)
    ensures Ready(tab, s) && ValidScript(script, BINS)
    ensures script == [] ==> s.stats == end
  {
    SyncedBasics(tab, s, script);
  }

  /** One decision: it is returned, and the rest follows. */
  lemma Next(tab: seq<nat>, s: State, x: Decision, more: seq<Decision>, rest: seq<Decision>, end: seq<byte>)
    requires Follows(tab, s, [x] + more + rest, end)
    ensures Ready(tab, s) && x.bin < BINS
    ensures var d := Decode(tab, s, x.bin);
            d.val == x.val && Follows(tab, d.s, more + rest, end)
  {
    hide Synced, Decode;
    var script := [x] + more + rest;
    SyncedBasics(tab, s, script);
    DecodeSynced(tab, s, script);
    assert script[1..] == more + rest;
  }

  /** The last decision of a group. */
  lemma Last(tab: seq<nat>, s: State, x: Decision, rest: seq<Decision>, end: seq<byte>)
    requires Follows(tab, s, [x] + rest, end)
    ensures Ready(tab, s) && x.bin < BINS
    ensures var d := Decode(tab, s, x.bin);
            d.val == x.val && Follows(tab, d.s, rest, end)
  {
    hide Synced, Decode;
    assert [x] + rest == [x] + [] + rest;
    Next(tab, s, x, [], rest, end);
    assert [] + rest == rest;
  }

  lemma {:induction false} UnaryRead(tab: seq<nat>, s: State, st: nat, n: nat, k: nat,
                                     rest: seq<Decision>, end: seq<byte>)
    requires Follows(tab, s, Unary(st, k) + rest, end) && n + k <= 14 && st + 14 - n < BINS
    ensures Ready(tab, s)
    ensures var r := ReadUnary(tab, s, st, n);
            r == Mag(true, Pow2(n + k), st + k, r.s) && Follows(tab, r.s, rest, end)
    decreases k
  {
    hide Follows, Decode, ValidState, SameMarker, NextMarker, Pow2;
    FollowsReady(tab, s, Unary(st, k) + rest, end);
    if k == 0 {
      Last(tab, s, Decision(st, 0), rest, end);
    } else {
      Next(tab, s, Decision(st, 1), Unary(st + 1, k - 1), rest, end);
      UnaryRead(tab, Decode(tab, s, st).s, st + 1, n + 1, k - 1, rest, end);
    }
  }

  lemma {:induction false} PatternRead(tab: seq<nat>, s: State, st: nat, w: nat, n: nat, v: nat,
                                       rest: seq<Decision>, end: seq<byte>)
    requires Follows(tab, s, Pattern(st, w, Pow2(n)) + rest, end) && v % Pow2(n) == 0 && st < BINS
    ensures Ready(tab, s)
    ensures var r := ReadPattern(tab, s, st, Pow2(n), v);
            r.v == v + w % Pow2(n) && Follows(tab, r.s, rest, end)
    decreases n
  {
    hide Follows, Decode, ValidState, SameMarker, NextMarker;
    var m := Pow2(n);
    FollowsReady(tab, s, Pattern(st, w, m) + rest, end);
    if n == 0 {
      assert m == 1 && Pattern(st, w, m) + rest == rest;
    } else {
      var h := Pow2(n - 1);
      assert m / 2 == h;
      Next(tab, s, Decision(st, w / h % 2), Pattern(st, w, h), rest, end);
      BitClear(v, h);
      TopBit(w, h);
      var d := Decode(tab, s, st);
      PatternRead(tab, d.s, st, w, n - 1, if d.val == 1 then SetBit(v, h) else v, rest, end);
    }
  }

  /** Category and pattern together give back the magnitude. */
  lemma ValueRead(tab: seq<nat>, s: State, st: nat, w: nat, sign: bit, rest: seq<Decision>, end: seq<byte>)
    requires w > 0 && st + 14 < BINS
    requires Follows(tab, s, Pattern(st + 14, w, Pow2(Log2(w))) + rest, end)
    ensures Ready(tab, s)
    ensures var r := ReadValue(tab, Mag(true, Pow2(Log2(w)), st, s), sign);
            && r.ok && r.m == Pow2(Log2(w)) && r.v == (if sign == 1 then -(w + 1) else w + 1)
            && Follows(tab, r.s, rest, end)
  {
    hide Follows, Ready;
    var n := Log2(w);
    DivModUnique(Pow2(n), Pow2(n), 1, 0);
    DivModUnique(w, Pow2(n), 1, w - Pow2(n));
    PatternRead(tab, s, st + 14, w, n, Pow2(n), rest, end);
  }

  lemma ZeroValue(tab: seq<nat>, s: State, st: nat, m: nat, sign: bit)
    requires Ready(tab, s) && m <= 1 && st + 14 < BINS
    ensures ReadValue(tab, Mag(true, m, st, s), sign) == Coef(true, if sign == 1 then -(m + 1) else m + 1, m, s)
  {
  }

  lemma Log2Fits(w: nat)
    requires 0 < w < 0x8000
    ensures Log2(w) <= 14 && (w >= 2 ==> Log2(w) >= 1)
  {
    Pow2Values();
    assert Pow2(16) == 2 * Pow2(15);
    if Log2(w) >= 15 {
      Pow2Mono(15, Log2(w));
    }
  }

  lemma DcMagnitudeRead(tab: seq<nat>, s: State, st: nat, x1: nat, w: nat, sign: bit,
                        rest: seq<Decision>, end: seq<byte>)
    requires Follows(tab, s, DcMagnitude(st, x1, w) + rest, end)
    requires w < 0x8000 && st + 14 < BINS && x1 + 28 < BINS
    ensures Ready(tab, s)
    ensures var r := ReadValue(tab, ReadDcMagnitude(tab, s, st, x1), sign);
            && r.ok && r.m == Category(w) && r.v == (if sign == 1 then -(w + 1) else w + 1)
            && Follows(tab, r.s, rest, end)
  {
    hide Follows, Decode, ValidState, SameMarker, NextMarker, Pow2, Unary, Pattern, ReadValue, ReadUnary, Log2;
    FollowsReady(tab, s, DcMagnitude(st, x1, w) + rest, end);
    if w == 0 {
      Last(tab, s, Decision(st, 0), rest, end);
      ZeroValue(tab, Decode(tab, s, st).s, st, 0, sign);
    } else {
      var n := Log2(w);
      Log2Fits(w);
      var pattern := Pattern(x1 + n + 14, w, Pow2(n));
      Next(tab, s, Decision(st, 1), Unary(x1, n) + pattern, rest, end);
      assert Unary(x1, n) + pattern + rest == Unary(x1, n) + (pattern + rest);
      var s1 := Decode(tab, s, st).s;
      UnaryRead(tab, s1, x1, 0, n, pattern + rest, end);
      ValueRead(tab, ReadUnary(tab, s1, x1, 0).s, x1 + n, w, sign, rest, end);
    }
  }

  /** Decode_DC_DIFF inverts Encode_DC_DIFF and sets the same context. */
  lemma DcRead(tab: seq<nat>, s: State, base: nat, ctx: nat, v: int, lower: nat, upper: nat,
               rest: seq<Decision>, end: seq<byte>)
    requires Follows(tab, s, DcDecisions(base, ctx, v) + rest, end)
    requires Abs(v) <= 0x8000 && base + 48 < BINS && ctx <= 16
    ensures Ready(tab, s)
    ensures var r := ReadDc(tab, s, base, ctx, lower, upper);
            && r.ok && r.v == v && r.ctx == DcContext(v, lower, upper)
            && Follows(tab, r.s, rest, end)
  {
    hide Follows, Decode, ValidState, SameMarker, NextMarker, Pow2, DcMagnitude, ReadValue, ReadDcMagnitude, Category;
    var st := base + ctx;
    FollowsReady(tab, s, DcDecisions(base, ctx, v) + rest, end);
    if v == 0 {
      Last(tab, s, Decision(st, 0), rest, end);
    } else {
      var sign := SignBit(v);
      var mag := DcMagnitude(st + 2 + sign, base + 20, Abs(v) - 1);
      Next(tab, s, Decision(st, 1), [Decision(st + 1, sign)] + mag, rest, end);
      var s1 := Decode(tab, s, st).s;
      Next(tab, s1, Decision(st + 1, sign), mag, rest, end);
      DcMagnitudeRead(tab, Decode(tab, s1, st + 1).s, st + 2 + sign, base + 20, Abs(v) - 1, sign, rest, end);
    }
  }

  lemma AcMagnitudeRead(tab: seq<nat>, s: State, st: nat, x: nat, w: nat, sign: bit,
                        rest: seq<Decision>, end: seq<byte>)
    requires Follows(tab, s, AcMagnitude(st, x, w) + rest, end)
    requires w < 0x8000 && st + 14 < BINS && x + 27 < BINS
    ensures Ready(tab, s)
    ensures var r := ReadValue(tab, ReadAcMagnitude(tab, s, st, x), sign);
            && r.ok && r.v == (if sign == 1 then -(w + 1) else w + 1)
            && Follows(tab, r.s, rest, end)
  {
    hide Follows, Decode, ValidState, SameMarker, NextMarker, Pow2, Unary, Pattern, ReadValue, ReadUnary, Log2;
    FollowsReady(tab, s, AcMagnitude(st, x, w) + rest, end);
    if w == 0 {
      Last(tab, s, Decision(st, 0), rest, end);
      ZeroValue(tab, Decode(tab, s, st).s, st, 0, sign);
    } else if w == 1 {
      Next(tab, s, Decision(st, 1), [Decision(st, 0)], rest, end);
      var s1 := Decode(tab, s, st).s;
      Last(tab, s1, Decision(st, 0), rest, end);
      ZeroValue(tab, Decode(tab, s1, st).s, st, 1, sign);
    } else {
      var n := Log2(w);
      Log2Fits(w);
      var pattern := Pattern(x + n - 1 + 14, w, Pow2(n));
      var tail := Unary(x, n - 1) + pattern;
      Next(tab, s, Decision(st, 1), [Decision(st, 1)] + tail, rest, end);
      var s1 := Decode(tab, s, st).s;
      Next(tab, s1, Decision(st, 1), tail, rest, end);
      assert tail + rest == Unary(x, n - 1) + (pattern + rest);
      var s2 := Decode(tab, s1, st).s;
      UnaryRead(tab, s2, x, 1, n - 1, pattern + rest, end);
      ValueRead(tab, ReadUnary(tab, s2, x, 1).s, x + n - 1, w, sign, rest, end);
    }
  }

  // ---- Magnitudes that are too large ----

  lemma {:induction false} UnaryOverflows(tab: seq<nat>, s: State, st: nat, n: nat, k: nat,
                                          rest: seq<Decision>, end: seq<byte>)
    requires Follows(tab, s, Unary(st, k) + rest, end) && n <= 14 && n + k >= 15 && st + 14 - n < BINS
    ensures Ready(tab, s) && !ReadUnary(tab, s, st, n).ok
    decreases k
  {
    hide Follows, Decode, ValidState, SameMarker, NextMarker, Pow2;
    FollowsReady(tab, s, Unary(st, k) + rest, end);
    Next(tab, s, Decision(st, 1), Unary(st + 1, k - 1), rest, end);
    if n < 14 {
      UnaryOverflows(tab, Decode(tab, s, st).s, st + 1, n + 1, k - 1, rest, end);
    }
  }

  lemma Log2Large(w: nat)
    requires w >= 0x8000
    ensures Log2(w) >= 15
  {
    Pow2Values();
    assert Pow2(16) == 2 * Pow2(15);
    if Log2(w) < 15 {
      Pow2Mono(Log2(w), 14);
    }
  }

  /** A DC difference beyond 2^15 is written, but the decoder reports a magnitude
      overflow: the bound of DcRead is exact. */
  lemma DcOverflows(tab: seq<nat>, s: State, base: nat, ctx: nat, v: int, lower: nat, upper: nat,
                    rest: seq<Decision>, end: seq<byte>)
    requires Follows(tab, s, DcDecisions(base, ctx, v) + rest, end)
    requires Abs(v) > 0x8000 && base + 48 < BINS && ctx <= 16
    ensures Ready(tab, s) && !ReadDc(tab, s, base, ctx, lower, upper).ok
  {
    hide Follows, Decode, ValidState, SameMarker, NextMarker, Pow2, Unary, Pattern, Log2, ReadUnary, ReadPattern;
    var st, sign, w := base + ctx, SignBit(v), Abs(v) - 1;
    var mag := DcMagnitude(st + 2 + sign, base + 20, w);
    FollowsReady(tab, s, DcDecisions(base, ctx, v) + rest, end);
    Next(tab, s, Decision(st, 1), [Decision(st + 1, sign)] + mag, rest, end);
    var s1 := Decode(tab, s, st).s;
    Next(tab, s1, Decision(st + 1, sign), mag, rest, end);
    var s2 := Decode(tab, s1, st + 1).s;
    var n := Log2(w);
    Log2Large(w);
    var pattern := Pattern(base + 20 + n + 14, w, Pow2(n));
    Next(tab, s2, Decision(st + 2 + sign, 1), Unary(base + 20, n) + pattern, rest, end);
    assert Unary(base + 20, n) + pattern + rest == Unary(base + 20, n) + (pattern + rest);
    UnaryOverflows(tab, Decode(tab, s2, st + 2 + sign).s, base + 20, 0, n, pattern + rest, end);
  }
}
