/** The registers of arith_encode (jcarith.c): C with its spacer bits, the
    shift counter, the most recent byte, the stacked 0xFF bytes and the deferred
    zero bytes, and the proof that they denote the exact interval base. */
module EncoderRegisters {
  import opened Numbers
  import opened ProbabilityTable
  import opened IntervalCoder

  /** `done` is what has been written so far with the stuffing removed;
      buffer == -1 means that no byte has been produced yet. */
  datatype Regs = Regs(c: nat, a: nat, sc: nat, zc: nat, ct: nat, buffer: int, done: seq<byte>)

  /** start_pass and emit_restart set the registers like this. */
  const START := Regs(0, 0x10000, 0, 0, 11, -1, [])

  /** emit_byte stores the low eight bits of its argument. */
  function BufferByte(buffer: int): (s: seq<byte>) {
    if buffer >= 0 then [buffer % 256] else []
  }

  /** Every byte that the registers stand for, written or pending. */
  function Pending(e: Regs): (s: seq<byte>) {
    e.done + Repeat(0, e.zc) + BufferByte(e.buffer) + Repeat(255, e.sc)
  }

  /** Write the deferred zeros and then b, if anything but an empty buffer is held. */
  function FlushByte(e: Regs, b: int): (r: Regs)
  {
    if e.buffer < 0 then e else e.(done := e.done + Repeat(0, e.zc) + BufferByte(b), zc := 0)
  }

  /** A carry: the buffered byte is incremented and the stacked 0xFF turn to 0x00. */
  function Carry(e: Regs): (r: Regs)
  {
    var f := FlushByte(e, e.buffer + 1);
    f.(zc := f.zc + f.sc, sc := 0)
  }

  /** The buffered byte is final: a zero is deferred, anything else is written. */
  function Held(e: Regs): (f: Regs) {
    if e.buffer == 0 then e.(zc := e.zc + 1) else FlushByte(e, e.buffer)
  }

  /** No carry: so are the stacked 0xFF. */
  function Settle(e: Regs): (r: Regs)
  {
    var f := Held(e);
    if f.sc > 0 then
      f.(done := f.done + Repeat(0, f.zc) + Repeat(255, f.sc), zc := 0, sc := 0)
    else
      f
  }

  /** "Another byte is ready for output": take the top byte off C. */
  function ByteOut(e: Regs): (r: Regs)
  {
    var temp := e.c / 0x80000;
    var f :=
      if temp > 0xFF then Carry(e).(buffer := temp % 256)
      else if temp == 0xFF then e.(sc := e.sc + 1)
      else Settle(e).(buffer := temp % 256);
    f.(c := e.c % 0x80000, ct := e.ct + 8)
  }

  /** One round of the renormalisation loop. */
  function Shift(e: Regs): (r: Regs)
    requires e.ct > 0
    ensures r.ct > 0 && r.a == 2 * e.a
  {
    var f := e.(a := 2 * e.a, c := 2 * e.c, ct := e.ct - 1);
    if f.ct == 0 then ByteOut(f) else f
  }

  // ---- What the registers denote ----

  ghost predicate Shape(e: Regs) {
    && -1 <= e.buffer < 255
    && (e.buffer == -1 ==> e.done == [] && e.zc == 0)
    && (e.done != [] ==> e.done[|e.done| - 1] != 0)
  }

  /** With ct shifts to go before the next byte: the pending bytes followed by C
      are exactly the base of the interval i, the interval stays below 1, and C
      plus A leaves room for at most one carry. */
  ghost predicate Denotes(e: Regs, i: Interval) {
    && Shape(e)
    && 0 < e.a == i.a <= 0x10000
    && e.ct <= 11
    && (Pending(e) != [] ==> e.ct <= 8)
    && i.k + e.ct == 8 * |Pending(e)| + 11
    && i.base == Num(Pending(e)) * Pow2(27 - e.ct) + e.c
    && (e.c + e.a) * Pow2(e.ct) <= 0x8000000 + 0x1000000
    && (i.base + i.a) * Pow2(e.ct) <= Pow2(8 * |Pending(e)| + 27)
  }

  // ---- One byte leaves C ----

  lemma StackBytes(e: Regs)
    ensures Pending(e.(sc := e.sc + 1)) == Pending(e) + [255]
  {
    RepeatSnoc(255, e.sc + 1);
  }

  lemma HeldBytes(e: Regs)
    requires Shape(e)
    ensures var f := Held(e);
            && f.sc == e.sc
            && Pending(e) == f.done + Repeat(0, f.zc) + Repeat(255, f.sc)
            && (f.done != [] ==> f.done[|f.done| - 1] != 0)
            && (e.buffer == -1 ==> f.done == [] && f.zc == 0)
  {
    var b := BufferByte(e.buffer);
    if e.buffer == 0 {
      RepeatSnoc(0, e.zc + 1);
      assert b == [0];
    } else if e.buffer > 0 {
      assert Repeat(0, 0) == [];
    } else {
      assert b == [];
    }
  }

  /** Everything before the byte to come, once nothing is stacked any more. */
  function Front(f: Regs): (s: seq<byte>) {
    f.done + Repeat(0, f.zc)
  }

  ghost predicate NoTrailingZero(s: seq<byte>) {
    s != [] ==> s[|s| - 1] != 0
  }

  lemma SettleFront(e: Regs)
    requires Shape(e)
    ensures var f := Settle(e);
            f.sc == 0 && Front(f) == Pending(e) && NoTrailingZero(f.done)
  {
    HeldBytes(e);
    var f := Held(e);
    assert Repeat(0, 0) == [] && Repeat(255, 0) == [];
    if f.sc > 0 {
      assert Settle(e).done[|Settle(e).done| - 1] == 255;
    }
  }

  lemma CarryFront(e: Regs)
    requires Shape(e) && e.buffer >= 0
    ensures var f := Carry(e);
            && f.sc == 0 && NoTrailingZero(f.done)
            && |Front(f)| == |Pending(e)| && Num(Front(f)) == Num(Pending(e)) + 1
  {
    var b := e.buffer as byte;
    var front := e.done + Repeat(0, e.zc);
    assert Pending(e) == front + [b] + Repeat(255, e.sc);
    NumCarry(front, b, e.sc);
    assert Front(Carry(e)) == front + [(b + 1) as byte] + Repeat(0, e.sc);
  }

  /** A new byte joins the front. */
  lemma FrontByte(f: Regs, t: byte)
    requires f.sc == 0 && t < 255 && NoTrailingZero(f.done)
    ensures var r := f.(buffer := t);
            Shape(r) && Pending(r) == Front(f) + [t] && Num(Pending(r)) == 256 * Num(Front(f)) + t
  {
    NumSnoc(Front(f), t);
  }

  /** A carry can never reach an empty buffer: the code value stays below 1. */
  lemma CarryHasRoom(e: Regs, i: Interval)
    requires Denotes(e, i) && e.ct == 0 && e.c >= 0x8000000
    ensures e.buffer >= 0
  {
    if e.buffer == -1 {
      assert Pending(e) == Repeat(255, e.sc);
      NumAllOnes(e.sc);
      Pow2Add(8 * e.sc, 27);
      Pow2Values();
    }
  }

  /** What ByteOut does to the pending bytes: they grow by one byte and, as a
      number, by exactly the value taken off C; the new byte is not 0xFF unless
      it is stacked, and after a carry it is below 0x20. */
  lemma ByteOutBytes(e: Regs)
    requires Shape(e) && e.c < 0x8000000 + 0x1000000
    requires e.c >= 0x8000000 ==> e.buffer >= 0
    ensures var r := ByteOut(e);
            && Shape(r)
            && |Pending(r)| == |Pending(e)| + 1
            && Num(Pending(r)) == 256 * Num(Pending(e)) + e.c / 0x80000
            && (e.c >= 0x8000000 ==> 0 <= r.buffer < 0x20 && r.sc == 0)
  {
    hide Pending, Shape, Num, Carry, Settle, Front;
    var temp := e.c / 0x80000;
    var r := ByteOut(e);
    if temp > 0xFF {
      assert temp < 256 + 32;
      CarryByte(e, temp - 256, r);
    } else if temp == 0xFF {
      StackByte(e, r);
    } else {
      SettleByte(e, temp, r);
    }
  }

  lemma CarryByte(e: Regs, t: byte, r: Regs)
    requires Shape(e) && e.buffer >= 0 && t < 0x20
    requires var f := Carry(e).(buffer := t); r == f.(c := r.c, ct := r.ct, a := r.a)
    ensures Shape(r) && |Pending(r)| == |Pending(e)| + 1 && r.buffer == t && r.sc == 0
    ensures Num(Pending(r)) == 256 * Num(Pending(e)) + 256 + t
  {
    CarryFront(e);
    FrontByte(Carry(e), t);
    SameBytes(Carry(e).(buffer := t), r);
  }

  lemma StackByte(e: Regs, r: Regs)
    requires Shape(e) && r == e.(sc := e.sc + 1, c := r.c, ct := r.ct)
    ensures Shape(r) && |Pending(r)| == |Pending(e)| + 1
    ensures Num(Pending(r)) == 256 * Num(Pending(e)) + 255
  {
    StackBytes(e);
    SameBytes(e.(sc := e.sc + 1), r);
    NumSnoc(Pending(e), 255);
  }

  lemma SettleByte(e: Regs, t: byte, r: Regs)
    requires Shape(e) && t < 255
    requires var f := Settle(e).(buffer := t); r == f.(c := r.c, ct := r.ct, a := r.a)
    ensures Shape(r) && |Pending(r)| == |Pending(e)| + 1
    ensures Num(Pending(r)) == 256 * Num(Pending(e)) + t
  {
    SettleFront(e);
    FrontByte(Settle(e), t);
    SameBytes(Settle(e).(buffer := t), r);
  }

  lemma SameBytes(e: Regs, f: Regs)
    requires f.buffer == e.buffer && f.done == e.done && f.zc == e.zc && f.sc == e.sc
    ensures Pending(f) == Pending(e) && (Shape(e) ==> Shape(f))
  {
  }

  lemma ByteOutDenotes(e: Regs, i: Interval)
    requires Denotes(e, i) && e.ct == 0
    ensures Denotes(ByteOut(e), i)
  {
    assert Pow2(0) == 1;
    if e.c >= 0x8000000 {
      CarryHasRoom(e, i);
    }
    ByteOutBytes(e);
    var r := ByteOut(e);
    ByteOutNumbers(e, r, i);
  }

  lemma ByteOutNumbers(e: Regs, r: Regs, i: Interval)
    requires Denotes(e, i) && e.ct == 0
    requires Shape(r) && |Pending(r)| == |Pending(e)| + 1
    requires Num(Pending(r)) == 256 * Num(Pending(e)) + e.c / 0x80000
    requires r.c == e.c % 0x80000 && r.ct == 8 && r.a == e.a
    ensures Denotes(r, i)
  {
    hide Shape, Pending, Num;
    Pow2Values();
    Pow2Add8(8 * |Pending(e)| + 27);
    assert Pow2(0) == 1;
    assert e.c == e.c / 0x80000 * 0x80000 + e.c % 0x80000;
    assert Num(Pending(e)) * 0x8000000 + e.c == Num(Pending(r)) * 0x80000 + r.c;
  }

  lemma DoubleNumbers(n: int, q: int, base: int, c: int, a: int, p: int, room: int, one: int)
    requires base == n * q + c
    requires (c + a) * (2 * p) <= room && (base + a) * (2 * p) <= one
    ensures 2 * base == n * (2 * q) + 2 * c
    ensures (2 * c + 2 * a) * p <= room && (2 * base + 2 * a) * p <= one
  {
    MulTwo(n, q);
    MulTwo(c + a, p);
    MulTwo(base + a, p);
  }

  /** Doubling without a byte: C, A and the base double, one shift less to go. */
  lemma DoubleDenotes(e: Regs, f: Regs, i: Interval)
    requires Denotes(e, i) && 1 <= e.ct && e.a <= 0x8000
    requires f == e.(a := 2 * e.a, c := 2 * e.c, ct := e.ct - 1)
    ensures Denotes(f, Interval(2 * i.base, 2 * i.a, i.k + 1))
  {
    hide Shape, Pending, Num, Pow2;
    SameBytes(e, f);
    Pow2Twice(f.ct);
    Pow2Twice(27 - e.ct);
    DoubleNumbers(Num(Pending(e)), Pow2(27 - e.ct), i.base, e.c, e.a, Pow2(f.ct),
                  0x8000000 + 0x1000000, Pow2(8 * |Pending(e)| + 27));
  }

  lemma ShiftDenotes(e: Regs, i: Interval)
    requires Denotes(e, i) && 1 <= e.ct && e.a <= 0x8000
    ensures Denotes(Shift(e), Interval(2 * i.base, 2 * i.a, i.k + 1))
  {
    hide Denotes, ByteOut;
    var f := e.(a := 2 * e.a, c := 2 * e.c, ct := e.ct - 1);
    DoubleDenotes(e, f, i);
    if f.ct == 0 {
      ByteOutDenotes(f, Interval(2 * i.base, 2 * i.a, i.k + 1));
    }
  }

  // ---- Coding decisions ----

  /** The renormalisation loop of arith_encode. */
  function Renorm(e: Regs): (r: Regs)
    requires e.ct > 0 && e.a > 0
    ensures r.ct > 0 && r.a >= 0x8000
    decreases 0x8000 - e.a
  {
    if e.a >= 0x8000 then e else Renorm(Shift(e))
  }

  datatype State = State(e: Regs, stats: seq<byte>)

  ghost predicate ValidState(tab: seq<nat>, s: State) {
    && ValidTable(tab) && ValidStats(tab, s.stats)
    && s.e.a >= 0x8000 && s.e.ct > 0
  }

  /** arith_encode: narrow the interval, move the bin, renormalise. */
  ghost function Encode(tab: seq<nat>, s: State, d: Decision): (r: State)
    requires ValidState(tab, s) && d.bin < |s.stats|
    ensures ValidState(tab, r) && |r.stats| == |s.stats|
  {
    var sv := s.stats[d.bin];
    var entry := tab[Index(sv)];
    assert GoodEntry(entry, |tab|);
    var ch := EncodeChoice(entry, sv, s.e.a, d.val);
    var e := s.e.(c := if ch.upper then s.e.c + s.e.a - Qe(entry) else s.e.c, a := ch.a);
    State(Renorm(e), s.stats[d.bin := ch.sv])
  }

  ghost function EncodeAll(tab: seq<nat>, s: State, script: seq<Decision>): (r: State)
    requires ValidState(tab, s) && ValidScript(script, |s.stats|)
    ensures ValidState(tab, r) && |r.stats| == |s.stats|
    decreases |script|
  {
    if script == [] then s else EncodeAll(tab, Encode(tab, s, script[0]), script[1..])
  }

  lemma {:induction false} RenormDenotes(e: Regs, i: Interval)
    requires Denotes(e, i) && e.ct > 0
    ensures Denotes(Renorm(e), Norm(i))
    decreases 0x8000 - e.a
  {
    if e.a < 0x8000 {
      ShiftDenotes(e, i);
      RenormDenotes(Shift(e), Interval(2 * i.base, 2 * i.a, i.k + 1));
    }
  }

  lemma NarrowDenotes(e: Regs, i: Interval, f: Regs, j: Interval)
    requires Denotes(e, i)
    requires 0 < j.a && i.base <= j.base && j.base + j.a <= i.base + i.a && j.k == i.k
    requires f == e.(c := e.c + j.base - i.base, a := j.a)
    ensures Denotes(f, j)
  {
    hide Shape, Num;
    SameBytes(e, f);
    MulMono(f.c + f.a, e.c + e.a, Pow2(e.ct));
    MulMono(j.base + j.a, i.base + i.a, Pow2(e.ct));
  }

  ghost predicate Refines(tab: seq<nat>, s: State, g: Coder) {
    && ValidState(tab, s) && ValidCoder(tab, g)
    && s.stats == g.stats
    && Denotes(s.e, g.i)
  }

  lemma EncodeRefines(tab: seq<nat>, s: State, g: Coder, d: Decision)
    requires Refines(tab, s, g) && d.bin < |s.stats|
    ensures Refines(tab, Encode(tab, s, d), Step(tab, g, d))
  {
    hide Denotes;
    var j := Kept(tab, g, d);
    var sv := s.stats[d.bin];
    var entry := tab[Index(sv)];
    assert GoodEntry(entry, |tab|);
    assert s.e.a == g.i.a by { SameWidth(s.e, g.i); }
    var ch := EncodeChoice(entry, sv, s.e.a, d.val);
    var f := s.e.(c := if ch.upper then s.e.c + s.e.a - Qe(entry) else s.e.c, a := ch.a);
    NarrowDenotes(s.e, g.i, f, j);
    RenormDenotes(f, j);
  }

  lemma SameWidth(e: Regs, i: Interval)
    requires Denotes(e, i)
    ensures e.a == i.a
  {
  }

  /** The encoder's registers follow the unbounded coder through every run. */
  lemma {:induction false} EncodeAllRefines(tab: seq<nat>, s: State, g: Coder, script: seq<Decision>)
    requires Refines(tab, s, g) && ValidScript(script, |s.stats|)
    ensures Refines(tab, EncodeAll(tab, s, script), Run(tab, g, script))
    decreases |script|
  {
    hide Denotes;
    if script != [] {
      EncodeRefines(tab, s, g, script[0]);
      EncodeAllRefines(tab, Encode(tab, s, script[0]), Step(tab, g, script[0]), script[1..]);
    }
  }

  lemma StartDenotes()
    ensures Denotes(START, Interval(0, 0x10000, 0))
  {
    Pow2Values();
    assert Pending(START) == [];
    Pow2Add(16, 11);
  }

  // ---- finish_pass: termination of encoding (D.1.8) ----

  /** The value in [c, c + a) with the most trailing zero bits. */
  function FinalC(c: nat, a: nat): (r: nat)
    requires a > 0
  {
    var temp := (c + a - 1) / 0x10000 * 0x10000;
    if temp < c then temp + 0x8000 else temp
  }

  /** Settle or carry, then append up to two more bytes unless they are zero. */
  function Finish(e: Regs): (u: seq<byte>)
    requires e.a > 0
  {
    var c := FinalC(e.c, e.a) * Pow2(e.ct);
    var f := if c / 0x8000000 % 32 != 0 then Carry(e) else Settle(e);
    var high: byte := c / 0x80000 % 256;
    var low: byte := c / 0x800 % 256;
    if c / 0x800 % 0x10000 == 0 then f.done
    else if low == 0 then Front(f) + [high]
    else Front(f) + [high, low]
  }

  /** u followed by zero bytes up to n bytes in all: what a decoder reads. */
  function Pad(u: seq<byte>, n: nat): (s: seq<byte>)
    requires |u| <= n
    ensures |s| == n
  {
    u + Repeat(0, n - |u|)
  }

  lemma PadMore(u: seq<byte>, n: nat, m: nat)
    requires |u| <= n
    ensures Pad(u, n + m) == Pad(u, n) + Repeat(0, m)
  {
  }

  /** The two final bytes after the front f, with zeros dropped, pad back. */
  lemma FinishPads(f: Regs, high: byte, low: byte, u: seq<byte>)
    requires NoTrailingZero(f.done)
    requires u == if high == 0 && low == 0 then f.done
                  else if low == 0 then Front(f) + [high] else Front(f) + [high, low]
    ensures |u| <= |Front(f)| + 2 && NoTrailingZero(u)
    ensures Pad(u, |Front(f)| + 2) == Front(f) + [high, low]
    ensures Num(Pad(u, |Front(f)| + 2)) == 0x10000 * Num(Front(f)) + 256 * high + low
  {
    var all := Front(f) + [high, low];
    assert all == Front(f) + [high] + [low];
    NumSnoc(Front(f), high);
    NumSnoc(Front(f) + [high], low);
  }

  lemma FinalCInside(c: nat, a: nat) returns (x: nat)
    requires 0x8000 <= a <= 0x10000
    ensures FinalC(c, a) == 0x8000 * x && c <= 0x8000 * x < c + a
  {
    var q := (c + a - 1) / 0x10000;
    assert (c + a - 1) == q * 0x10000 + (c + a - 1) % 0x10000;
    x := if q * 0x10000 < c then 2 * q + 1 else 2 * q;
  }

  lemma SplitDigits(k: nat, h: nat, l: nat, c: nat)
    requires k <= 1 && h < 256 && l < 256 && c == 0x8000000 * k + 0x80000 * h + 0x800 * l
    ensures c / 0x8000000 % 32 == k && c / 0x80000 % 256 == h && c / 0x800 % 256 == l
    ensures c / 0x800 % 0x10000 == 256 * h + l
  {
    assert c / 0x800 == 0x10000 * k + 256 * h + l;
    assert c / 0x80000 == 256 * k + h;
  }

  /** The shifted final value splits into the carry and two bytes. */
  lemma FinalBytes(c: nat)
    requires c % 0x10000 == 0 && c < 0x8000000 + 0x1000000
    ensures var high, low := c / 0x80000 % 256, c / 0x800 % 256;
            && c == (if c / 0x8000000 % 32 != 0 then 0x8000000 else 0) + 0x80000 * high + 0x800 * low
            && (c / 0x800 % 0x10000 == 0 <==> high == 0 && low == 0)
            && (c / 0x8000000 % 32 != 0 <==> c >= 0x8000000)
  {
    var y := c / 0x10000;
    var k := if y >= 0x800 then 1 else 0;
    var z := y - 0x800 * k;
    assert z == 8 * (z / 8) + z % 8;
    SplitDigits(k, z / 8, 32 * (z % 8), c);
  }

  /** The shifted final value as a number, before it is written: it still lies
      in the interval, seen ct bits further on. */
  lemma FinishValue(e: Regs, i: Interval)
    requires Denotes(e, i) && 1 <= e.ct && 0x8000 <= e.a
    ensures var c := FinalC(e.c, e.a) * Pow2(e.ct);
            && c < 0x8000000 + 0x1000000 && c % 0x10000 == 0
            && var w := Num(Pending(e)) * 0x8000000 + c;
            && i.base * Pow2(e.ct) <= w < (i.base + i.a) * Pow2(e.ct) <= Pow2(8 * |Pending(e)| + 27)
  {
    hide Shape, Pending, Num, FinalC, Pow2;
    var x := FinalCInside(e.c, e.a);
    Pow2Twice(e.ct - 1);
    Pow2Add(27 - e.ct, e.ct);
    Pow2Values();
    FinishArithmetic(x, e.c, e.a, i.base, Num(Pending(e)), Pow2(27 - e.ct), Pow2(e.ct - 1));
  }

  lemma FinishArithmetic(x: nat, c: nat, a: nat, base: nat, n: nat, q: nat, h: nat)
    requires c <= 0x8000 * x < c + a && base == n * q + c && q * (2 * h) == 0x8000000 && h > 0
    ensures var v := 0x8000 * x * (2 * h);
            && v < (c + a) * (2 * h) && v % 0x10000 == 0
            && base * (2 * h) <= n * 0x8000000 + v < (base + a) * (2 * h)
  {
    var p := 2 * h;
    var f := 0x8000 * x;
    MulMono(c, f, p);
    MulMono(f + 1, c + a, p);
    Distribute(f, 1, p);
    EvenMultiple(x, h);
    ScaleBase(n, q, c, p);
    Distribute(n * q, c + a, p);
    ScaleBase(n, q, c + a, p);
  }

  lemma EvenMultiple(x: nat, h: nat)
    ensures 0x8000 * x * (2 * h) == 0x10000 * (x * h)
  {
  }

  lemma ScaleBase(n: int, q: int, c: int, p: int)
    ensures (n * q + c) * p == n * (q * p) + c * p
  {
    Distribute(n * q, c, p);
    MulAssoc(n, q, p);
  }

  /** The whole code string, as a number with 8 * (|Pending| + 2) bits. */
  lemma FinishNumber(e: Regs, i: Interval)
    requires Denotes(e, i) && 1 <= e.ct && 0x8000 <= e.a
    ensures var u, n := Finish(e), |Pending(e)| + 2;
            && |u| <= n && NoTrailingZero(u)
            && i.base * Pow2(e.ct) <= 0x800 * Num(Pad(u, n)) < (i.base + i.a) * Pow2(e.ct)
  {
    hide Pow2, Pad, Num, Carry, Settle, Denotes, FinalC, Front, Pending;
    assert Shape(e) by { ShapeOf(e, i); }
    FinishValue(e, i);
    var c := FinalC(e.c, e.a) * Pow2(e.ct);
    FinalBytes(c);
    var high: byte, low: byte := c / 0x80000 % 256, c / 0x800 % 256;
    var f := if c / 0x8000000 % 32 != 0 then Carry(e) else Settle(e);
    if c >= 0x8000000 {
      FinishCarryHasRoom(e, i, c);
      CarryFront(e);
    } else {
      SettleFront(e);
    }
    FinishPads(f, high, low, Finish(e));
  }

  lemma DenotesBasics(e: Regs, i: Interval)
    requires Denotes(e, i)
    ensures e.a == i.a > 0 && -1 <= e.buffer < 255
  {
  }

  /** Carry and Settle do not look at C. */
  lemma SameFields(e: Regs, f: Regs)
    requires f == e.(c := f.c)
    ensures Carry(f) == Carry(e).(c := f.c) && Settle(f) == Settle(e).(c := f.c)
  {
  }

  lemma ShapeOf(e: Regs, i: Interval)
    requires Denotes(e, i)
    ensures Shape(e)
  {
  }

  lemma FinishCarryHasRoom(e: Regs, i: Interval, c: nat)
    requires Denotes(e, i) && c >= 0x8000000
    requires Num(Pending(e)) * 0x8000000 + c < Pow2(8 * |Pending(e)| + 27)
    ensures e.buffer >= 0
  {
    if e.buffer == -1 {
      assert Pending(e) == Repeat(255, e.sc);
      NumAllOnes(e.sc);
      Pow2Add(8 * e.sc, 27);
      Pow2Values();
    }
  }

  /** The finished string, read to any length that reaches the scale of the
      final interval, is a number inside that interval. */
  lemma FinishInside(e: Regs, i: Interval, nb: nat)
    requires Denotes(e, i) && 1 <= e.ct && 0x8000 <= e.a
    requires 8 * nb >= 16 + i.k
    ensures var u := Finish(e);
            && |u| <= nb && NoTrailingZero(u)
            && In(i, Num(Pad(u, nb)), 8 * nb - 16)
  {
    hide Denotes, Finish, Pad, Num, Pow2;
    var u, n := Finish(e), |Pending(e)| + 2;
    FinishNumber(e, i);
    assert i.k + e.ct == 8 * |Pending(e)| + 11 && e.ct <= 11 by { Scale(e, i); }
    var m := nb - n;
    PadMore(u, n, m);
    NumZeros(Pad(u, n), m);
    var d := 8 * nb - 16 - i.k;
    Pow2Add(11, d);
    Pow2Add(e.ct, 8 * m);
    assert Pow2(11) == 0x800 by { Pow2Eleven(); }
    ScaleUp(i.base, i.base + i.a, Num(Pad(u, n)), Pow2(e.ct), Pow2(8 * m), Pow2(d));
  }

  lemma Scale(e: Regs, i: Interval)
    requires Denotes(e, i)
    ensures i.k + e.ct == 8 * |Pending(e)| + 11 && e.ct <= 11
  {
  }

  lemma Pow2Eleven()
    ensures Pow2(11) == 0x800
  {
    Pow2Values();
    Pow2Add(8, 3);
    assert Pow2(3) == 8;
  }

  lemma ScaleUp(x: nat, y: nat, n: nat, p: nat, q: nat, r: nat)
    requires x * p <= 0x800 * n < y * p && q > 0 && 0x800 * r == p * q
    ensures x * r <= n * q < y * r
  {
    MulMono(x * p, 0x800 * n, q);
    MulMono(0x800 * n + 1, y * p, q);
    assert (0x800 * n + 1) * q == 0x800 * (n * q) + q;
    assert x * p * q == x * (p * q) && y * p * q == y * (p * q);
    assert x * (0x800 * r) == 0x800 * (x * r);
    assert y * (0x800 * r) == 0x800 * (y * r);
  }
}
