/** Writing variable-length codes into bytes: the bit-buffer macros and flush_bits
    of jchuff.c for 32-bit and 64-bit words, and emit_bits of jcphuff.c. */
module BitPacking {
  import opened Numbers
  import opened ByteSource
  import opened DerivedTable

  /** The bits of a string of bytes, most significant first. */
  function BitsOf(u: seq<byte>): (x: seq<bit>)
    ensures |x| == 8 * |u|
  {
    if u == [] then [] else BitsOf(u[..|u| - 1]) + Word(u[|u| - 1], 8)
  }

  function Ones(n: nat): (x: seq<bit>) {
    seq(n, i => 1)
  }

  /** Filled up with ones to a whole number of bytes. */
  function Padded(x: seq<bit>): (y: seq<bit>)
    ensures |y| % 8 == 0
  {
    x + Ones((8 - |x| % 8) % 8)
  }

  lemma BitsOfSnoc(u: seq<byte>, b: byte)
    ensures BitsOf(u + [b]) == BitsOf(u) + Word(b, 8)
  {
    assert (u + [b])[..|u|] == u;
  }

  /** A string of bytes is determined by its bits. */
  lemma {:induction false} BitsOfInjective(u: seq<byte>, v: seq<byte>)
    requires BitsOf(u) == BitsOf(v)
    ensures u == v
    decreases |u|
  {
    if u != [] {
      var n := |u| - 1;
      assert BitsOf(u)[..8 * n] == BitsOf(u[..n]) && BitsOf(u)[8 * n..] == Word(u[n], 8);
      assert BitsOf(v)[..8 * n] == BitsOf(v[..n]) && BitsOf(v)[8 * n..] == Word(v[n], 8);
      BitsOfInjective(u[..n], v[..n]);
      Pow2Values();
      WordInjective(u[n], v[n], 8);
      assert u == u[..n] + [u[n]] && v == v[..n] + [v[n]];
    }
  }

  // ---- Words and shifts ----

  function Quotient(v: nat, p: nat): (q: nat)
    requires p > 0
  {
    v / p
  }

  lemma {:induction false} WordSplit(v: nat, n: nat, m: nat)
    ensures Word(v, n + m) == Word(Quotient(v, Pow2(m)), n) + Word(v, m)
    decreases m
  {
    if m == 0 {
      assert Pow2(0) == 1;
    } else {
      WordSplit(v / 2, n, m - 1);
      HalveTwice(v, Pow2(m - 1));
      assert Word(v, n + m) == Word(v / 2, n + m - 1) + [v % 2];
    }
  }

  lemma {:induction false} WordMod(v: nat, n: nat, w: nat)
    requires n <= w
    ensures Word(v % Pow2(w), n) == Word(v, n)
    decreases n
  {
    if n > 0 {
      ModHalf(v, Pow2(w - 1));
      WordMod(v / 2, n - 1, w - 1);
    }
  }

  lemma ModHalf(v: nat, p: nat)
    requires p > 0
    ensures v % (2 * p) / 2 == v / 2 % p && v % (2 * p) % 2 == v % 2
  {
    var q, r := v / 2 / p, v / 2 % p;
    assert v / 2 == p * q + r;
    assert v == 2 * (p * q) + (2 * r + v % 2);
    assert 2 * (p * q) == 2 * p * q;
    DivModUnique(v, 2 * p, q, 2 * r + v % 2);
  }

  /** Appending the code c of s bits on the right. */
  lemma WordAppend(b: nat, n: nat, c: nat, s: nat)
    requires c < Pow2(s)
    ensures Word(b * Pow2(s) + c, n + s) == Word(b, n) + Word(c, s)
  {
    hide Word, Pow2;
    var v := b * Pow2(s) + c;
    WordSplit(v, n, s);
    assert v == Pow2(s) * b + c;
    DivModUnique(v, Pow2(s), b, c);
    WordMod(v, s, s);
  }

  /** Taking a byte off the left. */
  lemma WordByte(b: nat, n: nat)
    requires n >= 8
    ensures Word(b, n) == Word(b / Pow2(n - 8) % 256, 8) + Word(b, n - 8)
  {
    hide Word, Pow2;
    WordSplit(b, 8, n - 8);
    Pow2Values();
    WordMod(b / Pow2(n - 8), 8, 8);
  }

  lemma WordOnes(n: nat, m: nat)
    requires n <= m
    ensures Word(Pow2(m) - 1, n) == Ones(n)
    decreases n
  {
    if n > 0 {
      Pow2Twice(m - 1);
      assert (Pow2(m) - 1) / 2 == Pow2(m - 1) - 1 && (Pow2(m) - 1) % 2 == 1;
      WordOnes(n - 1, m - 1);
    }
  }

  // ---- What flush_bits keeps ----

  /** x, of which the last n bits were still in a buffer of w bits when flush_bits pushed
      all but the lower w - 7 of them out. */
  function Flushed(w: nat, x: seq<bit>, n: nat): (y: seq<bit>)
    requires w >= 7
    ensures |y| == |x|
  {
    seq(|x|, i requires 0 <= i < |x| => if |x| - n <= i < |x| - (w - 7) then 0 else x[i])
  }

  /** Nothing is lost: whatever is pushed out is zero. */
  predicate Clean(w: nat, x: seq<bit>, n: nat) {
    forall i :: 0 <= i < |x| && |x| - n <= i < |x| - (w - 7) ==> x[i] == 0
  }

  lemma CleanIsKept(w: nat, x: seq<bit>, n: nat)
    requires w >= 7
    ensures Clean(w, x, n) <==> Flushed(w, x, n) == x
    ensures n <= w - 7 ==> Clean(w, x, n)
  {
    if Flushed(w, x, n) == x {
      forall i | 0 <= i < |x| && |x| - n <= i < |x| - (w - 7) ensures x[i] == 0 {
        assert Flushed(w, x, n)[i] == 0;
      }
    }
  }

  lemma {:induction false} WordZero(n: nat)
    ensures Word(0, n) == seq(n, i => 0)
  {
    if n > 0 {
      WordZero(n - 1);
    }
  }

  /** The buffer, cut to w - 7 bits, in terms of bits. */
  lemma FlushedIs(w: nat, whole: seq<bit>, v: nat, n: nat)
    requires w >= 7
    ensures whole + Word(v % Pow2(w - 7), n) == Flushed(w, whole + Word(v, n), n)
  {
    var m: nat := w - 7;
    hide Word, Pow2;
    if n <= m {
      WordMod(v, n, m);
      CleanIsKept(w, whole + Word(v, n), n);
    } else {
      var u := v % Pow2(m);
      WordSplit(v, n - m, m);
      WordSplit(u, n - m, m);
      assert Quotient(u, Pow2(m)) == 0 by { DivModUnique(u, Pow2(m), 0, u); }
      WordZero(n - m);
      WordMod(v, m, m);
    }
  }

  /** CHECKBUF15, CHECKBUF31 and CHECKBUF47, on put_bits. */
  function Drain(n: nat, limit: nat): (m: nat) {
    if n > limit then n - (limit + 1) else n
  }

  /** put_bits after EMIT_BITS of s bits, with w-bit words. */
  function AfterBits(w: nat, n: nat, s: nat): (m: nat) {
    if w == 64 then Drain(n, 47) + s else Drain(n + s, 15)
  }

  /** put_bits after EMIT_CODE: the code, and t extra bits. */
  function AfterCode(w: nat, n: nat, s: nat, t: nat): (m: nat) {
    if w == 64 then Drain(n, 31) + s + t else Drain(Drain(n + s, 15) + t, 15)
  }

  // ---- The macros of jchuff.c ----

  /** put_buffer and put_bits, and what has been written. */
  class BitWriter {
    const wordBits: nat          // the width of size_t

    var putBuffer: nat
    var putBits: nat
    var out: seq<byte>

    ghost var head: seq<byte>    // what was written before this run of bits
    ghost var done: seq<byte>    // what this run has written, unstuffed
    ghost var bits: seq<bit>     // the bits put into the buffer in this run

    ghost predicate Consistent()
      reads this
    {
      && (wordBits == 32 || wordBits == 64)
      && putBuffer < Pow2(wordBits)
      && out == head + Stuff(done)
      && bits == BitsOf(done) + Word(putBuffer, putBits)
    }

    /** Between macros at most 15 bits are pending with 32-bit words and at most 63
        with 64-bit words. */
    ghost predicate Valid()
      reads this
    {
      Consistent() && putBits <= if wordBits == 32 then 15 else 63
    }

    constructor (wordBits: nat)
      requires wordBits == 32 || wordBits == 64
      ensures Valid() && this.wordBits == wordBits && out == [] && bits == [] && putBits == 0
    {
      this.wordBits := wordBits;
      putBuffer, putBits, out := 0, 0, [];
      head, done, bits := [], [], [];
      new;
      assert Stuff([]) == [];
    }

    /** EMIT_BYTE: the top byte of the buffer, stuffed when it is 0xFF. */
    method EmitByte()
      requires Consistent() && putBits >= 8
      modifies this`putBits, this`out, this`done
      ensures Consistent() && putBits == old(putBits) - 8 && |done| == |old(done)| + 1
    {
      hide Word, Pow2, Stuff, BitsOf;
      WordByte(putBuffer, putBits);
      putBits := putBits - 8;
      var c: byte := putBuffer / Pow2(putBits) % 256;
      ghost var written := out;
      out := out + [c];
      if c == 0xFF {
        out := out + [0];
      }
      assert out == written + StuffByte(c);
      StuffSnoc(head, done, c);
      BitsOfSnoc(done, c);
      done := done + [c];
    }

    method EmitBytes(n: nat)
      requires Consistent() && putBits >= 8 * n
      modifies this`putBits, this`out, this`done
      ensures Consistent() && putBits == old(putBits) - 8 * n
    {
      hide Word, Pow2, Stuff, BitsOf;
      for i := 0 to n
        invariant Consistent() && putBits == old(putBits) - 8 * i
      {
        EmitByte();
      }
    }

    /** PUT_BITS(code, size). */
    method PutBits(code: nat, size: nat)
      requires Consistent() && code < Pow2(size) && putBits + size <= wordBits
      modifies this`putBuffer, this`putBits, this`bits
      ensures Consistent() && putBits == old(putBits) + size && bits == old(bits) + Word(code, size)
    {
      hide Word, Pow2, Stuff, BitsOf;
      WordAppend(putBuffer, putBits, code, size);
      WordMod(putBuffer * Pow2(size) + code, putBits + size, wordBits);
      putBits := putBits + size;
      putBuffer := (putBuffer * Pow2(size) + code) % Pow2(wordBits);
      bits := bits + Word(code, size);
    }

    /** CHECKBUF15, CHECKBUF31 and CHECKBUF47. */
    method CheckBuf(limit: nat)
      requires Consistent() && limit % 8 == 7
      modifies this`putBits, this`out, this`done
      ensures Consistent()
      ensures putBits == Drain(old(putBits), limit) && (old(putBits) <= limit ==> done == old(done))
    {
      hide Consistent;
      if putBits > limit {
        EmitBytes((limit + 1) / 8);
      }
    }

    /** EMIT_BITS(code, size). */
    method EmitBits(code: nat, size: nat)
      requires Valid() && code < Pow2(size) && size <= 16
      modifies this`putBuffer, this`putBits, this`out, this`done, this`bits
      ensures Valid() && bits == old(bits) + Word(code, size) && putBits == AfterBits(wordBits, old(putBits), size)
      ensures wordBits == 64 && old(putBits) <= 47 ==> done == old(done)
    {
      hide Word, Pow2, Stuff, BitsOf;
      if wordBits == 64 {
        CheckBuf(47);
        PutBits(code, size);
      } else {
        PutBits(code, size);
        CheckBuf(15);
      }
    }

    /** EMIT_CODE(code, size), which also puts the nbits extra bits of temp2. */
    method EmitCode(code: nat, size: nat, temp2: int, nbits: nat)
      requires Valid() && code < Pow2(size) && size <= 16 && nbits <= 16
      modifies this`putBuffer, this`putBits, this`out, this`done, this`bits
      ensures Valid() && bits == old(bits) + Word(code, size) + Word(temp2 % Pow2(nbits), nbits)
      ensures putBits == AfterCode(wordBits, old(putBits), size, nbits)
    {
      hide Word, Pow2, Stuff, BitsOf;
      var masked: nat := temp2 % Pow2(nbits);
      if wordBits == 64 {
        CheckBuf(31);
        PutBits(code, size);
        PutBits(masked, nbits);
      } else {
        PutBits(code, size);
        CheckBuf(15);
        PutBits(masked, nbits);
        CheckBuf(15);
      }
    }

    /** PUT_BITS(0x7F, 7): pushes whatever lies above bit wordBits - 8 out of the
        buffer. */
    method FillByte()
      requires Valid()
      modifies this`putBuffer, this`putBits, this`bits
      ensures Consistent()
      ensures bits == old(BitsOf(done) + Word(putBuffer % Pow2(wordBits - 7), putBits)) + Ones(7)
    {
      hide Word, Pow2, Stuff, BitsOf;
      ghost var pending := Word(putBuffer % Pow2(wordBits - 7), putBits);
      FilledUp(putBuffer, putBits, wordBits);
      putBits := putBits + 7;
      putBuffer := (putBuffer * 128 + 127) % Pow2(wordBits);
      bits := BitsOf(done) + pending + Ones(7);
      assert bits == BitsOf(done) + (pending + Ones(7));
    }

    /** flush_bits: fill any partial byte with ones. */
    method FlushBits()
      requires Valid()
      modifies this
      ensures out == head + Stuff(done) && head == old(head) && putBuffer == 0 && putBits == 0 && bits == old(bits)
      ensures BitsOf(done) == Padded(Flushed(wordBits, old(bits), old(putBits)))
    {
      hide Word, Pow2, Stuff, BitsOf, Padded, Ones;
      ghost var x, was := BitsOf(done) + Word(putBuffer % Pow2(wordBits - 7), putBits), bits;
      FlushedIs(wordBits, BitsOf(done), putBuffer, putBits);
      FillByte();
      while putBits >= 8
        invariant Consistent() && bits == x + Ones(7) && head == old(head)
      {
        EmitByte();
      }
      WholeBytes(x, BitsOf(done), Word(putBuffer, putBits));
      putBuffer := 0;                             // and reset bit-buffer to empty
      putBits := 0;
      bits := was;
    }

    /** An empty bit buffer, where the output stands. */
    method StartRun()
      requires wordBits == 32 || wordBits == 64
      modifies this`putBuffer, this`putBits, this`head, this`done, this`bits
      ensures Valid() && putBits == 0 && head == out && done == [] && bits == []
    {
      hide Word, Pow2;
      putBuffer, putBits := 0, 0;
      head, done, bits := out, [], [];
      assert Stuff([]) == [];
      assert BitsOf([]) + Word(0, 0) == [];
    }

    /** A marker, after which a new run of bits begins. */
    method WriteMarker(m: byte)
      requires putBits == 0 && (wordBits == 32 || wordBits == 64)
      modifies this
      ensures Valid() && out == old(out) + [0xFF, m] && putBits == 0 && head == out && done == [] && bits == []
    {
      out := out + [0xFF] + [m];
      StartRun();
    }
  }

  lemma FilledUp(b: nat, n: nat, w: nat)
    requires w >= 7
    ensures Word((b * 128 + 127) % Pow2(w), n + 7) == Word(b % Pow2(w - 7), n) + Ones(7)
  {
    hide Word, Pow2;
    Pow2Add(w - 7, 7);
    assert Pow2(7) == 128 by { SmallPow2(); }
    var p := Pow2(w - 7);
    var q, r := b / p, b % p;
    assert b == p * q + r;
    assert b * 128 + 127 == p * 128 * q + (r * 128 + 127);
    DivModUnique(b * 128 + 127, p * 128, q, r * 128 + 127);
    WordAppend(r, n, 127, 7);
    WordOnes(7, 7);
  }

  lemma SmallPow2()
    ensures Pow2(0) == 1 && Pow2(7) == 128
  {
  }

  /** Seven ones are enough for the last byte, and what is left over is dropped. */
  lemma WholeBytes(x: seq<bit>, whole: seq<bit>, left: seq<bit>)
    requires x + Ones(7) == whole + left && |whole| % 8 == 0 && |left| < 8
    ensures whole == Padded(x)
  {
    var y := x + Ones(7);
    assert whole == y[..|whole|];
    assert Padded(x) == y[..|Padded(x)|];
    assert |whole| == |Padded(x)|;
  }

  // ---- emit_bits of jcphuff.c ----

  /** The right 24 bits of put_buffer, with the valid bits left-justified. */
  class AlignedWriter {
    var putBuffer: nat
    var putBits: nat
    var out: seq<byte>

    ghost var pending: nat       // the valid bits as a number
    ghost var head: seq<byte>
    ghost var done: seq<byte>
    ghost var bits: seq<bit>

    ghost predicate Consistent()
      reads this
    {
      && putBits <= 24 && pending < Pow2(putBits) && putBuffer == pending * Pow2(24 - putBits)
      && out == head + Stuff(done)
      && bits == BitsOf(done) + Word(pending, putBits)
    }

    /** Never more than 7 bits are retained between calls. */
    ghost predicate Valid()
      reads this
    {
      Consistent() && putBits <= 7
    }

    constructor ()
      ensures Valid() && out == [] && bits == [] && putBits == 0
    {
      putBuffer, putBits, out := 0, 0, [];
      pending, head, done, bits := 0, [], [], [];
      new;
      assert Stuff([]) == [];
    }

    /** emit_bits: size 0 means that the caller used an invalid Huffman table entry. */
    method EmitBits(code: nat, size: nat) returns (ok: bool)
      requires Valid() && size <= 16
      modifies this`putBuffer, this`putBits, this`out, this`pending, this`done, this`bits
      ensures Valid() && head == old(head) && (ok <==> size != 0)
      ensures bits == if ok then old(bits) + Word(code, size) else old(bits)
    {
      hide Word, Pow2, Stuff, BitsOf;
      if size == 0 {
        return false;
      }
      Merge(code, size);
      while putBits >= 8
        invariant Consistent() && putBits <= 23 && head == old(head) && bits == old(bits) + Word(code, size)
      {
        ShiftOut();
      }
      ok := true;
    }

    /** Align the incoming bits and merge them with the old buffer contents. */
    method Merge(code: nat, size: nat)
      requires Valid() && 1 <= size <= 16
      modifies this`putBuffer, this`putBits, this`pending, this`bits
      ensures Consistent() && putBits == old(putBits) + size && bits == old(bits) + Word(code, size)
    {
      hide Word, Pow2, Stuff, BitsOf;
      var buf := code % Pow2(size);               // mask off any extra bits in code
      WordMod(code, size, size);
      WordAppend(pending, putBits, buf, size);
      AppendBelow(pending, buf, Pow2(putBits), Pow2(size));
      Pow2Add(putBits, size);
      Pow2Add(size, 24 - putBits - size);
      MulAssoc(pending, Pow2(size), Pow2(24 - putBits - size));
      Distribute(pending * Pow2(size), buf, Pow2(24 - putBits - size));
      putBits := putBits + size;                  // new number of bits in buffer
      putBuffer := putBuffer + buf * Pow2(24 - putBits);
      bits := bits + Word(code, size);
      pending := pending * Pow2(size) + buf;
    }

    /** One byte leaves at the left. */
    method ShiftOut()
      requires Consistent() && 8 <= putBits <= 23
      modifies this`putBuffer, this`putBits, this`out, this`pending, this`done
      ensures Consistent() && putBits == old(putBits) - 8
    {
      hide Word, Pow2, Stuff, BitsOf;
      TopByte(pending, putBits);
      WordByte(pending, putBits);
      WordMod(pending, putBits - 8, putBits - 8);
      Pow2Values();
      var c: byte := putBuffer / Pow2(16) % 256;
      ghost var written := out;
      out := out + [c];
      if c == 0xFF {
        out := out + [0];
      }
      assert out == written + StuffByte(c);
      StuffSnoc(head, done, c);
      BitsOfSnoc(done, c);
      done := done + [c];
      putBuffer := putBuffer * 256 % Pow2(24);
      putBits := putBits - 8;
      pending := pending % Pow2(putBits);
    }

    /** flush_bits. */
    method FlushBits()
      requires Valid()
      modifies this
      ensures out == head + Stuff(done) && head == old(head) && putBuffer == 0 && putBits == 0 && bits == old(bits)
      ensures BitsOf(done) == Padded(bits)
    {
      hide Word, Pow2, Stuff, BitsOf, Padded, Ones;
      ghost var was := bits;
      assert Word(0x7F, 7) == Ones(7) by {
        WordOnes(7, 7);
        SmallPow2();
      }
      var ok := EmitBits(0x7F, 7);
      WholeBytes(was, BitsOf(done), Word(pending, putBits));
      putBuffer := 0;                             // and reset bit-buffer to empty
      putBits := 0;
      bits := was;
    }

    /** An empty bit buffer, where the output stands. */
    method StartRun()
      modifies this`putBuffer, this`putBits, this`pending, this`head, this`done, this`bits
      ensures Valid() && putBits == 0 && head == out && done == [] && bits == []
    {
      hide Word, Pow2;
      putBuffer, putBits, pending := 0, 0, 0;
      head, done, bits := out, [], [];
      assert Stuff([]) == [];
      assert BitsOf([]) + Word(0, 0) == [];
      assert Pow2(0) == 1 by { SmallPow2(); }
    }

    /** A marker, after which a new run of bits begins. */
    method WriteMarker(m: byte)
      requires putBits == 0
      modifies this
      ensures Valid() && out == old(out) + [0xFF, m] && putBits == 0 && head == out && done == [] && bits == []
    {
      out := out + [0xFF] + [m];
      StartRun();
    }
  }

  lemma AppendBelow(x: nat, c: nat, p: nat, q: nat)
    requires x < p && c < q
    ensures x * q + c < p * q
  {
    MulMono(x + 1, p, q);
    Distribute(x, 1, q);
  }

  /** The byte at the left end of the 24-bit buffer, and what shifting leaves. */
  lemma TopByte(v: nat, n: nat)
    requires 8 <= n <= 23 && v < Pow2(n)
    ensures var b := v * Pow2(24 - n);
            && b / Pow2(16) == v / Pow2(n - 8)
            && b * 256 % Pow2(24) == v % Pow2(n - 8) * Pow2(24 - (n - 8))
            && v % Pow2(n - 8) < Pow2(n - 8)
  {
    hide Pow2;
    var d, e := Pow2(n - 8), Pow2(24 - n);
    var q, r := v / d, v % d;
    assert v == d * q + r;
    assert d * e == Pow2(16) by { Pow2Add(n - 8, 24 - n); }
    assert v * e == d * e * q + r * e by { Regroup(d, e, q, r); }
    AppendBelow(r, 0, d, e);
    DivModUnique(v * e, d * e, q, r * e);
    Pow2Add8(16);
    Pow2Add8(24 - n);
    assert v * e * 256 == 256 * (d * e) * q + r * e * 256;
    LessTimes(r * e, d * e, 256);
    DivModUnique(v * e * 256, 256 * (d * e), q, r * e * 256);
    assert r * e * 256 == r * (256 * e);
  }

  lemma Regroup(d: int, e: int, q: int, r: int)
    ensures (d * q + r) * e == d * e * q + r * e
  {
    Distribute(d * q, r, e);
    MulAssoc(d, q, e);
    MulAssoc(d, e, q);
    assert q * e == e * q;
  }

  // ---- The two writers agree ----

  /** A code, or extra bits, of n bits. */
  datatype Code = Code(v: nat, n: nat)

  predicate Writable(cs: seq<Code>) {
    forall i :: 0 <= i < |cs| ==> 0 < cs[i].n <= 16 && cs[i].v < Pow2(cs[i].n)
  }

  function CodeBits(cs: seq<Code>): (x: seq<bit>) {
    if cs == [] then [] else CodeBits(cs[..|cs| - 1]) + Word(cs[|cs| - 1].v, cs[|cs| - 1].n)
  }

  /** put_bits after the codes, from an empty buffer. */
  function Pending(w: nat, cs: seq<Code>): (n: nat) {
    if cs == [] then 0 else AfterBits(w, Pending(w, cs[..|cs| - 1]), cs[|cs| - 1].n)
  }

  lemma NextCode(w: nat, cs: seq<Code>, i: nat)
    requires i < |cs|
    ensures CodeBits(cs[..i + 1]) == CodeBits(cs[..i]) + Word(cs[i].v, cs[i].n)
    ensures Pending(w, cs[..i + 1]) == AfterBits(w, Pending(w, cs[..i]), cs[i].n)
  {
    assert cs[..i + 1][..i] == cs[..i];
  }

  /** The codes through the macros of jchuff.c, then flush_bits. */
  method PackWithMacros(w: BitWriter, cs: seq<Code>)
    requires w.Valid() && w.putBits == 0 && w.bits == [] && w.head == w.out && Writable(cs)
    modifies w
    ensures w.out == old(w.out) + Stuff(w.done)
            && BitsOf(w.done) == Padded(Flushed(w.wordBits, CodeBits(cs), Pending(w.wordBits, cs)))
  {
    hide Word, Pow2, Stuff, BitsOf, Padded, CodeBits, Pending, Flushed, w.Consistent;
    EmptyCodes(w.wordBits);
    for i := 0 to |cs|
      invariant w.Valid() && w.head == old(w.out)
      invariant w.bits == CodeBits(cs[..i]) && w.putBits == Pending(w.wordBits, cs[..i])
    {
      NextCode(w.wordBits, cs, i);
      w.EmitBits(cs[i].v, cs[i].n);
    }
    assert cs[..|cs|] == cs;
    w.FlushBits();
  }

  /** The codes through emit_bits of jcphuff.c, then its flush_bits. */
  method PackAligned(w: AlignedWriter, cs: seq<Code>)
    requires w.Valid() && w.putBits == 0 && w.bits == [] && w.head == w.out && Writable(cs)
    modifies w
    ensures w.out == old(w.out) + Stuff(w.done) && BitsOf(w.done) == Padded(CodeBits(cs))
  {
    hide Word, Pow2, Stuff, BitsOf, Padded, CodeBits, w.Consistent;
    EmptyCodes(0);
    for i := 0 to |cs|
      invariant w.Valid() && w.head == old(w.out) && w.bits == CodeBits(cs[..i])
    {
      NextCode(0, cs, i);
      var ok := w.EmitBits(cs[i].v, cs[i].n);
    }
    assert cs[..|cs|] == cs;
    w.FlushBits();
  }

  lemma EmptyCodes(w: nat)
    ensures CodeBits([]) == [] && Pending(w, []) == 0
  {
  }

  lemma {:induction false} StuffInjective(u: seq<byte>, v: seq<byte>)
    requires Stuff(u) == Stuff(v)
    ensures u == v
    decreases |u|
  {
    if u != [] {
      assert v != [];
      assert Stuff(u)[0] == u[0] && Stuff(v)[0] == v[0];
      assert Stuff(u[1..]) == Stuff(u)[|StuffByte(u[0])|..] && Stuff(v[1..]) == Stuff(v)[|StuffByte(v[0])|..];
      StuffInjective(u[1..], v[1..]);
      assert u == [u[0]] + u[1..] && v == [v[0]] + v[1..];
    } else {
      assert v == [];
    }
  }

  lemma PaddedInjective(x: seq<bit>, y: seq<bit>)
    requires |x| == |y| && Padded(x) == Padded(y)
    ensures x == y
  {
    assert x == Padded(x)[..|x|] && y == Padded(y)[..|y|];
  }

  /** For every sequence of codes of 1 to 16 bits, the macros of jchuff.c and emit_bits
      of jcphuff.c write the same bytes; with 64-bit words, if and only if no one is
      among the pending bits that the macros' flush_bits pushes out. */
  method SameBytes(wordBits: nat, cs: seq<Code>) returns (macros: seq<byte>, aligned: seq<byte>)
    requires (wordBits == 32 || wordBits == 64) && Writable(cs)
    ensures macros == aligned <==> Clean(wordBits, CodeBits(cs), Pending(wordBits, cs))
    ensures wordBits == 32 ==> macros == aligned
  {
    hide Word, Pow2, Stuff, BitsOf, Padded, CodeBits, Pending, Flushed, Clean;
    var w := new BitWriter(wordBits);
    w.StartRun();
    PackWithMacros(w, cs);
    var v := new AlignedWriter();
    v.StartRun();
    PackAligned(v, cs);
    macros, aligned := w.out, v.out;
    assert macros == Stuff(w.done) && aligned == Stuff(v.done);
    var x, n := CodeBits(cs), Pending(wordBits, cs);
    CleanIsKept(wordBits, x, n);
    if macros == aligned {
      StuffInjective(w.done, v.done);
      PaddedInjective(Flushed(wordBits, x, n), x);
    }
    if Clean(wordBits, x, n) {
      BitsOfInjective(w.done, v.done);
    }
    Pending32(cs);
  }

  /** 32-bit words never have more than 15 bits pending. */
  lemma {:induction false} Pending32(cs: seq<Code>)
    requires Writable(cs)
    ensures Pending(32, cs) <= 15
    decreases |cs|
  {
    hide Pow2;
    if cs != [] {
      Pending32(cs[..|cs| - 1]);
    }
  }

  /** With 64-bit words four codes are enough to lose a bit: 63 bits are pending, and
      the first of them is a one. */
  lemma FourCodesLose()
    ensures var cs := [Code(0x8000, 16), Code(0, 16), Code(0, 15), Code(0, 16)];
            Writable(cs) && !Clean(64, CodeBits(cs), Pending(64, cs))
  {
    var cs := [Code(0x8000, 16), Code(0, 16), Code(0, 15), Code(0, 16)];
    Pow2Values();
    Pow2Twice(15);
    Pow2Mono(0, 15);
    Pow2Mono(0, 16);
    FirstOne();
    hide Word, Pow2;
    FourCodes(64, cs);
    assert CodeBits(cs)[0] == 1;
  }

  lemma FourCodes(w: nat, cs: seq<Code>)
    requires |cs| == 4
    ensures CodeBits(cs) == Word(cs[0].v, cs[0].n) + Word(cs[1].v, cs[1].n) + Word(cs[2].v, cs[2].n)
            + Word(cs[3].v, cs[3].n)
    ensures Pending(w, cs) == AfterBits(w, AfterBits(w, AfterBits(w, AfterBits(w, 0, cs[0].n), cs[1].n), cs[2].n),
                                        cs[3].n)
  {
    hide Word, AfterBits;
    EmptyCodes(w);
    assert cs[..4] == cs && cs[..0] == [];
    NextCode(w, cs, 0);
    NextCode(w, cs, 1);
    NextCode(w, cs, 2);
    NextCode(w, cs, 3);
    hide CodeBits, Pending;
  }

  lemma FirstOne()
    ensures |Word(0x8000, 16)| == 16 && Word(0x8000, 16)[0] == 1
  {
    hide Word;
    Pow2Values();
    Pow2Twice(15);
    WordSplit(0x8000, 1, 15);
    assert Quotient(0x8000, Pow2(15)) == 1;
    OneBitWord();
  }

  lemma OneBitWord()
    ensures Word(1, 1) == [1]
  {
    assert Word(0, 0) == [];
  }
}
