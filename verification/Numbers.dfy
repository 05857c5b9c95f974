/** Powers of two and big-endian byte strings: the arithmetic that the coder,
    the Huffman code and the quantiser proofs share, and the constants of the format
    that more than one part of the library uses. */
module Numbers {

  type byte = x: int | 0 <= x < 256

  type bit = x: int | 0 <= x < 2

  const DCTSIZE2 := 64
  const MAX_COMPS_IN_SCAN := 4
  const RST0: byte := 0xD0

  function Abs(v: int): nat { if v < 0 then -v else v }

  function Pow2(n: nat): (p: nat)
    ensures p > 0
  {
    if n == 0 then 1 else 2 * Pow2(n - 1)
  }

  lemma {:induction false} Pow2Add(m: nat, n: nat)
    ensures Pow2(m + n) == Pow2(m) * Pow2(n)
  {
    if n == 0 {
    } else {
      Pow2Add(m, n - 1);
      assert Pow2(m + n) == 2 * Pow2(m + n - 1);
      assert Pow2(m) * Pow2(n) == 2 * (Pow2(m) * Pow2(n - 1));
    }
  }

  lemma Pow2Add8(n: nat)
    ensures Pow2(n + 8) == 256 * Pow2(n)
  {
    Pow2Add(n, 8);
    assert Pow2(8) == 256;
  }

  lemma Pow2Twice(n: nat)
    ensures Pow2(n + 1) == 2 * Pow2(n)
  {
  }

  lemma Pow2Values()
    ensures Pow2(8) == 0x100 && Pow2(16) == 0x10000 && Pow2(19) == 0x80000 && Pow2(27) == 0x8000000
  {
    assert Pow2(8) == 0x100;
    Pow2Add(8, 8);
    assert Pow2(3) == 8;
    Pow2Add(16, 3);
    Pow2Add(19, 8);
  }

  lemma {:induction false} Pow2Mono(m: nat, n: nat)
    requires m <= n
    ensures Pow2(m) <= Pow2(n)
  {
    if m == n {
    } else {
      Pow2Mono(m, n - 1);
    }
  }

  lemma MulMono(x: int, y: int, p: nat)
    requires x <= y
    ensures x * p <= y * p
  {
  }

  lemma LessTimes(x: int, y: int, p: nat)
    requires x < y && p > 0
    ensures x * p < y * p
  {
    MulMono(x + 1, y, p);
    Distribute(x, 1, p);
  }

  lemma Distribute(x: int, y: int, p: int)
    ensures (x + y) * p == x * p + y * p
  {
  }

  lemma MulAssoc(x: int, y: int, z: int)
    ensures x * y * z == x * (y * z)
  {
  }

  lemma MulByteShift(x: int, p: int)
    ensures 256 * x * p == x * (256 * p)
  {
  }

  lemma MulTwo(x: int, p: int)
    ensures x * (2 * p) == 2 * x * p
  {
  }

  /** Quotient and remainder are unique. */
  lemma DivModUnique(w: int, d: int, q: int, r: int)
    requires 0 <= r < d && w == d * q + r
    ensures w / d == q && w % d == r
  {
    var q', r' := w / d, w % d;
    assert w == d * q' + r';
    if q' < q {
      MulMono(q' + 1, q, d);
      Distribute(q', 1, d);
    } else if q < q' {
      MulMono(q + 1, q', d);
      Distribute(q, 1, d);
    }
  }

  /** Splitting the top bit off a remainder. */
  lemma TopBit(w: nat, m: nat)
    requires m > 0
    ensures w % (2 * m) == w / m % 2 * m + w % m
  {
    var q, r := w / m, w % m;
    var p, b := q / 2, q % 2;
    assert w == m * q + r;
    assert q == 2 * p + b;
    assert m * q == 2 * m * p + m * b;
    assert b == 0 || b == 1;
    DivModUnique(w, 2 * m, p, b * m + r);
  }

  /** A multiple of 2 * m has the bit m clear. */
  lemma BitClear(v: nat, m: nat)
    requires m > 0 && v % (2 * m) == 0
    ensures v / m % 2 == 0 && v % m == 0 && (v + m) % m == 0
  {
    var p := v / (2 * m);
    assert v == 2 * m * p == m * (2 * p);
    DivModUnique(v, m, 2 * p, 0);
    DivModUnique(v + m, m, 2 * p + 1, 0);
  }

  /** The number that a byte string denotes, most significant byte first. */
  function Num(s: seq<byte>): (n: nat)
  {
    if s == [] then 0 else 256 * Num(s[..|s| - 1]) + s[|s| - 1]
  }

  lemma NumSnoc(s: seq<byte>, b: byte)
    ensures Num(s + [b]) == 256 * Num(s) + b
  {
    assert (s + [b])[..|s|] == s;
  }

  function Repeat(b: byte, n: nat): (s: seq<byte>)
    ensures |s| == n
  {
    seq(n, i => b)
  }

  lemma RepeatSnoc(b: byte, n: nat)
    requires n > 0
    ensures Repeat(b, n) == Repeat(b, n - 1) + [b]
  {
  }

  /** Adding one to ...b FF FF FF carries into b and leaves zeros behind. */
  lemma {:induction false} NumCarry(s: seq<byte>, b: byte, n: nat)
    requires b < 255
    ensures Num(s + [b] + Repeat(255, n)) + 1 == Num(s + [(b + 1) as byte] + Repeat(0, n))
  {
    if n == 0 {
      NumSnoc(s, b);
      NumSnoc(s, (b + 1) as byte);
      assert s + [b] + Repeat(255, n) == s + [b];
      assert s + [(b + 1) as byte] + Repeat(0, n) == s + [(b + 1) as byte];
    } else {
      NumCarry(s, b, n - 1);
      RepeatSnoc(255, n);
      RepeatSnoc(0, n);
      assert s + [b] + Repeat(255, n) == (s + [b] + Repeat(255, n - 1)) + [255];
      assert s + [(b + 1) as byte] + Repeat(0, n) == (s + [(b + 1) as byte] + Repeat(0, n - 1)) + [0];
      NumSnoc(s + [b] + Repeat(255, n - 1), 255);
      NumSnoc(s + [(b + 1) as byte] + Repeat(0, n - 1), 0);
    }
  }

  /** A string of n bytes 0xFF is one short of 256^n. */
  lemma {:induction false} NumAllOnes(n: nat)
    ensures Num(Repeat(255, n)) + 1 == Pow2(8 * n)
  {
    if n == 0 {
    } else {
      NumAllOnes(n - 1);
      RepeatSnoc(255, n);
      NumSnoc(Repeat(255, n - 1), 255);
      Pow2Add8(8 * (n - 1));
    }
  }

  /** Extending a string with zero bytes shifts the number. */
  lemma {:induction false} NumZeros(s: seq<byte>, n: nat)
    ensures Num(s + Repeat(0, n)) == Num(s) * Pow2(8 * n)
  {
    if n == 0 {
      assert s + Repeat(0, n) == s;
    } else {
      NumZeros(s, n - 1);
      RepeatSnoc(0, n);
      assert s + Repeat(0, n) == (s + Repeat(0, n - 1)) + [0];
      NumSnoc(s + Repeat(0, n - 1), 0);
      Pow2Add8(8 * (n - 1));
      assert Num(s + Repeat(0, n)) == 256 * (Num(s) * Pow2(8 * (n - 1)));
    }
  }
}
