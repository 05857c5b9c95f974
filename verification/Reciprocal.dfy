/** Division by reciprocal in jcdctmgr.c: the divisor tables and quantize(). */
module Reciprocal {
  import opened Numbers

  /** Samples after the forward DCT stay within this bound. */
  const MAX_SAMPLE := 0x4000

  /** Storing an unsigned value of w bits in a signed variable, and reading it back. */
  function AsSigned(v: nat, w: nat): int {
    if 2 * v < Pow2(w) then v else v - Pow2(w)
  }

  function AsUnsigned(v: int, w: nat): nat { v % Pow2(w) }

  /** What quantisation is meant to be: division rounded to nearest, ties away from
      zero. */
  function Rounded(x: int, d: nat): int
    requires d > 0
  {
    var q := (Abs(x) + d / 2) / d;
    if x < 0 then -q else q
  }

  lemma RoundsToNearest(x: int, d: nat)
    requires d > 0
    ensures var r := Rounded(x, d);
            && 0 - d <= 2 * (Abs(x) - Abs(r) * d) < d
            && (r > 0 ==> x > 0) && (r < 0 ==> x < 0)
  {
    var a := Abs(x) + d / 2;
    assert a == a / d * d + a % d;
  }

  // ---- flss ----

  /** The number of the highest bit that is set, by binary search; val is UINT16. */
  method Flss(val0: nat) returns (bit: nat)
    requires val0 < 0x10000
    ensures bit <= 16 && (bit == 0 <==> val0 == 0)
    ensures val0 < Pow2(bit) && (val0 > 0 ==> Pow2(bit - 1) <= val0)
  {
    hide Pow2;
    Pow2Zero();
    Pow2Values();
    if val0 == 0 {
      return 0;
    }
    var val := val0;
    bit := 16;
    bit, val := ShiftIfClear(bit, val, 8, val0);  // val & 0xff00
    bit, val := ShiftIfClear(bit, val, 4, val0);  // val & 0xf000
    bit, val := ShiftIfClear(bit, val, 2, val0);  // val & 0xc000
    bit, val := ShiftIfClear(bit, val, 1, val0);  // val & 0x8000
    Located(val0, val, bit);
  }

  /** One step: if the top s bits of val are clear, shift it left by s. */
  method ShiftIfClear(bit0: nat, val0: nat, s: nat, ghost whole: nat) returns (bit: nat, val: nat)
    requires bit0 <= 16 && val0 == whole * Pow2(16 - bit0) && 2 * s <= 16
    requires Pow2(16 - 2 * s) <= val0 < Pow2(16)
    ensures bit <= 16 && val == whole * Pow2(16 - bit) && Pow2(16 - s) <= val < Pow2(16)
  {
    hide Pow2;
    bit, val := bit0, val0;
    if val / Pow2(16 - s) == 0 {
      BelowDivisor(val, Pow2(16 - s));
      Pow2Add(16 - s, s);
      LessTimes(val, Pow2(16 - s), Pow2(s));
      Pow2Add(16 - 2 * s, s);
      MulMono(Pow2(16 - 2 * s), val, Pow2(s));
      Narrowed(whole, val, bit, s);
      DivModUnique(val * Pow2(s), Pow2(16), 0, val * Pow2(s));
      bit := bit - s;
      val := val * Pow2(s) % Pow2(16);
    } else {
      AboveDivisor(val, Pow2(16 - s));
    }
  }

  lemma BelowDivisor(x: nat, p: nat)
    requires p > 0 && x / p == 0
    ensures x < p
  {
    assert x == p * (x / p) + x % p;
  }

  lemma AboveDivisor(x: nat, p: nat)
    requires p > 0 && x / p != 0
    ensures x >= p
  {
    if x < p {
      DivModUnique(x, p, 0, x);
    }
  }

  lemma Pow2Zero()
    ensures Pow2(0) == 1 && Pow2(1) == 2 && Pow2(2) == 4 && Pow2(4) == 16
  {
  }

  /** Shifting the value left by s when its top s bits are clear. */
  lemma Narrowed(val0: nat, val: nat, bit: nat, s: nat)
    requires bit <= 16 && val == val0 * Pow2(16 - bit) && 0 < val && s <= 16 && val * Pow2(s) < Pow2(16)
    ensures s <= bit && val * Pow2(s) == val0 * Pow2(16 - (bit - s))
  {
    hide Pow2;
    var p, q := Pow2(16 - bit), Pow2(s);
    Pow2Add(16 - bit, s);
    MulAssoc(val0, p, q);
    Positive(val0, p);
    MulMono(1, val0, p * q);
    if s > bit {
      Pow2Mono(16, 16 - bit + s);
    }
  }

  lemma Positive(x: nat, p: nat)
    requires x * p > 0
    ensures x > 0
  {
  }

  lemma Located(val0: nat, val: nat, bit: nat)
    requires bit <= 16 && val == val0 * Pow2(16 - bit) && Pow2(15) <= val < Pow2(16)
    ensures bit > 0 && Pow2(bit - 1) <= val0 < Pow2(bit)
  {
    hide Pow2;
    Pow2Values();
    Pow2Zero();
    var p := Pow2(16 - bit);
    Pow2Add(bit, 16 - bit);
    Positive(val0, p);
    if val0 >= Pow2(bit) {
      MulMono(Pow2(bit), val0, p);
    }
    if bit > 0 {
      Pow2Add(bit - 1, 16 - bit);
      Pow2Twice(15);
      if val0 < Pow2(bit - 1) {
        MulMono(val0 + 1, Pow2(bit - 1), p);
        Distribute(val0, 1, p);
      }
    }
  }

  // ---- The divisor table ----

  /** reciprocal, correction + roundfactor, and shift. */
  datatype Divisor = Divisor(recip: nat, corr: nat, shift: int)

  /** What compute_reciprocal stores for the divisor d, with b the index of its
      highest bit and DCTELEM w bits wide. */
  function ReciprocalOf(d: nat, b: nat, w: nat): (v: Divisor)
    requires d > 0
  {
    if d == 1 then Divisor(1, 0, 0 - w)
    else
      var fq, fr := Pow2(w + b) / d, Pow2(w + b) % d;
      if fr == 0 then Divisor(fq / 2, d / 2, b - 1)
      else if fr <= d / 2 then Divisor(fq, d / 2 + 1, b)
      else Divisor(fq + 1, d / 2, b)
  }

  /** d divides by its table entry: for every sample, and with room in the types. */
  ghost predicate Exact(v: Divisor, d: nat, w: nat)
    requires d > 0
  {
    && v.shift + w >= 0 && v.recip < Pow2(w) && v.corr < Pow2(w)
    && forall a: nat :: a <= MAX_SAMPLE ==> Divides(v, d, w, a)
  }

  predicate Divides(v: Divisor, d: nat, w: nat, a: nat)
    requires d > 0 && v.shift + w >= 0
  {
    && a + v.corr < Pow2(w)
    && (a + v.corr) * v.recip < Pow2(2 * w)
    && (a + v.corr) * v.recip / Pow2(v.shift + w) == (a + d / 2) / d
  }

  // ---- Why it is exact ----

  /** The quotient from bounds on the product. */
  lemma QuotientIs(x: nat, p: nat, q: nat)
    requires p > 0 && q * p <= x < (q + 1) * p
    ensures x / p == q
  {
    Distribute(q, 1, p);
    DivModUnique(x, p, q, x - q * p);
  }

  /** Rounding the reciprocal down, f * d == p - fr: one is added to the dividend. */
  lemma RoundedDown(n: nat, d: nat, f: nat, fr: nat, p: nat)
    requires d > 0 && p == f * d + fr && 0 < fr && (n + 1) * fr <= p
    ensures p > 0 && (n + 1) * f / p == n / d
  {
    var q, s := n / d, n % d;
    assert n == d * q + s;
    var x := (n + 1) * f;
    // d * x == (n + 1) * (p - fr)
    assert d * x == (n + 1) * (f * d) by { Reorder(d, n + 1, f); }
    assert (n + 1) * (f * d) == (n + 1) * p - (n + 1) * fr by { SubDistribute(n + 1, p, fr); }
    assert q * p <= x by {
      assert d * (q * p) == (d * q) * p by { MulAssoc(d, q, p); }
      MulMono(d * q + 1, n + 1, p);
      Distribute(d * q, 1, p);
      CancelLe(d, q * p, x);
    }
    assert x < (q + 1) * p by {
      MulMono(n + 1, d * q + d, p);
      assert (d * q + d) * p == d * ((q + 1) * p) by { Reassociate(d, q, p); }
      assert (n + 1) * fr > 0 by { MulMono(1, n + 1, fr); }
      CancelLt(d, x, (q + 1) * p);
    }
    QuotientIs(x, p, q);
  }

  /** Rounding it up, f * d == p + e. */
  lemma RoundedUp(n: nat, d: nat, f: nat, e: nat, p: nat)
    requires d > 0 && p + e == f * d && n * e < p
    ensures n * f / p == n / d
  {
    var q, s := n / d, n % d;
    assert n == d * q + s;
    var x := n * f;
    assert d * x == n * (f * d) by { Reorder(d, n, f); }
    assert n * (f * d) == n * p + n * e by { AddDistribute(n, p, e); }
    assert q * p <= x by {
      assert d * (q * p) == (d * q) * p by { MulAssoc(d, q, p); }
      MulMono(d * q, n, p);
      CancelLe(d, q * p, x);
    }
    assert x < (q + 1) * p by {
      MulMono(n + 1, d * q + d, p);
      Distribute(n, 1, p);
      assert (d * q + d) * p == d * ((q + 1) * p) by { Reassociate(d, q, p); }
      CancelLt(d, x, (q + 1) * p);
    }
    QuotientIs(x, p, q);
  }

  lemma Reorder(d: int, n: int, f: int)
    ensures d * (n * f) == n * (f * d)
  {
    MulAssoc(d, n, f);
    MulAssoc(n, d, f);
    assert d * n == n * d && d * f == f * d;
  }

  lemma SubDistribute(x: int, p: int, r: int)
    ensures x * (p - r) == x * p - x * r
  {
  }

  lemma AddDistribute(x: int, p: int, r: int)
    ensures x * (p + r) == x * p + x * r
  {
  }

  lemma Reassociate(d: int, q: int, p: int)
    ensures (d * q + d) * p == d * ((q + 1) * p)
  {
    assert d * q + d == d * (q + 1);
    MulAssoc(d, q + 1, p);
  }

  lemma CancelLe(d: int, x: int, y: int)
    requires d > 0 && d * x <= d * y
    ensures x <= y
  {
    assert d * x == x * d && d * y == y * d;
    if x > y {
      MulMono(y + 1, x, d);
      Distribute(y, 1, d);
    }
  }

  lemma CancelLt(d: int, x: int, y: int)
    requires d > 0 && d * x < d * y
    ensures x < y
  {
    assert d * x == x * d && d * y == y * d;
    if x >= y {
      MulMono(y, x, d);
    }
  }

  /** An odd divisor of a power of two is 1. */
  lemma {:induction false} OddDivisor(o: nat, d: nat, k: nat)
    requires o % 2 == 1 && o * d == Pow2(k)
    ensures o == 1
    decreases k
  {
    if k == 0 {
      if o > 1 && d > 0 {
        MulMono(1, d, o);
      }
    } else {
      OddTimes(o, d);
      assert d == 2 * (d / 2);
      MulTwo(o, d / 2);
      assert o * (2 * (d / 2)) == 2 * (o * (d / 2));
      OddDivisor(o, d / 2, k - 1);
    }
  }

  lemma OddTimes(o: nat, d: nat)
    requires o % 2 == 1 && o * d % 2 == 0
    ensures d % 2 == 0
  {
    var h, k := o / 2, d / 2;
    assert o == 2 * h + 1 && d == 2 * k + d % 2;
    Distribute(2 * h, 1, d);
    MulAssoc(2, h, d);
    assert o * d == 2 * (h * d) + d;
  }

  /** d lies between two powers of two; p is the dividend of the reciprocal. */
  ghost predicate Scaled(d: nat, b: nat, w: nat) {
    && (w == 16 || w == 32) && 2 <= d < 0x10000 && Pow2(b) <= d < Pow2(b + 1)
  }

  lemma ScaledFacts(d: nat, b: nat, w: nat)
    requires Scaled(d, b, w)
    ensures Pow2(w + b) == Pow2(w) * Pow2(b) && Pow2(w) >= 0x10000 && d / 2 < Pow2(b) <= d
    ensures var fq, fr := Pow2(w + b) / d, Pow2(w + b) % d;
            && Pow2(w + b) == fq * d + fr && fr < d
            && fq <= Pow2(w) && (fr > 0 ==> fq < Pow2(w) && Pow2(b) < d)
            && 2 <= fq
  {
    hide Pow2;
    Pow2Add(w, b);
    Pow2Values();
    Pow2Mono(16, w);
    Pow2Twice(b);
    var p, x, y := Pow2(w + b), Pow2(w), Pow2(b);
    var fq, fr := p / d, p % d;
    assert p == d * fq + fr;
    assert d * fq == fq * d && x * d == d * x && x * y == y * x;
    MulMono(y, d, x);
    MulMono(0x10000, x, y);
    if fq > x {
      MulMono(x + 1, fq, d);
      Distribute(x, 1, d);
    }
    if fr > 0 && d == y {
      DivModUnique(p, d, x, 0);
    }
    if fq < 2 {
      MulMono(fq, 1, d);
    }
  }

  /** The divisor is a power of two. */
  lemma PowerOfTwo(d: nat, b: nat, w: nat, a: nat)
    requires Scaled(d, b, w) && Pow2(w + b) % d == 0 && a <= MAX_SAMPLE
    ensures var v := ReciprocalOf(d, b, w);
            b >= 1 && v.shift + w >= 0 && v.recip < Pow2(w) && v.corr < Pow2(w) && Divides(v, d, w, a)
  {
    hide Pow2;
    ScaledFacts(d, b, w);
    Pow2Zero();
    var p, fq := Pow2(w + b), Pow2(w + b) / d;
    if fq % 2 == 1 {
      OddDivisor(fq, d, w + b);
    }
    var h, n := fq / 2, a + d / 2;
    assert fq == 2 * h;
    Pow2Twice(w + b - 1);
    assert p == 2 * (h * d) by { MulAssoc(2, h, d); }
    RoundedUp(n, d, h, 0, Pow2(w + b - 1));
    Fits(n, h, w);
  }

  lemma Fits(n: nat, f: nat, w: nat)
    requires n < Pow2(w) && f < Pow2(w)
    ensures n * f < Pow2(2 * w)
  {
    hide Pow2;
    Pow2Add(w, w);
    var x := Pow2(w);
    MulMono(n, x, f);
    LessTimes(f, x, x);
    assert x * f == f * x;
  }

  lemma FractionDown(d: nat, b: nat, w: nat, a: nat)
    requires Scaled(d, b, w) && 0 < Pow2(w + b) % d <= d / 2 && a <= MAX_SAMPLE
    ensures var v := ReciprocalOf(d, b, w);
            v.shift + w >= 0 && v.recip < Pow2(w) && v.corr < Pow2(w) && Divides(v, d, w, a)
  {
    hide Pow2;
    ScaledFacts(d, b, w);
    var p, fq, fr := Pow2(w + b), Pow2(w + b) / d, Pow2(w + b) % d;
    var n := a + d / 2;
    MulMono(n + 1, Pow2(w), fr);
    MulMono(fr, Pow2(b), Pow2(w));
    assert Pow2(w) * fr == fr * Pow2(w) && Pow2(b) * Pow2(w) == Pow2(w) * Pow2(b);
    RoundedDown(n, d, fq, fr, p);
    Fits(n + 1, fq, w);
  }

  lemma FractionUp(d: nat, b: nat, w: nat, a: nat)
    requires Scaled(d, b, w) && Pow2(w + b) % d > d / 2 && a <= MAX_SAMPLE
    ensures var v := ReciprocalOf(d, b, w);
            v.shift + w >= 0 && v.recip < Pow2(w) && v.corr < Pow2(w) && Divides(v, d, w, a)
  {
    hide Pow2;
    ScaledFacts(d, b, w);
    var p, x, fq, fr := Pow2(w + b), Pow2(w), Pow2(w + b) / d, Pow2(w + b) % d;
    var e, n := d - fr, a + d / 2;
    assert (fq + 1) * d == p + e by { Distribute(fq, 1, d); }
    assert x * d == d * x && Pow2(b) * x == x * Pow2(b);
    MulMono(Pow2(b) + 1, d, x);
    Distribute(Pow2(b), 1, x);
    if fq + 1 >= x {
      MulMono(x, fq + 1, d);
    }
    MulMono(e, Pow2(b), n);
    LessTimes(n, x, Pow2(b));
    assert n * e == e * n && Pow2(b) * n == n * Pow2(b);
    RoundedUp(n, d, fq + 1, e, p);
    Fits(n, fq + 1, w);
  }

  /** For words of 16 and of 32 bits, every divisor and every sample: the multiply
      and shift give the rounded quotient, and all intermediate values fit. */
  lemma ReciprocalExact(d: nat, b: nat, w: nat)
    requires (w == 16 || w == 32) && 1 <= d < 0x10000 && Pow2(b) <= d < Pow2(b + 1)
    ensures Exact(ReciprocalOf(d, b, w), d, w)
  {
    hide Pow2, Divides;
    Pow2Values();
    Pow2Mono(16, w);
    if d == 1 {
      forall a: nat | a <= MAX_SAMPLE ensures Divides(ReciprocalOf(d, b, w), d, w, a) {
        Undivided(a, w);
      }
    } else {
      forall a: nat | a <= MAX_SAMPLE
        ensures var v := ReciprocalOf(d, b, w);
                v.shift + w >= 0 && v.recip < Pow2(w) && v.corr < Pow2(w) && Divides(v, d, w, a)
      {
        if Pow2(w + b) % d == 0 {
          PowerOfTwo(d, b, w, a);
        } else if Pow2(w + b) % d <= d / 2 {
          FractionDown(d, b, w, a);
        } else {
          FractionUp(d, b, w, a);
        }
      }
      assert Divides(ReciprocalOf(d, b, w), d, w, 0);
    }
  }

  lemma Undivided(a: nat, w: nat)
    requires (w == 16 || w == 32) && a <= MAX_SAMPLE
    ensures Divides(Divisor(1, 0, 0 - w), 1, w, a)
  {
    hide Pow2;
    Pow2Values();
    Pow2Zero();
    Pow2Mono(16, w);
    Pow2Mono(16, 2 * w);
  }

  // ---- The table and the loop ----

  /** A table of 64 divisors: reciprocals, corrections, scales and shifts, each
      stored in a signed DCTELEM of w bits. */
  ghost predicate Stored(dtbl: seq<int>, i: nat, v: Divisor, w: nat)
    requires |dtbl| == 4 * DCTSIZE2 && i < DCTSIZE2
  {
    dtbl[i] == AsSigned(v.recip, w) && dtbl[i + DCTSIZE2] == AsSigned(v.corr, w) && dtbl[i + 3 * DCTSIZE2] == v.shift
  }

  /** Entry i divides by d. */
  ghost predicate DividesBy(dtbl: seq<int>, i: nat, d: nat, w: nat)
    requires |dtbl| == 4 * DCTSIZE2 && i < DCTSIZE2 && d > 0
  {
    exists v: Divisor :: Stored(dtbl, i, v, w) && Exact(v, d, w)
  }

  lemma StoredSize(v: nat, w: nat)
    requires v < Pow2(w)
    ensures AsUnsigned(AsSigned(v, w), w) == v
  {
    hide Pow2;
    var p := Pow2(w);
    if 2 * v < p {
      DivModUnique(v, p, 0, v);
    } else {
      DivModUnique(v - p, p, -1, v);
    }
  }

  /** The scale entry is for SIMD code, which multiplies and keeps the upper half instead
      of shifting by the shift entry: the two do the same. */
  ghost predicate ScaleShifts(dtbl: seq<int>, i: nat, w: nat)
    requires |dtbl| == 4 * DCTSIZE2 && i < DCTSIZE2
  {
    var shift := dtbl[i + 3 * DCTSIZE2];
    shift >= 0 && AsUnsigned(dtbl[i + 2 * DCTSIZE2], w) * Pow2(shift) == Pow2(w)
  }

  /** (DCTELEM) (1 << (2w - r)) */
  lemma ScaleEntry(r: nat, w: nat)
    requires w < r <= 2 * w
    ensures Pow2(2 * w - r) < Pow2(w) && Pow2(2 * w - r) % Pow2(w) == Pow2(2 * w - r)
    ensures AsUnsigned(AsSigned(Pow2(2 * w - r) % Pow2(w), w), w) * Pow2(r - w) == Pow2(w)
  {
    Pow2Mono(2 * w - r, w - 1);
    Pow2Twice(w - 1);
    hide Pow2, AsSigned, AsUnsigned;
    DivModUnique(Pow2(2 * w - r), Pow2(w), 0, Pow2(2 * w - r));
    StoredSize(Pow2(2 * w - r), w);
    Pow2Add(2 * w - r, r - w);
  }

  /** compute_reciprocal for one entry of a table, compiled with or without SIMD: the
      entry then divides exactly. The result says whether the SIMD quantiser may use it,
      that is, whether its scale entry does what its shift entry does. */
  method ComputeReciprocal(divisor: nat, dtbl: array<int>, i: nat, w: nat, withSimd: bool) returns (simd: bool)
    requires 1 <= divisor < 0x10000 && (w == 16 || w == 32)
    requires dtbl.Length == 4 * DCTSIZE2 && i < DCTSIZE2
    modifies dtbl
    ensures DividesBy(dtbl[..], i, divisor, w)
    ensures simd <==> divisor > if w == 16 then 2 else 1
    ensures withSimd && w == 16 && simd ==> ScaleShifts(dtbl[..], i, w)
    ensures !withSimd || divisor == 1 ==> dtbl[i + 2 * DCTSIZE2] == 1
    ensures forall k :: 0 <= k < 4 * DCTSIZE2 && k % DCTSIZE2 != i ==> dtbl[k] == old(dtbl[k])
  {
    hide Pow2, Exact, AsSigned, AsUnsigned;
    var bit := Flss(divisor);
    var b: nat := bit - 1;
    ReciprocalExact(divisor, b, w);
    ghost var v := ReciprocalOf(divisor, b, w);
    if divisor == 1 {
      StoreEntry(dtbl, i, w, Divisor(1, 0, 0 - w), 1);
      return false;
    }
    var r := w + b;
    var fq, fr := Pow2(r) / divisor, Pow2(r) % divisor;
    var c := divisor / 2;                         // for rounding
    if fr == 0 {                                  // divisor is power of two
      fq := fq / 2;
      r := r - 1;
    } else if fr <= divisor / 2 {                 // fractional part is < 0.5
      c := c + 1;
    } else {                                      // fractional part is > 0.5
      fq := fq + 1;
    }
    RoundsUp(divisor, b, w, r);
    var scale := if withSimd then AsSigned(Pow2(2 * w - r) % Pow2(w), w) else 1;
    StoreEntry(dtbl, i, w, Divisor(fq, c, r - w), scale);
    simd := r > 16;
    if w == 16 && simd {
      ScaleEntry(r, w);
    }
  }

  /** dtbl[DCTSIZE2 * 0] to dtbl[DCTSIZE2 * 3] */
  method StoreEntry(dtbl: array<int>, i: nat, w: nat, v: Divisor, scale: int)
    requires dtbl.Length == 4 * DCTSIZE2 && i < DCTSIZE2
    modifies dtbl
    ensures Stored(dtbl[..], i, v, w) && dtbl[i + 2 * DCTSIZE2] == scale
    ensures forall k :: 0 <= k < 4 * DCTSIZE2 && k % DCTSIZE2 != i ==> dtbl[k] == old(dtbl[k])
  {
    hide AsSigned;
    dtbl[i] := AsSigned(v.recip, w);
    dtbl[i + DCTSIZE2] := AsSigned(v.corr, w);
    dtbl[i + 2 * DCTSIZE2] := scale;
    dtbl[i + 3 * DCTSIZE2] := v.shift;
  }

  /** r - w, the shift, is positive except for the divisors 1 and 2. */
  lemma RoundsUp(d: nat, b: nat, w: nat, r: int)
    requires (w == 16 || w == 32) && 1 < d < 0x10000 && Pow2(b) <= d < Pow2(b + 1)
    requires r == if Pow2(w + b) % d == 0 then w + b - 1 else w + b
    ensures w <= r <= 2 * w && (r > w <==> d > 2)
  {
    Pow2Values();
    if b >= 16 {
      Pow2Mono(16, b);
    }
    assert Pow2(0) == 1 && Pow2(1) == 2 && Pow2(2) == 4;
    if b == 1 {
      if d == 3 {
        NotByThree(w + 1);
      } else {
        Pow2Add(1, w);
        DivModUnique(Pow2(w + 1), 2, Pow2(w), 0);
      }
    } else {
      Pow2Mono(2, b);
    }
  }

  lemma {:induction false} NotByThree(n: nat)
    ensures Pow2(n) % 3 != 0
    decreases n
  {
    if n == 0 {
      assert Pow2(0) == 1;
    } else {
      NotByThree(n - 1);
      Pow2Twice(n - 1);
      hide Pow2;
      TwiceByThree(Pow2(n - 1));
    }
  }

  lemma TwiceByThree(p: nat)
    requires p % 3 != 0
    ensures 2 * p % 3 != 0
  {
  }

  lemma ExactAt(v: Divisor, d: nat, w: nat, a: nat)
    requires d > 0 && Exact(v, d, w) && a <= MAX_SAMPLE
    ensures v.shift + w >= 0 && v.recip < Pow2(w) && v.corr < Pow2(w) && Divides(v, d, w, a)
  {
  }

  /** The absolute value of one coefficient through the table. */
  method Descale(temp: nat, dtbl: array<int>, i: nat, w: nat, ghost d: nat) returns (q: nat)
    requires (w == 16 || w == 32) && dtbl.Length == 4 * DCTSIZE2 && i < DCTSIZE2
    requires d > 0 && temp <= MAX_SAMPLE && DividesBy(dtbl[..], i, d, w)
    ensures q == (temp + d / 2) / d
  {
    hide Pow2, Exact, AsSigned, AsUnsigned;
    ghost var v: Divisor :| Stored(dtbl[..], i, v, w) && Exact(v, d, w);
    ExactAt(v, d, w, temp);
    StoredSize(v.recip, w);
    StoredSize(v.corr, w);
    var recip := AsUnsigned(dtbl[i], w);
    var corr := AsUnsigned(dtbl[i + DCTSIZE2], w);
    var shift := dtbl[i + 3 * DCTSIZE2];
    var product := (temp + corr) * recip;         // below 2^(2w)
    q := product / Pow2(shift + w);
  }

  /** quantize: every coefficient is divided and rounded to nearest. */
  method Quantize(coefBlock: array<int>, divisors: array<int>, workspace: array<int>, w: nat, ghost d: seq<nat>)
    requires (w == 16 || w == 32) && coefBlock.Length == workspace.Length == DCTSIZE2
    requires divisors.Length == 4 * DCTSIZE2 && coefBlock != divisors && coefBlock != workspace
    requires |d| == DCTSIZE2 && forall i :: 0 <= i < DCTSIZE2 ==> d[i] > 0 && DividesBy(divisors[..], i, d[i], w)
    requires forall i :: 0 <= i < DCTSIZE2 ==> Abs(workspace[i]) <= MAX_SAMPLE
    modifies coefBlock
    ensures forall i :: 0 <= i < DCTSIZE2 ==> coefBlock[i] == Rounded(workspace[i], d[i])
  {
    hide DividesBy;
    for i := 0 to DCTSIZE2
      invariant forall k :: 0 <= k < i ==> coefBlock[k] == Rounded(workspace[k], d[k])
    {
      var temp := workspace[i];
      if temp < 0 {
        temp := -temp;
        temp := Descale(temp, divisors, i, w, d[i]);
        temp := -temp;
      } else {
        temp := Descale(temp, divisors, i, w, d[i]);
      }
      coefBlock[i] := temp;
    }
  }

  // ---- The divisors of the LL&M transform ----

  /** qtbl->quantval[i] << 3, in a UINT16. */
  function IslowDivisor(quantval: nat): nat { quantval * 8 % 0x10000 }

  /** It is eight times the quantiser step, and nonzero, exactly up to 8191. */
  lemma IslowExact(quantval: nat)
    requires 1 <= quantval < 0x10000
    ensures IslowDivisor(quantval) == 8 * quantval <==> quantval <= 8191
    ensures IslowDivisor(8192) == 0
  {
  }

  lemma OtherEntry(t: seq<int>, u: seq<int>, i: nat, k: nat, d: nat, w: nat)
    requires |t| == |u| == 4 * DCTSIZE2 && i < DCTSIZE2 && k < DCTSIZE2 && k != i && d > 0
    requires forall j :: 0 <= j < |t| && j % DCTSIZE2 != i ==> t[j] == u[j]
    ensures DividesBy(t, k, d, w) ==> DividesBy(u, k, d, w)
    ensures ScaleShifts(t, k, w) ==> ScaleShifts(u, k, w)
  {
    hide Exact, AsSigned, AsUnsigned, Pow2;
    assert t[k] == u[k] && t[k + DCTSIZE2] == u[k + DCTSIZE2];
    assert t[k + 2 * DCTSIZE2] == u[k + 2 * DCTSIZE2] && t[k + 3 * DCTSIZE2] == u[k + 3 * DCTSIZE2];
    forall v | Stored(t, k, v, w) ensures Stored(u, k, v, w) {
    }
  }

  /** The loop of start_pass_fdctmgr for JDCT_ISLOW: the table divides by eight times the
      quantiser steps, if none is above 8191. The result says whether the SIMD quantiser
      can be kept. */
  method IslowDivisors(quantval: seq<nat>, dtbl: array<int>, w: nat, withSimd: bool) returns (simd: bool)
    requires |quantval| == DCTSIZE2 && dtbl.Length == 4 * DCTSIZE2 && (w == 16 || w == 32)
    requires forall i :: 0 <= i < DCTSIZE2 ==> 1 <= quantval[i] <= 8191
    modifies dtbl
    ensures forall i :: 0 <= i < DCTSIZE2 ==> DividesBy(dtbl[..], i, 8 * quantval[i], w)
    ensures simd && (withSimd && w == 16 ==> forall i :: 0 <= i < DCTSIZE2 ==> ScaleShifts(dtbl[..], i, w))
  {
    hide DividesBy, ScaleShifts;
    simd := true;
    for i := 0 to DCTSIZE2
      invariant simd && forall k :: 0 <= k < i ==> DividesBy(dtbl[..], k, 8 * quantval[k], w)
      invariant withSimd && w == 16 ==> forall k :: 0 <= k < i ==> ScaleShifts(dtbl[..], k, w)
    {
      IslowExact(quantval[i]);
      ghost var was := dtbl[..];
      var fits := ComputeReciprocal(IslowDivisor(quantval[i]), dtbl, i, w, withSimd);
      if !fits {
        simd := false;
      }
      forall k | 0 <= k < i
        ensures DividesBy(dtbl[..], k, 8 * quantval[k], w) && (withSimd && w == 16 ==> ScaleShifts(dtbl[..], k, w))
      {
        OtherEntry(was, dtbl[..], i, k, 8 * quantval[k], w);
      }
    }
  }

  /** Both together: a block is quantised by the steps of the table. */
  method QuantizeIslow(quantval: seq<nat>, coefBlock: array<int>, workspace: array<int>, w: nat)
    requires |quantval| == DCTSIZE2 && (w == 16 || w == 32) && forall i :: 0 <= i < DCTSIZE2 ==>
               1 <= quantval[i] <= 8191
    requires coefBlock.Length == workspace.Length == DCTSIZE2 && coefBlock != workspace
    requires forall i :: 0 <= i < DCTSIZE2 ==> Abs(workspace[i]) <= MAX_SAMPLE
    modifies coefBlock
    ensures forall i :: 0 <= i < DCTSIZE2 ==> coefBlock[i] == Rounded(workspace[i], 8 * quantval[i])
  {
    hide DividesBy, Rounded;
    var divisors := new int[4 * DCTSIZE2];
    var simd := IslowDivisors(quantval, divisors, w, false);
    ghost var steps := seq(DCTSIZE2, i requires 0 <= i < DCTSIZE2 => 8 * quantval[i]);
    Quantize(coefBlock, divisors, workspace, w, steps);
  }
}
