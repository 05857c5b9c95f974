/** jpeg_make_c_derived_tbl: canonical code words from a Huffman table (figures
    C.1 to C.3 of T.81), and when the table is accepted. */
module DerivedTable {
  import opened Numbers
  import opened Sums
  import opened HuffmanOptimality
  import opened HuffmanTree
  import opened LengthLimit
  import opened HuffmanTable

  // ---- The code of a table ----

  /** How many codes have at most l bits. */
  function Upto(bits: seq<nat>, l: nat): (n: nat)
    requires l < |bits|
  {
    if l == 0 then 0 else Upto(bits, l - 1) + bits[l]
  }

  /** One more than the last code of length l, were it used. */
  function NextCode(bits: seq<nat>, l: nat): (c: nat)
    requires l < |bits|
  {
    if l == 0 then 0 else 2 * NextCode(bits, l - 1) + bits[l]
  }

  /** Entry p of the table, in the order of huffval[], has length l. */
  predicate AtLength(bits: seq<nat>, l: nat, p: nat)
    requires |bits| == 17 && 1 <= l <= 16
  {
    Upto(bits, l - 1) <= p < Upto(bits, l)
  }

  /** Its canonical code: consecutive numbers within a length. */
  function CodeAt(bits: seq<nat>, l: nat, p: nat): (c: nat)
    requires |bits| == 17 && 1 <= l <= 16 && AtLength(bits, l, p)
  {
    2 * NextCode(bits, l - 1) + (p - Upto(bits, l - 1))
  }

  /** The table is a legal Huffman code tree that leaves the all-ones code unused,
      for distinct symbols in range. */
  ghost predicate Legal(bits: seq<nat>, huffval: seq<nat>, maxsymbol: nat) {
    && |bits| == 17 && |huffval| == 256
    && Upto(bits, 16) <= 256
    && NextCode(bits, 16) < Pow2(16)
    && (forall p :: 0 <= p < Upto(bits, 16) ==> huffval[p] <= maxsymbol)
    && Distinct(huffval[..Upto(bits, 16)])
  }

  /** ehufco and ehufsi give every symbol of the table its code, and the others
      length zero. */
  ghost predicate Derived(bits: seq<nat>, huffval: seq<nat>, co: seq<nat>, si: seq<nat>) {
    && |bits| == 17 && |huffval| == |co| == |si| == 256 && Upto(bits, 16) <= 256
    && (forall l, p :: 1 <= l <= 16 && 0 <= p && AtLength(bits, l, p) && p < 256 ==>
          huffval[p] < 256 && si[huffval[p]] == l && co[huffval[p]] == CodeAt(bits, l, p))
    && (forall s :: 0 <= s < 256 && s !in huffval[..Upto(bits, 16)] ==> si[s] == 0)
  }

  lemma {:induction false} UptoMono(bits: seq<nat>, l: nat, m: nat)
    requires l <= m < |bits|
    ensures Upto(bits, l) <= Upto(bits, m)
    decreases m
  {
    if l < m {
      UptoMono(bits, l, m - 1);
    }
  }

  /** The length of entry p. */
  lemma {:induction false} LengthOf(bits: seq<nat>, p: nat, m: nat) returns (l: nat)
    requires |bits| == 17 && m <= 16 && p < Upto(bits, m)
    ensures 1 <= l <= m && AtLength(bits, l, p)
    decreases m
  {
    if p < Upto(bits, m - 1) {
      l := LengthOf(bits, p, m - 1);
    } else {
      l := m;
    }
  }

  lemma UptoStep(bits: seq<nat>, l: nat)
    requires l < |bits|
    ensures Upto(bits, l) == if l == 0 then 0 else Upto(bits, l - 1) + bits[l]
    ensures NextCode(bits, l) == if l == 0 then 0 else 2 * NextCode(bits, l - 1) + bits[l]
  {
  }

  lemma {:induction false} SlotsGrow(bits: seq<nat>, l: nat, m: nat)
    requires l <= m < |bits|
    ensures Slots(NextCode(bits, l), m - l) <= NextCode(bits, m)
    ensures Upto(bits, l) == Upto(bits, m) ==> Slots(NextCode(bits, l), m - l) == NextCode(bits, m)
    decreases m
  {
    hide Slots, Upto, NextCode;
    if l == m {
      SlotsSingle(NextCode(bits, l));
    } else {
      SlotsGrow(bits, l, m - 1);
      UptoMono(bits, l, m - 1);
      UptoStep(bits, m);
      SlotsTwice(NextCode(bits, l), m - 1 - l);
    }
  }

  /** Codes of a greater length start above all extensions of the shorter ones. */
  lemma CodesGrow(bits: seq<nat>, l: nat, m: nat)
    requires l <= m < |bits|
    ensures NextCode(bits, l) * Pow2(m - l) <= NextCode(bits, m)
    ensures Upto(bits, l) == Upto(bits, m) ==> NextCode(bits, l) * Pow2(m - l) == NextCode(bits, m)
  {
    SlotsGrow(bits, l, m);
  }

  lemma Pow2Zero()
    ensures Pow2(0) == 1
  {
  }

  /** If the last codes fit, those of every length do. */
  lemma CodesFit(bits: seq<nat>, l: nat)
    requires |bits| == 17 && l <= 16 && NextCode(bits, 16) < Pow2(16)
    ensures NextCode(bits, l) < Pow2(l)
  {
    hide Pow2, NextCode;
    CodesGrow(bits, l, 16);
    Pow2Add(l, 16 - l);
    if NextCode(bits, l) >= Pow2(l) {
      MulMono(Pow2(l), NextCode(bits, l), Pow2(16 - l));
    }
  }

  // ---- Code words ----

  /** The low n bits of v, most significant first. */
  function Word(v: nat, n: nat): (w: seq<bit>)
    ensures |w| == n
  {
    if n == 0 then [] else Word(v / 2, n - 1) + [v % 2]
  }

  lemma {:induction false} WordTail(v: nat, n: nat, m: nat)
    requires n <= m
    ensures Word(v, m)[..n] == Word(v / Pow2(m - n), n)
    decreases m
  {
    if n < m {
      WordTail(v / 2, n, m - 1);
      assert Word(v, m)[..n] == Word(v / 2, m - 1)[..n];
      HalveTwice(v, Pow2(m - n - 1));
    } else {
      assert Word(v, m)[..n] == Word(v, m);
    }
  }

  lemma HalveTwice(v: nat, p: nat)
    requires p > 0
    ensures v / 2 / p == v / (2 * p)
  {
    var h, b := v / 2, v % 2;
    var q, r := h / p, h % p;
    assert h == p * q + r;
    assert v == 2 * (p * q + r) + b;
    assert 2 * (p * q) == 2 * p * q;
    DivModUnique(v, 2 * p, q, 2 * r + b);
  }

  lemma {:induction false} WordInjective(v: nat, w: nat, n: nat)
    requires v < Pow2(n) && w < Pow2(n) && Word(v, n) == Word(w, n)
    ensures v == w
    decreases n
  {
    if n > 0 {
      var a, b := Word(v, n), Word(w, n);
      assert a[..n - 1] == Word(v / 2, n - 1) && b[..n - 1] == Word(w / 2, n - 1);
      assert a[n - 1] == v % 2 && b[n - 1] == w % 2;
      WordInjective(v / 2, w / 2, n - 1);
    }
  }

  /** Being a prefix, in terms of the code values. */
  lemma WordPrefix(v: nat, n: nat, w: nat, m: nat)
    requires n <= m && v < Pow2(n) && w < Pow2(m) && Word(v, n) <= Word(w, m)
    ensures w / Pow2(m - n) == v
  {
    hide Word;
    WordTail(w, n, m);
    Pow2Add(n, m - n);
    QuotientBelow(w, Pow2(n), Pow2(m - n));
    WordInjective(v, w / Pow2(m - n), n);
  }

  lemma QuotientBelow(w: nat, x: nat, p: nat)
    requires p > 0 && w < x * p
    ensures w / p < x
  {
    var q := w / p;
    assert w == p * q + w % p;
    if q >= x {
      MulMono(x, q, p);
    }
  }

  /** The code word of each symbol. */
  function Words(co: seq<nat>, si: seq<nat>): (w: seq<seq<bit>>)
    requires |co| == |si|
  {
    seq(|co|, s requires 0 <= s < |co| => Word(co[s], si[s]))
  }

  /** Dropping the extra bits of a longer code gives a number that is no code. */
  lemma CodesApart(bits: seq<nat>, l: nat, p: nat, m: nat, q: nat)
    requires |bits| == 17 && p != q && l <= m
    requires 1 <= l <= 16 && AtLength(bits, l, p) && 1 <= m <= 16 && AtLength(bits, m, q)
    ensures CodeAt(bits, m, q) / Pow2(m - l) != CodeAt(bits, l, p)
  {
    hide Pow2, Upto, NextCode;
    if l == m {
      Pow2Zero();
    } else {
      hide CodeAt, AtLength;
      CodeBelowNext(bits, l, p);
      LongerCodes(bits, l, m, q);
      MulMono(CodeAt(bits, l, p) + 1, NextCode(bits, l), Pow2(m - l));
      QuotientAbove(CodeAt(bits, m, q), CodeAt(bits, l, p) + 1, Pow2(m - l));
    }
  }

  lemma LongerCodes(bits: seq<nat>, l: nat, m: nat, q: nat)
    requires |bits| == 17 && l < m && 1 <= m <= 16 && AtLength(bits, m, q)
    ensures NextCode(bits, l) * Pow2(m - l) <= CodeAt(bits, m, q)
  {
    hide Slots, Upto, NextCode;
    SlotsGrow(bits, l, m - 1);
    SlotsTwice(NextCode(bits, l), m - 1 - l);
    SlotsAre(NextCode(bits, l), m - l);
  }

  lemma SlotsAre(n: nat, d: nat)
    ensures Slots(n, d) == n * Pow2(d)
  {
  }

  /** Two entries of the table: neither code word begins the other. */
  lemma EntriesPrefixFree(bits: seq<nat>, l: nat, p: nat, m: nat, q: nat)
    requires |bits| == 17 && NextCode(bits, 16) < Pow2(16) && p != q
    requires 1 <= l <= 16 && AtLength(bits, l, p) && 1 <= m <= 16 && AtLength(bits, m, q)
    ensures !(Word(CodeAt(bits, l, p), l) <= Word(CodeAt(bits, m, q), m))
  {
    hide Word, Pow2, CodeAt, Upto, NextCode, AtLength;
    CodesFit(bits, l);
    CodesFit(bits, m);
    CodeBelowNext(bits, l, p);
    CodeBelowNext(bits, m, q);
    if l <= m && Word(CodeAt(bits, l, p), l) <= Word(CodeAt(bits, m, q), m) {
      WordPrefix(CodeAt(bits, l, p), l, CodeAt(bits, m, q), m);
      CodesApart(bits, l, p, m, q);
    }
  }

  lemma QuotientAbove(w: nat, x: nat, p: nat)
    requires p > 0 && x * p <= w
    ensures x <= w / p
  {
    var q := w / p;
    assert w == p * q + w % p;
    if q < x {
      MulMono(q + 1, x, p);
      Distribute(q, 1, p);
    }
  }

  /** The derived code of a legal table is prefix-free, has a word for exactly the
      symbols of the table, and no word of all ones. */
  lemma DerivedCode(bits: seq<nat>, huffval: seq<nat>, maxsymbol: nat, co: seq<nat>, si: seq<nat>)
    requires Legal(bits, huffval, maxsymbol) && Derived(bits, huffval, co, si)
    ensures PrefixFree(si, Words(co, si))
    ensures forall s: nat :: s < 256 ==> (si[s] > 0 <==> s in huffval[..Upto(bits, 16)]) && si[s] <= 16
    ensures forall s: nat :: s < 256 && si[s] > 0 ==> co[s] + 1 < Pow2(si[s])
  {
    hide Pow2, Word, Upto, NextCode;
    var n := Upto(bits, 16);
    forall s: nat | s < 256
      ensures si[s] > 0 <==> s in huffval[..n]
      ensures si[s] <= 16 && (si[s] > 0 ==> co[s] + 1 < Pow2(si[s]))
    {
      if s in huffval[..n] {
        var p, l := Entry(bits, huffval, co, si, s);
        CodesFit(bits, l);
        CodeBelowNext(bits, l, p);
      }
    }
    forall s, t | 0 <= s < |si| && 0 <= t < |si| && s != t && si[s] > 0 && si[t] > 0
      ensures !(Words(co, si)[s] <= Words(co, si)[t])
    {
      var p, l := Entry(bits, huffval, co, si, s);
      var q, m := Entry(bits, huffval, co, si, t);
      EntriesPrefixFree(bits, l, p, m, q);
    }
  }

  lemma CodeBelowNext(bits: seq<nat>, l: nat, p: nat)
    requires |bits| == 17 && 1 <= l <= 16 && AtLength(bits, l, p)
    ensures CodeAt(bits, l, p) < NextCode(bits, l)
  {
  }

  lemma Entry(bits: seq<nat>, huffval: seq<nat>, co: seq<nat>, si: seq<nat>, s: nat) returns (p: nat, l: nat)
    requires Derived(bits, huffval, co, si) && s < 256 && s in huffval[..Upto(bits, 16)]
    ensures p < Upto(bits, 16) && huffval[p] == s
    ensures 1 <= l <= 16 && AtLength(bits, l, p) && si[s] == l && co[s] == CodeAt(bits, l, p)
  {
    hide Upto, NextCode, CodeAt;
    p :| p < Upto(bits, 16) && huffval[p] == s;
    l := LengthOf(bits, p, 16);
  }

  // ---- The method ----

  /** Figure C.1: the code length of each entry. */
  method FillSizes(bits: array<nat>, huffsize: array<nat>) returns (ok: bool, lastp: nat)
    requires bits.Length == 17 && huffsize.Length == 257 && bits != huffsize
    modifies huffsize
    ensures ok <==> Upto(bits[..], 16) <= 256
    ensures ok ==> lastp == Upto(bits[..], 16) && huffsize[lastp] == 0
    ensures ok ==> forall l, k :: 1 <= l <= 16 && 0 <= k <= 256 && AtLength(bits[..], l, k) ==> huffsize[k] == l
  {
    hide Upto;
    ghost var b := bits[..];
    UptoStep(b, 0);
    var p := 0;
    for l := 1 to 17
      invariant bits[..] == b && p == Upto(b, l - 1) <= 256
      invariant forall m, k :: 1 <= m < l && 0 <= k <= 256 && AtLength(b, m, k) ==> huffsize[k] == m
    {
      UptoStep(b, l);
      var i := bits[l];
      if p + i > 256 {                            // protect against table overrun
        UptoMono(b, l, 16);
        return false, 0;
      }
      forall m, k | 1 <= m < l && 0 <= k && AtLength(b, m, k) ensures k < p {
        UptoMono(b, m, l - 1);
      }
      while i > 0
        invariant bits[..] == b && i <= bits[l] && p == Upto(b, l) - i
        invariant forall m, k :: 1 <= m < l && 0 <= k <= 256 && AtLength(b, m, k) ==> huffsize[k] == m
        invariant forall k :: Upto(b, l - 1) <= k < p ==> huffsize[k] == l
      {
        huffsize[p] := l;
        p := p + 1;
        i := i - 1;
      }
    }
    forall m, k | 1 <= m <= 16 && 0 <= k && AtLength(b, m, k) ensures k < p {
      UptoMono(b, m, 16);
    }
    huffsize[p] := 0;
    ok, lastp := true, p;
  }

  /** Figure C.2: the codes, and the check that they fit. */
  method AssignCodes(huffsize: array<nat>, huffcode: array<nat>, lastp: nat, ghost bits: seq<nat>) returns (ok: bool)
    requires |bits| == 17 && huffsize.Length == huffcode.Length == 257 && huffsize != huffcode
    requires lastp == Upto(bits, 16) <= 256 && huffsize[lastp] == 0
    requires forall l, p :: 1 <= l <= 16 && 0 <= p <= 256 && AtLength(bits, l, p) ==> huffsize[p] == l
    modifies huffcode
    ensures ok <==> NextCode(bits, 16) < Pow2(16)
    ensures ok ==> forall l, p :: 1 <= l <= 16 && 0 <= p <= 256 && AtLength(bits, l, p) ==>
              huffcode[p] == CodeAt(bits, l, p)
  {
    hide Upto, NextCode, Pow2;
    ghost var sizes := huffsize[..];
    UptoStep(bits, 0);
    if huffsize[0] == 0 {
      assert lastp == 0 by {
        if lastp > 0 {
          var l := LengthOf(bits, 0, 16);
          assert false;
        }
      }
      NoCodes(bits);
      return true;
    }
    var code: nat, si: nat, p: nat := 0, huffsize[0], 0;
    FirstLength(bits, sizes, lastp);
    while huffsize[p] != 0
      invariant huffsize[..] == sizes && 1 <= si <= 17
      invariant p == Upto(bits, si - 1) <= lastp && code == 2 * NextCode(bits, si - 1)
                && NextCode(bits, si - 1) < Pow2(si - 1)
      invariant forall l, k :: 1 <= l < si && 0 <= k <= 256 && AtLength(bits, l, k) ==>
                  huffcode[k] == CodeAt(bits, l, k)
      decreases 17 - si
    {
      forall l, k | 1 <= l < si && 0 <= k && AtLength(bits, l, k) ensures k < p {
        UptoMono(bits, l, si - 1);
      }
      p, code := CodesOfLength(huffsize, huffcode, si, p, code, bits);
      if code >= Pow2(si) {
        TooMany(bits, si);
        return false;
      }
      UptoMono(bits, si, 16);
      code := 2 * code;
      si := si + 1;
    }
    AtEnd(bits, sizes, p);
    AllAssigned(bits, si);
    ok := true;
  }

  /** while (huffsize[p] == si) { huffcode[p++] = code; code++; } */
  method CodesOfLength(huffsize: array<nat>, huffcode: array<nat>, si: nat, p0: nat, code0: nat, ghost bits: seq<nat>)
    returns (p: nat, code: nat)
    requires |bits| == 17 && huffsize.Length == huffcode.Length == 257 && huffsize != huffcode
    requires Upto(bits, 16) <= 256 && huffsize[Upto(bits, 16)] == 0
    requires forall l, p :: 1 <= l <= 16 && 0 <= p <= 256 && AtLength(bits, l, p) ==> huffsize[p] == l
    requires 1 <= si <= 16 && p0 == Upto(bits, si - 1) <= 256 && code0 == 2 * NextCode(bits, si - 1)
    modifies huffcode
    ensures p == Upto(bits, si) && code == NextCode(bits, si)
    ensures forall k :: 0 <= k <= 256 && AtLength(bits, si, k) ==> huffcode[k] == CodeAt(bits, si, k)
    ensures forall k :: 0 <= k < p0 ==> huffcode[k] == old(huffcode[k])
  {
    hide Upto, NextCode;
    UptoStep(bits, si);
    UptoMono(bits, si, 16);
    ghost var sizes := huffsize[..];
    p, code := p0, code0;
    while huffsize[p] == si
      invariant huffsize[..] == sizes && p0 <= p <= Upto(bits, si) && code == code0 + (p - p0)
      invariant forall k :: p0 <= k < p ==> huffcode[k] == code0 + (k - p0)
      invariant forall k :: 0 <= k < p0 ==> huffcode[k] == old(huffcode[k])
      decreases Upto(bits, si) - p
    {
      PastLength(bits, sizes, si, p);
      huffcode[p] := code;
      p := p + 1;
      code := code + 1;
    }
    PastLength(bits, sizes, si, p);
  }

  lemma AtEnd(bits: seq<nat>, sizes: seq<nat>, p: nat)
    requires |bits| == 17 && |sizes| == 257 && p <= Upto(bits, 16) <= 256 && sizes[p] == 0
    requires forall l, p :: 1 <= l <= 16 && 0 <= p <= 256 && AtLength(bits, l, p) ==> sizes[p] == l
    ensures p == Upto(bits, 16)
  {
    if p < Upto(bits, 16) {
      var l := LengthOf(bits, p, 16);
    }
  }

  /** The entry after the codes of length si has another length. */
  lemma PastLength(bits: seq<nat>, sizes: seq<nat>, si: nat, p: nat)
    requires |bits| == 17 && |sizes| == 257 && 1 <= si <= 16 && Upto(bits, 16) <= 256 && sizes[Upto(bits, 16)] == 0
    requires forall l, p :: 1 <= l <= 16 && 0 <= p <= 256 && AtLength(bits, l, p) ==> sizes[p] == l
    requires p == Upto(bits, si) || AtLength(bits, si, p)
    ensures p <= 256 && (sizes[p] == si <==> AtLength(bits, si, p))
  {
    UptoMono(bits, si, 16);
    if p == Upto(bits, si) && p < Upto(bits, 16) {
      var l := LengthOf(bits, p, 16);
    }
  }

  lemma {:induction false} NoneBefore(bits: seq<nat>, l: nat)
    requires l < |bits| && Upto(bits, l) == 0
    ensures NextCode(bits, l) == 0
  {
    if l > 0 {
      NoneBefore(bits, l - 1);
    }
  }

  lemma NoCodes(bits: seq<nat>)
    requires |bits| == 17 && Upto(bits, 16) == 0
    ensures NextCode(bits, 16) < Pow2(16)
    ensures forall l, p :: 1 <= l <= 16 && 0 <= p ==> !AtLength(bits, l, p)
  {
    NoneBefore(bits, 16);
    forall l, p | 1 <= l <= 16 && 0 <= p ensures !AtLength(bits, l, p) {
      UptoMono(bits, l, 16);
    }
  }

  /** huffsize[0] is the shortest length in use. */
  lemma FirstLength(bits: seq<nat>, sizes: seq<nat>, lastp: nat)
    requires |bits| == 17 && |sizes| == 257 && lastp == Upto(bits, 16) <= 256 && sizes[lastp] == 0 && sizes[0] != 0
    requires forall l, p :: 1 <= l <= 16 && 0 <= p <= 256 && AtLength(bits, l, p) ==> sizes[p] == l
    ensures 1 <= sizes[0] <= 16 && Upto(bits, sizes[0] - 1) == 0 && NextCode(bits, sizes[0] - 1) == 0
    ensures forall l, p :: 1 <= l < sizes[0] && 0 <= p ==> !AtLength(bits, l, p)
  {
    var l := LengthOf(bits, 0, 16);
    NoneBefore(bits, l - 1);
    forall k, p | 1 <= k < l && 0 <= p ensures !AtLength(bits, k, p) {
      UptoMono(bits, k, l - 1);
    }
  }

  lemma TooMany(bits: seq<nat>, si: nat)
    requires |bits| == 17 && si <= 16 && NextCode(bits, si) >= Pow2(si)
    ensures NextCode(bits, 16) >= Pow2(16)
  {
    hide Pow2, NextCode;
    CodesGrow(bits, si, 16);
    Pow2Add(si, 16 - si);
    MulMono(Pow2(si), NextCode(bits, si), Pow2(16 - si));
  }

  lemma AllAssigned(bits: seq<nat>, si: nat)
    requires |bits| == 17 && 1 <= si <= 17 && Upto(bits, si - 1) == Upto(bits, 16)
             && NextCode(bits, si - 1) < Pow2(si - 1)
    ensures NextCode(bits, 16) < Pow2(16)
    ensures forall l, p :: si <= l <= 16 && 0 <= p ==> !AtLength(bits, l, p)
  {
    hide Pow2, NextCode;
    CodesGrow(bits, si - 1, 16);
    Pow2Add(si - 1, 17 - si);
    LessTimes(NextCode(bits, si - 1), Pow2(si - 1), Pow2(17 - si));
    forall l, p | si <= l <= 16 && 0 <= p ensures !AtLength(bits, l, p) {
      UptoMono(bits, si - 1, l - 1);
      UptoMono(bits, l, 16);
    }
  }

  /** Figure C.3: the code and the length of each symbol; false on a symbol out of
      range or listed twice. */
  method IndexSymbols(huffval: array<nat>, huffsize: array<nat>, huffcode: array<nat>, lastp: nat, maxsymbol: nat,
                      ehufco: array<nat>, ehufsi: array<nat>) returns (ok: bool)
    requires huffval.Length == ehufco.Length == ehufsi.Length == 256 && huffsize.Length == huffcode.Length == 257
    requires lastp <= 256 && maxsymbol <= 255 && forall p :: 0 <= p < lastp ==> huffsize[p] > 0
    requires ehufco != ehufsi && ehufco != huffval && ehufsi != huffval
    requires ehufco != huffsize && ehufsi != huffsize && ehufco != huffcode && ehufsi != huffcode
    modifies ehufco, ehufsi
    ensures ok <==> (forall p :: 0 <= p < lastp ==> huffval[p] <= maxsymbol) && Distinct(huffval[..lastp])
    ensures ok ==> forall p :: 0 <= p < lastp ==>
              huffval[p] < 256 && ehufco[huffval[p]] == huffcode[p] && ehufsi[huffval[p]] == huffsize[p]
    ensures ok ==> forall s :: 0 <= s < 256 && s !in huffval[..lastp] ==> ehufsi[s] == 0
  {
    for s := 0 to 256
      invariant forall k :: 0 <= k < s ==> ehufsi[k] == 0
    {
      ehufsi[s] := 0;
    }
    for p := 0 to lastp
      invariant forall k :: 0 <= k < p ==>
                  huffval[k] <= maxsymbol && ehufco[huffval[k]] == huffcode[k] && ehufsi[huffval[k]] == huffsize[k]
      invariant forall s :: 0 <= s < 256 && s !in huffval[..p] ==> ehufsi[s] == 0
      invariant Distinct(huffval[..p])
    {
      var i := huffval[p];
      assert huffval[..lastp][p] == i;
      if i > maxsymbol || ehufsi[i] != 0 {
        if i <= maxsymbol {
          var k: nat :| k < p && huffval[k] == i;
          assert huffval[..lastp][k] == huffval[..lastp][p];
        }
        return false;
      }
      forall k | 0 <= k < p ensures huffval[k] != i {
        assert ehufsi[huffval[k]] == huffsize[k];
      }
      ehufco[i] := huffcode[p];
      ehufsi[i] := huffsize[p];
      assert huffval[..p + 1] == huffval[..p] + [i];
    }
    ok := true;
  }

  /** c_derived_tbl. */
  class DerivedTbl {
    const ehufco: array<nat>
    const ehufsi: array<nat>

    constructor ()
      ensures ehufco.Length == ehufsi.Length == 256 && ehufco != ehufsi && fresh(ehufco) && fresh(ehufsi)
    {
      ehufco := new nat[256];
      ehufsi := new nat[256];
    }
  }

  /** jpeg_make_c_derived_tbl: a table is accepted if and only if it is legal. */
  method MakeDerivedTable(htbl: HuffTbl, isDC: bool) returns (ok: bool, dtbl: DerivedTbl)
    requires htbl.Valid()
    ensures fresh(dtbl) && fresh(dtbl.ehufco) && fresh(dtbl.ehufsi)
    ensures ok <==> Legal(htbl.bits[..], htbl.huffval[..], if isDC then 15 else 255)
    ensures ok ==> Derived(htbl.bits[..], htbl.huffval[..], dtbl.ehufco[..], dtbl.ehufsi[..])
  {
    hide Upto, NextCode, Pow2, Distinct;
    ghost var bits := htbl.bits[..];
    dtbl := new DerivedTbl();
    var huffsize := new nat[257];
    var huffcode := new nat[257];
    var lastp;
    ok, lastp := FillSizes(htbl.bits, huffsize);
    if !ok {
      return;
    }
    ok := AssignCodes(huffsize, huffcode, lastp, bits);
    if !ok {
      return;
    }
    var maxsymbol := if isDC then 15 else 255;
    forall p | 0 <= p < lastp ensures huffsize[p] > 0 {
      var l := LengthOf(bits, p, 16);
    }
    ok := IndexSymbols(htbl.huffval, huffsize, huffcode, lastp, maxsymbol, dtbl.ehufco, dtbl.ehufsi);
    forall l, p | 1 <= l <= 16 && 0 <= p && AtLength(bits, l, p) ensures p < lastp {
      UptoMono(bits, l, 16);
    }
  }

  // ---- Generated tables are accepted ----

  lemma {:induction false} CodeSpace(b: seq<nat>, l: nat)
    requires |b| == MAX_CLEN + 1 && b[0] == 0 && l <= 16
    ensures NextCode(b[..17], l) * Pow2(MAX_CLEN - l) == Sum(BitTerms(b)[..l + 1])
    ensures Upto(b[..17], l) == Sum(b[..l + 1])
    decreases l
  {
    hide Pow2, Sum, BitTerms;
    SumSnoc(b, l);
    BitTermAt(b, l);
    SumSnoc(BitTerms(b), l);
    if l == 0 {
      SumZero(b[..0]);
      SumZero(BitTerms(b)[..0]);
    } else {
      CodeSpace(b, l - 1);
      Pow2Twice(MAX_CLEN - l);
      MulTwo(NextCode(b[..17], l - 1), Pow2(MAX_CLEN - l));
      Distribute(2 * NextCode(b[..17], l - 1), b[l], Pow2(MAX_CLEN - l));
    }
  }

  lemma BitTermAt(b: seq<nat>, l: nat)
    requires |b| == MAX_CLEN + 1 && l <= MAX_CLEN
    ensures |BitTerms(b)| == MAX_CLEN + 1 && BitTerms(b)[l] == b[l] * Pow2(MAX_CLEN - l)
  {
  }

  lemma {:induction false} SumTailZero(a: seq<int>, n: nat)
    requires n <= |a| && forall i :: n <= i < |a| ==> a[i] == 0
    ensures Sum(a) == Sum(a[..n])
    decreases |a|
  {
    if n == |a| {
      assert a[..n] == a;
    } else {
      SumTailZero(a[..|a| - 1], n);
      assert a[..|a| - 1][..n] == a[..n];
    }
  }

  ghost predicate SymbolsWithin(f0: seq<nat>, maxsymbol: nat) {
    |f0| == SYMBOLS && forall s: nat :: s < 256 && f0[s] > 0 ==> s <= maxsymbol
  }

  /** The table lists exactly the real symbols with a count. */
  ghost predicate Covers(f0: seq<nat>, bits: seq<nat>, huffval: seq<nat>) {
    && |f0| == SYMBOLS && |bits| == 17 && |huffval| == 256 && Upto(bits, 16) <= 256
    && forall s: nat :: s < 256 ==> (s in huffval[..Upto(bits, 16)] <==> f0[s] > 0)
  }

  /** Whatever the counts, the table that jpeg_gen_optimal_table returns is
      accepted if and only if no symbol with a count is out of range (above 15 for
      DC), and its code has a word for exactly the symbols with a count. */
  lemma GeneratedTableAccepted(f0: seq<nat>, l: seq<nat>, bits: seq<nat>, huffval: seq<nat>, maxsymbol: nat)
    requires Stored(f0, l, bits, huffval) && Count(f0) <= 255
    ensures Legal(bits, huffval, maxsymbol) <==> SymbolsWithin(f0, maxsymbol)
    ensures Covers(f0, bits, huffval)
  {
    hide Sum, Pow2, Count, Optimal, Complete, Balanced, Tally, FinalBits, Ranked, Upto, NextCode, BitTerms;
    FinalBitsFit(f0, l);
    RankedMembers(l, MAX_CLEN);
    var b := FinalBits(l);
    assert bits[0] == b[0];
    CodeSpace(b, 16);
    SumTailZero(b, 17);
    forall k | 17 <= k < MAX_CLEN + 1 ensures |BitTerms(b)| == MAX_CLEN + 1 && BitTerms(b)[k] == 0 {
      BitTermAt(b, k);
    }
    BitTermAt(b, 0);
    SumTailZero(BitTerms(b), 17);
    var r := Ranked(l, MAX_CLEN);
    assert Upto(bits, 16) == |r|;
    assert NextCode(bits, 16) < Pow2(16) by {
      assert KraftBits(b) == Sum(BitTerms(b)) by { KraftBitsAre(b); }
      Pow2Add(16, 16);
      if NextCode(bits, 16) >= Pow2(16) {
        MulMono(Pow2(16), NextCode(bits, 16), Pow2(16));
      }
    }
    forall p | 0 <= p < |r| ensures huffval[p] < 256 && f0[huffval[p]] > 0 {
      assert r[p] in r && huffval[..|r|][p] == huffval[p];
    }
    forall s: nat | s < 256 && f0[s] > 0 ensures exists p :: 0 <= p < |r| && huffval[p] == s {
      assert s in r;
      var p: nat :| p < |r| && r[p] == s;
      assert huffval[..|r|][p] == huffval[p];
    }
  }

  lemma KraftBitsAre(b: seq<nat>)
    requires |b| == MAX_CLEN + 1
    ensures KraftBits(b) == Sum(BitTerms(b))
  {
  }
}
