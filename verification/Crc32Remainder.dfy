/**
  * What the checksum is: a remainder of polynomials over two elements. The bits of a byte string, the lowest of each
  * byte first, are coefficients from the highest power down, so that the bit of weight 2^k of a number stands for the
  * power 31 - k above the string's end. The first 32 coefficients are complemented, 32 zeros are appended, and the
  * remainder by the generator is complemented.
  */
module Crc32Remainder {
  import opened Bits
  import opened Arith
  import opened Crc32

  /** The generator's exponents, as section 3.4 of RFC 2083 lists them. */
  predicate Exponent(p: nat) {
    || p == 32 || p == 26 || p == 23 || p == 22 || p == 16 || p == 12 || p == 11 || p == 10
    || p == 8 || p == 7 || p == 5 || p == 4 || p == 2 || p == 1 || p == 0
  }

  /** The generator's coefficients of the powers from p down, that of p in the lowest bit. */
  function Coefficients(p: nat): nat {
    (if Exponent(p) then 1 else 0) + if p == 0 then 0 else 2 * Coefficients(p - 1)
  }

  /** The product of two polynomials. */
  ghost function Product(q: nat, g: nat): nat {
    if q == 0 then 0 else Xor(if q % 2 == 1 then g else 0, 2 * Product(q / 2, g))
  }

  /** Dividing the string's polynomial by `g` gives `q` and leaves `r`. */
  ghost predicate Leaves(s: seq<byte>, g: nat, q: nat, r: nat) {
    q < Pow2(8 * |s|) && Xor(Product(q, g), Scale(r, 8 * |s|)) == Xor(BytesVal(s), WORD32 - 1)
  }

  // ---------------------------------------------------------------- addition of polynomials

  lemma {:induction false} XorCommutes(a: nat, b: nat)
    ensures Xor(a, b) == Xor(b, a)
  {
    if a != 0 && b != 0 { XorCommutes(a / 2, b / 2); }
  }

  lemma XorHalves(a: nat, b: nat)
    ensures Xor(a, b) / 2 == Xor(a / 2, b / 2) && Xor(a, b) % 2 == if a % 2 == b % 2 then 0 else 1
  {
    if a != 0 && b != 0 {
      var bit, h := if a % 2 != b % 2 then 1 else 0, Xor(a / 2, b / 2);
      assert Xor(a, b) == bit + 2 * h;
      hide Xor;
      DivModUnique(bit + 2 * h, h, bit, 2);
    }
  }

  lemma HalvesSame(x: nat, y: nat)
    ensures x == y <==> x / 2 == y / 2 && x % 2 == y % 2
  {
  }

  lemma {:induction false} XorAssoc(a: nat, b: nat, c: nat)
    ensures Xor(Xor(a, b), c) == Xor(a, Xor(b, c))
    decreases a + b + c
  {
    if a != 0 && b != 0 && c != 0 {
      hide Xor;
      XorHalves(a, b);
      XorHalves(b, c);
      XorHalves(Xor(a, b), c);
      XorHalves(a, Xor(b, c));
      XorAssoc(a / 2, b / 2, c / 2);
      HalvesSame(Xor(Xor(a, b), c), Xor(a, Xor(b, c)));
    }
  }

  lemma {:induction false} XorSame(a: nat)
    ensures Xor(a, a) == 0
  {
    if a != 0 { XorSame(a / 2); }
  }

  /** Adding the same twice changes nothing. */
  lemma XorCancel(a: nat, b: nat)
    ensures Xor(a, Xor(a, b)) == b
  {
    XorAssoc(a, a, b);
    XorSame(a);
  }

  lemma XorSwap(a: nat, b: nat, c: nat)
    ensures Xor(Xor(a, b), c) == Xor(Xor(a, c), b)
  {
    hide Xor;
    XorAssoc(a, b, c);
    XorAssoc(a, c, b);
    XorCommutes(b, c);
  }

  lemma {:induction false} XorScale(a: nat, b: nat, c: nat, d: nat, k: nat)
    requires b < Pow2(k) && d < Pow2(k)
    ensures Xor(Scale(a, k) + b, Scale(c, k) + d) == Scale(Xor(a, c), k) + Xor(b, d)
  {
    hide Xor, Pow2, Scale;
    ScaleStep(a, k);
    ScaleStep(c, k);
    ScaleStep(Xor(a, c), k);
    if k == 0 {
      NoXorBits(b, d);
    } else {
      HalfBelow(b, k);
      HalfBelow(d, k);
      XorScale(a, b / 2, c, d / 2, k - 1);
      XorDouble(Scale(a, k - 1), b, Scale(c, k - 1), d, Scale(Xor(a, c), k - 1));
    }
  }

  lemma NoXorBits(b: nat, d: nat)
    requires b < Pow2(0) && d < Pow2(0)
    ensures b == 0 && d == 0 && Xor(b, d) == 0
  {
  }

  lemma XorDouble(a: nat, b: nat, c: nat, d: nat, e: nat)
    requires Xor(a + b / 2, c + d / 2) == e + Xor(b / 2, d / 2)
    ensures Xor(2 * a + b, 2 * c + d) == 2 * e + Xor(b, d)
  {
    hide Xor;
    XorHalves(2 * a + b, 2 * c + d);
    XorHalves(b, d);
    assert (2 * a + b) / 2 == a + b / 2 && (2 * c + d) / 2 == c + d / 2;
  }

  lemma XorTwice(a: nat, b: nat)
    ensures Xor(2 * a, 2 * b) == 2 * Xor(a, b)
  {
    hide Xor;
    XorHalves(2 * a, 2 * b);
  }

  lemma {:induction false} ScaleMore(a: nat, k: nat)
    ensures Scale(a, k + 1) == Scale(2 * a, k)
  {
    if k > 0 { ScaleMore(a, k - 1); }
  }

  lemma ScaleSum(a: nat, b: nat, k: nat)
    ensures Scale(Xor(a, b), k) == Xor(Scale(a, k), Scale(b, k))
  {
    hide Xor;
    XorScale(a, 0, b, 0, k);
    NoXor();
  }

  lemma NoXor()
    ensures Xor(0, 0) == 0
  {
  }

  lemma {:induction false} ScaleNothing(k: nat)
    ensures Scale(0, k) == 0
  {
    if k > 0 { ScaleNothing(k - 1); }
  }

  // ---------------------------------------------------------------- the generator

  lemma FourTerms(p: nat)
    ensures Coefficients(p + 4)
         == (if Exponent(p + 4) then 1 else 0) + (if Exponent(p + 3) then 2 else 0)
            + (if Exponent(p + 2) then 4 else 0) + (if Exponent(p + 1) then 8 else 0) + 16 * Coefficients(p)
  {
    hide Exponent;
    assert Coefficients(p + 2) == (if Exponent(p + 2) then 1 else 0) + 2 * Coefficients(p + 1);
    assert Coefficients(p + 4) == (if Exponent(p + 4) then 1 else 0) + 2 * Coefficients(p + 3);
  }

  lemma LowTerms()
    ensures Coefficients(16) == 0x1_db71
  {
    assert Coefficients(0) == 1;
    hide Coefficients;
    FourTerms(0);
    FourTerms(4);
    FourTerms(8);
    FourTerms(12);
  }

  /** The code's constant is the generator without its highest power. */
  lemma GeneratorIs()
    ensures Coefficients(32) == 2 * POLYNOMIAL + 1
  {
    hide Coefficients;
    LowTerms();
    FourTerms(16);
    FourTerms(20);
    FourTerms(24);
    FourTerms(28);
  }

  // ---------------------------------------------------------------- products

  lemma ProductStep(q: nat, g: nat)
    ensures Product(q, g) == Xor(if q % 2 == 1 then g else 0, 2 * Product(q / 2, g))
  {
  }

  /** A quotient with one more term, above the others. */
  lemma {:induction false} ProductTop(q: nat, g: nat, n: nat)
    requires q < Pow2(n)
    ensures Product(q + Pow2(n), g) == Xor(Product(q, g), Scale(g, n))
  {
    hide Xor, Product, Pow2, Scale;
    if n == 0 {
      ProductOne(g);
    } else {
      var h, c := q / 2, if q % 2 == 1 then g else 0;
      TopHalved(q, n);
      HalfBelow(q, n);
      ScaleStep(g, n);
      ProductStep(q, g);
      ProductStep(q + Pow2(n), g);
      ProductTop(h, g, n - 1);
      XorTwice(Product(h, g), Scale(g, n - 1));
      XorAssoc(c, 2 * Product(h, g), 2 * Scale(g, n - 1));
    }
  }

  lemma ProductOne(g: nat)
    ensures Pow2(0) == 1 && Product(1, g) == Xor(Product(0, g), Scale(g, 0))
  {
    hide Xor;
    NothingFirst(g);
    NothingAdded(g);
  }

  lemma TopHalved(q: nat, n: nat)
    requires n > 0
    ensures (q + Pow2(n)) / 2 == q / 2 + Pow2(n - 1) && (q + Pow2(n)) % 2 == q % 2
  {
  }

  /** A quotient and a remainder are the only ones. */
  lemma {:induction false} OnlyRemainder(n: nat, g: nat, q: nat, r: nat, p: nat, t: nat)
    requires g % 2 == 1 && q < Pow2(n) && p < Pow2(n)
    requires Xor(Product(q, g), Scale(r, n)) == Xor(Product(p, g), Scale(t, n))
    ensures q == p && r == t
  {
    if n > 0 {
      HalfBelow(q, n);
      HalfBelow(p, n);
      hide Xor, Product, Pow2;
      TermFirst(n, g, q, r);
      TermFirst(n, g, p, t);
      HalvesSame(q, p);
      OnlyRemainder(n - 1, g, q / 2, r, p / 2, t);
    }
  }

  /** The lowest bit of the sum tells the quotient's lowest term, and without that the rest is a sum of halves. */
  lemma TermFirst(n: nat, g: nat, q: nat, r: nat)
    requires n > 0 && g % 2 == 1
    ensures var c := if q % 2 == 1 then g else 0;
      var whole := Xor(Product(q, g), Scale(r, n));
      whole % 2 == q % 2 && Xor(c, whole) == 2 * Xor(Product(q / 2, g), Scale(r, n - 1))
  {
    hide Xor, Product;
    var c, p, s := if q % 2 == 1 then g else 0, Product(q / 2, g), Scale(r, n - 1);
    ProductStep(q, g);
    XorAssoc(c, 2 * p, 2 * s);
    XorTwice(p, s);
    XorCancel(c, 2 * Xor(p, s));
    XorHalves(c, 2 * Xor(p, s));
  }

  // ---------------------------------------------------------------- the register

  /** Shifting one bit out of the register adds a term to the quotient. */
  lemma ShiftOut(n: nat, whole: nat, g: nat, q: nat, r: nat) returns (p: nat)
    requires r < WORD32 && g == 2 * POLYNOMIAL + 1 && q < Pow2(n) && Xor(Product(q, g), Scale(r, n)) == whole
    ensures p < Pow2(n + 1) && Xor(Product(p, g), Scale(Divide(r), n + 1)) == whole
  {
    hide Xor, Product, Pow2, Scale, Divide, POLYNOMIAL;
    Pow2Step(n);
    ScaleMore(Divide(r), n);
    DividedTwice(r, g);
    if r % 2 == 0 {
      p := q;
    } else {
      p := q + Pow2(n);
      ProductTop(q, g, n);
      ScaleSum(r, g, n);
      AddedTwice(Product(q, g), Scale(r, n), Scale(g, n));
    }
  }

  lemma DividedTwice(r: nat, g: nat)
    requires r < WORD32 && g == 2 * POLYNOMIAL + 1
    ensures 2 * Divide(r) == if r % 2 == 0 then r else Xor(r, g)
  {
    hide Xor, Divide, POLYNOMIAL;
    DivideIs(r);
    XorHalves(r, g);
  }

  lemma AddedTwice(a: nat, s: nat, t: nat)
    ensures Xor(Xor(a, t), Xor(s, t)) == Xor(a, s)
  {
    hide Xor;
    XorCommutes(s, t);
    XorAssoc(a, t, Xor(t, s));
    XorCancel(t, s);
  }

  lemma DivideIs(r: nat)
    requires r < WORD32
    ensures Divide(r) == if r % 2 == 1 then Xor(r / 2, POLYNOMIAL) else r / 2
  {
  }

  /** Eight bits shifted out. */
  function Eight(c: nat): (r: nat)
    requires c < WORD32
    ensures r < WORD32
  {
    Divide(Divide(Divide(Divide(Divide(Divide(Divide(Divide(c))))))))
  }

  lemma XorBelow(a: nat, b: nat)
    requires a < WORD32 && b < WORD32
    ensures Xor(a, b) < WORD32
  {
    hide Xor;
    WordWidth();
    WordBounds(a, b, 32);
  }

  lemma DivideLinear(a: nat, b: nat)
    requires a < WORD32 && b < WORD32
    ensures Xor(a, b) < WORD32 && Divide(Xor(a, b)) == Xor(Divide(a), Divide(b))
  {
    hide Xor, Divide, POLYNOMIAL;
    XorBelow(a, b);
    XorHalves(a, b);
    DivideIs(a);
    DivideIs(b);
    DivideIs(Xor(a, b));
    var x, y, p := a / 2, b / 2, POLYNOMIAL;
    XorAssoc(x, y, p);
    XorSwap(x, p, y);
    XorAssoc(Xor(x, p), y, p);
    XorAssoc(Xor(x, y), p, p);
    XorSame(p);
    XorCommutes(Xor(x, y), 0);
    NothingAdded(Xor(x, y));
  }

  lemma NothingAdded(a: nat)
    ensures Xor(a, 0) == a
  {
  }

  lemma EightLinear(a: nat, b: nat)
    requires a < WORD32 && b < WORD32
    ensures Xor(a, b) < WORD32 && Eight(Xor(a, b)) == Xor(Eight(a), Eight(b))
  {
    hide Xor, Divide;
    var a1, b1 := Divide(a), Divide(b);
    var a2, b2 := Divide(a1), Divide(b1);
    var a3, b3 := Divide(a2), Divide(b2);
    var a4, b4 := Divide(a3), Divide(b3);
    var a5, b5 := Divide(a4), Divide(b4);
    var a6, b6 := Divide(a5), Divide(b5);
    var a7, b7 := Divide(a6), Divide(b6);
    DivideLinear(a, b);
    DivideLinear(a1, b1);
    DivideLinear(a2, b2);
    DivideLinear(a3, b3);
    DivideLinear(a4, b4);
    DivideLinear(a5, b5);
    DivideLinear(a6, b6);
    DivideLinear(a7, b7);
  }

  lemma EightZeros(h: nat)
    requires 256 * h < WORD32
    ensures Eight(256 * h) == h
  {
    hide Xor, Divide;
    DivideIs(256 * h);
    DivideIs(128 * h);
    DivideIs(64 * h);
    DivideIs(32 * h);
    DivideIs(16 * h);
    DivideIs(8 * h);
    DivideIs(4 * h);
    DivideIs(2 * h);
  }

  /** The table does for a byte at once what eight shifts do. */
  lemma InputIs(c: nat, v: byte)
    requires c < WORD32
    ensures Xor(c, v) < WORD32 && Input(c, v) == Eight(Xor(c, v))
  {
    hide Xor, Input, Eight, Divide, Pow2;
    var h, l := c / 256, c % 256;
    InputUnfold(c, v);
    HighApart(h, l, v);
    EightLinear(256 * h, Xor(l, v));
    EightZeros(h);
  }

  lemma InputUnfold(c: nat, v: byte)
    requires c < WORD32
    ensures Xor(c % 256, v) < 256 && Input(c, v) == Xor(c / 256, Eight(Xor(c % 256, v)))
  {
    hide Xor, Divide;
    WordWidth();
    WordBounds(c % 256, v, 8);
  }

  lemma HighApart(h: nat, l: nat, v: nat)
    requires l < 256 && v < 256
    ensures Xor(256 * h + l, v) == Xor(256 * h, Xor(l, v))
  {
    hide Xor;
    WordWidth();
    ScaleMultiplies(h, 8);
    XorScale(h, l, 0, v, 8);
    ScaleNothing(8);
    WordBounds(l, v, 8);
    XorScale(h, 0, 0, Xor(l, v), 8);
    NothingFirst(Xor(l, v));
  }

  lemma NothingFirst(a: nat)
    ensures Xor(0, a) == a
  {
  }

  /** Eight bits shifted out of the register. */
  lemma ByteOut(n: nat, whole: nat, g: nat, q: nat, r: nat) returns (p: nat)
    requires r < WORD32 && g == 2 * POLYNOMIAL + 1 && q < Pow2(n) && Xor(Product(q, g), Scale(r, n)) == whole
    ensures p < Pow2(n + 8) && Xor(Product(p, g), Scale(Eight(r), n + 8)) == whole
  {
    hide Xor, Product, Pow2, Scale, Divide, POLYNOMIAL;
    var r1 := Divide(r);
    var r2 := Divide(r1);
    var r3 := Divide(r2);
    var r4 := Divide(r3);
    var r5 := Divide(r4);
    var r6 := Divide(r5);
    var r7 := Divide(r6);
    p := ShiftOut(n, whole, g, q, r);
    p := ShiftOut(n + 1, whole, g, p, r1);
    p := ShiftOut(n + 2, whole, g, p, r2);
    p := ShiftOut(n + 3, whole, g, p, r3);
    p := ShiftOut(n + 4, whole, g, p, r4);
    p := ShiftOut(n + 5, whole, g, p, r5);
    p := ShiftOut(n + 6, whole, g, p, r6);
    p := ShiftOut(n + 7, whole, g, p, r7);
  }

  lemma ByteAdded(t: seq<byte>, b: byte, product: nat, r: nat)
    requires Xor(product, Scale(r, 8 * |t|)) == Xor(BytesVal(t), WORD32 - 1)
    ensures Xor(product, Scale(Xor(r, b), 8 * |t|)) == Xor(BytesVal(t + [b]), WORD32 - 1)
  {
    hide Xor, Pow2, Scale, BytesVal;
    var n := 8 * |t|;
    BytesSum(t, b);
    ScaleSum(r, b, n);
    XorAssoc(product, Scale(r, n), Scale(b, n));
    XorSwap(BytesVal(t), WORD32 - 1, Scale(b, n));
  }

  lemma BytesSum(t: seq<byte>, b: byte)
    ensures BytesVal(t + [b]) == Xor(BytesVal(t), Scale(b, 8 * |t|))
  {
    hide Xor, Pow2, Scale, BytesVal;
    var n := 8 * |t|;
    BytesBound(t);
    BytesAppend(t, b);
    ScaleMultiplies(b, n);
    NoBitsBelow(n);
    XorScale(0, BytesVal(t), b, 0, n);
    ScaleNothing(n);
    NothingFirst(b);
    NothingAdded(BytesVal(t));
  }

  lemma NoBitsBelow(n: nat)
    ensures 0 < Pow2(n)
  {
  }

  /** The register is what dividing the string by the generator leaves. */
  lemma {:induction false} RegisterLeft(s: seq<byte>) returns (q: nat)
    ensures Leaves(s, Coefficients(32), q, Register(s))
    decreases |s|
  {
    GeneratorIs();
    hide Coefficients, Xor, Scale, Input, Pow2, POLYNOMIAL, Eight;
    if s == [] {
      q := 0;
      NothingDivided();
    } else {
      var t, b := s[..|s| - 1], s[|s| - 1];
      assert s == t + [b];
      var g, n := Coefficients(32), 8 * |t|;
      q := RegisterLeft(t);
      ByteAdded(t, b, Product(q, g), Register(t));
      InputIs(Register(t), b);
      q := ByteOut(n, Xor(BytesVal(s), WORD32 - 1), g, q, Xor(Register(t), b));
    }
  }

  lemma NothingDivided()
    ensures Leaves([], Coefficients(32), 0, WORD32 - 1)
  {
    hide Coefficients;
  }

  /** The checksum is the complement of the remainder, and of nothing else. */
  lemma DigestIsRemainder(s: seq<byte>, r: nat)
    requires r < WORD32
    ensures (exists q: nat :: Leaves(s, Coefficients(32), q, r)) <==> Digest(s) == WORD32 - 1 - r
  {
    hide Leaves, Register, Coefficients;
    var p := RegisterLeft(s);
    if q: nat :| Leaves(s, Coefficients(32), q, r) {
      LeavesOnce(s, p, Register(s), q, r);
    }
  }

  lemma LeavesOnce(s: seq<byte>, q: nat, r: nat, p: nat, t: nat)
    requires Leaves(s, Coefficients(32), q, r) && Leaves(s, Coefficients(32), p, t)
    ensures q == p && r == t
  {
    GeneratorIs();
    hide Coefficients, Xor, Product, Scale, Pow2, BytesVal;
    OnlyRemainder(8 * |s|, Coefficients(32), q, r, p, t);
  }

  // ---------------------------------------------------------------- what a checksum cannot miss

  lemma {:induction false} ProductSum(q: nat, p: nat, g: nat)
    ensures Product(Xor(q, p), g) == Xor(Product(q, g), Product(p, g))
    decreases q + p
  {
    if q == 0 || p == 0 {
      NothingFirst(Product(p, g));
      NothingAdded(Product(q, g));
    } else {
      XorHalves(q, p);
      hide Xor, Product;
      ProductSum(q / 2, p / 2, g);
      ProductStep(q, g);
      ProductStep(p, g);
      ProductStep(Xor(q, p), g);
      XorTwice(Product(q / 2, g), Product(p / 2, g));
      var c, d := if q % 2 == 1 then g else 0, if p % 2 == 1 then g else 0;
      FourSum(c, 2 * Product(q / 2, g), d, 2 * Product(p / 2, g));
      XorSame(g);
      NothingFirst(d);
      NothingAdded(c);
      NoXor();
    }
  }

  lemma FourSum(a: nat, b: nat, c: nat, d: nat)
    ensures Xor(Xor(a, b), Xor(c, d)) == Xor(Xor(a, c), Xor(b, d))
  {
    hide Xor;
    XorAssoc(Xor(a, b), c, d);
    XorSwap(a, b, c);
    XorAssoc(Xor(a, c), b, d);
  }

  lemma {:induction false} XorHigh(a: nat, b: nat, k: nat)
    requires a < Pow2(k) <= b
    ensures Xor(a, b) >= Pow2(k)
    decreases k
  {
    if k == 0 {
      NothingFirst(b);
    } else {
      XorHalves(a, b);
      XorHigh(a / 2, b / 2, k - 1);
    }
  }

  /** The highest terms of a product do not cancel. */
  lemma {:induction false} ProductLarge(p: nat, g: nat, k: nat)
    requires p > 0 && Pow2(k) <= g < Pow2(k + 1)
    ensures Product(p, g) >= Pow2(k)
    decreases p
  {
    ProductStep(p, g);
    Pow2Step(k);
    if p == 1 {
      NothingAdded(g);
    } else {
      hide Xor, Product, Pow2;
      ProductLarge(p / 2, g, k);
      XorHigh(if p % 2 == 1 then g else 0, 2 * Product(p / 2, g), k + 1);
    }
  }

  /** Nor do the lowest: a product spans more powers than the generator has. */
  lemma {:induction false} ProductSpan(p: nat, g: nat, k: nat, e: nat, w: nat)
    requires g % 2 == 1 && Pow2(w) <= g < Pow2(w + 1) && e < Pow2(w) && Product(p, g) == Scale(e, k)
    ensures p == 0
    decreases p
  {
    if p > 0 {
      hide Xor, Product, Pow2;
      ProductLarge(p, g, w);
      ScaleStep(e, k);
      ProductStep(p, g);
      XorHalves(if p % 2 == 1 then g else 0, 2 * Product(p / 2, g));
      NothingFirst(2 * Product(p / 2, g));
      if k > 0 { ProductSpan(p / 2, g, k - 1, e, w); }
    }
  }

  lemma BytesJoined(s: seq<byte>, t: seq<byte>)
    ensures BytesVal(s + t) == Xor(BytesVal(s), Scale(BytesVal(t), 8 * |s|))
    decreases |t|
  {
    hide Xor, Pow2, Scale, BytesVal;
    if t == [] {
      assert s + t == s;
      NoBytes();
      ScaleNothing(8 * |s|);
      NothingAdded(BytesVal(s));
    } else {
      var u, b, n := t[..|t| - 1], t[|t| - 1], 8 * |s|;
      assert s + t == (s + u) + [b] && t == u + [b];
      BytesJoined(s, u);
      BytesSum(s + u, b);
      BytesSum(u, b);
      ScaleSum(BytesVal(u), Scale(b, 8 * |u|), n);
      ScaleTwice(b, 8 * |u|, n);
      XorAssoc(BytesVal(s), Scale(BytesVal(u), n), Scale(Scale(b, 8 * |u|), n));
    }
  }

  lemma NoBytes()
    ensures BytesVal([]) == 0
  {
  }

  lemma {:induction false} ScaleTwice(a: nat, j: nat, k: nat)
    ensures Scale(Scale(a, j), k) == Scale(a, j + k)
  {
    if k > 0 { ScaleTwice(a, j, k - 1); }
  }

  lemma {:induction false} ScaleZero(a: nat, k: nat)
    requires Scale(a, k) == 0
    ensures a == 0
  {
    if k > 0 { ScaleZero(a, k - 1); }
  }

  /** Strings of the same length and checksum differ by a multiple of the generator. */
  lemma SameDigest(s: seq<byte>, u: seq<byte>) returns (p: nat)
    requires |s| == |u| && Digest(s) == Digest(u)
    ensures Xor(BytesVal(s), BytesVal(u)) == Product(p, Coefficients(32))
  {
    hide Register, Coefficients, Xor, Product, Scale, Pow2, BytesVal;
    var g, n, ones := Coefficients(32), 8 * |s|, WORD32 - 1;
    var q := RegisterLeft(s);
    var t := RegisterLeft(u);
    p := Xor(q, t);
    ProductSum(q, t, g);
    AddedTwice(Product(q, g), Product(t, g), Scale(Register(s), n));
    AddedTwice(BytesVal(s), BytesVal(u), ones);
    XorCommutes(ones, BytesVal(u));
  }

  lemma Difference(a: seq<byte>, x: seq<byte>, y: seq<byte>, b: seq<byte>)
    requires |x| == |y|
    ensures Xor(BytesVal(a + x + b), BytesVal(a + y + b)) == Scale(Xor(BytesVal(x), BytesVal(y)), 8 * |a|)
  {
    hide Xor, Scale, BytesVal;
    BytesJoined(a + x, b);
    BytesJoined(a + y, b);
    AddedTwice(BytesVal(a + x), BytesVal(a + y), Scale(BytesVal(b), 8 * |a + x|));
    BytesJoined(a, x);
    BytesJoined(a, y);
    var v, s, t := BytesVal(a), Scale(BytesVal(x), 8 * |a|), Scale(BytesVal(y), 8 * |a|);
    XorCommutes(v, s);
    XorCommutes(v, t);
    AddedTwice(s, t, v);
    ScaleSum(BytesVal(x), BytesVal(y), 8 * |a|);
  }

  lemma SameBurst(a: seq<byte>, x: seq<byte>, y: seq<byte>, b: seq<byte>)
    requires |x| == |y| <= 4 && Digest(a + x + b) == Digest(a + y + b)
    ensures x == y
  {
    hide Digest, Coefficients, Xor, Scale, Pow2, BytesVal, Product;
    var g, e := Coefficients(32), Xor(BytesVal(x), BytesVal(y));
    var p := SameDigest(a + x + b, a + y + b);
    Difference(a, x, y, b);
    Within(x, y);
    GeneratorWidth();
    ProductSpan(p, g, 8 * |a|, e, 32);
    NoProduct(g);
    ScaleZero(e, 8 * |a|);
    XorCancel(BytesVal(x), BytesVal(y));
    NothingAdded(BytesVal(x));
    BytesInjective(x, y);
  }

  lemma NoProduct(g: nat)
    ensures Product(0, g) == 0
  {
  }

  /** Whatever is changed within four bytes changes the checksum. */
  lemma BurstNoticed(a: seq<byte>, x: seq<byte>, y: seq<byte>, b: seq<byte>)
    requires |x| == |y| <= 4 && x != y
    ensures Digest(a + x + b) != Digest(a + y + b)
  {
    hide Digest;
    if Digest(a + x + b) == Digest(a + y + b) { SameBurst(a, x, y, b); }
  }

  lemma Within(x: seq<byte>, y: seq<byte>)
    requires |x| <= 4 && |y| <= 4
    ensures Xor(BytesVal(x), BytesVal(y)) < Pow2(32)
  {
    hide Xor, Pow2, BytesVal;
    BytesBound(x);
    BytesBound(y);
    Pow2Monotone(8 * |x|, 32);
    Pow2Monotone(8 * |y|, 32);
    WordBounds(BytesVal(x), BytesVal(y), 32);
  }

  lemma GeneratorWidth()
    ensures Coefficients(32) % 2 == 1 && Pow2(32) <= Coefficients(32) < Pow2(33)
  {
    hide Coefficients, Pow2;
    GeneratorIs();
    WordWidth();
    Pow2Step(32);
  }
}
