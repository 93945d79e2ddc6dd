/** Arithmetic of two-limb numbers: the integer facts behind each step of the Pair template. */
module Arith {
  import opened Bits

  /** The number with upper limb `a` and lower limb `b`, each below `m`. */
  function Two(a: int, b: int, m: int): int {
    a * m + b
  }

  function Square(m: int): int {
    m * m
  }

  /** Reduction to a machine integer's range. */
  function Mod(x: int, m: int): (r: int)
    requires m > 0
    ensures 0 <= r < m
  {
    x % m
  }

  function Div(x: int, m: int): (r: int)
    requires m > 0
    ensures x >= 0 ==> r >= 0
  {
    x / m
  }

  function Times(x: int, y: int): (r: int)
    ensures 0 <= x && 0 <= y ==> 0 <= r
  {
    x * y
  }

  lemma TimesIs(x: int, y: int)
    ensures Times(x, y) == x * y
  {
  }

  lemma TimesSum(x: int, a: int, b: int)
    ensures Times(x, a + b) == Times(x, a) + Times(x, b)
    ensures Times(a + b, x) == Times(a, x) + Times(b, x)
  {
    assert x * (a + b) == x * a + x * b;
    assert (a + b) * x == a * x + b * x;
  }

  lemma TimesAssoc(x: int, y: int, z: int)
    ensures Times(Times(x, y), z) == Times(x, Times(y, z))
  {
    MulAssoc(x, y, z);
  }

  lemma TimesSwap(x: int, y: int)
    ensures Times(x, y) == Times(y, x)
  {
  }

  lemma TimesMonotone(a: nat, b: nat, c: nat, d: nat)
    requires a <= c && b <= d
    ensures 0 <= Times(a, b) <= Times(c, d)
  {
    MulMonotone(a, b, c, d);
  }

  lemma TimesCancel(m: int, x: int, y: int)
    requires m > 0 && Times(m, x) <= Times(m, y)
    ensures x <= y
  {
    if y < x { MulAtLeast(m, y, x); }
  }

  lemma DivMod(x: int, m: int)
    requires m > 0
    ensures x == Times(m, Div(x, m)) + Mod(x, m)
  {
    Fundamental(x, m);
  }

  lemma BelowSquare(a: int, b: int, m: int)
    requires 0 <= a < m && 0 <= b < m
    ensures 0 <= Two(a, b, m) < Square(m)
  {
    MulAtLeast(m, a, m);
  }

  /** Reducing a two-limb number modulo m * m reduces its upper limb modulo m. */
  lemma ModPair(x: int, lo: int, m: int)
    requires 0 <= lo < m
    ensures (x * m + lo) % (m * m) == (x % m) * m + lo
  {
    Fundamental(x, m);
    BelowSquare(x % m, lo, m);
    var q, r := x / m, x % m;
    assert x * m + lo == (m * m) * q + (r * m + lo) by {
      assert (m * q + r) * m == (m * m) * q + r * m;
    }
    DivModUnique(x * m + lo, q, r * m + lo, m * m);
  }

  lemma ModPlus(x: int, y: int, m: int)
    requires m > 0
    ensures (x % m + y) % m == (x + y) % m
  {
    Fundamental(x, m);
    Fundamental(x % m + y, m);
    assert x + y == m * (x / m + (x % m + y) / m) + (x % m + y) % m;
    DivModUnique(x + y, x / m + (x % m + y) / m, (x % m + y) % m, m);
  }

  /** Multiples of the modulus do not count. */
  lemma ModMultiple(x: int, k: int, m: int)
    requires m > 0
    ensures Mod(x + Times(m, k), m) == Mod(x, m)
  {
    Fundamental(x, m);
    assert m * (x / m + k) == m * (x / m) + m * k;
    DivModUnique(x + m * k, x / m + k, x % m, m);
  }

  /** A summand can be reduced before the sum is. */
  lemma ModSum(x: int, y: int, m: int)
    requires m > 0
    ensures Mod(Mod(x, m) + y, m) == Mod(x + y, m)
  {
    ModPlus(x, y, m);
  }

  /** So can a factor. */
  lemma ModProduct(y: int, x: int, v: int, m: int)
    requires m > 0
    ensures Mod(y + Times(x, Mod(v, m)), m) == Mod(y + Times(x, v), m)
  {
    hide Mod, Div, Times;
    DivMod(v, m);
    TimesSum(x, Times(m, Div(v, m)), Mod(v, m));
    TimesAssoc(x, m, Div(v, m));
    TimesSwap(x, m);
    TimesAssoc(m, x, Div(v, m));
    ModMultiple(y + Times(x, Mod(v, m)), Times(x, Div(v, m)), m);
  }

  lemma SmallMod(x: int, m: int)
    requires 0 <= x < m
    ensures x % m == x && x / m == 0
  {
    DivModUnique(x, 0, x, m);
  }

  /** The carry of an addition shows as a sum below its first summand. */
  lemma AddPair(a: nat, b: nat, c: nat, d: nat, m: nat)
    requires a < m && b < m && c < m && d < m
    ensures var lo := Mod(b + d, m);
            var carry := if lo < b then 1 else 0;
            Square(m) > 0 && Two(Mod(Mod(a + c, m) + carry, m), lo, m) == Mod(Two(a, b, m) + Two(c, d, m), Square(m))
  {
    hide Mod, Two, Square;
    var lo := Mod(b + d, m);
    var carry := if lo < b then 1 else 0;
    Carry(b, d, m);
    PairMod(a + c, carry, lo, m);
    TwoSum(a, b, c, d, carry, lo, m);
  }

  /** Both limbs, reduced one by one. */
  lemma PairMod(x: int, carry: int, lo: int, m: int)
    requires 0 <= lo < m
    ensures Square(m) > 0 && Two(Mod(Mod(x, m) + carry, m), lo, m) == Mod(Two(x + carry, lo, m), Square(m))
  {
    ModPlus(x, carry, m);
    ModPair(x + carry, lo, m);
  }

  lemma Carry(b: nat, d: nat, m: nat)
    requires b < m && d < m
    ensures var lo := Mod(b + d, m); b + d == (if lo < b then 1 else 0) * m + lo
  {
    if b + d < m { SmallMod(b + d, m); } else { DivModUnique(b + d, 1, b + d - m, m); }
  }

  lemma TwoSum(a: int, b: int, c: int, d: int, carry: int, lo: int, m: int)
    requires b + d == carry * m + lo
    ensures Two(a, b, m) + Two(c, d, m) == Two(a + c + carry, lo, m)
  {
    assert (a + c + carry) * m == a * m + c * m + carry * m;
  }

  /** The borrow of a subtraction shows as a difference above its minuend. */
  lemma SubPair(a: nat, b: nat, c: nat, d: nat, m: nat)
    requires a < m && b < m && c < m && d < m
    ensures var lo := Mod(b - d, m);
            var borrow := if lo > b then 1 else 0;
            Square(m) > 0 && Two(Mod(Mod(a - c, m) - borrow, m), lo, m) == Mod(Two(a, b, m) - Two(c, d, m), Square(m))
  {
    hide Mod, Two, Square;
    var lo := Mod(b - d, m);
    var borrow := if lo > b then 1 else 0;
    Borrow(b, d, m);
    PairMod(a - c, -borrow, lo, m);
    TwoDifference(a, b, c, d, borrow, lo, m);
  }

  lemma Borrow(b: nat, d: nat, m: nat)
    requires b < m && d < m
    ensures var lo := Mod(b - d, m); b - d == lo - (if lo > b then 1 else 0) * m
  {
    if b >= d { SmallMod(b - d, m); } else { DivModUnique(b - d, -1, b - d + m, m); }
  }

  lemma TwoDifference(a: int, b: int, c: int, d: int, borrow: int, lo: int, m: int)
    requires b - d == lo - borrow * m
    ensures Two(a, b, m) - Two(c, d, m) == Two(a - c - borrow, lo, m)
  {
    assert (a - c - borrow) * m == a * m - c * m - borrow * m;
  }

  lemma ScaledRemainder(a: nat, p: nat, q: nat)
    requires p > 0 && q > 0
    ensures p * q > 0
    ensures (a * p) % (p * q) == (a % q) * p && (a * p) / (p * q) == a / q
    ensures (a % q) * p + p <= p * q
  {
    Fundamental(a, q);
    MulAtLeast(p, a % q, q);
    assert a * p == (p * q) * (a / q) + (a % q) * p by {
      assert (q * (a / q) + a % q) * p == (p * q) * (a / q) + (a % q) * p;
    }
    assert (a % q) * p == p * (a % q);
    DivModUnique(a * p, a / q, (a % q) * p, p * q);
  }

  lemma QuotientBelow(b: nat, p: nat, q: nat)
    requires q > 0 && b < p * q
    ensures b / q < p
  {
    Fundamental(b, q);
    assert (p - b / q) * q == p * q - q * (b / q);
  }

  lemma MulAssoc(x: int, y: int, z: int)
    ensures x * (y * z) == x * y * z
  {
  }

  lemma Carried(a: int, b: int, p: int, m: int, u: int, lo: int)
    requires b * p == u * m + lo
    ensures (a * m + b) * p == (a * p + u) * m + lo
  {
    assert (a * m + b) * p == (a * p) * m + b * p;
    assert (a * p + u) * m == (a * p) * m + u * m;
  }

  /** A left shift by less than a limb: p = 2^shift, q = 2^(limb - shift). */
  lemma ShlPair(a: nat, b: nat, p: nat, q: nat)
    requires p > 0 && q > 0 && a < p * q && b < p * q
    ensures b / q < p && (a * p) % (p * q) == (a % q) * p
    ensures var m := p * q; Two((a % q) * p + b / q, (b * p) % m, m) == (Two(a, b, m) * p) % Square(m)
  {
    var m := p * q;
    QuotientBelow(b, p, q);
    ScaledRemainder(a, p, q);
    ScaledRemainder(b, p, q);
    ShlSum(a, b / q, (b * p) % m, b, p, q, m);
  }

  lemma ShlSum(a: nat, u: nat, lo: nat, b: nat, p: nat, q: nat, m: nat)
    requires p > 0 && q > 0 && m == p * q && u < p && lo < m
    requires lo == (b * p) % m && u == (b * p) / m
    requires (a * p) % m == (a % q) * p && (a % q) * p + p <= m
    ensures ((a % q) * p + u) * m + lo == ((a * m + b) * p) % (m * m)
  {
    Fundamental(b * p, m);
    assert b * p == u * m + lo;
    Carried(a, b, p, m, u, lo);
    ModPair(a * p + u, lo, m);
    ModPlus(a * p, u, m);
    SmallMod((a % q) * p + u, m);
  }

  lemma ShrPair(a: nat, b: nat, p: nat, q: nat)
    requires p > 0 && q > 0 && a < p * q && b < p * q
    ensures b / p < q && (a * q) % (q * p) == (a % p) * q
    ensures Two(a / p, (a % p) * q + b / p, p * q) == Two(a, b, p * q) / p
  {
    ScaledRemainder(a, q, p);
    Fundamental(a, p);
    Fundamental(b, p);
    assert p * q == q * p;
    QuotientBelow(b, q, p);
    ShrSum(a, a / p, a % p, b, b / p, b % p, p, q);
    DivModUnique(a * (p * q) + b, a * q + b / p, b % p, p);
  }

  lemma ShrSum(a: nat, high: nat, low: nat, b: nat, upper: nat, lower: nat, p: nat, q: nat)
    requires a == p * high + low && b == p * upper + lower
    ensures a * (p * q) + b == p * (a * q + upper) + lower
    ensures a * q == high * (p * q) + low * q
  {
    MulAssoc(a, p, q);
    MulAssoc(p, a, q);
    assert a * p == p * a;
    assert p * (a * q + upper) == p * (a * q) + p * upper;
    MulAssoc(high, p, q);
    assert high * p == p * high;
    assert (p * high + low) * q == (p * high) * q + low * q;
  }

  /** Shifts by a limb or more: p = 2^(shift - limb). */
  lemma ShlFar(a: nat, b: nat, p: nat, m: nat)
    requires p > 0 && a < m && b < m
    ensures (Two(a, b, m) * (p * m)) % Square(m) == Two((b * p) % m, 0, m)
  {
    MulAssoc(a * m + b, p, m);
    ModPair((a * m + b) * p, 0, m);
    UpperLost(a, b, p, m);
  }

  /** What a limb loses when it is multiplied does not depend on the limb above. */
  lemma UpperLost(a: nat, b: nat, p: nat, m: nat)
    requires m > 0
    ensures ((a * m + b) * p) % m == (b * p) % m
  {
    Fundamental(b * p, m);
    Carried(a, b, p, m, (b * p) / m, (b * p) % m);
    DivModUnique((a * m + b) * p, a * p + (b * p) / m, (b * p) % m, m);
  }

  lemma ShrFar(a: nat, b: nat, p: nat, m: nat)
    requires p > 0 && a < m && b < m
    ensures p * m > 0 && Two(a, b, m) / (p * m) == a / p
  {
    Fundamental(a, p);
    MulAtLeast(m, a % p, p);
    assert a * m + b == (p * m) * (a / p) + ((a % p) * m + b) by {
      assert (p * (a / p) + a % p) * m == (p * m) * (a / p) + (a % p) * m;
    }
    assert m * (a % p) == (a % p) * m && p * m == m * p;
    DivModUnique(a * m + b, a / p, (a % p) * m + b, p * m);
  }

  // ---------------------------------------------------------------- limbs of w bits

  /** A shift amount within a limb: m = 2^w, p = 2^s and q = 2^(w - s). */
  ghost predicate Within(s: nat, w: nat, m: nat, p: nat, q: nat) {
    s < w && m == Pow2(w) && p == Pow2(s) && q == Pow2(w - s)
  }

  lemma WithinFacts(s: nat, w: nat, m: nat, p: nat, q: nat)
    requires Within(s, w, m, p, q)
    ensures m > 0 && p > 0 && q > 0 && m == p * q && m == q * p && Square(m) > 0
  {
    hide Pow2;
    Pow2Add(s, w - s);
    assert Square(m) > 0 by { MulMonotone(1, 1, m, m); }
  }

  lemma ShlLimbs(a: nat, b: nat, s: nat, w: nat, m: nat, p: nat, q: nat)
    requires Within(s, w, m, p, q) && a < m && b < m
    ensures m > 0 && q > 0 && Square(m) > 0
    ensures Two(Or(Mod(a * p, m), Div(b, q)), Mod(b * p, m), m) == Mod(Two(a, b, m) * p, Square(m))
  {
    hide Pow2, Or, Two, Square;
    WithinFacts(s, w, m, p, q);
    ShlPair(a, b, p, q);
    OrDisjoint(a % q, b / q, s);
  }

  lemma ShrLimbs(a: nat, b: nat, s: nat, w: nat, m: nat, p: nat, q: nat)
    requires Within(s, w, m, p, q) && a < m && b < m
    ensures m > 0 && p > 0
    ensures Two(Div(a, p), Or(Mod(a * q, m), Div(b, p)), m) == Div(Two(a, b, m), p)
  {
    hide Pow2, Or, Two, Square;
    WithinFacts(s, w, m, p, q);
    ShrPair(a, b, p, q);
    OrDisjoint(a % p, b / p, w - s);
  }

  lemma ShlLimbsFar(a: nat, b: nat, m: nat, p: nat, far: nat)
    requires p > 0 && far == p * m && a < m && b < m
    ensures Square(m) > 0 && Two(Mod(b * p, m), 0, m) == Mod(Two(a, b, m) * far, Square(m))
  {
    ShlFar(a, b, p, m);
  }

  lemma ShrLimbsFar(a: nat, b: nat, m: nat, p: nat, far: nat)
    requires p > 0 && far == p * m && a < m && b < m
    ensures far > 0 && Div(a, p) == Div(Two(a, b, m), far)
  {
    ShrFar(a, b, p, m);
  }

  lemma AndLimbs(a: nat, b: nat, c: nat, d: nat, w: nat, m: nat)
    requires m == Pow2(w) && b < m && d < m
    ensures Two(a, b, m) >= 0 && Two(c, d, m) >= 0
    ensures Two(And(a, c), And(b, d), m) == And(Two(a, b, m), Two(c, d, m))
  {
    hide Pow2, And;
    AndSplit(a, b, c, d, w);
  }

  lemma OrLimbs(a: nat, b: nat, c: nat, d: nat, w: nat, m: nat)
    requires m == Pow2(w) && b < m && d < m
    ensures Two(a, b, m) >= 0 && Two(c, d, m) >= 0
    ensures Two(Or(a, c), Or(b, d), m) == Or(Two(a, b, m), Two(c, d, m))
  {
    hide Pow2, Or;
    OrSplit(a, b, c, d, w);
  }

  // ---------------------------------------------------------------- schoolbook multiplication

  /** A digit in base `h` and what stands above it. */
  function Over(s: int, u: int, h: int): int {
    s + h * u
  }

  /** A number of four digits in base `h`, the lowest first. */
  function Four(d0: int, d1: int, d2: int, d3: int, h: int): int {
    Over(d0, Over(d1, Over(d2, d3, h), h), h)
  }

  /** Seven columns, which may exceed the base. */
  function Seven(c0: int, c1: int, c2: int, c3: int, c4: int, c5: int, c6: int, h: int): int {
    Over(c0, Over(c1, Over(c2, Over(c3, Over(c4, Over(c5, c6, h), h), h), h), h), h)
  }

  lemma OverAdd(s: int, u: int, t: int, v: int, h: int)
    ensures Over(s, u, h) + Over(t, v, h) == Over(s + t, u + v, h)
  {
    assert h * (u + v) == h * u + h * v;
  }

  lemma OverRaise(c: int, s: int, u: int, h: int)
    ensures c + Over(s, u, h) == Over(c + s, u, h)
  {
  }

  lemma OverNest(s: int, u: int, v: int, h: int)
    ensures Over(Over(s, u, h), v, h) == Over(s, u + v, h)
  {
    assert h * (u + v) == h * u + h * v;
  }

  lemma OverScale(x: int, s: int, u: int, h: int)
    ensures Times(x, Over(s, u, h)) == Over(Times(x, s), Times(x, u), h)
  {
    assert x * (s + h * u) == x * s + h * (x * u);
  }

  lemma OverScaleLeft(s: int, u: int, x: int, h: int)
    ensures Times(Over(s, u, h), x) == Over(Times(s, x), Times(u, x), h)
  {
    assert (s + h * u) * x == s * x + h * (u * x);
  }

  lemma DigitAndCarry(s: int, h: int)
    requires h > 0
    ensures s == Over(Mod(s, h), Div(s, h), h)
  {
    Fundamental(s, h);
  }

  /** Moving the carry of one column into the next keeps the value. */
  lemma MoveCarry(s: int, t: int, u: int, h: int)
    requires h > 0
    ensures Over(s, Over(t, u, h), h) == Over(Mod(s, h), Over(t + Div(s, h), u, h), h)
  {
    hide Over, Mod, Div;
    DigitAndCarry(s, h);
    OverNest(Mod(s, h), Div(s, h), Over(t, u, h), h);
    OverRaise(Div(s, h), t, u, h);
  }

  lemma ScaleFour(d0: int, d1: int, d2: int, d3: int, x: int, h: int)
    ensures Times(Four(d0, d1, d2, d3, h), x) == Four(Times(d0, x), Times(d1, x), Times(d2, x), Times(d3, x), h)
  {
    hide Over, Times;
    OverScaleLeft(d0, Over(d1, Over(d2, d3, h), h), x, h);
    OverScaleLeft(d1, Over(d2, d3, h), x, h);
    OverScaleLeft(d2, d3, x, h);
  }

  /** A product with a four-digit number, digit by digit. */
  lemma ByFour(x: int, d0: int, d1: int, d2: int, d3: int, h: int)
    ensures Times(x, Four(d0, d1, d2, d3, h)) == Four(Times(x, d0), Times(x, d1), Times(x, d2), Times(x, d3), h)
  {
    hide Over, Times;
    OverScale(x, d0, Over(d1, Over(d2, d3, h), h), h);
    OverScale(x, d1, Over(d2, d3, h), h);
    OverScale(x, d2, d3, h);
  }

  /** The columns of the product of two four-digit numbers. */
  lemma ProductOfFours(a: int, b: int, c: int, d: int, e: int, f: int, g: int, k: int, h: int)
    ensures Times(Four(d, c, b, a, h), Four(k, g, f, e, h))
            == Seven(Times(d, k), Times(c, k) + Times(d, g), Times(b, k) + Times(c, g) + Times(d, f),
                     Times(a, k) + Times(b, g) + Times(c, f) + Times(d, e),
                     Times(a, g) + Times(b, f) + Times(c, e), Times(a, f) + Times(b, e), Times(a, e), h)
  {
    hide Four, Seven, Times;
    ByFour(Four(d, c, b, a, h), k, g, f, e, h);
    ScaleFour(d, c, b, a, k, h);
    ScaleFour(d, c, b, a, g, h);
    ScaleFour(d, c, b, a, f, h);
    ScaleFour(d, c, b, a, e, h);
    ColumnSums(Times(a, k), Times(b, k), Times(c, k), Times(d, k), Times(a, g), Times(b, g), Times(c, g), Times(d, g),
               Times(a, f), Times(b, f), Times(c, f), Times(d, f),
               Times(a, e), Times(b, e), Times(c, e), Times(d, e), h);
  }

  lemma ColumnSums(ak: int, bk: int, ck: int, dk: int, ag: int, bg: int, cg: int, dg: int,
                   af: int, bf: int, cf: int, df: int, ae: int, be: int, ce: int, de: int, h: int)
    ensures Four(Four(dk, ck, bk, ak, h), Four(dg, cg, bg, ag, h), Four(df, cf, bf, af, h), Four(de, ce, be, ae, h), h)
            == Seven(dk, ck + dg, bk + cg + df, ak + bg + cf + de, ag + bf + ce, af + be, ae, h)
  {
    hide Over;
    var k2, g2, f2, e2 := Over(bk, ak, h), Over(bg, ag, h), Over(bf, af, h), Over(be, ae, h);
    var k1, g1, f1, e1 := Over(ck, k2, h), Over(cg, g2, h), Over(cf, f2, h), Over(ce, e2, h);
    var ee := Over(de, e1, h);
    var y := Over(df, f1 + ee, h);
    var z := Over(dg, g1 + y, h);
    OverNest(df, f1, ee, h);
    OverNest(dg, g1, y, h);
    OverNest(dk, k1, z, h);
    OverAdd(ck, k2, dg, g1 + y, h);
    OverAdd(bk, ak, cg, g2, h);
    OverAdd(bk + cg, ak + g2, df, f1 + ee, h);
    OverAdd(bg, ag, cf, f2, h);
    OverAdd(bg + cf, ag + f2, de, e1, h);
    OverRaise(ak, bg + cf + de, ag + f2 + e1, h);
    OverAdd(bf, af, ce, e2, h);
    OverRaise(ag, bf + ce, af + e2, h);
    OverRaise(af, be, ae, h);
  }

  /** A multiple added above a digit is added above the number, times the base. */
  lemma OverShift(s: int, u: int, p: int, rest: int, h: int)
    ensures Over(s, u + Times(p, rest), h) == Over(s, u, h) + Times(Times(h, p), rest)
  {
    MulAssoc(h, p, rest);
    assert h * (u + p * rest) == h * u + h * (p * rest);
  }

  lemma FourthPower(h: int)
    ensures Times(h, Times(h, Times(h, h))) == Square(Square(h))
  {
    MulAssoc(h, h, h * h);
  }

  lemma FourAbove(m0: int, m1: int, m2: int, m3: int, rest: int, h: int)
    ensures Over(m0, Over(m1, Over(m2, Over(m3, rest, h), h), h), h)
            == Four(m0, m1, m2, m3, h) + Times(Square(Square(h)), rest)
  {
    hide Times, Square;
    assert Over(m3, rest, h) == m3 + Times(h, rest) by { OverTimes(m3, rest, h); }
    hide Over;
    OverShift(m2, m3, h, rest, h);
    OverShift(m1, Over(m2, m3, h), Times(h, h), rest, h);
    OverShift(m0, Over(m1, Over(m2, m3, h), h), Times(h, Times(h, h)), rest, h);
    FourthPower(h);
  }

  lemma OverTimes(s: int, u: int, h: int)
    ensures Over(s, u, h) == s + Times(h, u)
  {
  }

  /** Seven columns with carries make eight digits when the value has no more. */
  lemma CarrySeven(c0: int, c1: int, c2: int, c3: int, c4: int, c5: int, c6: int, h: int)
    requires h > 0
    ensures var r1 := c1 + Div(c0, h); var r2 := c2 + Div(r1, h); var r3 := c3 + Div(r2, h);
            var r4 := c4 + Div(r3, h); var r5 := c5 + Div(r4, h); var r6 := c6 + Div(r5, h);
            Seven(c0, c1, c2, c3, c4, c5, c6, h)
            == Four(Mod(c0, h), Mod(r1, h), Mod(r2, h), Mod(r3, h), h)
               + Times(Square(Square(h)), Four(Mod(r4, h), Mod(r5, h), Mod(r6, h), Div(r6, h), h))
  {
    hide Mod, Div, Square, Over, Times;
    var r1 := c1 + Div(c0, h);
    var r2 := c2 + Div(r1, h);
    var r3 := c3 + Div(r2, h);
    var r4 := c4 + Div(r3, h);
    var r5 := c5 + Div(r4, h);
    var r6 := c6 + Div(r5, h);
    var u5 := Over(c5, c6, h);
    var u4 := Over(c4, u5, h);
    var u3 := Over(c3, u4, h);
    MoveCarry(c0, c1, Over(c2, u3, h), h);
    MoveCarry(r1, c2, u3, h);
    MoveCarry(r2, c3, u4, h);
    MoveCarry(r3, c4, u5, h);
    MoveCarry(r4, c5, c6, h);
    DigitAndCarry(r5, h);
    OverNest(Mod(r5, h), Div(r5, h), c6, h);
    DigitAndCarry(r6, h);
    FourAbove(Mod(c0, h), Mod(r1, h), Mod(r2, h), Mod(r3, h), Four(Mod(r4, h), Mod(r5, h), Mod(r6, h), Div(r6, h), h),
              h);
  }

  // ---------------------------------------------------------------- half limbs

  lemma HalvesOf(v: nat, h: nat)
    requires h > 0 && v < Square(h)
    ensures Div(v, h) < h && v == Two(Div(v, h), Mod(v, h), h)
  {
    QuotientBelow(v, h, h);
    Fundamental(v, h);
  }

  /** The low digit of a two-limb number is the low digit of its lower limb. */
  lemma LowDigit(a: nat, b: nat, h: nat)
    requires h > 0
    ensures Mod(Two(a, b, Square(h)), h) == Mod(b, h)
  {
    Fundamental(b, h);
    MulAssoc(a, h, h);
    assert h * (a * h + b / h) == h * (a * h) + h * (b / h);
    DivModUnique(a * (h * h) + b, a * h + b / h, b % h, h);
  }

  lemma CarryBound(v: nat, h: nat)
    requires h > 4 && v <= 5 * Square(h)
    ensures Div(v, h) <= Square(h)
  {
    MulMonotone(5, h, h, h);
    assert (5 * h + 1) * h == 5 * (h * h) + h;
    QuotientBelow(v, 5 * h + 1, h);
  }

  lemma ModIs(x: int, m: int)
    requires m > 0
    ensures Mod(x, m) == x % m
  {
  }

  lemma Positive(x: int, m: int)
    requires m > 0 && m * x > 0
    ensures x > 0
  {
  }

  lemma ModSmall(x: int, m: int)
    requires 0 <= x < m
    ensures Mod(x, m) == x
  {
    SmallMod(x, m);
  }

  lemma AndMaskMod(a: nat, k: nat)
    ensures And(a, Pow2(k) - 1) == Mod(a, Pow2(k))
  {
    AndMask(a, k);
  }

  /** The top digit of a four-digit number below h^4 is a digit. */
  lemma TopDigit(m0: nat, m1: nat, m2: nat, top: nat, h: nat)
    requires h > 0 && Four(m0, m1, m2, top, h) < Square(Square(h))
    ensures top < h
  {
    MulAssoc(h * h, h, h);
    MulAssoc(h, h, h * h);
    MulAssoc(h, h, h);
    assert h * (h * (h * h)) == Square(Square(h));
    Cancel(m0, m1 + h * (m2 + h * top), h * (h * h), h);
    Cancel(m1, m2 + h * top, h * h, h);
    Cancel(m2, top, h, h);
  }

  lemma Cancel(m: nat, u: nat, v: nat, h: nat)
    requires m + h * u < h * v
    ensures u < v
  {
    assert h * (v - u) == h * v - h * u;
    assert h * (v - u) > 0;
  }

  lemma RemainderBelow(x: int, low: nat, rest: int, m: nat)
    requires x == low + m * rest && low < m
    ensures Mod(x, m) == low
  {
    DivModUnique(x, rest, low, m);
  }

  // ---------------------------------------------------------------- byte vectors

  /** The number a little-endian byte vector stands for. */
  function BytesVal(s: seq<byte>): nat {
    if s == [] then 0 else s[0] + 256 * BytesVal(s[1..])
  }

  lemma Pow2Eight()
    ensures Pow2(8) == 256
  {
    assert Pow2(8) == 2 * Pow2(7) == 4 * Pow2(6) == 8 * Pow2(5) == 16 * Pow2(4);
    assert Pow2(4) == 2 * Pow2(3) == 4 * Pow2(2) == 8 * Pow2(1);
  }

  lemma {:induction false} BytesAppend(s: seq<byte>, b: byte)
    ensures BytesVal(s + [b]) == BytesVal(s) + Pow2(8 * |s|) * b
  {
    if s == [] {
      assert s + [b] == [b] && BytesVal([b][1..]) == 0;
    } else {
      assert (s + [b])[1..] == s[1..] + [b];
      BytesAppend(s[1..], b);
      Pow2Add(8, 8 * (|s| - 1));
      assert Pow2(8) == 256;
      MulAssoc(256, Pow2(8 * (|s| - 1)), b);
    }
  }

  lemma {:induction false} BytesInjective(s: seq<byte>, u: seq<byte>)
    requires |s| == |u| && BytesVal(s) == BytesVal(u)
    ensures s == u
  {
    if s != [] {
      BytesInjective(s[1..], u[1..]);
      assert s == [s[0]] + s[1..] && u == [u[0]] + u[1..];
    }
  }

  lemma {:induction false} BytesBound(s: seq<byte>)
    ensures BytesVal(s) < Pow2(8 * |s|)
  {
    if s != [] {
      BytesBound(s[1..]);
      Pow2Add(8, 8 * (|s| - 1));
      Pow2Eight();
    }
  }
}
