/** Schoolbook multiplication and squaring on half limbs, with explicit carries between columns. */
module NaturalMul {
  import opened Bits
  import opened Arith
  import opened Natural

  /** HalfBits of the level above `t`: half the width of a limb of level `t`. */
  function Half(t: nat): (k: nat)
    ensures 0 < k < Width(t)
  {
    Width(t) / 2
  }

  function Base(t: nat): (h: nat)
    ensures h > 4
  {
    Pow2Monotone(3, Half(t));
    Pow2(Half(t))
  }

  lemma BaseSquare(t: nat)
    ensures Modulus(t) == Square(Base(t))
  {
    hide Pow2;
    Pow2Add(Half(t), Half(t));
  }

  /** `(Type(0) - 1) >> HalfBits`. */
  function Mask(t: nat): (r: Num)
    ensures Fits(t, r)
  {
    Shr(t, Sub(t, Of(t, 0), Of(t, 1)), Half(t))
  }

  function High(t: nat, x: Num): (r: Num)
    requires Fits(t, x)
    ensures Fits(t, r)
  {
    Shr(t, x, Half(t))
  }

  function Low(t: nat, x: Num): (r: Num)
    requires Fits(t, x)
    ensures Fits(t, r)
  {
    BitAnd(t, x, Mask(t))
  }

  lemma MaskVal(t: nat)
    ensures Val(t, Mask(t)) == Base(t) - 1
  {
    hide Modulus, Val, Fits, Sub, Of, Shr;
    BaseSquare(t);
    var h := Base(t);
    OfVal(t, 0);
    OfVal(t, 1);
    SubVal(t, Of(t, 0), Of(t, 1));
    DivModUnique(-1, -1, Modulus(t) - 1, Modulus(t));
    ShiftVal(t, Sub(t, Of(t, 0), Of(t, 1)), Half(t));
    assert Square(h) - 1 == h * (h - 1) + (h - 1);
    DivModUnique(Square(h) - 1, h - 1, h - 1, h);
  }

  lemma HighVal(t: nat, x: Num)
    requires Fits(t, x)
    ensures Val(t, High(t, x)) == Div(Val(t, x), Base(t))
  {
    hide Modulus, Val, Fits, Shr, Div, Pow2;
    ShiftVal(t, x, Half(t));
  }

  lemma LowVal(t: nat, x: Num)
    requires Fits(t, x)
    ensures Val(t, Low(t, x)) == Mod(Val(t, x), Base(t))
  {
    hide Modulus, Val, Fits, BitAnd, Mask, Mod, And, Pow2;
    BitAndVal(t, x, Mask(t));
    MaskVal(t);
    AndMaskMod(Val(t, x), Half(t));
  }

  /** A limb of level `t` is its high half and its low half. */
  lemma HalvesVal(t: nat, x: Num)
    requires Fits(t, x)
    ensures Val(t, High(t, x)) == Div(Val(t, x), Base(t))
    ensures Val(t, Low(t, x)) == Mod(Val(t, x), Base(t))
    ensures Val(t, High(t, x)) < Base(t) && Val(t, Low(t, x)) < Base(t)
    ensures Val(t, x) == Two(Val(t, High(t, x)), Val(t, Low(t, x)), Base(t))
  {
    hide Modulus, Val, Fits, High, Low, Two, Square, Div, Mod, Base;
    HighVal(t, x);
    LowVal(t, x);
    ValBound(t, x);
    BaseSquare(t);
    HalvesOf(Val(t, x), Base(t));
  }

  /** `(u & Mask) << HalfBits | (v & Mask)`. */
  function JoinHalves(t: nat, u: Num, v: Num): (r: Num)
    requires Fits(t, u) && Fits(t, v)
    ensures Fits(t, r)
  {
    BitOr(t, Shl(t, Low(t, u), Half(t)), Low(t, v))
  }

  lemma JoinHalvesVal(t: nat, u: Num, v: Num)
    requires Fits(t, u) && Fits(t, v)
    ensures Val(t, JoinHalves(t, u, v)) == Two(Mod(Val(t, u), Base(t)), Mod(Val(t, v), Base(t)), Base(t))
  {
    hide Modulus, Val, Fits, Shl, BitOr, Low, Or, Mod, Pow2;
    BaseSquare(t);
    HalvesVal(t, u);
    HalvesVal(t, v);
    var h, p, q := Base(t), Val(t, Low(t, u)), Val(t, Low(t, v));
    ShiftVal(t, Low(t, u), Half(t));
    BelowSquare(p, 0, h);
    ModSmall(p * h, Modulus(t));
    BitOrVal(t, Shl(t, Low(t, u), Half(t)), Low(t, v));
    OrDisjoint(p, q, Half(t));
  }

  // ---------------------------------------------------------------- columns

  /** `Pair(x)`. */
  function Widen(n: nat, x: Num): (r: Num)
    requires n > 0 && Fits(n - 1, x)
    ensures Fits(n, r)
  {
    Pair(Of(n - 1, 0), x)
  }

  function Sum2(n: nat, x: Num, y: Num): (r: Num)
    requires n > 0 && Fits(n - 1, x) && Fits(n - 1, y)
    ensures Fits(n, r)
  {
    Add(n, Widen(n, x), Widen(n, y))
  }

  function Sum3(n: nat, x: Num, y: Num, z: Num): (r: Num)
    requires n > 0 && Fits(n - 1, x) && Fits(n - 1, y) && Fits(n - 1, z)
    ensures Fits(n, r)
  {
    Add(n, Sum2(n, x, y), Widen(n, z))
  }

  function Sum4(n: nat, x: Num, y: Num, z: Num, w: Num): (r: Num)
    requires n > 0 && Fits(n - 1, x) && Fits(n - 1, y) && Fits(n - 1, z) && Fits(n - 1, w)
    ensures Fits(n, r)
  {
    Add(n, Sum3(n, x, y, z), Widen(n, w))
  }

  function Carry(n: nat, below: Num): (r: Num)
    requires n > 0 && Fits(n, below)
    ensures Fits(n, r)
  {
    Shr(n, below, Half(n - 1))
  }

  /** A column of products plus the carry of the column below. */
  function Row(n: nat, sum: Num, below: Num): (r: Num)
    requires n > 0 && Fits(n, sum) && Fits(n, below)
    ensures Fits(n, r)
  {
    Add(n, sum, Carry(n, below))
  }

  lemma WidenVal(n: nat, x: Num)
    requires n > 0 && Fits(n - 1, x)
    ensures Val(n, Widen(n, x)) == Val(n - 1, x) <= Modulus(n - 1)
  {
    OfVal(n - 1, 0);
    ValBound(n - 1, x);
  }

  lemma ColumnFits(n: nat)
    requires n > 0
    ensures 5 * Modulus(n - 1) < Modulus(n)
  {
    hide Modulus;
    ModulusSquare(n);
    BaseSquare(n - 1);
    MulMonotone(5, Base(n - 1), Base(n - 1), Base(n - 1));
    MulMonotone(6, Modulus(n - 1), Modulus(n - 1), Modulus(n - 1));
  }

  lemma AddExact(n: nat, x: Num, y: Num)
    requires n > 0 && Fits(n, x) && Fits(n, y) && Val(n, x) + Val(n, y) <= 5 * Modulus(n - 1)
    ensures Val(n, Add(n, x, y)) == Val(n, x) + Val(n, y)
  {
    hide Modulus, Val, Fits, Add, Mod;
    AddVal(n, x, y);
    ColumnFits(n);
    ModSmall(Val(n, x) + Val(n, y), Modulus(n));
  }

  lemma Sum2Val(n: nat, x: Num, y: Num)
    requires n > 0 && Fits(n - 1, x) && Fits(n - 1, y)
    ensures Val(n, Sum2(n, x, y)) == Val(n - 1, x) + Val(n - 1, y) <= 2 * Modulus(n - 1)
  {
    hide Modulus, Val, Fits, Add, Widen;
    WidenVal(n, x);
    WidenVal(n, y);
    AddExact(n, Widen(n, x), Widen(n, y));
  }

  lemma Sum3Val(n: nat, x: Num, y: Num, z: Num)
    requires n > 0 && Fits(n - 1, x) && Fits(n - 1, y) && Fits(n - 1, z)
    ensures Val(n, Sum3(n, x, y, z)) == Val(n - 1, x) + Val(n - 1, y) + Val(n - 1, z) <= 3 * Modulus(n - 1)
  {
    hide Modulus, Val, Fits, Add, Widen, Sum2;
    Sum2Val(n, x, y);
    WidenVal(n, z);
    AddExact(n, Sum2(n, x, y), Widen(n, z));
  }

  lemma Sum4Val(n: nat, x: Num, y: Num, z: Num, w: Num)
    requires n > 0 && Fits(n - 1, x) && Fits(n - 1, y) && Fits(n - 1, z) && Fits(n - 1, w)
    ensures Val(n, Sum4(n, x, y, z, w)) == Val(n - 1, x) + Val(n - 1, y) + Val(n - 1, z) + Val(n - 1, w)
    ensures Val(n, Sum4(n, x, y, z, w)) <= 4 * Modulus(n - 1)
  {
    hide Modulus, Val, Fits, Add, Widen, Sum3;
    Sum3Val(n, x, y, z);
    WidenVal(n, w);
    AddExact(n, Sum3(n, x, y, z), Widen(n, w));
  }

  lemma HalfInside(n: nat)
    requires n > 0
    ensures Half(n - 1) < Width(n)
  {
  }

  lemma CarryVal(n: nat, below: Num)
    requires n > 0 && Fits(n, below) && Val(n, below) <= 5 * Modulus(n - 1)
    ensures Val(n, Carry(n, below)) == Div(Val(n, below), Base(n - 1)) <= Modulus(n - 1)
  {
    hide Modulus, Val, Fits, Shr, Shl, Square, Div, Pow2, Mod, Half;
    HalfInside(n);
    ShiftVal(n, below, Half(n - 1));
    BaseSquare(n - 1);
    CarryBound(Val(n, below), Base(n - 1));
  }

  /** No partial sum overflows: a column with its carry stays within five limbs' worth. */
  lemma RowVal(n: nat, sum: Num, below: Num)
    requires n > 0 && Fits(n, sum) && Val(n, sum) <= 4 * Modulus(n - 1)
    requires Fits(n, below) && Val(n, below) <= 5 * Modulus(n - 1)
    ensures Val(n, Row(n, sum, below)) == Val(n, sum) + Div(Val(n, below), Base(n - 1)) <= 5 * Modulus(n - 1)
  {
    hide Modulus, Val, Fits, Add, Carry, Div, Base;
    CarryVal(n, below);
    AddExact(n, sum, Carry(n, below));
  }

  /** The low half of a row is its digit. */
  lemma RowDigit(n: nat, r: Num)
    requires n > 0 && Fits(n, r)
    ensures r.Pair? && Fits(n - 1, r.lo) && Mod(Val(n - 1, r.lo), Base(n - 1)) == Mod(Val(n, r), Base(n - 1))
  {
    hide Modulus, Val, Fits, Two, Square, Mod;
    Limbs(n, r);
    BaseSquare(n - 1);
    LowDigit(Val(n - 1, r.hi), Val(n - 1, r.lo), Base(n - 1));
  }

  // ---------------------------------------------------------------- products

  /** The digits of a number of level `n`: half limbs, the most significant first. */
  datatype Digits = Digits(a: Num, b: Num, c: Num, d: Num)

  predicate DigitsFit(t: nat, q: Digits) {
    Fits(t, q.a) && Fits(t, q.b) && Fits(t, q.c) && Fits(t, q.d)
  }

  function Split(n: nat, x: Num): (q: Digits)
    requires n > 0 && Fits(n, x)
    ensures DigitsFit(n - 1, q)
  {
    Digits(High(n - 1, x.hi), Low(n - 1, x.hi), High(n - 1, x.lo), Low(n - 1, x.lo))
  }

  lemma SplitVal(n: nat, x: Num)
    requires n > 0 && Fits(n, x)
    ensures var t, q, h := n - 1, Split(n, x), Base(n - 1);
            && Val(t, q.a) < h && Val(t, q.b) < h && Val(t, q.c) < h && Val(t, q.d) < h
            && Val(n, x) == Four(Val(t, q.d), Val(t, q.c), Val(t, q.b), Val(t, q.a), h)
  {
    hide Modulus, Val, Fits, High, Low;
    Limbs(n, x);
    BaseSquare(n - 1);
    HalvesVal(n - 1, x.hi);
    HalvesVal(n - 1, x.lo);
    var h, q := Base(n - 1), Split(n, x);
    FourIsTwoTwo(Val(n - 1, q.d), Val(n - 1, q.c), Val(n - 1, q.b), Val(n - 1, q.a), h);
  }

  lemma FourIsTwoTwo(d0: int, d1: int, d2: int, d3: int, h: int)
    ensures Four(d0, d1, d2, d3, h) == Two(Two(d3, d2, h), Two(d1, d0, h), Square(h))
  {
    MulAssoc(d2 + h * d3, h, h);
    assert h * (d1 + h * (d2 + h * d3)) == h * d1 + h * (h * (d2 + h * d3));
  }

  /** Four rows put together as a number of level `n`. */
  function Assemble(n: nat, r3: Num, r2: Num, r1: Num, r0: Num): (r: Num)
    requires n > 0 && Fits(n, r3) && Fits(n, r2) && Fits(n, r1) && Fits(n, r0)
    ensures Fits(n, r)
  {
    Pair(JoinHalves(n - 1, r3.lo, r2.lo), JoinHalves(n - 1, r1.lo, r0.lo))
  }

  lemma JoinRows(n: nat, u: Num, v: Num)
    requires n > 0 && Fits(n, u) && Fits(n, v)
    ensures u.Pair? && v.Pair? && Fits(n - 1, u.lo) && Fits(n - 1, v.lo)
    ensures Val(n - 1, JoinHalves(n - 1, u.lo, v.lo))
            == Two(Mod(Val(n, u), Base(n - 1)), Mod(Val(n, v), Base(n - 1)), Base(n - 1))
  {
    hide Modulus, Val, Fits, JoinHalves, Two, Mod, Base;
    RowDigit(n, u);
    RowDigit(n, v);
    JoinHalvesVal(n - 1, u.lo, v.lo);
  }

  lemma AssembleVal(n: nat, r3: Num, r2: Num, r1: Num, r0: Num)
    requires n > 0 && Fits(n, r3) && Fits(n, r2) && Fits(n, r1) && Fits(n, r0)
    ensures var h := Base(n - 1);
            Val(n, Assemble(n, r3, r2, r1, r0))
            == Four(Mod(Val(n, r0), h), Mod(Val(n, r1), h), Mod(Val(n, r2), h), Mod(Val(n, r3), h), h)
  {
    hide Modulus, Val, Fits, JoinHalves, Four, Two, Square, Mod, Base;
    var h := Base(n - 1);
    JoinRows(n, r3, r2);
    JoinRows(n, r1, r0);
    Limbs(n, Assemble(n, r3, r2, r1, r0));
    BaseSquare(n - 1);
    FourIsTwoTwo(Mod(Val(n, r0), h), Mod(Val(n, r1), h), Mod(Val(n, r2), h), Mod(Val(n, r3), h), h);
  }

  // ---------------------------------------------------------------- mul

  /** The rows r0 .. r3 that both multiplications start with. */
  datatype Rows = Rows(r0: Num, r1: Num, r2: Num, r3: Num)

  predicate RowsFit(n: nat, r: Rows) {
    Fits(n, r.r0) && Fits(n, r.r1) && Fits(n, r.r2) && Fits(n, r.r3)
  }

  function LowRows(n: nat, x: Num, y: Num): (r: Rows)
    requires n > 0 && Fits(n, x) && Fits(n, y)
    ensures RowsFit(n, r)
    decreases n, 0
  {
    var t, p, q := n - 1, Split(n, x), Split(n, y);
    var r0 := Widen(n, Mul(t, p.d, q.d));
    var r1 := Row(n, Sum2(n, Mul(t, p.c, q.d), Mul(t, p.d, q.c)), r0);
    var r2 := Row(n, Sum3(n, Mul(t, p.b, q.d), Mul(t, p.c, q.c), Mul(t, p.d, q.b)), r1);
    var r3 := Row(n, Sum4(n, Mul(t, p.a, q.d), Mul(t, p.b, q.c), Mul(t, p.c, q.b), Mul(t, p.d, q.a)), r2);
    Rows(r0, r1, r2, r3)
  }

  /** Bits * Bits => Bits. */
  function Mul(n: nat, x: Num, y: Num): (r: Num)
    requires Fits(n, x) && Fits(n, y)
    ensures Fits(n, r)
    decreases n, 1
  {
    if n == 0 then Word(Mod(x.w * y.w, Modulus(0)))
    else
      var rows := LowRows(n, x, y);
      Assemble(n, rows.r3, rows.r2, rows.r1, rows.r0)
  }

  /** The rows r4 .. r7 of the full product. */
  function HighRows(n: nat, x: Num, y: Num, below: Num): (r: Rows)
    requires n > 0 && Fits(n, x) && Fits(n, y) && Fits(n, below)
    ensures RowsFit(n, r)
  {
    var t, p, q := n - 1, Split(n, x), Split(n, y);
    var r4 := Row(n, Sum3(n, Mul(t, p.a, q.c), Mul(t, p.b, q.b), Mul(t, p.c, q.a)), below);
    var r5 := Row(n, Sum2(n, Mul(t, p.a, q.b), Mul(t, p.b, q.a)), r4);
    var r6 := Row(n, Widen(n, Mul(t, p.a, q.a)), r5);
    Rows(r4, r5, r6, Carry(n, r6))
  }

  /** Bits * Bits => 2 * Bits, as (hi, lo). */
  function MulFull(n: nat, x: Num, y: Num): (r: (Num, Num))
    requires n > 0 && Fits(n, x) && Fits(n, y)
    ensures Fits(n, r.0) && Fits(n, r.1)
  {
    var low := LowRows(n, x, y);
    var high := HighRows(n, x, y, low.r3);
    (Assemble(n, high.r3, high.r2, high.r1, high.r0), Assemble(n, low.r3, low.r2, low.r1, low.r0))
  }

  /** Two half limbs multiply without loss. */
  lemma ExactProduct(u: nat, v: nat, h: nat, m: nat)
    requires u < h && v < h && m == Square(h)
    ensures m > 0 && Mod(u * v, m) == u * v
  {
    MulMonotone(u, v, h - 1, h - 1);
    assert (h - 1) * (h - 1) == h * h - 2 * h + 1;
    ModSmall(u * v, m);
  }

  /** A number of level `t` that is a single digit. */
  predicate Digit(t: nat, u: Num) {
    Fits(t, u) && Val(t, u) < Base(t)
  }

  lemma DigitProduct(t: nat, u: Num, v: Num)
    requires Digit(t, u) && Digit(t, v)
    ensures Val(t, Mul(t, u, v)) == Times(Val(t, u), Val(t, v))
    decreases t, 1
  {
    hide Modulus, Val, Fits, Mul, Mod, Base, Square;
    BaseSquare(t);
    MulVal(t, u, v);
    ExactProduct(Val(t, u), Val(t, v), Base(t), Modulus(t));
  }

  lemma Column1(n: nat, u: Num, v: Num, below: Num)
    requires n > 0 && Digit(n - 1, u) && Digit(n - 1, v)
    requires Fits(n, below) && Val(n, below) <= 5 * Modulus(n - 1)
    ensures var r := Row(n, Widen(n, Mul(n - 1, u, v)), below);
            Val(n, r) == Times(Val(n - 1, u), Val(n - 1, v)) + Div(Val(n, below), Base(n - 1)) <= 5 * Modulus(n - 1)
    decreases n - 1, 2
  {
    hide Modulus, Val, Fits, Mul, Base, Div, Widen, Row, Times;
    DigitProduct(n - 1, u, v);
    WidenVal(n, Mul(n - 1, u, v));
    RowVal(n, Widen(n, Mul(n - 1, u, v)), below);
  }

  lemma Column2(n: nat, u1: Num, v1: Num, u2: Num, v2: Num, below: Num)
    requires n > 0 && Digit(n - 1, u1) && Digit(n - 1, v1) && Digit(n - 1, u2) && Digit(n - 1, v2)
    requires Fits(n, below) && Val(n, below) <= 5 * Modulus(n - 1)
    ensures var t := n - 1;
            var r := Row(n, Sum2(n, Mul(t, u1, v1), Mul(t, u2, v2)), below);
            Val(n, r) == Times(Val(t, u1), Val(t, v1)) + Times(Val(t, u2), Val(t, v2)) + Div(Val(n, below), Base(t))
                      <= 5 * Modulus(t)
    decreases n - 1, 2
  {
    hide Modulus, Val, Fits, Mul, Base, Div, Sum2, Row, Times;
    DigitProduct(n - 1, u1, v1);
    DigitProduct(n - 1, u2, v2);
    Sum2Val(n, Mul(n - 1, u1, v1), Mul(n - 1, u2, v2));
    RowVal(n, Sum2(n, Mul(n - 1, u1, v1), Mul(n - 1, u2, v2)), below);
  }

  lemma Column3(n: nat, u1: Num, v1: Num, u2: Num, v2: Num, u3: Num, v3: Num, below: Num)
    requires n > 0 && Digit(n - 1, u1) && Digit(n - 1, v1) && Digit(n - 1, u2) && Digit(n - 1, v2)
    requires Digit(n - 1, u3) && Digit(n - 1, v3)
    requires Fits(n, below) && Val(n, below) <= 5 * Modulus(n - 1)
    ensures var t := n - 1;
            var r := Row(n, Sum3(n, Mul(t, u1, v1), Mul(t, u2, v2), Mul(t, u3, v3)), below);
            Val(n, r) == Times(Val(t, u1), Val(t, v1)) + Times(Val(t, u2), Val(t, v2)) + Times(Val(t, u3), Val(t, v3))
                         + Div(Val(n, below), Base(t))
                      <= 5 * Modulus(t)
    decreases n - 1, 2
  {
    hide Modulus, Val, Fits, Mul, Base, Div, Sum3, Row, Times;
    DigitProduct(n - 1, u1, v1);
    DigitProduct(n - 1, u2, v2);
    DigitProduct(n - 1, u3, v3);
    Sum3Val(n, Mul(n - 1, u1, v1), Mul(n - 1, u2, v2), Mul(n - 1, u3, v3));
    RowVal(n, Sum3(n, Mul(n - 1, u1, v1), Mul(n - 1, u2, v2), Mul(n - 1, u3, v3)), below);
  }

  lemma Column4(n: nat, u1: Num, v1: Num, u2: Num, v2: Num, u3: Num, v3: Num, u4: Num, v4: Num, below: Num)
    requires n > 0 && Digit(n - 1, u1) && Digit(n - 1, v1) && Digit(n - 1, u2) && Digit(n - 1, v2)
    requires Digit(n - 1, u3) && Digit(n - 1, v3) && Digit(n - 1, u4) && Digit(n - 1, v4)
    requires Fits(n, below) && Val(n, below) <= 5 * Modulus(n - 1)
    ensures var t := n - 1;
            var r := Row(n, Sum4(n, Mul(t, u1, v1), Mul(t, u2, v2), Mul(t, u3, v3), Mul(t, u4, v4)), below);
            Val(n, r) == Times(Val(t, u1), Val(t, v1)) + Times(Val(t, u2), Val(t, v2)) + Times(Val(t, u3), Val(t, v3))
                         + Times(Val(t, u4), Val(t, v4)) + Div(Val(n, below), Base(t))
                      <= 5 * Modulus(t)
    decreases n - 1, 2
  {
    hide Modulus, Val, Fits, Mul, Base, Div, Sum4, Row, Times;
    DigitProduct(n - 1, u1, v1);
    DigitProduct(n - 1, u2, v2);
    DigitProduct(n - 1, u3, v3);
    DigitProduct(n - 1, u4, v4);
    Sum4Val(n, Mul(n - 1, u1, v1), Mul(n - 1, u2, v2), Mul(n - 1, u3, v3), Mul(n - 1, u4, v4));
    RowVal(n, Sum4(n, Mul(n - 1, u1, v1), Mul(n - 1, u2, v2), Mul(n - 1, u3, v3), Mul(n - 1, u4, v4)), below);
  }

  /** The values of the digits of a number of level t + 1. */
  datatype DigitVals = DigitVals(a: nat, b: nat, c: nat, d: nat)

  function DigitsOf(n: nat, x: Num): DigitVals
    requires n > 0 && Fits(n, x)
  {
    var t, q := n - 1, Split(n, x);
    DigitVals(Val(t, q.a), Val(t, q.b), Val(t, q.c), Val(t, q.d))
  }

  lemma SplitDigits(n: nat, x: Num)
    requires n > 0 && Fits(n, x)
    ensures var t, q, v := n - 1, Split(n, x), DigitsOf(n, x);
            && Digit(t, q.a) && Digit(t, q.b) && Digit(t, q.c) && Digit(t, q.d)
            && Val(n, x) == Four(v.d, v.c, v.b, v.a, Base(t))
  {
    hide Modulus, Val, Fits, Split, Four, Base;
    SplitVal(n, x);
  }

  lemma LowRowsUnfold(n: nat, x: Num, y: Num)
    requires n > 0 && Fits(n, x) && Fits(n, y)
    ensures var t, p, q, r := n - 1, Split(n, x), Split(n, y), LowRows(n, x, y);
            && r.r0 == Widen(n, Mul(t, p.d, q.d))
            && r.r1 == Row(n, Sum2(n, Mul(t, p.c, q.d), Mul(t, p.d, q.c)), r.r0)
            && r.r2 == Row(n, Sum3(n, Mul(t, p.b, q.d), Mul(t, p.c, q.c), Mul(t, p.d, q.b)), r.r1)
            && r.r3 == Row(n, Sum4(n, Mul(t, p.a, q.d), Mul(t, p.b, q.c), Mul(t, p.c, q.b), Mul(t, p.d, q.a)), r.r2)
  {
    hide Fits, Mul, Split, Widen, Row, Sum2, Sum3, Sum4;
  }

  lemma LowRowsVal(n: nat, x: Num, y: Num)
    requires n > 0 && Fits(n, x) && Fits(n, y)
    ensures var p, q, r, k := DigitsOf(n, x), DigitsOf(n, y), LowRows(n, x, y), Base(n - 1);
            && Val(n, r.r0) == Times(p.d, q.d) <= 5 * Modulus(n - 1)
            && Val(n, r.r1) == Times(p.c, q.d) + Times(p.d, q.c) + Div(Val(n, r.r0), k)
            && Val(n, r.r2) == Times(p.b, q.d) + Times(p.c, q.c) + Times(p.d, q.b) + Div(Val(n, r.r1), k)
            && Val(n, r.r3)
              == Times(p.a, q.d) + Times(p.b, q.c) + Times(p.c, q.b) + Times(p.d, q.a) + Div(Val(n, r.r2), k)
                            <= 5 * Modulus(n - 1)
    decreases n - 1, 3
  {
    hide Modulus, Val, Fits, Mul, Split, Base, Div, Sum2, Sum3, Sum4, Widen, Row, Times, Four, Digit, LowRows;
    var t, p, q, r := n - 1, Split(n, x), Split(n, y), LowRows(n, x, y);
    LowRowsUnfold(n, x, y);
    SplitDigits(n, x);
    SplitDigits(n, y);
    DigitProduct(t, p.d, q.d);
    WidenVal(n, Mul(t, p.d, q.d));
    Column2(n, p.c, q.d, p.d, q.c, r.r0);
    Column3(n, p.b, q.d, p.c, q.c, p.d, q.b, r.r1);
    Column4(n, p.a, q.d, p.b, q.c, p.c, q.b, p.d, q.a, r.r2);
  }

  lemma HighRowsVal(n: nat, x: Num, y: Num, below: Num)
    requires n > 0 && Fits(n, x) && Fits(n, y) && Fits(n, below) && Val(n, below) <= 5 * Modulus(n - 1)
    ensures var p, q, r, k := DigitsOf(n, x), DigitsOf(n, y), HighRows(n, x, y, below), Base(n - 1);
            && Val(n, r.r0) == Times(p.a, q.c) + Times(p.b, q.b) + Times(p.c, q.a) + Div(Val(n, below), k)
            && Val(n, r.r1) == Times(p.a, q.b) + Times(p.b, q.a) + Div(Val(n, r.r0), k)
            && Val(n, r.r2) == Times(p.a, q.a) + Div(Val(n, r.r1), k)
            && Val(n, r.r3) == Div(Val(n, r.r2), k)
    decreases n - 1, 3
  {
    hide Modulus, Val, Fits, Mul, Split, Base, Div, Sum2, Sum3, Widen, Row, Carry, Times, Four, Digit;
    var t, p, q, r := n - 1, Split(n, x), Split(n, y), HighRows(n, x, y, below);
    SplitDigits(n, x);
    SplitDigits(n, y);
    Column3(n, p.a, q.c, p.b, q.b, p.c, q.a, below);
    Column2(n, p.a, q.b, p.b, q.a, r.r0);
    Column1(n, p.a, q.a, r.r1);
    CarryVal(n, r.r2);
  }

  /** The seven columns of a product. */
  function Columns(p: DigitVals, q: DigitVals, h: int): int {
    Seven(Times(p.d, q.d), Times(p.c, q.d) + Times(p.d, q.c), Times(p.b, q.d) + Times(p.c, q.c) + Times(p.d, q.b),
          Times(p.a, q.d) + Times(p.b, q.c) + Times(p.c, q.b) + Times(p.d, q.a),
          Times(p.a, q.c) + Times(p.b, q.b) + Times(p.c, q.a), Times(p.a, q.b) + Times(p.b, q.a), Times(p.a, q.a), h)
  }

  lemma ProductColumns(n: nat, x: Num, y: Num)
    requires n > 0 && Fits(n, x) && Fits(n, y)
    ensures Val(n, x) * Val(n, y) == Columns(DigitsOf(n, x), DigitsOf(n, y), Base(n - 1))
  {
    hide Modulus, Val, Fits, Split, Four, Seven, Base, DigitsOf;
    SplitDigits(n, x);
    SplitDigits(n, y);
    var p, q := DigitsOf(n, x), DigitsOf(n, y);
    ProductOfFours(p.a, p.b, p.c, p.d, q.a, q.b, q.c, q.d, Base(n - 1));
  }

  /** The columns with their carries: the four low digits, and what lies above them. */
  lemma CarryColumns(p: DigitVals, q: DigitVals, h: nat, r0: nat, r1: nat, r2: nat, r3: nat) returns (rest: int)
    requires h > 0 && r0 == Times(p.d, q.d)
    requires r1 == Times(p.c, q.d) + Times(p.d, q.c) + Div(r0, h)
    requires r2 == Times(p.b, q.d) + Times(p.c, q.c) + Times(p.d, q.b) + Div(r1, h)
    requires r3 == Times(p.a, q.d) + Times(p.b, q.c) + Times(p.c, q.b) + Times(p.d, q.a) + Div(r2, h)
    ensures var r4 := Times(p.a, q.c) + Times(p.b, q.b) + Times(p.c, q.a) + Div(r3, h);
            var r5 := Times(p.a, q.b) + Times(p.b, q.a) + Div(r4, h);
            var r6 := Times(p.a, q.a) + Div(r5, h);
            rest == Four(Mod(r4, h), Mod(r5, h), Mod(r6, h), Div(r6, h), h)
    ensures Columns(p, q, h) == Four(Mod(r0, h), Mod(r1, h), Mod(r2, h), Mod(r3, h), h) + Times(Square(Square(h)), rest)
  {
    hide Four, Seven, Mod, Div, Times, Square;
    var r4 := Times(p.a, q.c) + Times(p.b, q.b) + Times(p.c, q.a) + Div(r3, h);
    var r5 := Times(p.a, q.b) + Times(p.b, q.a) + Div(r4, h);
    var r6 := Times(p.a, q.a) + Div(r5, h);
    rest := Four(Mod(r4, h), Mod(r5, h), Mod(r6, h), Div(r6, h), h);
    CarrySeven(Times(p.d, q.d), Times(p.c, q.d) + Times(p.d, q.c), Times(p.b, q.d) + Times(p.c, q.c) + Times(p.d, q.b),
               Times(p.a, q.d) + Times(p.b, q.c) + Times(p.c, q.b) + Times(p.d, q.a),
               Times(p.a, q.c) + Times(p.b, q.b) + Times(p.c, q.a),
               Times(p.a, q.b) + Times(p.b, q.a), Times(p.a, q.a), h);
  }

  lemma WordMul(x: Num, y: Num)
    requires Fits(0, x) && Fits(0, y)
    ensures Val(0, Mul(0, x, y)) == Mod(Val(0, x) * Val(0, y), Modulus(0))
  {
  }

  /** The truncating product, at every level of the tower. */
  lemma {:induction false} MulVal(n: nat, x: Num, y: Num)
    requires Fits(n, x) && Fits(n, y)
    ensures Val(n, Mul(n, x, y)) == Mod(Val(n, x) * Val(n, y), Modulus(n))
    decreases n, 0
  {
    hide Modulus, Val, Fits, LowRows, HighRows, Assemble, Base, Four, Mod, Div;
    if n == 0 {
      WordMul(x, y);
    } else {
      var rest := LowHalf(n, x, y);
      RemainderBelow(Val(n, x) * Val(n, y), Val(n, Mul(n, x, y)), rest, Modulus(n));
    }
  }

  /** When what lies above the low half is a number of the level, the high rows give it. */
  lemma HighHalf(n: nat, r: Rows, rest: int)
    requires n > 0 && RowsFit(n, r)
    requires Val(n, r.r3) == Div(Val(n, r.r2), Base(n - 1))
    requires var h := Base(n - 1);
             rest == Four(Mod(Val(n, r.r0), h), Mod(Val(n, r.r1), h), Mod(Val(n, r.r2), h), Div(Val(n, r.r2), h), h)
    requires rest < Modulus(n)
    ensures Val(n, Assemble(n, r.r3, r.r2, r.r1, r.r0)) == rest
  {
    hide Modulus, Val, Fits, Assemble, Base, Four, Square, Mod, Div;
    var h, v := Base(n - 1), Val(n, r.r2);
    AssembleVal(n, r.r3, r.r2, r.r1, r.r0);
    ModulusSquare(n);
    BaseSquare(n - 1);
    TopDigit(Mod(Val(n, r.r0), h), Mod(Val(n, r.r1), h), Mod(v, h), Div(v, h), h);
    ModSmall(Div(v, h), h);
  }

  /** The low half, and what must lie above it. */
  lemma LowHalf(n: nat, x: Num, y: Num) returns (rest: int)
    requires n > 0 && Fits(n, x) && Fits(n, y)
    ensures var r := LowRows(n, x, y);
            var lo := Assemble(n, r.r3, r.r2, r.r1, r.r0);
            Val(n, lo) < Modulus(n) && Val(n, x) * Val(n, y) == Val(n, lo) + Modulus(n) * rest
    ensures var h, r := Base(n - 1), HighRows(n, x, y, LowRows(n, x, y).r3);
            && Val(n, r.r3) == Div(Val(n, r.r2), h)
            && rest == Four(Mod(Val(n, r.r0), h), Mod(Val(n, r.r1), h), Mod(Val(n, r.r2), h), Div(Val(n, r.r2), h), h)
    decreases n - 1, 4
  {
    hide Modulus, Val, Fits, LowRows, HighRows, Assemble, DigitsOf, Columns, Base, Four, Square, Times, Mod, Div;
    var r := LowRows(n, x, y);
    LowRowsVal(n, x, y);
    HighRowsVal(n, x, y, r.r3);
    ProductColumns(n, x, y);
    rest := CarryColumns(DigitsOf(n, x), DigitsOf(n, y), Base(n - 1),
                         Val(n, r.r0), Val(n, r.r1), Val(n, r.r2), Val(n, r.r3));
    AssembleVal(n, r.r3, r.r2, r.r1, r.r0);
    ValBound(n, Assemble(n, r.r3, r.r2, r.r1, r.r0));
    ModulusSquare(n);
    BaseSquare(n - 1);
    TimesIs(Modulus(n), rest);
  }

  /** The full product: both halves together are the exact product. */
  lemma MulFullVal(n: nat, x: Num, y: Num)
    requires n > 0 && Fits(n, x) && Fits(n, y)
    ensures Val(n, MulFull(n, x, y).1) + Modulus(n) * Val(n, MulFull(n, x, y).0) == Val(n, x) * Val(n, y)
  {
    hide Modulus, Val, Fits, LowRows, HighRows, Assemble, Base, Four, Mod, Div;
    var rest := LowHalf(n, x, y);
    ValBound(n, x);
    ValBound(n, y);
    UpperBelow(Val(n, x), Val(n, y), Val(n, MulFull(n, x, y).1), rest, Modulus(n));
    HighHalf(n, HighRows(n, x, y, LowRows(n, x, y).r3), rest);
  }

  lemma UpperBelow(x: nat, y: nat, low: nat, rest: int, m: nat)
    requires x < m && y < m && x * y == low + m * rest
    ensures rest < m
  {
    MulMonotone(x, y, m - 1, m - 1);
    assert (m - 1) * (m - 1) == m * m - 2 * m + 1;
    assert m * (m - rest) == m * m - m * rest;
  }

  // ---------------------------------------------------------------- square

  function SquareLowRows(n: nat, x: Num): (r: Rows)
    requires n > 0 && Fits(n, x)
    ensures RowsFit(n, r)
    decreases n, 0
  {
    var t, q := n - 1, Split(n, x);
    var dd, dc, db, da := SquareNum(t, q.d), Mul(t, q.d, q.c), Mul(t, q.d, q.b), Mul(t, q.d, q.a);
    var cc, cb := SquareNum(t, q.c), Mul(t, q.c, q.b);
    var r0 := Widen(n, dd);
    var r1 := Row(n, Sum2(n, dc, dc), r0);
    var r2 := Row(n, Sum3(n, db, cc, db), r1);
    var r3 := Row(n, Sum4(n, da, cb, cb, da), r2);
    Rows(r0, r1, r2, r3)
  }

  /** Bits * Bits => Bits, sharing the mixed products. */
  function SquareNum(n: nat, x: Num): (r: Num)
    requires Fits(n, x)
    ensures Fits(n, r)
    decreases n, 1
  {
    if n == 0 then Word(Mod(x.w * x.w, Modulus(0)))
    else
      var rows := SquareLowRows(n, x);
      Assemble(n, rows.r3, rows.r2, rows.r1, rows.r0)
  }

  function SquareHighRows(n: nat, x: Num, below: Num): (r: Rows)
    requires n > 0 && Fits(n, x) && Fits(n, below)
    ensures RowsFit(n, r)
  {
    var t, q := n - 1, Split(n, x);
    var ca, bb, ba, aa := Mul(t, q.c, q.a), SquareNum(t, q.b), Mul(t, q.b, q.a), SquareNum(t, q.a);
    var r4 := Row(n, Sum3(n, ca, bb, ca), below);
    var r5 := Row(n, Sum2(n, ba, ba), r4);
    var r6 := Row(n, Widen(n, aa), r5);
    Rows(r4, r5, r6, Carry(n, r6))
  }

  /** Bits * Bits => 2 * Bits, as (hi, lo). */
  function SquareFull(n: nat, x: Num): (r: (Num, Num))
    requires n > 0 && Fits(n, x)
    ensures Fits(n, r.0) && Fits(n, r.1)
  {
    var low := SquareLowRows(n, x);
    var high := SquareHighRows(n, x, low.r3);
    (Assemble(n, high.r3, high.r2, high.r1, high.r0), Assemble(n, low.r3, low.r2, low.r1, low.r0))
  }

  lemma MulCommutes(n: nat, x: Num, y: Num)
    requires Fits(n, x) && Fits(n, y)
    ensures Mul(n, x, y) == Mul(n, y, x)
  {
    hide Val, Fits, Modulus, Mul, Mod;
    MulVal(n, x, y);
    MulVal(n, y, x);
    assert Val(n, x) * Val(n, y) == Val(n, y) * Val(n, x);
    ValInjective(n, Mul(n, x, y), Mul(n, y, x));
  }

  lemma {:induction false} SquareRowsAgree(n: nat, x: Num)
    requires n > 0 && Fits(n, x)
    ensures SquareLowRows(n, x) == LowRows(n, x, x)
    decreases n, 0
  {
    hide Fits, Mul, SquareNum, Split, Widen, Row, Sum2, Sum3, Sum4;
    var t, q := n - 1, Split(n, x);
    SquareIsMul(t, q.d);
    SquareIsMul(t, q.c);
    MulCommutes(t, q.d, q.c);
    MulCommutes(t, q.d, q.b);
    MulCommutes(t, q.d, q.a);
    MulCommutes(t, q.c, q.b);
  }

  /** `square(x)` is `mul(x, x)`, at every level. */
  lemma {:induction false} SquareIsMul(n: nat, x: Num)
    requires Fits(n, x)
    ensures SquareNum(n, x) == Mul(n, x, x)
    decreases n, 1
  {
    if n > 0 { SquareRowsAgree(n, x); }
  }

  lemma SquareHighRowsAgree(n: nat, x: Num, below: Num)
    requires n > 0 && Fits(n, x) && Fits(n, below)
    ensures SquareHighRows(n, x, below) == HighRows(n, x, x, below)
  {
    hide Fits, Mul, SquareNum, Split, Widen, Row, Sum2, Sum3, Carry;
    var t, q := n - 1, Split(n, x);
    SquareIsMul(t, q.b);
    SquareIsMul(t, q.a);
    MulCommutes(t, q.c, q.a);
    MulCommutes(t, q.b, q.a);
  }

  /** The two-result `square` is the full product of a number with itself. */
  lemma SquareFullIsMulFull(n: nat, x: Num)
    requires n > 0 && Fits(n, x)
    ensures SquareFull(n, x) == MulFull(n, x, x)
  {
    hide Fits, Assemble, LowRows, HighRows, SquareLowRows, SquareHighRows;
    SquareRowsAgree(n, x);
    SquareHighRowsAgree(n, x, LowRows(n, x, x).r3);
  }
}
