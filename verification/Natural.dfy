/** The tower of multi-precision naturals: level 0 is a machine word, level n + 1 a pair of level n. */
module Natural {
  import opened Bits
  import opened Arith

  type NativeWidth = n: nat | n == 64 || n == 128 witness 64

  /** The width of the native integer at the bottom: 64 bits, or 128 where the compiler has such integers. */
  const WORD_BITS: NativeWidth

  datatype Num = Word(w: nat) | Pair(hi: Num, lo: Num)

  /** The number of bits at a level: PairBits; TypeBits is the width of the level below. */
  function Width(n: nat): (w: nat)
    ensures w >= WORD_BITS && w % 2 == 0
  {
    if n == 0 then WORD_BITS else 2 * Width(n - 1)
  }

  function Modulus(n: nat): (m: nat)
    ensures m > 1
  {
    Pow2Monotone(0, Width(n));
    Pow2(Width(n))
  }

  lemma ModulusIsPow2(n: nat)
    ensures Modulus(n) == Pow2(Width(n))
  {
  }

  lemma ModulusSquare(n: nat)
    requires n > 0
    ensures Modulus(n) == Square(Modulus(n - 1))
  {
    hide Pow2;
    Pow2Add(Width(n - 1), Width(n - 1));
  }

  /** `x` is a number of level `n`. */
  predicate Fits(n: nat, x: Num) {
    match x
    case Word(w) => n == 0 && w < Modulus(0)
    case Pair(hi, lo) => n > 0 && Fits(n - 1, hi) && Fits(n - 1, lo)
  }

  function Val(n: nat, x: Num): nat
    requires Fits(n, x)
  {
    match x
    case Word(w) => w
    case Pair(hi, lo) => Two(Val(n - 1, hi), Val(n - 1, lo), Modulus(n - 1))
  }

  lemma {:induction false} ValBound(n: nat, x: Num)
    requires Fits(n, x)
    ensures Val(n, x) < Modulus(n)
  {
    if n > 0 {
      ValBound(n - 1, x.hi);
      ValBound(n - 1, x.lo);
      ModulusSquare(n);
      BelowSquare(Val(n - 1, x.hi), Val(n - 1, x.lo), Modulus(n - 1));
    }
  }

  /** A number and its limbs. */
  lemma Limbs(n: nat, x: Num)
    requires n > 0 && Fits(n, x)
    ensures x.Pair? && Fits(n - 1, x.hi) && Fits(n - 1, x.lo)
    ensures Val(n, x) == Two(Val(n - 1, x.hi), Val(n - 1, x.lo), Modulus(n - 1))
    ensures Val(n - 1, x.hi) < Modulus(n - 1) && Val(n - 1, x.lo) < Modulus(n - 1)
    ensures Modulus(n) == Square(Modulus(n - 1))
  {
    ValBound(n - 1, x.hi);
    ValBound(n - 1, x.lo);
    ModulusSquare(n);
  }

  /** The number of level `n` with value `v`: how a smaller integer is widened. */
  function Of(n: nat, v: nat): (r: Num)
    requires v < Modulus(n)
    ensures Fits(n, r)
  {
    if n == 0 then Word(v)
    else
      ModulusSquare(n);
      QuotientBelow(v, Modulus(n - 1), Modulus(n - 1));
      Pair(Of(n - 1, v / Modulus(n - 1)), Of(n - 1, v % Modulus(n - 1)))
  }

  lemma OfUnfold(n: nat, v: nat)
    requires v < Modulus(n)
    ensures n == 0 ==> Val(0, Of(0, v)) == v
    ensures n > 0 ==>
      var m := Modulus(n - 1);
      && Div(v, m) < m && Of(n, v) == Pair(Of(n - 1, Div(v, m)), Of(n - 1, Mod(v, m)))
  {
    hide Modulus, Square;
    if n > 0 {
      ModulusSquare(n);
      HalvesOf(v, Modulus(n - 1));
    }
  }

  lemma {:induction false} OfVal(n: nat, v: nat)
    requires v < Modulus(n)
    ensures Val(n, Of(n, v)) == v
  {
    hide Modulus, Of, Val, Fits, Div, Mod, Two, Square;
    OfUnfold(n, v);
    if n > 0 {
      var m := Modulus(n - 1);
      OfVal(n - 1, Div(v, m));
      OfVal(n - 1, Mod(v, m));
      Limbs(n, Of(n, v));
      HalvesOf(v, m);
    }
  }

  /** A level has one number for each value. */
  lemma {:induction false} ValInjective(n: nat, x: Num, y: Num)
    requires Fits(n, x) && Fits(n, y) && Val(n, x) == Val(n, y)
    ensures x == y
  {
    if n > 0 {
      hide Modulus, Val, Fits, Square;
      Limbs(n, x);
      Limbs(n, y);
      DivModUnique(Val(n, x), Val(n - 1, x.hi), Val(n - 1, x.lo), Modulus(n - 1));
      DivModUnique(Val(n, y), Val(n - 1, y.hi), Val(n - 1, y.lo), Modulus(n - 1));
      ValInjective(n - 1, x.hi, y.hi);
      ValInjective(n - 1, x.lo, y.lo);
    }
  }

  // ---------------------------------------------------------------- comparisons

  predicate Less(n: nat, x: Num, y: Num)
    requires Fits(n, x) && Fits(n, y)
  {
    if n == 0 then x.w < y.w
    else Less(n - 1, x.hi, y.hi) || (x.hi == y.hi && Less(n - 1, x.lo, y.lo))
  }

  lemma TwoOrder(a: nat, b: nat, c: nat, d: nat, m: nat)
    requires a < m && b < m && c < m && d < m
    ensures Two(a, b, m) < Two(c, d, m) <==> a < c || (a == c && b < d)
  {
    if a < c { MulAtLeast(m, a, c); }
    if c < a { MulAtLeast(m, c, a); }
  }

  lemma LessUnfold(n: nat, x: Num, y: Num)
    requires Fits(n, x) && Fits(n, y)
    ensures n == 0 ==> (Less(0, x, y) <==> Val(0, x) < Val(0, y))
    ensures n > 0 ==> (Less(n, x, y) <==> Less(n - 1, x.hi, y.hi) || (x.hi == y.hi && Less(n - 1, x.lo, y.lo)))
  {
  }

  lemma {:induction false} LessVal(n: nat, x: Num, y: Num)
    requires Fits(n, x) && Fits(n, y)
    ensures Less(n, x, y) <==> Val(n, x) < Val(n, y)
  {
    hide Modulus, Val, Fits, Two, Less;
    LessUnfold(n, x, y);
    if n > 0 {
      Limbs(n, x);
      Limbs(n, y);
      var a, b, c, d := Val(n - 1, x.hi), Val(n - 1, x.lo), Val(n - 1, y.hi), Val(n - 1, y.lo);
      TwoOrder(a, b, c, d, Modulus(n - 1));
      LessVal(n - 1, x.hi, y.hi);
      LessVal(n - 1, x.lo, y.lo);
      if a == c { ValInjective(n - 1, x.hi, y.hi); }
    }
  }

  /** `operator>=` and the like are the negations and mirror images of `operator<`. */
  predicate AtLeast(n: nat, x: Num, y: Num)
    requires Fits(n, x) && Fits(n, y)
  {
    if n == 0 then x.w >= y.w
    else Less(n - 1, y.hi, x.hi) || (x.hi == y.hi && AtLeast(n - 1, x.lo, y.lo))
  }

  lemma {:induction false} AtLeastVal(n: nat, x: Num, y: Num)
    requires Fits(n, x) && Fits(n, y)
    ensures AtLeast(n, x, y) <==> Val(n, x) >= Val(n, y)
    ensures Val(n, x) == 0 <==> x == Of(n, 0)
  {
    OfVal(n, 0);
    if Val(n, x) == 0 { ValInjective(n, x, Of(n, 0)); }
    if n > 0 {
      assert AtLeast(n, x, y) <==> Less(n - 1, y.hi, x.hi) || (x.hi == y.hi && AtLeast(n - 1, x.lo, y.lo));
      hide Modulus, Val, Fits, Two, Less, AtLeast, Of;
      Limbs(n, x);
      Limbs(n, y);
      var a, b, c, d := Val(n - 1, x.hi), Val(n - 1, x.lo), Val(n - 1, y.hi), Val(n - 1, y.lo);
      TwoOrder(a, b, c, d, Modulus(n - 1));
      LessVal(n - 1, y.hi, x.hi);
      AtLeastVal(n - 1, x.lo, y.lo);
      if a == c { ValInjective(n - 1, x.hi, y.hi); }
    }
  }

  // ---------------------------------------------------------------- sums

  /** `operator+`: the carry is seen in the lower sum falling below its first summand. */
  function Add(n: nat, x: Num, y: Num): (r: Num)
    requires Fits(n, x) && Fits(n, y)
    ensures Fits(n, r)
  {
    if n == 0 then Word(Mod(x.w + y.w, Modulus(0)))
    else
      var lo := Add(n - 1, x.lo, y.lo);
      var carry := if Less(n - 1, lo, x.lo) then 1 else 0;
      Pair(Add(n - 1, Add(n - 1, x.hi, y.hi), Of(n - 1, carry)), lo)
  }

  lemma AddUnfold(n: nat, x: Num, y: Num)
    requires Fits(n, x) && Fits(n, y)
    ensures n == 0 ==> Val(0, Add(0, x, y)) == Mod(Val(0, x) + Val(0, y), Modulus(0))
    ensures n > 0 ==>
      var carry := if Less(n - 1, Add(n - 1, x.lo, y.lo), x.lo) then 1 else 0;
      Add(n, x, y) == Pair(Add(n - 1, Add(n - 1, x.hi, y.hi), Of(n - 1, carry)), Add(n - 1, x.lo, y.lo))
  {
  }

  lemma {:induction false} AddVal(n: nat, x: Num, y: Num)
    requires Fits(n, x) && Fits(n, y)
    ensures Val(n, Add(n, x, y)) == Mod(Val(n, x) + Val(n, y), Modulus(n))
  {
    hide Modulus, Val, Fits, Add, Less, Of, Two, Square, Mod;
    AddUnfold(n, x, y);
    if n > 0 {
      var r := Add(n, x, y);
      Limbs(n, x);
      Limbs(n, y);
      Limbs(n, r);
      AddVal(n - 1, x.lo, y.lo);
      AddVal(n - 1, x.hi, y.hi);
      var carry := if Less(n - 1, r.lo, x.lo) then 1 else 0;
      AddVal(n - 1, Add(n - 1, x.hi, y.hi), Of(n - 1, carry));
      OfVal(n - 1, carry);
      LessVal(n - 1, r.lo, x.lo);
      AddPair(Val(n - 1, x.hi), Val(n - 1, x.lo), Val(n - 1, y.hi), Val(n - 1, y.lo), Modulus(n - 1));
    }
  }

  /** `operator-`: the borrow is seen in the lower difference rising above its minuend. */
  function Sub(n: nat, x: Num, y: Num): (r: Num)
    requires Fits(n, x) && Fits(n, y)
    ensures Fits(n, r)
  {
    if n == 0 then Word(Mod(x.w - y.w, Modulus(0)))
    else
      var lo := Sub(n - 1, x.lo, y.lo);
      var borrow := if Less(n - 1, x.lo, lo) then 1 else 0;
      Pair(Sub(n - 1, Sub(n - 1, x.hi, y.hi), Of(n - 1, borrow)), lo)
  }

  lemma SubUnfold(n: nat, x: Num, y: Num)
    requires Fits(n, x) && Fits(n, y)
    ensures n == 0 ==> Val(0, Sub(0, x, y)) == Mod(Val(0, x) - Val(0, y), Modulus(0))
    ensures n > 0 ==>
      var borrow := if Less(n - 1, x.lo, Sub(n - 1, x.lo, y.lo)) then 1 else 0;
      Sub(n, x, y) == Pair(Sub(n - 1, Sub(n - 1, x.hi, y.hi), Of(n - 1, borrow)), Sub(n - 1, x.lo, y.lo))
  {
  }

  lemma {:induction false} SubVal(n: nat, x: Num, y: Num)
    requires Fits(n, x) && Fits(n, y)
    ensures Val(n, Sub(n, x, y)) == Mod(Val(n, x) - Val(n, y), Modulus(n))
  {
    hide Modulus, Val, Fits, Sub, Less, Of, Two, Square, Mod;
    SubUnfold(n, x, y);
    if n > 0 {
      var r := Sub(n, x, y);
      Limbs(n, x);
      Limbs(n, y);
      Limbs(n, r);
      SubVal(n - 1, x.lo, y.lo);
      SubVal(n - 1, x.hi, y.hi);
      var borrow := if Less(n - 1, x.lo, r.lo) then 1 else 0;
      SubVal(n - 1, Sub(n - 1, x.hi, y.hi), Of(n - 1, borrow));
      OfVal(n - 1, borrow);
      LessVal(n - 1, x.lo, r.lo);
      SubPair(Val(n - 1, x.hi), Val(n - 1, x.lo), Val(n - 1, y.hi), Val(n - 1, y.lo), Modulus(n - 1));
    }
  }

  /** `operator++`: the carry is seen in the lower limb becoming zero. */
  function Increment(n: nat, x: Num): (r: Num)
    requires Fits(n, x)
    ensures Fits(n, r)
  {
    if n == 0 then Word(Mod(x.w + 1, Modulus(0)))
    else
      var lo := Increment(n - 1, x.lo);
      Pair(Add(n - 1, x.hi, Of(n - 1, if lo == Of(n - 1, 0) then 1 else 0)), lo)
  }

  lemma IncrementUnfold(n: nat, x: Num)
    requires Fits(n, x)
    ensures n == 0 ==> Val(0, Increment(0, x)) == Mod(Val(0, x) + 1, Modulus(0))
    ensures n > 0 ==>
      var lo := Increment(n - 1, x.lo);
      Increment(n, x) == Pair(Add(n - 1, x.hi, Of(n - 1, if lo == Of(n - 1, 0) then 1 else 0)), lo)
  {
  }

  lemma {:induction false} IncrementVal(n: nat, x: Num)
    requires Fits(n, x)
    ensures Val(n, Increment(n, x)) == Mod(Val(n, x) + 1, Modulus(n))
  {
    hide Modulus, Val, Fits, Add, Of, Two, Square, Increment, Mod;
    IncrementUnfold(n, x);
    if n > 0 {
      var r := Increment(n, x);
      var carry := if r.lo == Of(n - 1, 0) then 1 else 0;
      Limbs(n, x);
      Limbs(n, r);
      IncrementVal(n - 1, x.lo);
      AtLeastVal(n - 1, r.lo, r.lo);
      AddVal(n - 1, x.hi, Of(n - 1, carry));
      OfVal(n - 1, carry);
      IncrementTwo(Val(n - 1, x.hi), Val(n - 1, x.lo), Modulus(n - 1));
    }
  }

  lemma IncrementTwo(a: nat, b: nat, m: nat)
    requires a < m && b < m && m > 1
    ensures var lo := Mod(b + 1, m);
            var carry := if lo == 0 then 1 else 0;
            Square(m) > 0 && Two(Mod(a + carry, m), lo, m) == Mod(Two(a, b, m) + 1, Square(m))
  {
    AddPair(a, b, 0, 1, m);
    if b + 1 < m { SmallMod(b + 1, m); } else { DivModUnique(b + 1, 1, 0, m); }
    SmallMod(a, m);
  }

  /** `operator--`: the borrow is seen in the lower limb being zero. */
  function Decrement(n: nat, x: Num): (r: Num)
    requires Fits(n, x)
    ensures Fits(n, r)
  {
    if n == 0 then Word(Mod(x.w - 1, Modulus(0)))
    else
      Pair(Sub(n - 1, x.hi, Of(n - 1, if x.lo == Of(n - 1, 0) then 1 else 0)), Decrement(n - 1, x.lo))
  }

  lemma DecrementUnfold(n: nat, x: Num)
    requires Fits(n, x)
    ensures n == 0 ==> Val(0, Decrement(0, x)) == Mod(Val(0, x) - 1, Modulus(0))
    ensures n > 0 ==>
      var borrow := if x.lo == Of(n - 1, 0) then 1 else 0;
      Decrement(n, x) == Pair(Sub(n - 1, x.hi, Of(n - 1, borrow)), Decrement(n - 1, x.lo))
  {
  }

  lemma {:induction false} DecrementVal(n: nat, x: Num)
    requires Fits(n, x)
    ensures Val(n, Decrement(n, x)) == Mod(Val(n, x) - 1, Modulus(n))
  {
    hide Modulus, Val, Fits, Sub, Of, Two, Square, Decrement, Mod;
    DecrementUnfold(n, x);
    if n > 0 {
      Limbs(n, x);
      var borrow := if x.lo == Of(n - 1, 0) then 1 else 0;
      Limbs(n, Decrement(n, x));
      DecrementVal(n - 1, x.lo);
      AtLeastVal(n - 1, x.lo, x.lo);
      SubVal(n - 1, x.hi, Of(n - 1, borrow));
      OfVal(n - 1, borrow);
      DecrementTwo(Val(n - 1, x.hi), Val(n - 1, x.lo), Modulus(n - 1));
    }
  }

  lemma DecrementTwo(a: nat, b: nat, m: nat)
    requires a < m && b < m && m > 1
    ensures var lo := Mod(b - 1, m);
            var borrow := if b == 0 then 1 else 0;
            Square(m) > 0 && Two(Mod(a - borrow, m), lo, m) == Mod(Two(a, b, m) - 1, Square(m))
  {
    SubPair(a, b, 0, 1, m);
    if b > 0 { SmallMod(b - 1, m); } else { DivModUnique(-1, -1, m - 1, m); }
    SmallMod(a, m);
  }

  // ---------------------------------------------------------------- bit operations

  function BitAnd(n: nat, x: Num, y: Num): (r: Num)
    requires Fits(n, x) && Fits(n, y)
    ensures Fits(n, r)
  {
    if n == 0 then
      WordBounds(x.w, y.w, WORD_BITS);
      Word(And(x.w, y.w))
    else Pair(BitAnd(n - 1, x.hi, y.hi), BitAnd(n - 1, x.lo, y.lo))
  }

  function BitOr(n: nat, x: Num, y: Num): (r: Num)
    requires Fits(n, x) && Fits(n, y)
    ensures Fits(n, r)
  {
    if n == 0 then
      WordBounds(x.w, y.w, WORD_BITS);
      Word(Or(x.w, y.w))
    else Pair(BitOr(n - 1, x.hi, y.hi), BitOr(n - 1, x.lo, y.lo))
  }

  lemma {:induction false} BitAndVal(n: nat, x: Num, y: Num)
    requires Fits(n, x) && Fits(n, y)
    ensures Val(n, BitAnd(n, x, y)) == And(Val(n, x), Val(n, y))
  {
    if n > 0 {
      var r := BitAnd(n, x, y);
      assert r == Pair(BitAnd(n - 1, x.hi, y.hi), BitAnd(n - 1, x.lo, y.lo));
      assert Modulus(n - 1) == Pow2(Width(n - 1));
      hide Modulus, Val, Fits, BitAnd, Two, And, Pow2;
      Limbs(n, x);
      Limbs(n, y);
      Limbs(n, r);
      BitAndVal(n - 1, x.hi, y.hi);
      BitAndVal(n - 1, x.lo, y.lo);
      AndLimbs(Val(n - 1, x.hi), Val(n - 1, x.lo), Val(n - 1, y.hi), Val(n - 1, y.lo), Width(n - 1), Modulus(n - 1));
    }
  }

  lemma {:induction false} BitOrVal(n: nat, x: Num, y: Num)
    requires Fits(n, x) && Fits(n, y)
    ensures Val(n, BitOr(n, x, y)) == Or(Val(n, x), Val(n, y))
  {
    if n > 0 {
      var r := BitOr(n, x, y);
      assert r == Pair(BitOr(n - 1, x.hi, y.hi), BitOr(n - 1, x.lo, y.lo));
      assert Modulus(n - 1) == Pow2(Width(n - 1));
      hide Modulus, Val, Fits, BitOr, Two, Or, Pow2;
      Limbs(n, x);
      Limbs(n, y);
      Limbs(n, r);
      BitOrVal(n - 1, x.hi, y.hi);
      BitOrVal(n - 1, x.lo, y.lo);
      OrLimbs(Val(n - 1, x.hi), Val(n - 1, x.lo), Val(n - 1, y.hi), Val(n - 1, y.lo), Width(n - 1), Modulus(n - 1));
    }
  }

  /** `shl`: within a limb the bits shifted out of the lower limb are or-ed into the upper one. */
  function Shl(n: nat, x: Num, s: nat): (r: Num)
    requires Fits(n, x) && s < Width(n)
    ensures Fits(n, r)
    decreases n
  {
    if s == 0 then x
    else if n == 0 then Word(Mod(x.w * Pow2(s), Modulus(0)))
    else
      var w := Width(n - 1);
      if s < w then Pair(BitOr(n - 1, Shl(n - 1, x.hi, s), Shr(n - 1, x.lo, w - s)), Shl(n - 1, x.lo, s))
      else Pair(Shl(n - 1, x.lo, s - w), Of(n - 1, 0))
  }

  function Shr(n: nat, x: Num, s: nat): (r: Num)
    requires Fits(n, x) && s < Width(n)
    ensures Fits(n, r)
    decreases n
  {
    if s == 0 then x
    else if n == 0 then
      DivShrinks(x.w, Pow2(s));
      Word(Div(x.w, Pow2(s)))
    else
      var w := Width(n - 1);
      if s < w then Pair(Shr(n - 1, x.hi, s), BitOr(n - 1, Shl(n - 1, x.hi, w - s), Shr(n - 1, x.lo, s)))
      else Pair(Of(n - 1, 0), Shr(n - 1, x.hi, s - w))
  }

  lemma DivShrinks(x: nat, p: nat)
    requires p > 0
    ensures 0 <= Div(x, p) <= x
  {
    Fundamental(x, p);
    if x / p > 0 { MulMonotone(1, x / p, p, x / p); }
  }

  lemma ShiftUnfold(n: nat, x: Num, s: nat)
    requires Fits(n, x) && 0 < s < Width(n)
    ensures n == 0 ==> Val(0, Shl(0, x, s)) == Mod(Val(0, x) * Pow2(s), Modulus(0))
    ensures n == 0 ==> Val(0, Shr(0, x, s)) == Div(Val(0, x), Pow2(s))
    ensures n > 0 ==>
      var w := Width(n - 1);
      && Modulus(n - 1) == Pow2(w) && Width(n) == 2 * w
      && (s < w ==>
          && Shl(n, x, s) == Pair(BitOr(n - 1, Shl(n - 1, x.hi, s), Shr(n - 1, x.lo, w - s)), Shl(n - 1, x.lo, s))
          && Shr(n, x, s) == Pair(Shr(n - 1, x.hi, s), BitOr(n - 1, Shl(n - 1, x.hi, w - s), Shr(n - 1, x.lo, s))))
      && (s >= w ==>
          && Shl(n, x, s) == Pair(Shl(n - 1, x.lo, s - w), Of(n - 1, 0))
          && Shr(n, x, s) == Pair(Of(n - 1, 0), Shr(n - 1, x.hi, s - w)))
  {
  }

  lemma ShiftByNothing(n: nat, x: Num)
    requires Fits(n, x)
    ensures Shl(n, x, 0) == x && Shr(n, x, 0) == x
    ensures Val(n, x) == Mod(Val(n, x) * Pow2(0), Modulus(n))
    ensures Val(n, x) == Div(Val(n, x), Pow2(0))
  {
    ValBound(n, x);
    SmallMod(Val(n, x), Modulus(n));
  }

  /** Shifts multiply and divide by a power of two, at every level and across limbs. */
  lemma {:induction false} ShiftVal(n: nat, x: Num, s: nat)
    requires Fits(n, x) && s < Width(n)
    ensures Val(n, Shl(n, x, s)) == Mod(Val(n, x) * Pow2(s), Modulus(n))
    ensures Val(n, Shr(n, x, s)) == Div(Val(n, x), Pow2(s))
    decreases n
  {
    hide Modulus, Val, Fits, Two, Square, Shl, Shr, Pow2, Mod, Div, BitOr, Of, Width;
    if s == 0 {
      ShiftByNothing(n, x);
    } else {
      ShiftUnfold(n, x, s);
      if n > 0 {
        Limbs(n, x);
        if s < Width(n - 1) { ShiftNear(n, x, s); } else { ShiftFar(n, x, s); }
      }
    }
  }

  lemma {:induction false} ShiftNear(n: nat, x: Num, s: nat)
    requires n > 0 && Fits(n, x) && 0 < s < Width(n - 1) && s < Width(n)
    ensures Val(n, Shl(n, x, s)) == Mod(Val(n, x) * Pow2(s), Modulus(n))
    ensures Val(n, Shr(n, x, s)) == Div(Val(n, x), Pow2(s))
    decreases n, 0
  {
    hide Modulus, Val, Fits, Two, Square, Shl, Shr, Pow2, Mod, Div, BitOr, Of, Width, Or;
    ShiftUnfold(n, x, s);
    Limbs(n, x);
    Limbs(n, Shl(n, x, s));
    Limbs(n, Shr(n, x, s));
    var w := Width(n - 1);
    ShiftVal(n - 1, x.hi, s);
    ShiftVal(n - 1, x.lo, s);
    ShiftVal(n - 1, x.hi, w - s);
    ShiftVal(n - 1, x.lo, w - s);
    BitOrVal(n - 1, Shl(n - 1, x.hi, s), Shr(n - 1, x.lo, w - s));
    BitOrVal(n - 1, Shl(n - 1, x.hi, w - s), Shr(n - 1, x.lo, s));
    ShlLimbs(Val(n - 1, x.hi), Val(n - 1, x.lo), s, w, Modulus(n - 1), Pow2(s), Pow2(w - s));
    ShrLimbs(Val(n - 1, x.hi), Val(n - 1, x.lo), s, w, Modulus(n - 1), Pow2(s), Pow2(w - s));
  }

  lemma {:induction false} ShiftFar(n: nat, x: Num, s: nat)
    requires n > 0 && Fits(n, x) && Width(n - 1) <= s < Width(n)
    ensures Val(n, Shl(n, x, s)) == Mod(Val(n, x) * Pow2(s), Modulus(n))
    ensures Val(n, Shr(n, x, s)) == Div(Val(n, x), Pow2(s))
    decreases n, 0
  {
    hide Modulus, Val, Fits, Square, Shl, Shr, Pow2, Mod, Div, BitOr, Of, Width;
    ShiftUnfold(n, x, s);
    Limbs(n, x);
    Limbs(n, Shl(n, x, s));
    Limbs(n, Shr(n, x, s));
    var w := Width(n - 1);
    ShiftVal(n - 1, x.lo, s - w);
    ShiftVal(n - 1, x.hi, s - w);
    OfVal(n - 1, 0);
    Pow2Add(s - w, w);
    ShlLimbsFar(Val(n - 1, x.hi), Val(n - 1, x.lo), Modulus(n - 1), Pow2(s - w), Pow2(s));
    ShrLimbsFar(Val(n - 1, x.hi), Val(n - 1, x.lo), Modulus(n - 1), Pow2(s - w), Pow2(s));
  }
}
