/** Barrett reduction: a remainder from a precomputed factor, with one conditional subtraction. */
module Barrett {
  import opened Bits
  import opened Arith
  import opened Natural
  import opened NaturalMul
  import opened NaturalDiv
  import opened NaturalTruth

  datatype BarrettReduction = BarrettReduction(modulo: Num, factor: Num)

  datatype Construction = DivideByZero | Constructed(reduction: BarrettReduction)

  /** The two constants, at the level of the values to reduce; the factor is cut to that level. */
  ghost predicate Prepared(n: nat, b: BarrettReduction, m: nat) {
    && n > 0 && 0 < m < Modulus(n - 1)
    && Fits(n, b.modulo) && Val(n, b.modulo) == m
    && Fits(n, b.factor) && Val(n, b.factor) == (Modulus(n) / m) % Modulus(n)
  }

  lemma LowerVal(n: nat, x: Num)
    requires n > 0 && Fits(n, x)
    ensures x.Pair? && Fits(n - 1, x.lo) && Val(n - 1, x.lo) == Val(n, x) % Modulus(n - 1)
  {
    hide Val, Fits, Modulus, Square;
    Limbs(n, x);
    DivModUnique(Val(n, x), Val(n - 1, x.hi), Val(n - 1, x.lo), Modulus(n - 1));
  }

  lemma OneShifted(n: nat)
    ensures Width(n) < Width(n + 1)
    ensures Val(n + 1, Shl(n + 1, Of(n + 1, 1), Width(n))) == Modulus(n)
  {
    hide Val, Fits, Of, Shl, Pow2, Modulus;
    ModulusIsPow2(n);
    ModulusIsPow2(n + 1);
    Pow2Monotone(Width(n), Width(n + 1));
    OfVal(n + 1, 1);
    ShiftVal(n + 1, Of(n + 1, 1), Width(n));
    ModSmall(1 * Pow2(Width(n)), Modulus(n + 1));
  }

  /** The modulo tests false, two levels up, exactly when its lowest native word is zero. */
  lemma ModuloUnseen(n: nat, m: nat)
    requires n > 0 && m < Modulus(n - 1)
    ensures m < Modulus(n) && Div(m, Modulus(n)) == 0 && Mod(m, Modulus(n)) == m
    ensures Seen(n, m) <==> Lowest(m) != 0
    ensures Unseen(n + 1, m) <==> Lowest(m) == 0
  {
    hide Modulus, Div, Mod;
    LevelAbove(n);
    SmallMod(m, Modulus(n));
    SmallMod(m, Modulus(n - 1));
    DivIs(m, Modulus(n));
    DivIs(m, Modulus(n - 1));
    ModIs(m, Modulus(n));
    DivModZero(Modulus(0));
    ZeroUnseen(n);
  }

  lemma LevelAbove(n: nat)
    requires n > 0
    ensures Modulus(n - 1) < Modulus(n)
  {
    hide Pow2;
    ModulusIsPow2(n - 1);
    ModulusIsPow2(n);
    Pow2Monotone(Width(n - 1), Width(n));
  }

  /** The dividend, one bit above the lower limb. */
  lemma BigBits(n: nat)
    requires n > 0
    ensures BitsSeen(n + 1, Modulus(n)) == Width(n) + 1 && !Unseen(n + 1, Modulus(n))
  {
    hide Modulus, Div, Mod, Seen, Counted, BitLength;
    DivModUnique(Modulus(n), 1, 0, Modulus(n));
    DivIs(Modulus(n), Modulus(n));
    ModIs(Modulus(n), Modulus(n));
    OneFits(0);
    WordSeen(n, 1);
    CountedExact(n, 1);
    BitLengthStep(1);
    BitLengthStep(0);
  }

  lemma ShiftedModulo(m: nat, b: nat, w: nat, v: nat)
    requires 0 < b <= BitLength(m) && m < Pow2(v) && 0 < v < w && BitLength(m) <= v
    ensures m * Pow2(w + 1 - b) < Pow2(2 * w)
    ensures Pow2(w) < 2 * (m * Pow2(w + 1 - b))
  {
    hide Pow2, BitLength;
    var c := w + 1 - b;
    BitLengthStep(m);
    BitLengthBounds(m);
    ShiftedBelow(m, v, c);
    Pow2Monotone(v + c, 2 * w);
    Pow2Monotone(b - 1, BitLength(m) - 1);
    ShiftedAbove(m, b - 1, c);
  }

  /** The constructor divides right exactly by moduli whose lowest native word is not zero. */
  lemma BigDivisible(n: nat, m: nat)
    requires n > 0 && 0 < m < Modulus(n - 1) && Lowest(m) != 0
    ensures Divisible(n + 1, Modulus(n), m)
  {
    hide Modulus, Div, Mod, Seen, Counted, BitLength, Unseen, Lowest, Pow2;
    ModuloUnseen(n, m);
    BigBits(n);
    ZeroUnseen(n);
    CountedAtMost(n, m);
    ModulusIsPow2(n - 1);
    ModulusIsPow2(n);
    ModulusIsPow2(n + 1);
    BitLengthBelow(m, Width(n - 1));
    ShiftedModulo(m, Counted(n, m), Width(n), Width(n - 1));
    assert BitsSeen(n + 1, m) == Counted(n, m);
    assert Width(n + 1) == 2 * Width(n);
  }

  /**
    * The constructor: modulo is a number one level below the values. It raises the exception exactly for moduli whose
    * lowest native word is zero; every value is then reduced right exactly when the modulo is at least 2 besides.
    */
  method Construct(n: nat, modulo: Num) returns (c: Construction)
    requires n > 0 && Fits(n - 1, modulo)
    ensures c.DivideByZero? <==> Val(n - 1, modulo) % Modulus(0) == 0
    ensures c.Constructed? ==> Prepared(n, c.reduction, Val(n - 1, modulo))
    ensures var m := Val(n - 1, modulo);
      c.Constructed? && ReducesAll(n, c.reduction, m) <==> m >= 2 && m % Modulus(0) != 0
  {
    hide Val, Fits, Of, Shl, Pow2, Modulus, Widen, Divisible, ReducesAll, Lowest, Unseen;
    ghost var v := Val(n - 1, modulo);
    var m := Widen(n, modulo);
    var wide := Widen(n + 1, m);
    WidenVal(n, modulo);
    WidenVal(n + 1, m);
    ValBound(n - 1, modulo);
    OneShifted(n);
    LowIs(v);
    ModuloUnseen(n, v);
    FalsyVal(n + 1, wide);
    if Lowest(v) != 0 { LowNothing(v); BigDivisible(n, v); }
    var d := Divide(n + 1, Shl(n + 1, Of(n + 1, 1), Width(n)), wide);
    if d.DivisionByZero? { return DivideByZero; }
    LowerVal(n + 1, d.quotient);
    c := Constructed(BarrettReduction(m, d.quotient.lo));
    ReduceExactly(n, c.reduction, v);
  }

  lemma LowIs(v: nat)
    ensures Lowest(v) == v % Modulus(0)
  {
  }

  lemma LowNothing(v: nat)
    requires Lowest(v) != 0
    ensures v > 0
  {
    hide Modulus, Mod;
    DivModZero(Modulus(0));
  }

  /** Every value is reduced to its remainder. */
  ghost predicate ReducesAll(n: nat, b: BarrettReduction, m: nat)
    requires Prepared(n, b, m)
  {
    forall value: Num | Fits(n, value) :: Val(n - 1, Reduce(n, b, value)) == Val(n, value) % m
  }

  /** `operator()`. */
  function Reduce(n: nat, b: BarrettReduction, value: Num): (r: Num)
    requires n > 0 && Fits(n, b.modulo) && Fits(n, b.factor) && Fits(n, value)
    ensures Fits(n - 1, r)
  {
    var hi := MulFull(n, value, b.factor).0;
    var remainder := Sub(n, value, Mul(n, hi, b.modulo));
    var reduced := if Less(n, remainder, b.modulo) then remainder else Sub(n, remainder, b.modulo);
    reduced.lo
  }

  /** The estimated quotient is the quotient or one less. */
  lemma EstimateBelow(v: nat, m: nat, f: nat, big: nat, q: nat)
    requires m > 0 && v < big && f == big / m && q == v * f / big
    ensures q * m <= v
  {
    hide Times, Div, Mod;
    DivMod(big, m);
    DivMod(Times(v, f), big);
    TimesIs(v, f);
    DivIs(big, m);
    DivIs(v * f, big);
    TimesMonotone(v, Times(m, f), v, big);
    TimesMonotone(Times(big, q), m, Times(v, f), m);
    TimesSwap(f, m);
    TimesAssoc(v, f, m);
    TimesAssoc(big, q, m);
    TimesSwap(v, big);
    TimesCancel(big, Times(q, m), v);
    TimesIs(q, m);
  }

  lemma DivIs(x: int, m: int)
    requires m > 0
    ensures Div(x, m) == x / m
  {
  }

  lemma EstimateAbove(v: nat, m: nat, f: nat, big: nat, q: nat)
    requires m > 0 && v < big && f == big / m && q == v * f / big
    ensures v < q * m + 2 * m
  {
    Fundamental(big, m);
    Fundamental(v * f, big);
    assert big * (q + 1) == big * q + big;
    var room := big * (q + 1) - v * f;
    MulMonotone(v, big % m, big, m);
    MulMonotone(1, 1, room, m);
    Room(v, m, f, big % m, big, q, room);
    Positive(q * m + 2 * m - v, big);
  }

  lemma Room(v: int, m: int, f: int, s: int, big: int, q: int, room: int)
    requires big == m * f + s && room == big * (q + 1) - v * f
    ensures big * (q * m + 2 * m - v) == room * m + (big * m - v * s)
  {
    var a, b := big * (q + 1), v * f;
    assert (a - b) * m == a * m - b * m;
    assert a * m == big * (q * m) + big * m by {
      assert a == big * q + big;
      MulAssoc(big, q, m);
    }
    assert v * big == b * m + v * s by {
      assert v * (m * f + s) == v * (m * f) + v * s;
      MulAssoc(v, f, m);
    }
    assert big * (q * m + 2 * m - v) == big * (q * m) + big * (2 * m) - big * v;
  }

  lemma Reduction(v: nat, m: nat, q: nat)
    requires m > 0 && q * m <= v < q * m + 2 * m
    ensures var rem := v - q * m; (if rem < m then rem else rem - m) == v % m
  {
    if v - q * m < m {
      DivModUnique(v, q, v - q * m, m);
    } else {
      assert m * (q + 1) == q * m + m;
      DivModUnique(v, q + 1, v - q * m - m, m);
    }
  }

  /** The high half of the full product is the quotient by the level's modulus. */
  lemma HighIsQuotient(n: nat, x: Num, y: Num)
    requires n > 0 && Fits(n, x) && Fits(n, y)
    ensures Val(n, MulFull(n, x, y).0) == Val(n, x) * Val(n, y) / Modulus(n)
  {
    hide Val, Fits, Modulus, MulFull;
    MulFullVal(n, x, y);
    ValBound(n, MulFull(n, x, y).1);
    DivModUnique(Val(n, x) * Val(n, y), Val(n, MulFull(n, x, y).0), Val(n, MulFull(n, x, y).1), Modulus(n));
  }

  lemma FactorFits(m: nat, big: nat)
    requires 2 <= m && big > 0
    ensures (big / m) % big == big / m
  {
    Fundamental(big, m);
    if big / m > 0 { MulMonotone(2, big / m, m, big / m); }
    SmallMod(big / m, big);
  }

  /** What is left of the value after the estimated quotient is taken off. */
  function Rest(n: nat, b: BarrettReduction, value: Num): (r: Num)
    requires n > 0 && Fits(n, b.modulo) && Fits(n, b.factor) && Fits(n, value)
    ensures Fits(n, r)
  {
    Sub(n, value, Mul(n, MulFull(n, value, b.factor).0, b.modulo))
  }

  lemma PreparedFacts(n: nat, b: BarrettReduction, m: nat)
    requires Prepared(n, b, m)
    ensures n > 0 && Fits(n, b.modulo) && Fits(n, b.factor) && Val(n, b.modulo) == m && 0 < m < Modulus(n - 1)
    ensures m >= 2 ==> Val(n, b.factor) == Modulus(n) / m
    ensures m == 1 ==> Val(n, b.factor) == 0
  {
    hide Val, Fits, Modulus;
    if m >= 2 {
      FactorFits(m, Modulus(n));
    } else {
      DivModUnique(Modulus(n), Modulus(n), 0, 1);
      DivModUnique(Modulus(n), 1, 0, Modulus(n));
    }
  }

  lemma Estimate(n: nat, b: BarrettReduction, m: nat, value: Num) returns (q: nat)
    requires Prepared(n, b, m) && m >= 2 && Fits(n, value)
    ensures q == Val(n, MulFull(n, value, b.factor).0)
    ensures Val(n, value) - 2 * m < Times(q, m) <= Val(n, value)
  {
    hide Val, Fits, Modulus, MulFull, Prepared;
    PreparedFacts(n, b, m);
    q := Val(n, MulFull(n, value, b.factor).0);
    ValBound(n, value);
    HighIsQuotient(n, value, b.factor);
    EstimateBelow(Val(n, value), m, Modulus(n) / m, Modulus(n), q);
    EstimateAbove(Val(n, value), m, Modulus(n) / m, Modulus(n), q);
  }

  /** A value less a multiple of the modulo that does not exceed it. */
  lemma TakeMultiple(n: nat, value: Num, hi: Num, modulo: Num)
    requires n > 0 && Fits(n, value) && Fits(n, hi) && Fits(n, modulo)
    requires Times(Val(n, hi), Val(n, modulo)) <= Val(n, value)
    ensures Val(n, Sub(n, value, Mul(n, hi, modulo))) == Val(n, value) - Times(Val(n, hi), Val(n, modulo))
  {
    hide Val, Fits, Modulus, Mul, Sub, Mod, Times, Width, Pow2;
    MulTimes(n, hi, modulo);
    TakeOff(n, value, Mul(n, hi, modulo), Times(Val(n, hi), Val(n, modulo)));
  }

  lemma TakeOff(n: nat, value: Num, cut: Num, t: nat)
    requires Fits(n, value) && Fits(n, cut) && Val(n, cut) == Mod(t, Modulus(n)) && t <= Val(n, value)
    ensures Val(n, Sub(n, value, cut)) == Val(n, value) - t
  {
    hide Val, Fits, Modulus, Sub, Mod, Width, Pow2;
    ValBound(n, value);
    SubVal(n, value, cut);
    TakeSmall(Val(n, value), t, Modulus(n));
  }

  lemma TakeSmall(v: nat, t: int, m: nat)
    requires 0 <= t <= v < m
    ensures Mod(v - Mod(t, m), m) == v - t
  {
    hide Mod;
    ModSmall(t, m);
    ModSmall(v - t, m);
  }

  lemma MulTimes(n: nat, x: Num, y: Num)
    requires Fits(n, x) && Fits(n, y)
    ensures Val(n, Mul(n, x, y)) == Mod(Times(Val(n, x), Val(n, y)), Modulus(n))
  {
    hide Val, Fits, Modulus, Mul, Mod;
    MulVal(n, x, y);
  }

  /** The estimated quotient is the true one or one less, so what is left is below twice the modulo. */
  lemma RestVal(n: nat, b: BarrettReduction, m: nat, value: Num) returns (q: nat)
    requires Prepared(n, b, m) && m >= 2 && Fits(n, value)
    ensures Val(n, Rest(n, b, value)) == Val(n, value) - Times(q, m)
    ensures Val(n, value) - 2 * m < Times(q, m) <= Val(n, value)
  {
    hide Val, Fits, Modulus, MulFull, Mul, Sub, Times, Prepared;
    PreparedFacts(n, b, m);
    q := Estimate(n, b, m, value);
    TakeMultiple(n, value, MulFull(n, value, b.factor).0, b.modulo);
  }

  lemma Correction(n: nat, modulo: Num, rest: Num)
    requires n > 0 && Fits(n, modulo) && Fits(n, rest) && Val(n, modulo) < Modulus(n - 1)
    requires Val(n, rest) < 2 * Val(n, modulo)
    ensures var r := if Less(n, rest, modulo) then rest else Sub(n, rest, modulo);
            var m, v := Val(n, modulo), Val(n, rest);
            r.Pair? && Fits(n - 1, r.lo) && Val(n - 1, r.lo) == if v < m then v else v - m
  {
    hide Val, Fits, Modulus, Sub, Less, Mod;
    LessVal(n, rest, modulo);
    ValBound(n, rest);
    var r := if Less(n, rest, modulo) then rest else Sub(n, rest, modulo);
    if !Less(n, rest, modulo) {
      SubVal(n, rest, modulo);
      ModSmall(Val(n, rest) - Val(n, modulo), Modulus(n));
    }
    LowerVal(n, r);
    SmallMod(Val(n, r), Modulus(n - 1));
  }

  /** For every modulo from 2 on, the result is the remainder. */
  lemma ReduceVal(n: nat, b: BarrettReduction, m: nat, value: Num)
    requires Prepared(n, b, m) && m >= 2 && Fits(n, value)
    ensures Val(n - 1, Reduce(n, b, value)) == Val(n, value) % m
  {
    hide Val, Fits, Modulus, MulFull, Mul, Sub, Less, Prepared;
    PreparedFacts(n, b, m);
    var q := RestVal(n, b, m, value);
    Correction(n, b.modulo, Rest(n, b, value));
    Reduction(Val(n, value), m, q);
  }

  /** With modulo 1 the factor is cut to zero, so 2 is only decremented. */
  lemma ReduceByOne(n: nat, b: BarrettReduction, value: Num)
    requires Prepared(n, b, 1) && Fits(n, value) && Val(n, value) == 2
    ensures Val(n - 1, Reduce(n, b, value)) == 1
  {
    hide Val, Fits, Modulus, MulFull, Mul, Sub, Less, Prepared, Mod;
    PreparedFacts(n, b, 1);
    var hi := MulFull(n, value, b.factor).0;
    HighIsQuotient(n, value, b.factor);
    DivModUnique(0, 0, 0, Modulus(n));
    TakeMultiple(n, value, hi, b.modulo);
    var rest := Rest(n, b, value);
    ModulusIsLarge(n);
    LessVal(n, rest, b.modulo);
    SubVal(n, rest, b.modulo);
    ModSmall(1, Modulus(n));
    LowerVal(n, Sub(n, rest, b.modulo));
    SmallMod(1, Modulus(n - 1));
  }

  /** The reduction is right for every value exactly when the modulo is at least 2. */
  lemma ReduceExactly(n: nat, b: BarrettReduction, m: nat)
    requires Prepared(n, b, m)
    ensures ReducesAll(n, b, m) <==> m >= 2
  {
    if m >= 2 {
      forall value: Num | Fits(n, value) ensures Val(n - 1, Reduce(n, b, value)) == Val(n, value) % m {
        ReduceVal(n, b, m, value);
      }
    } else {
      ModulusIsLarge(n);
      OfVal(n, 2);
      ReduceByOne(n, b, Of(n, 2));
    }
  }

  lemma ModulusIsLarge(n: nat)
    ensures Modulus(n) > 2
  {
    Pow2Monotone(2, Width(n));
  }
}
