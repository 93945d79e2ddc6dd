/**
  * What a Pair amounts to where it is tested for truth, and the bit counts that hang on it. The code tests a Pair by
  * turning `hi | lo` into a truth value; where its limbs are Pairs themselves, that conversion narrows to the lowest
  * native word, and everything above goes unseen.
  */
module NaturalTruth {
  import opened Bits
  import opened Arith
  import opened Natural

  /** The lowest native word of a number. */
  function LowWord(x: Num): nat {
    match x
    case Word(w) => w
    case Pair(_, lo) => LowWord(lo)
  }

  /** `explicit operator bool`. */
  predicate Truthy(n: nat, x: Num)
    requires Fits(n, x)
  {
    match x
    case Word(w) => w != 0
    case Pair(hi, lo) => LowWord(BitOr(n - 1, hi, lo)) != 0
  }

  /** `operator!`. */
  predicate Falsy(n: nat, x: Num)
    requires n > 0 && Fits(n, x)
  {
    !(Truthy(n - 1, x.hi) || Truthy(n - 1, x.lo))
  }

  // ---------------------------------------------------------------- on values

  /** A value cut to its lowest native word. */
  function Lowest(v: nat): (r: nat)
    ensures r < Modulus(0)
  {
    Mod(v, Modulus(0))
  }

  /** What the test sees of a value: the whole native word, or the lowest words of the two limbs. */
  predicate Seen(n: nat, v: nat) {
    if n == 0 then v != 0 else Lowest(v) != 0 || Lowest(Div(v, Modulus(n - 1))) != 0
  }

  predicate Unseen(n: nat, v: nat)
    requires n > 0
  {
    !Seen(n - 1, Div(v, Modulus(n - 1))) && !Seen(n - 1, Mod(v, Modulus(n - 1)))
  }

  lemma ModulusMultiple(n: nat) returns (k: nat)
    ensures Modulus(n) == Times(Modulus(0), k)
  {
    hide Pow2, Modulus;
    ModulusIsPow2(0);
    ModulusIsPow2(n);
    WidthGrows(n);
    Pow2Add(Width(0), Width(n) - Width(0));
    k := Pow2(Width(n) - Width(0));
  }

  lemma {:induction false} WidthGrows(n: nat)
    ensures Width(0) <= Width(n)
  {
    if n > 0 { WidthGrows(n - 1); }
  }

  /** Only the lower limb matters to the lowest word. */
  lemma LowTwo(n: nat, a: nat, b: nat)
    ensures Two(a, b, Modulus(n)) >= 0 && Lowest(Two(a, b, Modulus(n))) == Lowest(b)
  {
    hide Modulus, Mod, Times;
    var k := ModulusMultiple(n);
    TimesIs(a, Modulus(n));
    TimesSwap(a, Modulus(n));
    TimesAssoc(Modulus(0), k, a);
    ModMultiple(b, Times(k, a), Modulus(0));
  }

  lemma LowLimb(n: nat, v: nat)
    ensures Lowest(Mod(v, Modulus(n))) == Lowest(v)
  {
    hide Modulus, Mod, Div, Lowest;
    DivMod(v, Modulus(n));
    TimesIs(Modulus(n), Div(v, Modulus(n)));
    LowTwo(n, Div(v, Modulus(n)), Mod(v, Modulus(n)));
  }

  lemma {:induction false} LowWordVal(n: nat, x: Num)
    requires Fits(n, x)
    ensures LowWord(x) == Lowest(Val(n, x))
  {
    if n == 0 {
      ModSmall(x.w, Modulus(0));
    } else {
      hide Modulus, Val, Fits, Mod, Two, Lowest;
      Limbs(n, x);
      LowWordVal(n - 1, x.lo);
      LowTwo(n - 1, Val(n - 1, x.hi), Val(n - 1, x.lo));
    }
  }

  lemma {:induction false} LowWordOr(n: nat, x: Num, y: Num)
    requires Fits(n, x) && Fits(n, y)
    ensures LowWord(BitOr(n, x, y)) == Or(LowWord(x), LowWord(y))
  {
    hide Or, Modulus;
    if n > 0 { LowWordOr(n - 1, x.lo, y.lo); }
  }

  lemma OrZero(a: nat, b: nat)
    ensures Or(a, b) == 0 <==> a == 0 && b == 0
  {
  }

  lemma LimbsOf(n: nat, x: Num)
    requires n > 0 && Fits(n, x)
    ensures x.Pair? && Fits(n - 1, x.hi) && Fits(n - 1, x.lo)
    ensures Val(n - 1, x.hi) == Div(Val(n, x), Modulus(n - 1)) && Val(n - 1, x.lo) == Mod(Val(n, x), Modulus(n - 1))
  {
    hide Modulus, Val, Fits;
    Limbs(n, x);
    DivModUnique(Val(n, x), Val(n - 1, x.hi), Val(n - 1, x.lo), Modulus(n - 1));
  }

  /** A number is true exactly when its lowest word or that of its upper limb is not zero. */
  lemma TruthyVal(n: nat, x: Num)
    requires Fits(n, x)
    ensures Truthy(n, x) <==> Seen(n, Val(n, x))
  {
    if n > 0 {
      hide Modulus, Val, Lowest, LowWord, BitOr, Or;
      LimbsOf(n, x);
      LowWordOr(n - 1, x.hi, x.lo);
      OrZero(LowWord(x.hi), LowWord(x.lo));
      LowWordVal(n - 1, x.hi);
      LowWordVal(n - 1, x.lo);
      LowLimb(n - 1, Val(n, x));
    }
  }

  lemma FalsyVal(n: nat, x: Num)
    requires n > 0 && Fits(n, x)
    ensures Falsy(n, x) <==> Unseen(n, Val(n, x))
  {
    hide Modulus, Val, Fits, Truthy, Seen;
    LimbsOf(n, x);
    TruthyVal(n - 1, x.hi);
    TruthyVal(n - 1, x.lo);
  }

  lemma LimbBounds(n: nat, v: nat)
    requires n > 0 && v < Modulus(n)
    ensures Div(v, Modulus(n - 1)) < Modulus(n - 1)
    ensures v == 0 <==> Div(v, Modulus(n - 1)) == 0 && Mod(v, Modulus(n - 1)) == 0
  {
    hide Modulus, Div, Mod, Square;
    ModulusSquare(n);
    HalvesOf(v, Modulus(n - 1));
    DivMod(v, Modulus(n - 1));
    TimesIs(Modulus(n - 1), 0);
    DivModZero(Modulus(n - 1));
  }

  lemma DivModZero(m: nat)
    requires m > 0
    ensures Div(0, m) == 0 && Mod(0, m) == 0
  {
    SmallMod(0, m);
  }

  /** Zero is never seen. */
  lemma ZeroUnseen(n: nat)
    ensures !Seen(n, 0) && (n > 0 ==> Unseen(n, 0))
  {
    hide Modulus, Div, Mod;
    DivModZero(Modulus(0));
    if n > 0 { DivModZero(Modulus(n - 1)); }
    if n > 1 { DivModZero(Modulus(n - 2)); }
  }

  /** On native words and on Pairs of them the test for truth is right. */
  lemma SeenExact(n: nat, v: nat)
    requires n <= 1 && v < Modulus(n)
    ensures Seen(n, v) <==> v != 0
  {
    hide Modulus, Div, Mod;
    if n == 1 {
      LimbBounds(1, v);
      ModSmall(Div(v, Modulus(0)), Modulus(0));
    }
  }

  /** `operator!` is right one level further. */
  lemma UnseenExact(n: nat, v: nat)
    requires 0 < n <= 2 && v < Modulus(n)
    ensures Unseen(n, v) <==> v == 0
  {
    hide Modulus, Div, Mod, Seen;
    LimbBounds(n, v);
    SeenExact(n - 1, Div(v, Modulus(n - 1)));
    SeenExact(n - 1, Mod(v, Modulus(n - 1)));
  }

  /** A lowest word that is not zero is always seen. */
  lemma LowSeen(n: nat, v: nat)
    requires Lowest(v) != 0
    ensures Seen(n, v) && (n > 0 ==> !Unseen(n, v))
  {
    hide Modulus, Div, Mod;
    if n == 0 && v == 0 { DivModZero(Modulus(0)); }
    if n > 0 {
      LowLimb(n - 1, v);
      if n == 1 { ModSmall(Mod(v, Modulus(0)), Modulus(0)); DivModZero(Modulus(0)); }
    }
  }

  /** What one test sees, the other does. */
  lemma SeenNotUnseen(n: nat, v: nat)
    requires n > 0 && v < Modulus(n) && Seen(n, v)
    ensures !Unseen(n, v)
  {
    hide Modulus, Div, Mod, Lowest;
    if Lowest(v) != 0 {
      LowSeen(n, v);
    } else {
      LowSeen(n - 1, Div(v, Modulus(n - 1)));
    }
  }

  /** Values of a single native word are seen for what they are. */
  lemma WordSeen(n: nat, v: nat)
    requires v < Modulus(0)
    ensures Seen(n, v) <==> v != 0
    ensures n > 0 ==> (Unseen(n, v) <==> v == 0)
  {
    hide Modulus, Div, Mod;
    ModSmall(v, Modulus(0));
    if v == 0 { ZeroUnseen(n); } else { LowSeen(n, v); }
  }

  // ---------------------------------------------------------------- bit length

  function BitLength(v: nat): nat {
    if v == 0 then 0 else 1 + BitLength(v / 2)
  }

  lemma {:induction false} BitLengthBounds(v: nat)
    requires v > 0
    ensures BitLength(v) > 0 && Pow2(BitLength(v) - 1) <= v < Pow2(BitLength(v))
  {
    if v > 1 { BitLengthBounds(v / 2); }
  }

  lemma {:induction false} BitLengthScaled(a: nat, b: nat, w: nat)
    requires a > 0 && b < Pow2(w)
    ensures BitLength(Scale(a, w) + b) == w + BitLength(a)
  {
    if w > 0 {
      assert (2 * Scale(a, w - 1) + b) / 2 == Scale(a, w - 1) + b / 2;
      ScaleMultiplies(a, w - 1);
      BitLengthScaled(a, b / 2, w - 1);
    }
  }

  lemma BitLengthTwo(a: nat, b: nat, w: nat, m: nat)
    requires m == Pow2(w) && b < m
    ensures Two(a, b, m) >= 0
    ensures BitLength(Two(a, b, m)) == if a > 0 then w + BitLength(a) else BitLength(b)
  {
    ScaleMultiplies(a, w);
    if a > 0 { BitLengthScaled(a, b, w); }
  }

  lemma BitLengthOf(n: nat, v: nat)
    requires n > 0
    ensures var hi, lo := Div(v, Modulus(n - 1)), Mod(v, Modulus(n - 1));
      BitLength(v) == if hi > 0 then Width(n - 1) + BitLength(hi) else BitLength(lo)
  {
    hide Modulus, Div, Mod, BitLength;
    ModulusIsPow2(n - 1);
    var m := Modulus(n - 1);
    DivMod(v, m);
    TimesIs(m, Div(v, m));
    BitLengthTwo(Div(v, m), Mod(v, m), Width(n - 1), m);
  }

  // ---------------------------------------------------------------- counted bits

  /** How often a limb is halved until the test sees nothing any more. */
  function Counted(t: nat, v: nat): nat {
    if !Seen(t, v) then 0
    else
      ZeroUnseen(t);
      1 + Counted(t, v / 2)
  }

  lemma HalvedDiv(v: nat, p: nat)
    requires p > 0
    ensures Div(v, 2 * p) == Div(v / 2, p)
  {
    var h := v / 2;
    Fundamental(h, p);
    assert (2 * p) * (h / p) == 2 * (p * (h / p));
    DivModUnique(v, h / p, 2 * (h % p) + v % 2, 2 * p);
  }

  lemma CountedStep(t: nat, v: nat)
    ensures Counted(t, v) == if Seen(t, v) then 1 + Counted(t, v / 2) else 0
    ensures Seen(t, v) ==> v > 0
  {
    ZeroUnseen(t);
  }

  /** The count is the least number of halvings after which nothing is seen. */
  lemma {:induction false} CountedLeast(t: nat, v: nat, j: nat)
    ensures j < Counted(t, v) ==> Seen(t, Div(v, Pow2(j)))
    ensures j == Counted(t, v) ==> !Seen(t, Div(v, Pow2(j)))
    decreases j
  {
    hide Seen, Counted, Pow2, Div;
    CountedStep(t, v);
    Pow2Step(if j > 0 then j - 1 else 0);
    if j == 0 {
      DivOne(v);
    } else if Seen(t, v) {
      CountedLeast(t, v / 2, j - 1);
      HalvedDiv(v, Pow2(j - 1));
    }
  }

  lemma DivOne(v: nat)
    ensures Div(v, 1) == v
  {
  }

  lemma BitLengthStep(v: nat)
    ensures BitLength(v) == if v == 0 then 0 else 1 + BitLength(v / 2)
  {
  }

  /** The count never exceeds the bit length. */
  lemma {:induction false} CountedAtMost(t: nat, v: nat)
    ensures Counted(t, v) <= BitLength(v)
    ensures Seen(t, v) ==> Counted(t, v) > 0
    decreases v
  {
    hide Seen, Counted, BitLength;
    CountedStep(t, v);
    BitLengthStep(v);
    if Seen(t, v) { CountedAtMost(t, v / 2); }
  }

  lemma {:induction false} CountedExact(t: nat, v: nat)
    requires (t <= 1 && v < Modulus(t)) || v < Modulus(0)
    ensures Counted(t, v) == BitLength(v)
    decreases v
  {
    hide Seen, Counted, BitLength, Modulus;
    CountedStep(t, v);
    BitLengthStep(v);
    if v < Modulus(0) { WordSeen(t, v); } else { SeenExact(t, v); }
    if v > 0 { CountedExact(t, v / 2); }
  }

  /** `bits`, as the code counts them. */
  function BitsSeen(n: nat, v: nat): nat
    requires n > 0
  {
    var hi, lo := Div(v, Modulus(n - 1)), Mod(v, Modulus(n - 1));
    if Seen(n - 1, hi) then Width(n - 1) + Counted(n - 1, hi) else Counted(n - 1, lo)
  }

  lemma BitsAtMost(n: nat, v: nat)
    requires n > 0
    ensures BitsSeen(n, v) <= BitLength(v)
    ensures !Unseen(n, v) ==> BitsSeen(n, v) > 0
  {
    hide Seen, Counted, BitLength, Modulus, Div, Mod;
    var hi, lo := Div(v, Modulus(n - 1)), Mod(v, Modulus(n - 1));
    BitLengthOf(n, v);
    ZeroUnseen(n - 1);
    CountedAtMost(n - 1, hi);
    CountedAtMost(n - 1, lo);
    if !Seen(n - 1, hi) && hi > 0 { LowerShorter(n, v); }
  }

  lemma LowerShorter(n: nat, v: nat)
    requires n > 0
    ensures BitLength(Mod(v, Modulus(n - 1))) <= Width(n - 1)
  {
    hide BitLength, Pow2;
    var lo := Mod(v, Modulus(n - 1));
    ModulusIsPow2(n - 1);
    BitLengthBelow(lo, Width(n - 1));
  }

  lemma BitLengthBelow(v: nat, w: nat)
    requires v < Pow2(w)
    ensures BitLength(v) <= w
  {
    if v > 0 {
      BitLengthBounds(v);
      if BitLength(v) > w { Pow2Monotone(w, BitLength(v) - 1); }
    }
  }

  /** Up to level 2, and on values of a single native word, the count is the bit length. */
  lemma BitsExact(n: nat, v: nat)
    requires n > 0 && v < Modulus(n) && (n <= 2 || v < Modulus(0))
    ensures BitsSeen(n, v) == BitLength(v)
  {
    hide Seen, Counted, BitLength, Modulus, Div, Mod;
    var hi, lo := Div(v, Modulus(n - 1)), Mod(v, Modulus(n - 1));
    BitLengthOf(n, v);
    LimbBounds(n, v);
    if v < Modulus(0) {
      WordInLevel(n - 1, v);
      ZeroUnseen(n - 1);
      CountedExact(n - 1, lo);
    } else {
      SeenExact(n - 1, hi);
      CountedExact(n - 1, hi);
      CountedExact(n - 1, lo);
    }
  }

  lemma WordInLevel(n: nat, v: nat)
    requires v < Modulus(0)
    ensures v < Modulus(n) && Div(v, Modulus(n)) == 0 && Mod(v, Modulus(n)) == v
  {
    hide Pow2;
    WidthGrows(n);
    ModulusIsPow2(0);
    ModulusIsPow2(n);
    Pow2Monotone(Width(0), Width(n));
    SmallMod(v, Modulus(n));
  }
}
