/** Shift-subtract division, as the code's truth tests and bit counts let it work. */
module NaturalDiv {
  import opened Bits
  import opened Arith
  import opened Natural
  import opened NaturalTruth

  // ---------------------------------------------------------------- counting bits

  /** Counts how often a limb can be halved while it tests true. */
  method CountBits(t: nat, x: Num, start: nat) returns (bits: nat)
    requires Fits(t, x)
    ensures bits == start + Counted(t, Val(t, x))
  {
    hide Val, Fits, Shr, Modulus, Truthy, Seen, Counted;
    var value := x;
    bits := start;
    TruthyVal(t, value);
    while Truthy(t, value)
      invariant Fits(t, value) && bits + Counted(t, Val(t, value)) == start + Counted(t, Val(t, x))
      invariant Truthy(t, value) <==> Seen(t, Val(t, value))
      decreases Val(t, value)
    {
      CountedStep(t, Val(t, value));
      ShiftOne(t, value);
      DivIs(Val(t, value), 2);
      value := Shr(t, value, 1);
      bits := bits + 1;
      TruthyVal(t, value);
    }
    CountedStep(t, Val(t, value));
  }

  /** `bits`: right up to level 2. */
  method BitsOf(n: nat, value: Num) returns (bits: nat)
    requires n > 0 && Fits(n, value)
    ensures bits == BitsSeen(n, Val(n, value)) <= BitLength(Val(n, value))
    ensures n <= 2 ==> bits == BitLength(Val(n, value))
  {
    hide Val, Fits, Modulus, Truthy, Seen, Counted, BitLength, Div, Mod;
    LimbsOf(n, value);
    ValBound(n, value);
    BitsAtMost(n, Val(n, value));
    if n <= 2 { BitsExact(n, Val(n, value)); }
    TruthyVal(n - 1, value.hi);
    if Truthy(n - 1, value.hi) {
      bits := CountBits(n - 1, value.hi, Width(n - 1));
    } else {
      bits := CountBits(n - 1, value.lo, 0);
    }
  }

  lemma DivIs(x: int, m: int)
    requires m > 0
    ensures Div(x, m) == x / m
  {
  }

  lemma ShiftOne(n: nat, x: Num)
    requires Fits(n, x)
    ensures Val(n, Shr(n, x, 1)) == Div(Val(n, x), 2)
  {
    hide Val, Fits, Shr, Modulus;
    ShiftVal(n, x, 1);
    assert Pow2(1) == 2 * Pow2(0) == 2;
  }

  // ---------------------------------------------------------------- the outcome

  /** `Endless` when the remainder can shrink no more; `Undefined` when a native word is shifted beyond its width. */
  datatype Division = DivisionByZero | Quotient(quotient: Num, remainder: Num) | Endless | Undefined

  /** What the values ask for. */
  ghost predicate Correct(n: nat, d: Division, l: nat, r: nat) {
    if r == 0 then d.DivisionByZero?
    else
      && d.Quotient? && Fits(n, d.quotient) && Fits(n, d.remainder)
      && Val(n, d.quotient) == l / r && Val(n, d.remainder) == l % r
  }

  /** The divisor is shifted far enough, by the counted bits, and within the width. */
  predicate Reaches(n: nat, l: nat, r: nat)
    requires n > 0
  {
    var a, b := BitsSeen(n, l), BitsSeen(n, r);
    b <= a && r * Pow2(a - b) < Modulus(n) && l < 2 * (r * Pow2(a - b))
  }

  /** The operands that are divided right. */
  predicate Divisible(n: nat, l: nat, r: nat)
    requires n > 0
  {
    r == 0 || (!Unseen(n, r) && (l < r || (!Unseen(n, l) && Reaches(n, l, r))))
  }

  // ---------------------------------------------------------------- the loop on integers

  /**
    * What the loop keeps: `cut` is the divisor as far as shifting it by c leaves it, and k counts down from c. Below
    * zero no more bits are added to the quotient, and halves of the divisor are subtracted.
    */
  ghost predicate Dividing(l: nat, cut: nat, c: nat, k: int, x: nat, y: nat, quo: nat, rem: nat) {
    if k >= 0 then
      && x == cut * Pow2(k) && y == Pow2(k) && quo * cut + rem == l
      && quo % (2 * y) == 0 && quo + 2 * y <= 2 * Pow2(c)
    else
      && y == 0 && quo < 2 * Pow2(c) && quo * cut + rem <= l
      && l - quo * cut - rem + 2 * x <= cut
  }

  ghost predicate Good(l: nat, r: nat, cut: nat, c: nat) {
    cut == r && l < 2 * (r * Pow2(c))
  }

  /** While the division goes well, the remainder stays below twice the shifted divisor. */
  ghost predicate GoingWell(l: nat, r: nat, k: int, x: nat, quo: nat, rem: nat) {
    quo * r + rem == l && (rem < r || (k >= 0 && rem < 2 * x))
  }

  function After(quo: nat, y: nat, rem: nat, x: nat): (nat, nat) {
    if rem >= x then (quo + y, rem - x) else (quo, rem)
  }

  lemma HalfShift(r: nat, h: nat, x: nat)
    requires x == r * (2 * h)
    ensures Div(x, 2) == r * h && Div(2 * h, 2) == h
  {
    assert r * (2 * h) == 2 * (r * h);
  }

  lemma EvenMultiple(quo: nat, y: nat)
    requires y > 0 && quo % (2 * y) == 0
    ensures quo % y == 0 && (quo + y) % y == 0
  {
    Fundamental(quo, 2 * y);
    var c := quo / (2 * y);
    assert quo == y * (2 * c);
    DivModUnique(quo, 2 * c, 0, y);
    assert quo + y == y * (2 * c + 1);
    DivModUnique(quo + y, 2 * c + 1, 0, y);
  }

  /** One round: subtract the aligned divisor if it still fits. */
  lemma Round(l: nat, cut: nat, c: nat, k: int, x: nat, y: nat, quo: nat, rem: nat)
    requires Dividing(l, cut, c, k, x, y, quo, rem)
    ensures var (quo', rem') := After(quo, y, rem, x);
      Dividing(l, cut, c, k - 1, Div(x, 2), Div(y, 2), quo', rem')
  {
    if k >= 0 {
      MulOverSum(quo, Pow2(k), cut);
      if k > 0 {
        hide Pow2;
        Pow2Step(k - 1);
        HalfShift(cut, Pow2(k - 1), x);
        EvenMultiple(quo, y);
      }
    }
  }

  lemma MulOverSum(quo: nat, p: nat, cut: nat)
    ensures (quo + p) * cut == quo * cut + cut * p
  {
  }

  /** A round that goes well keeps going well. */
  lemma WellRound(l: nat, r: nat, c: nat, k: int, x: nat, y: nat, quo: nat, rem: nat)
    requires Dividing(l, r, c, k, x, y, quo, rem) && GoingWell(l, r, k, x, quo, rem) && rem >= r
    ensures var (quo', rem') := After(quo, y, rem, x);
      GoingWell(l, r, k - 1, Div(x, 2), quo', rem')
  {
    hide Pow2;
    if k >= 0 {
      MulOverSum(quo, Pow2(k), r);
      Pow2Step(if k > 0 then k - 1 else 0);
      if k > 0 { HalfShift(r, Pow2(k - 1), x); } else { ByOne(r); }
    }
  }

  /** What shifting the divisor by c leaves of it. */
  lemma CutShift(r: nat, c: nat, w: nat) returns (cut: nat)
    requires c <= w && r < Pow2(w)
    ensures Mod(r * Pow2(c), Pow2(w)) == cut * Pow2(c)
    ensures cut == r <==> r * Pow2(c) < Pow2(w)
    ensures cut <= r && (cut < r ==> cut < r - cut)
  {
    hide Pow2;
    Pow2Add(c, w - c);
    var q := Pow2(w - c);
    ScaledRemainder(r, Pow2(c), q);
    cut := r % q;
    CutOrNot(r, q, Pow2(c));
  }

  lemma CutOrNot(r: nat, q: nat, p: nat)
    requires p > 0 && q > 0
    ensures r % q == r <==> r * p < p * q
    ensures r % q <= r && (r % q < r ==> r % q < r - r % q)
  {
    Fundamental(r, q);
    if r < q {
      MulAtLeast(p, r, q);
    } else {
      MulMonotone(p, q, p, r);
      QuotientPositive(r, q);
      MulMonotone(q, 1, q, r / q);
    }
  }

  lemma QuotientPositive(r: nat, q: nat)
    requires 0 < q <= r
    ensures r / q >= 1
  {
    Fundamental(r, q);
    Positive(r / q, q);
  }

  /** The start, the divisor halved once when it overshoots. */
  lemma Begin(l: nat, cut: nat, c: nat, x: nat, y: nat)
    requires y == Pow2(c) && x == cut * y
    ensures x <= l ==> Dividing(l, cut, c, c, x, y, 0, l)
    ensures x > l ==> Dividing(l, cut, c, c - 1, Div(x, 2), Div(y, 2), 0, l)
  {
    if x > l && c > 0 {
      hide Pow2;
      Pow2Step(c - 1);
      HalfShift(cut, Pow2(c - 1), x);
    }
  }

  lemma BeginWell(l: nat, r: nat, c: nat, x: nat, y: nat)
    requires r <= l && y == Pow2(c) && x == r * y && l < 2 * x
    ensures x <= l ==> GoingWell(l, r, c, x, 0, l)
    ensures x > l ==> c > 0 && GoingWell(l, r, c - 1, Div(x, 2), 0, l)
  {
    ByOne(r);
    if x > l {
      hide Pow2;
      Pow2Step(c - 1);
      HalfShift(r, Pow2(c - 1), x);
    }
  }

  lemma ByOne(r: nat)
    ensures r * Pow2(0) == r
  {
  }

  /** When the loop ends, the result is right exactly when the division went well. */
  lemma Finish(l: nat, r: nat, cut: nat, c: nat, k: int, x: nat, y: nat, quo: nat, rem: nat)
    requires 0 < r <= l && rem < r && cut <= r && (cut < r ==> cut < r - cut)
    requires Dividing(l, cut, c, k, x, y, quo, rem)
    requires Good(l, r, cut, c) ==> GoingWell(l, r, k, x, quo, rem)
    ensures quo == l / r && rem == l % r <==> Good(l, r, cut, c)
    ensures cut == r ==> quo * r + rem <= l
  {
    if Good(l, r, cut, c) {
      DivModUnique(l, quo, rem, r);
    } else if quo == l / r && rem == l % r {
      Fundamental(l, r);
      QuotientPositive(l, r);
      assert quo * (r - cut) == quo * r - quo * cut;
      if cut < r {
        MulMonotone(1, r - cut, quo, r - cut);
      } else {
        Below(quo, c, k, y);
        TooLarge(l, r, quo, rem, 2 * Pow2(c));
      }
    }
  }

  lemma Below(quo: nat, c: nat, k: int, y: nat)
    requires if k >= 0 then y == Pow2(k) && quo + 2 * y <= 2 * Pow2(c) else quo < 2 * Pow2(c)
    ensures quo < 2 * Pow2(c)
  {
  }

  lemma TooLarge(l: nat, r: nat, quo: nat, rem: nat, limit: nat)
    requires quo * r + rem == l && rem < r && quo < limit
    ensures l < limit * r
  {
    MulMonotone(quo + 1, r, limit, r);
  }

  lemma OrIsSum(quo: nat, k: nat)
    requires quo % (2 * Pow2(k)) == 0
    ensures Or(quo, Pow2(k)) == quo + Pow2(k)
  {
    assert Pow2(k + 1) == 2 * Pow2(k);
    Fundamental(quo, Pow2(k + 1));
    var c := quo / Pow2(k + 1);
    assert quo == c * Pow2(k + 1);
    OrDisjoint(c, Pow2(k), k + 1);
  }

  lemma OrNothing(quo: nat)
    ensures Or(quo, 0) == quo
  {
  }

  /** Or-ing the next bit in is adding it. */
  lemma OrNext(l: nat, cut: nat, c: nat, k: int, x: nat, y: nat, quo: nat, rem: nat)
    requires Dividing(l, cut, c, k, x, y, quo, rem)
    ensures Or(quo, y) == quo + y
  {
    hide Or, Pow2;
    if k >= 0 { OrIsSum(quo, k); } else { OrNothing(quo); }
  }

  // ---------------------------------------------------------------- the loop on Pairs

  method AlignDivisor(n: nat, lhs: Num, rhs: Num, c: nat) returns (x: Num, y: Num, ghost k: int, ghost cut: nat)
    requires n > 0 && Fits(n, lhs) && Fits(n, rhs) && 0 < Val(n, rhs) <= Val(n, lhs) && c < Width(n)
    ensures Fits(n, x) && Fits(n, y)
    ensures cut <= Val(n, rhs) && (cut < Val(n, rhs) ==> cut < Val(n, rhs) - cut)
    ensures cut == Val(n, rhs) <==> Val(n, rhs) * Pow2(c) < Modulus(n)
    ensures Dividing(Val(n, lhs), cut, c, k, Val(n, x), Val(n, y), 0, Val(n, lhs))
    ensures Good(Val(n, lhs), Val(n, rhs), cut, c) ==>
      GoingWell(Val(n, lhs), Val(n, rhs), k, Val(n, x), 0, Val(n, lhs))
  {
    hide Val, Fits, Shr, Shl, Of, Modulus, Less, Mod, Div, Dividing, GoingWell, Pow2;
    ghost var l, r := Val(n, lhs), Val(n, rhs);
    ValBound(n, rhs);
    ModulusIsPow2(n);
    cut := CutShift(r, c, Width(n));
    OneFits(n);
    OfVal(n, 1);
    ShiftVal(n, rhs, c);
    ShiftVal(n, Of(n, 1), c);
    Pow2Above(c, Width(n));
    ModSmall(1 * Pow2(c), Modulus(n));
    x, y, k := Shl(n, rhs, c), Shl(n, Of(n, 1), c), c;
    Begin(l, cut, c, Val(n, x), Val(n, y));
    if Good(l, r, cut, c) { BeginWell(l, r, c, Val(n, x), Val(n, y)); }
    LessVal(n, lhs, x);
    if Less(n, lhs, x) {
      ShiftOne(n, x);
      ShiftOne(n, y);
      x, y, k := Shr(n, x, 1), Shr(n, y, 1), c - 1;
    }
  }

  lemma OneFits(n: nat)
    ensures 1 < Modulus(n)
  {
  }

  lemma Pow2Above(c: nat, w: nat)
    requires c < w
    ensures 1 * Pow2(c) < Pow2(w)
  {
    Pow2Monotone(c, w);
  }

  method SubtractAligned(n: nat, x: Num, y: Num, quo: Num, rem: Num,
                         ghost l: nat, ghost cut: nat, ghost c: nat, ghost k: int)
    returns (quo': Num, rem': Num)
    requires n > 0 && Fits(n, x) && Fits(n, y) && Fits(n, quo) && Fits(n, rem)
    requires Dividing(l, cut, c, k, Val(n, x), Val(n, y), Val(n, quo), Val(n, rem))
    ensures Fits(n, quo') && Fits(n, rem')
    ensures (Val(n, quo'), Val(n, rem')) == After(Val(n, quo), Val(n, y), Val(n, rem), Val(n, x))
  {
    hide Val, Fits, Modulus, BitOr, Sub, AtLeast, Mod, Pow2, Or, Dividing;
    quo', rem' := quo, rem;
    AtLeastVal(n, rem, x);
    if AtLeast(n, rem, x) {
      SubVal(n, rem, x);
      ValBound(n, rem);
      ModSmall(Val(n, rem) - Val(n, x), Modulus(n));
      BitOrVal(n, quo, y);
      OrNext(l, cut, c, k, Val(n, x), Val(n, y), Val(n, quo), Val(n, rem));
      rem', quo' := Sub(n, rem, x), BitOr(n, quo, y);
    }
  }

  lemma CountInside(n: nat, l: nat, r: nat)
    requires n > 0 && l < Modulus(n) && !Unseen(n, r)
    ensures BitsSeen(n, l) - BitsSeen(n, r) < Width(n)
  {
    hide BitsSeen, Unseen, Modulus, BitLength;
    BitsAtMost(n, l);
    BitsAtMost(n, r);
    ModulusIsPow2(n);
    BitLengthBelow(l, Width(n));
  }

  /** A divisor whose bits are counted right is never cut. */
  lemma NotCut(n: nat, l: nat, r: nat)
    requires n > 0 && r <= l < Modulus(n) && 0 < r && BitsSeen(n, r) == BitLength(r) <= BitsSeen(n, l)
    ensures r * Pow2(BitsSeen(n, l) - BitsSeen(n, r)) < Modulus(n)
  {
    hide BitsSeen, Modulus, BitLength, Pow2;
    BitsAtMost(n, l);
    ModulusIsPow2(n);
    BitLengthBelow(l, Width(n));
    BitLengthBounds(r);
    var b, c := BitLength(r), BitsSeen(n, l) - BitLength(r);
    ShiftedBelow(r, b, c);
    Pow2Monotone(b + c, Width(n));
  }

  /**
    * `div`: the quotient and the remainder, or the exception for zero, exactly for the divisible operands. What the
    * exception is raised for is a divisor that tests false.
    */
  method Divide(n: nat, lhs: Num, rhs: Num) returns (d: Division)
    requires n > 0 && Fits(n, lhs) && Fits(n, rhs)
    ensures Correct(n, d, Val(n, lhs), Val(n, rhs)) <==> Divisible(n, Val(n, lhs), Val(n, rhs))
    ensures d.DivisionByZero? <==> Falsy(n, rhs)
    ensures d.Quotient? ==> Fits(n, d.quotient) && Fits(n, d.remainder)
    ensures d.Quotient? && Val(n, d.remainder) >= Val(n, rhs) ==>
      Unseen(n, Val(n, lhs)) && Val(n, d.quotient) == 0 && Val(n, d.remainder) == Val(n, lhs)
    ensures d.Quotient? && BitsSeen(n, Val(n, rhs)) == BitLength(Val(n, rhs)) ==>
      Val(n, d.quotient) * Val(n, rhs) + Val(n, d.remainder) <= Val(n, lhs)
  {
    hide Val, Fits, Of, Modulus, Less, Falsy, Unseen, BitsSeen, BitLength, Div, Mod, Pow2;
    ghost var l, r := Val(n, lhs), Val(n, rhs);
    FalsyVal(n, rhs);
    FalsyVal(n, lhs);
    ZeroUnseen(n);
    if Falsy(n, rhs) { return DivisionByZero; }
    OfVal(n, 0);
    LessVal(n, lhs, rhs);
    if Falsy(n, lhs) || Less(n, lhs, rhs) {
      NothingDone(l, r);
      return Quotient(Of(n, 0), lhs);
    }
    var a := BitsOf(n, lhs);
    var b := BitsOf(n, rhs);
    if a < b { return Undefined; }
    ValBound(n, lhs);
    CountInside(n, l, r);
    d := Subtract(n, lhs, rhs, a - b);
    if b == BitLength(r) { NotCut(n, l, r); }
  }

  lemma NothingDone(l: nat, r: nat)
    requires r > 0
    ensures 0 == l / r && l == l % r <==> l < r
  {
    if l < r { SmallMod(l, r); } else { QuotientPositive(l, r); }
  }

  /** The loop of `div`, from a divisor shifted by c bits. */
  method Subtract(n: nat, lhs: Num, rhs: Num, c: nat) returns (d: Division)
    requires n > 0 && Fits(n, lhs) && Fits(n, rhs) && 0 < Val(n, rhs) <= Val(n, lhs) && c < Width(n)
    ensures d.Quotient? || d.Endless?
    ensures d.Quotient? ==> Fits(n, d.quotient) && Fits(n, d.remainder) && Val(n, d.remainder) < Val(n, rhs)
    ensures Correct(n, d, Val(n, lhs), Val(n, rhs))
       <==> Val(n, rhs) * Pow2(c) < Modulus(n) && Val(n, lhs) < 2 * (Val(n, rhs) * Pow2(c))
    ensures d.Quotient? && Val(n, rhs) * Pow2(c) < Modulus(n) ==>
      Val(n, d.quotient) * Val(n, rhs) + Val(n, d.remainder) <= Val(n, lhs)
  {
    hide Val, Fits, Of, Modulus, AtLeast, Div, Dividing, GoingWell, Pow2;
    ghost var l, r := Val(n, lhs), Val(n, rhs);
    var quotient, remainder := Of(n, 0), lhs;
    OfVal(n, 0);
    var x, y, k, cut := AlignDivisor(n, lhs, rhs, c);
    ghost var good := Good(l, r, cut, c);
    AtLeastVal(n, remainder, rhs);
    while AtLeast(n, remainder, rhs)
      invariant Fits(n, quotient) && Fits(n, remainder) && Fits(n, x) && Fits(n, y)
      invariant AtLeast(n, remainder, rhs) <==> Val(n, remainder) >= r
      invariant Dividing(l, cut, c, k, Val(n, x), Val(n, y), Val(n, quotient), Val(n, remainder))
      invariant good ==> GoingWell(l, r, k, Val(n, x), Val(n, quotient), Val(n, remainder))
      decreases Val(n, x)
    {
      ghost var u, v, quo, rem := Val(n, x), Val(n, y), Val(n, quotient), Val(n, remainder);
      AtLeastVal(n, x, x);
      if x == Of(n, 0) {
        if good { WellEnds(l, r, k, quo, rem); }
        return Endless;
      }
      Round(l, cut, c, k, u, v, quo, rem);
      if good { WellRound(l, r, c, k, u, v, quo, rem); }
      quotient, remainder := SubtractAligned(n, x, y, quotient, remainder, l, cut, c, k);
      ShiftOne(n, x);
      ShiftOne(n, y);
      DivIs(u, 2);
      x, y, k := Shr(n, x, 1), Shr(n, y, 1), k - 1;
      AtLeastVal(n, remainder, rhs);
    }
    Finish(l, r, cut, c, k, Val(n, x), Val(n, y), Val(n, quotient), Val(n, remainder));
    d := Quotient(quotient, remainder);
  }

  /** A division that goes well is over before the shifted divisor has vanished. */
  lemma WellEnds(l: nat, r: nat, k: int, quo: nat, rem: nat)
    requires GoingWell(l, r, k, 0, quo, rem)
    ensures rem < r
  {
  }

  // ---------------------------------------------------------------- where division is right

  lemma AlignInts(l: nat, r: nat, p: nat, a: nat, b: nat)
    requires p > 0 && b > 0 && a == b * p && b <= r < 2 * b && a <= l < 2 * a
    ensures p <= r * p < 2 * a && l < 2 * (r * p)
  {
    MulMonotone(b, p, r, p);
    MulMonotone(1, p, r, p);
    MulAtLeast(p, r, 2 * b);
    assert p * (2 * b) == 2 * a;
  }

  /** The divisor shifted by the difference of the bit lengths. */
  lemma Align(l: nat, r: nat, w: nat)
    requires 0 < r <= l < Pow2(w)
    ensures BitLength(r) <= BitLength(l) <= w && BitLength(l) - BitLength(r) < w
    ensures var p := Pow2(BitLength(l) - BitLength(r));
            p <= r * p < Pow2(w) && l < 2 * (r * p) && (p == 1 ==> r * p <= l)
  {
    BitLengthBounds(l);
    BitLengthBounds(r);
    var a, b := BitLength(l), BitLength(r);
    Exponents(l, b - 1, a);
    Exponents(l, a - 1, w);
    Pow2Add(b - 1, a - b);
    assert Pow2(a) == 2 * Pow2(a - 1) && Pow2(b) == 2 * Pow2(b - 1);
    hide Pow2;
    AlignInts(l, r, Pow2(a - b), Pow2(a - 1), Pow2(b - 1));
    Pow2Monotone(a, w);
  }

  lemma Exponents(v: nat, i: nat, k: nat)
    requires Pow2(i) <= v < Pow2(k)
    ensures i < k
  {
    if i >= k { Pow2Monotone(k, i); }
  }

  /** Operands that are seen and whose bits are counted right are divided right. */
  lemma CountedRight(n: nat, l: nat, r: nat)
    requires n > 0 && l < Modulus(n)
    requires BitsSeen(n, l) == BitLength(l) && BitsSeen(n, r) == BitLength(r)
    requires (l > 0 ==> !Unseen(n, l)) && (r > 0 ==> !Unseen(n, r))
    ensures Divisible(n, l, r)
  {
    hide BitsSeen, Unseen, Modulus, BitLength, Pow2;
    ModulusIsPow2(n);
    if 0 < r <= l { Align(l, r, Width(n)); }
  }

  /** Up to level 2 every division is right. */
  lemma LowLevels(n: nat, l: nat, r: nat)
    requires 0 < n <= 2 && l < Modulus(n) && r < Modulus(n)
    ensures Divisible(n, l, r)
  {
    hide BitsSeen, Unseen, Modulus, BitLength, Divisible;
    UnseenExact(n, l);
    UnseenExact(n, r);
    BitsExact(n, l);
    BitsExact(n, r);
    CountedRight(n, l, r);
  }

  /** At every level values of a single native word are divided right. */
  lemma SingleWords(n: nat, l: nat, r: nat)
    requires n > 0 && l < Modulus(0) && r < Modulus(0)
    ensures Divisible(n, l, r)
  {
    hide BitsSeen, Unseen, Modulus, BitLength, Divisible;
    WordInLevel(n, l);
    WordInLevel(n, r);
    WordSeen(n, l);
    WordSeen(n, r);
    BitsExact(n, l);
    BitsExact(n, r);
    CountedRight(n, l, r);
  }

  lemma WordUnseen(n: nat)
    requires n > 1
    ensures 1 < Modulus(0) < Modulus(n) && !Seen(n, Modulus(0)) && (n > 2 ==> Unseen(n, Modulus(0)))
  {
    hide Modulus, Div, Mod, Square;
    var b := Modulus(0);
    Above(n);
    Above(n - 1);
    DivModUnique(b, 1, 0, b);
    SmallMod(b, Modulus(n - 1));
    ZeroUnseen(n - 1);
    DivIs(b, Modulus(n - 1));
    ModIs(b, Modulus(n - 1));
    ModIs(b, b);
    DivModZero(b);
    if n > 2 {
      Above(n - 2);
      SmallMod(b, Modulus(n - 2));
      DivIs(b, Modulus(n - 2));
    }
  }

  lemma Above(n: nat)
    requires n > 0
    ensures 1 < Modulus(0) < Modulus(n)
  {
    hide Pow2;
    ModulusIsPow2(0);
    ModulusIsPow2(n);
    WidthGrows(n - 1);
    Pow2Monotone(Width(0), Width(n));
  }

  /** From level 3 on 2 to the width of a native word counts as zero: dividing by it throws, and it is never divided. */
  lemma WordIsZero(n: nat, l: nat)
    requires n > 2
    ensures Unseen(n, Modulus(0)) && !Divisible(n, l, Modulus(0)) && !Divisible(n, Modulus(0), 1)
  {
    hide Unseen, Modulus, Reaches;
    WordUnseen(n);
  }
}
