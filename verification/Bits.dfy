/** Powers of two and the bit operations of unsigned machine words, over natural numbers. */
module Bits {

  type byte = x: int | 0 <= x < 256

  /** The ranges of 32-bit, 64-bit and 128-bit unsigned integers. */
  const WORD32: nat := 0x1_0000_0000
  const WORD64: nat := 0x1_0000_0000_0000_0000
  const WORD128: nat := 0x1_0000_0000_0000_0000_0000_0000_0000_0000

  /** The range of an unsigned type that is as wide as the machine has them. */
  type WordRange = m: nat | m == WORD64 || m == WORD128 witness WORD64

  /** The range of `uintmax`: 128 bits where the compiler has such integers, 64 elsewhere. */
  const UINTMAX: WordRange

  /** Conversion to a 32-bit signed integer. */
  function Signed32(v: int): (r: int)
    ensures -(WORD32 / 2) <= r < WORD32 / 2
  {
    if v % WORD32 < WORD32 / 2 then v % WORD32 else v % WORD32 - WORD32
  }

  lemma Signed32Small(v: int)
    requires -(WORD32 / 2) <= v < WORD32 / 2
    ensures Signed32(v) == v
  {
  }

  function Pow2(k: nat): (p: nat)
    ensures p > 0
  {
    if k == 0 then 1 else 2 * Pow2(k - 1)
  }

  lemma Pow2Step(k: nat)
    ensures Pow2(0) == 1 && Pow2(k + 1) == 2 * Pow2(k)
  {
  }

  lemma {:induction false} Pow2Add(a: nat, b: nat)
    ensures Pow2(a + b) == Pow2(a) * Pow2(b)
  {
    hide Pow2;
    Pow2Step(b);
    if a > 0 {
      Pow2Add(a - 1, b);
      Pow2Step(a - 1);
      Pow2Step(a - 1 + b);
      DoubleProduct(Pow2(a - 1), Pow2(b));
    }
  }

  lemma DoubleProduct(x: int, y: int)
    ensures 2 * (x * y) == (2 * x) * y
  {
  }

  /** Half of a number of k bits has one bit less. */
  lemma HalfBelow(b: nat, k: nat)
    requires k > 0 && b < Pow2(k)
    ensures b / 2 < Pow2(k - 1)
  {
  }

  lemma {:induction false} Pow2Monotone(a: nat, b: nat)
    requires a <= b
    ensures Pow2(a) <= Pow2(b)
    ensures a < b ==> 2 * Pow2(a) <= Pow2(b)
    decreases b
  {
    if a < b { Pow2Monotone(a, b - 1); }
  }

  lemma MulMonotone(a: nat, b: nat, c: nat, d: nat)
    requires a <= c && b <= d
    ensures a * b <= c * d
  {
    assert a * b <= a * d;
    assert a * d <= c * d;
  }

  /** A number of k bits, shifted by c. */
  lemma ShiftedBelow(m: nat, k: nat, c: nat)
    requires m < Pow2(k)
    ensures m * Pow2(c) < Pow2(k + c)
  {
    hide Pow2;
    Pow2Add(k, c);
    MulAtLeast(Pow2(c), m, Pow2(k));
  }

  lemma ShiftedAbove(m: nat, k: nat, c: nat)
    requires Pow2(k) <= m
    ensures Pow2(k + c) <= m * Pow2(c)
  {
    hide Pow2;
    Pow2Add(k, c);
    MulMonotone(Pow2(k), Pow2(c), m, Pow2(c));
  }

  // ---------------------------------------------------------------- bit operations

  function And(a: nat, b: nat): nat {
    if a == 0 || b == 0 then 0
    else (if a % 2 == 1 && b % 2 == 1 then 1 else 0) + 2 * And(a / 2, b / 2)
  }

  function Or(a: nat, b: nat): nat {
    if a == 0 then b
    else if b == 0 then a
    else (if a % 2 == 1 || b % 2 == 1 then 1 else 0) + 2 * Or(a / 2, b / 2)
  }

  function Xor(a: nat, b: nat): nat {
    if a == 0 then b
    else if b == 0 then a
    else (if a % 2 != b % 2 then 1 else 0) + 2 * Xor(a / 2, b / 2)
  }

  lemma AndDouble(a: nat, b: nat, c: nat, d: nat, e: nat)
    requires And(a + b / 2, c + d / 2) == e + And(b / 2, d / 2)
    ensures And(2 * a + b, 2 * c + d) == 2 * e + And(b, d)
  {
    assert (2 * a + b) / 2 == a + b / 2 && (2 * c + d) / 2 == c + d / 2;
  }

  lemma OrDouble(a: nat, b: nat, c: nat, d: nat, e: nat)
    requires Or(a + b / 2, c + d / 2) == e + Or(b / 2, d / 2)
    ensures Or(2 * a + b, 2 * c + d) == 2 * e + Or(b, d)
  {
    assert (2 * a + b) / 2 == a + b / 2 && (2 * c + d) / 2 == c + d / 2;
  }

  /** a * 2^k by repeated doubling. */
  function Scale(a: nat, k: nat): nat {
    if k == 0 then a else 2 * Scale(a, k - 1)
  }

  lemma ScaleStep(a: nat, k: nat)
    ensures Scale(a, k) == if k == 0 then a else 2 * Scale(a, k - 1)
  {
  }

  lemma NoBits(b: nat, d: nat)
    requires b < Pow2(0) && d < Pow2(0)
    ensures b == 0 && d == 0 && And(b, d) == 0 && Or(b, d) == 0
  {
  }

  lemma {:induction false} ScaleMultiplies(a: nat, k: nat)
    ensures Scale(a, k) == a * Pow2(k)
  {
    hide Pow2, Scale;
    ScaleStep(a, k);
    Pow2Step(if k > 0 then k - 1 else 0);
    if k > 0 {
      ScaleMultiplies(a, k - 1);
      DoubleProduct(Pow2(k - 1), a);
    }
  }

  lemma {:induction false} AndScale(a: nat, b: nat, c: nat, d: nat, k: nat)
    requires b < Pow2(k) && d < Pow2(k)
    ensures And(Scale(a, k) + b, Scale(c, k) + d) == Scale(And(a, c), k) + And(b, d)
  {
    hide And, Pow2, Scale;
    ScaleStep(a, k);
    ScaleStep(c, k);
    ScaleStep(And(a, c), k);
    if k == 0 {
      NoBits(b, d);
    } else {
      HalfBelow(b, k);
      HalfBelow(d, k);
      AndScale(a, b / 2, c, d / 2, k - 1);
      AndDouble(Scale(a, k - 1), b, Scale(c, k - 1), d, Scale(And(a, c), k - 1));
    }
  }

  lemma {:induction false} OrScale(a: nat, b: nat, c: nat, d: nat, k: nat)
    requires b < Pow2(k) && d < Pow2(k)
    ensures Or(Scale(a, k) + b, Scale(c, k) + d) == Scale(Or(a, c), k) + Or(b, d)
  {
    hide Or, Pow2, Scale;
    ScaleStep(a, k);
    ScaleStep(c, k);
    ScaleStep(Or(a, c), k);
    if k == 0 {
      NoBits(b, d);
    } else {
      HalfBelow(b, k);
      HalfBelow(d, k);
      OrScale(a, b / 2, c, d / 2, k - 1);
      OrDouble(Scale(a, k - 1), b, Scale(c, k - 1), d, Scale(Or(a, c), k - 1));
    }
  }

  /** Bit operations work on the upper and the lower bits separately. */
  lemma AndSplit(a: nat, b: nat, c: nat, d: nat, k: nat)
    requires b < Pow2(k) && d < Pow2(k)
    ensures And(a * Pow2(k) + b, c * Pow2(k) + d) == And(a, c) * Pow2(k) + And(b, d)
  {
    AndScale(a, b, c, d, k);
    ScaleMultiplies(a, k);
    ScaleMultiplies(c, k);
    ScaleMultiplies(And(a, c), k);
  }

  lemma OrSplit(a: nat, b: nat, c: nat, d: nat, k: nat)
    requires b < Pow2(k) && d < Pow2(k)
    ensures Or(a * Pow2(k) + b, c * Pow2(k) + d) == Or(a, c) * Pow2(k) + Or(b, d)
  {
    OrScale(a, b, c, d, k);
    ScaleMultiplies(a, k);
    ScaleMultiplies(c, k);
    ScaleMultiplies(Or(a, c), k);
  }

  lemma {:induction false} WordBounds(a: nat, b: nat, k: nat)
    requires a < Pow2(k) && b < Pow2(k)
    ensures And(a, b) < Pow2(k) && Or(a, b) < Pow2(k) && Xor(a, b) < Pow2(k)
  {
    if k > 0 { WordBounds(a / 2, b / 2, k - 1); }
  }

  /** Masking with k ones takes the remainder. */
  lemma {:induction false} AndMask(a: nat, k: nat)
    ensures And(a, Pow2(k) - 1) == a % Pow2(k)
  {
    if k == 0 {
      ModByOne(a);
    } else {
      hide And, Pow2;
      Pow2Step(k - 1);
      AndOdd(a, Pow2(k - 1) - 1);
      AndMask(a / 2, k - 1);
      ModDouble(a, Pow2(k - 1));
    }
  }

  lemma ModByOne(a: nat)
    ensures a % 1 == 0
  {
  }

  lemma AndOdd(a: nat, b: nat)
    ensures And(a, 2 * b + 1) == a % 2 + 2 * And(a / 2, b)
  {
    assert (2 * b + 1) / 2 == b;
  }

  lemma ModDouble(a: nat, p: nat)
    requires p > 0
    ensures a % (2 * p) == 2 * (a / 2 % p) + a % 2
  {
    var h := a / 2;
    Fundamental(h, p);
    assert (2 * p) * (h / p) == 2 * (p * (h / p));
    DivModUnique(a, h / p, 2 * (h % p) + a % 2, 2 * p);
  }

  lemma Fundamental(x: int, m: int)
    requires m > 0
    ensures x == m * (x / m) + x % m && 0 <= x % m < m
  {
  }

  lemma MulAtLeast(m: int, a: int, b: int)
    requires m > 0 && a < b
    ensures m * a + m <= m * b
  {
    var d := b - a;
    assert m * d >= m;
    assert m * (a + d) == m * a + m * d;
  }

  lemma DivModUnique(x: int, q: int, r: int, m: int)
    requires 0 <= r < m && x == m * q + r
    ensures x / m == q && x % m == r
  {
    Fundamental(x, m);
    if q < x / m {
      MulAtLeast(m, q, x / m);
    } else if x / m < q {
      MulAtLeast(m, x / m, q);
    }
  }

  /** Bits put below a multiple of a power of two are added. */
  lemma OrDisjoint(a: nat, b: nat, k: nat)
    requires b < Pow2(k)
    ensures Or(a * Pow2(k), b) == a * Pow2(k) + b
  {
    OrScale(a, 0, 0, b, k);
    ScaleMultiplies(a, k);
    ScaleMultiplies(0, k);
  }
}
