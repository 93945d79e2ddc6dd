/** Rounding up to a power of two by clearing low bits. */
module BitRound {
  import opened Bits

  /** Clearing the lowest bit keeps the highest one, unless it is the same. */
  lemma {:induction false} ClearLowest(x: nat, k: nat)
    requires Pow2(k) <= x < Pow2(k + 1)
    ensures And(x, x - 1) == 0 <==> x == Pow2(k)
    ensures And(x, x - 1) != 0 ==> Pow2(k) <= And(x, x - 1) < x
    decreases x
  {
    if x > 1 {
      var h := x / 2;
      if x % 2 == 1 {
        AndSame(h);
        assert (x - 1) / 2 == h && And(x, x - 1) == 2 * And(h, h);
      } else {
        assert (x - 1) / 2 == h - 1 && And(x, x - 1) == 2 * And(h, h - 1);
        ClearLowest(h, k - 1);
      }
    }
  }

  lemma {:induction false} AndSame(x: nat)
    ensures And(x, x) == x
  {
    if x > 0 { AndSame(x / 2); }
  }

  lemma {:induction false} HighestBit(x: nat) returns (k: nat)
    requires x > 0
    ensures Pow2(k) <= x < Pow2(k + 1)
  {
    if x == 1 {
      k := 0;
    } else {
      k := HighestBit(x / 2);
      k := k + 1;
    }
  }

  lemma Pow2Doubled(k: nat, p: nat, q: nat)
    requires Pow2(k) == p && p * p == q
    ensures Pow2(2 * k) == q
  {
    hide Pow2;
    Pow2Add(k, k);
  }

  lemma Powers()
    ensures Pow2(31) == 0x8000_0000 && Pow2(32) == WORD32 && Pow2(64) == WORD64 && Pow2(128) == WORD128
  {
    Pow2Step(31);
    assert Pow2(1) == 2 * Pow2(0) == 2;
    hide Pow2;
    Pow2Doubled(1, 2, 4);
    Pow2Doubled(2, 4, 16);
    Pow2Doubled(4, 16, 256);
    Pow2Doubled(8, 256, 65536);
    Pow2Doubled(16, 65536, WORD32);
    Pow2Doubled(32, WORD32, WORD64);
    Pow2Doubled(64, WORD64, WORD128);
  }

  /** The width of a range. */
  lemma RangeIsPower(m: WordRange) returns (w: nat)
    ensures w > 0 && m == Pow2(w) && m / 2 == Pow2(w - 1)
  {
    hide Pow2;
    Powers();
    w := if m == WORD64 then 64 else 128;
    Pow2Step(w - 1);
  }

  /** The last doubling leaves the word exactly above half of its range. */
  lemma Doubled(x: nat, k: nat, m: WordRange)
    requires 0 < x < m && x <= Pow2(k) < 2 * x
    ensures Pow2(k) % m == if x > m / 2 then 0 else Pow2(k)
  {
    hide Pow2;
    var w := RangeIsPower(m);
    Pow2Step(w - 1);
    if x > m / 2 {
      if k < w { Pow2Monotone(k, w - 1); }
      if w < k { Pow2Monotone(w + 1, k); Pow2Step(w); }
    } else if w <= k {
      Pow2Monotone(w, k);
    }
  }

  /** The least power of two that is not smaller, as far as the word holds it, and zero for zero. */
  method Round(x: nat, m: WordRange) returns (r: nat, ghost k: nat)
    requires x < m
    ensures x == 0 ==> r == 0
    ensures x > 0 ==> x <= Pow2(k) < 2 * x && r == if x > m / 2 then 0 else Pow2(k)
  {
    hide And, Pow2;
    k := 0;
    if x == 0 { return 0, 0; }
    k := HighestBit(x);
    ClearLowest(x, k);
    if And(x, x - 1) == 0 {
      Doubled(x, k, m);
      return x, k;
    }
    var y := x;
    while And(y, y - 1) != 0
      invariant Pow2(k) <= y <= x && y < Pow2(k + 1) && 0 < y
      decreases y
    {
      ClearLowest(y, k);
      y := And(y, y - 1);
    }
    ClearLowest(y, k);
    Pow2Step(k);
    Doubled(x, k + 1, m);
    return 2 * y % m, k + 1;
  }
}
