/** Byte vectors and decimal text of multi-precision naturals. */
module NaturalText {
  import opened Bits
  import opened Arith
  import opened Natural
  import opened NaturalDiv
  import opened NaturalTruth

  // ---------------------------------------------------------------- byte vectors

  lemma WholeBytes(n: nat)
    ensures Width(n) % 8 == 0 && Width(n) >= 64
  {
    if n > 0 { WholeBytes(n - 1); }
  }

  /** `to_vector`. */
  method ToVector(n: nat, value: Num) returns (result: seq<byte>)
    requires Fits(n, value)
    ensures |result| == Width(n) / 8 && BytesVal(result) == Val(n, value)
  {
    hide Val, Fits, Shr, Modulus, Width, Pow2, BytesVal;
    WholeBytes(n);
    Pow2Eight();
    var rest := value;
    var size := Width(n) / 8;
    result := [];
    assert BytesVal([]) == 0 by { BytesEmpty(); }
    assert Pow2(8 * 0) == 1 by { Pow2Zero(); }
    while |result| < size
      invariant |result| <= size && Fits(n, rest)
      invariant BytesVal(result) + Pow2(8 * |result|) * Val(n, rest) == Val(n, value)
      decreases size - |result|
    {
      var b := Val(n, rest) % 256;
      ShiftVal(n, rest, 8);
      TakeByte(result, Val(n, rest), BytesVal(result));
      result := result + [b];
      rest := Shr(n, rest, 8);
    }
    ValBound(n, value);
    ModulusIsPow2(n);
    NothingLeft(Val(n, rest), Modulus(n), BytesVal(result));
  }

  lemma BytesEmpty()
    ensures BytesVal([]) == 0
  {
  }

  lemma Pow2Zero()
    ensures Pow2(0) == 1
  {
  }

  lemma TakeByte(s: seq<byte>, v: nat, done: nat)
    requires done == BytesVal(s)
    ensures BytesVal(s + [v % 256]) + Pow2(8 * |s + [v % 256]|) * Div(v, 256) == done + Pow2(8 * |s|) * v
  {
    hide Pow2, BytesVal;
    var b := v % 256;
    BytesAppend(s, b);
    Pow2Add(8 * |s|, 8);
    Pow2Eight();
    assert 8 * |s + [b]| == 8 * |s| + 8;
    SplitByte(Pow2(8 * |s|), v);
  }

  lemma SplitByte(p: nat, v: nat)
    ensures p * v == p * (v % 256) + (p * 256) * Div(v, 256)
  {
    MulAssoc(p, 256, v / 256);
    assert p * (256 * (v / 256) + v % 256) == p * (256 * (v / 256)) + p * (v % 256);
  }

  lemma NothingLeft(v: nat, m: nat, low: nat)
    requires low + m * v < m
    ensures v == 0
  {
    if v > 0 { MulMonotone(m, 1, m, v); }
  }

  /** The constructor from a byte vector: bytes beyond the width are shifted out. */
  method FromVector(n: nat, value: seq<byte>) returns (r: Num)
    ensures Fits(n, r) && Val(n, r) == BytesVal(value) % Modulus(n)
  {
    hide Val, Fits, Shl, Of, BitOr, Modulus, Width, Pow2, Mod, BytesVal;
    WholeBytes(n);
    Pow2Eight();
    ModulusIsPow2(n);
    ByteFits(n);
    r := Of(n, 0);
    OfVal(n, 0);
    var i := |value|;
    assert BytesVal(value[i..]) == 0 by { BytesEmpty(); assert value[i..] == []; }
    ModSmall(0, Modulus(n));
    while i > 0
      invariant 0 <= i <= |value| && Fits(n, r)
      invariant Val(n, r) == Mod(BytesVal(value[i..]), Modulus(n))
    {
      i := i - 1;
      ghost var v := Val(n, r);
      ShiftVal(n, r, 8);
      OfVal(n, value[i]);
      r := Shl(n, r, 8);
      BitOrVal(n, r, Of(n, value[i]));
      PutByte(Width(n), BytesVal(value[i + 1..]), v, value[i]);
      BytesStep(value, i);
      r := BitOr(n, r, Of(n, value[i]));
    }
    assert value[0..] == value;
    ModIs(BytesVal(value), Modulus(n));
  }

  lemma ByteFits(n: nat)
    ensures Modulus(n) > 255
  {
    Pow2Eight();
    Pow2Monotone(8, Width(n));
  }

  lemma BytesStep(s: seq<byte>, i: nat)
    requires i < |s|
    ensures BytesVal(s[i..]) == s[i] + 256 * BytesVal(s[i + 1..])
  {
    assert s[i..][1..] == s[i + 1..];
  }

  /** Shifting by a byte and or-ing one in. */
  lemma PutByte(w: nat, all: nat, v: nat, b: byte)
    requires w > 8 && v == Mod(all, Pow2(w))
    ensures Or(Mod(v * Pow2(8), Pow2(w)), b) == Mod(b + 256 * all, Pow2(w))
  {
    hide Or, Mod, Pow2, Times;
    var m, q := Pow2(w), Pow2(w - 8);
    Pow2Eight();
    Pow2Add(8, w - 8);
    ShiftedByte(v, b, q, m);
    ModProduct(b, 256, all, m);
    TimesIs(256, all);
    TimesIs(256, v);
  }

  lemma ShiftedByte(v: nat, b: byte, q: nat, m: nat)
    requires q > 0 && m == 256 * q
    ensures Or(Mod(v * 256, m), b) == Mod(b + 256 * v, m)
  {
    hide Or;
    Pow2Eight();
    ScaledRemainder(v, 256, q);
    OrDisjoint(v % q, b, 8);
    Fundamental(v * 256, m);
    DivModUnique(b + 256 * v, v * 256 / m, (v % q) * 256 + b, m);
  }

  /** A number survives the trip through its bytes. */
  method VectorRoundTrip(n: nat, x: Num) returns (y: Num)
    requires Fits(n, x)
    ensures y == x
  {
    var s := ToVector(n, x);
    y := FromVector(n, s);
    hide Val, Fits, Modulus;
    ValBound(n, x);
    SmallMod(Val(n, x), Modulus(n));
    ValInjective(n, x, y);
  }

  /** So do the bytes of the right length. */
  method BytesRoundTrip(n: nat, s: seq<byte>) returns (u: seq<byte>)
    requires |s| == Width(n) / 8
    ensures u == s
  {
    var x := FromVector(n, s);
    u := ToVector(n, x);
    hide Val, Fits, Modulus;
    BytesBound(s);
    WholeBytes(n);
    ModulusIsPow2(n);
    SmallMod(BytesVal(s), Modulus(n));
    BytesInjective(s, u);
  }

  // ---------------------------------------------------------------- decimal and hexadecimal text

  function Digit(d: nat): (c: char)
    requires d < 10
    ensures '0' <= c <= '9' && c as int == '0' as int + d
  {
    ('0' as int + d) as char
  }

  /** The decimal text of a number: no leading zero, except for zero itself. */
  function Decimal(v: nat): (s: string)
    ensures |s| > 0 && (s[0] == '0' <==> v == 0)
    ensures forall i :: 0 <= i < |s| ==> '0' <= s[i] <= '9'
  {
    if v < 10 then [Digit(v)] else Decimal(v / 10) + [Digit(v % 10)]
  }

  function Reversed(s: string): (r: string)
    ensures |r| == |s|
  {
    if s == [] then [] else Reversed(s[1..]) + [s[0]]
  }

  lemma {:induction false} ReversedAt(s: string, k: nat)
    requires k < |s|
    ensures Reversed(s)[k] == s[|s| - 1 - k]
  {
    if k < |s| - 1 { ReversedAt(s[1..], k); }
  }

  lemma {:induction false} ReversedAppend(s: string, c: char)
    ensures Reversed(s + [c]) == [c] + Reversed(s)
  {
    if s == [] {
      assert s + [c] == [c] && Reversed([c]) == Reversed([]) + [c];
    } else {
      assert (s + [c])[1..] == s[1..] + [c];
      ReversedAppend(s[1..], c);
    }
  }

  /** Three digits a byte are enough, because 1000 > 256. */
  lemma {:induction false} DecimalLength(v: nat, bytes: nat)
    requires bytes > 0 && v < Pow2(8 * bytes)
    ensures |Decimal(v)| <= 3 * bytes
  {
    Pow2Eight();
    if v >= 1000 {
      if bytes > 1 {
        Pow2Add(8, 8 * (bytes - 1));
        assert v / 10 / 10 / 10 < Pow2(8 * (bytes - 1));
        DecimalLength(v / 10 / 10 / 10, bytes - 1);
      }
      assert |Decimal(v)| == |Decimal(v / 10 / 10 / 10)| + 3 by {
        assert |Decimal(v)| == |Decimal(v / 10)| + 1;
        assert |Decimal(v / 10)| == |Decimal(v / 10 / 10)| + 1;
        assert |Decimal(v / 10 / 10)| == |Decimal(v / 10 / 10 / 10)| + 1;
      }
    } else if v >= 100 {
      assert |Decimal(v)| == |Decimal(v / 10)| + 1;
      assert |Decimal(v / 10)| == |Decimal(v / 10 / 10)| + 1;
    }
  }

  /** `output[..size]` holds the low digits of `v`, least significant first, and `rest` the number above them. */
  ghost predicate Emitted(v: nat, rest: nat, output: string) {
    Decimal(v) == Decimal(rest) + Reversed(output)
  }

  lemma EmitDigit(v: nat, rest: nat, output: string)
    requires Emitted(v, rest, output)
    ensures rest >= 10 ==> Emitted(v, rest / 10, output + [Digit(rest % 10)])
    ensures rest < 10 ==> Decimal(v) == Reversed(output + [Digit(rest % 10)])
    ensures |output| < |Decimal(v)|
  {
    hide Decimal, Reversed, Digit;
    DecimalStep(rest);
    var digit := Digit(rest % 10);
    ReversedAppend(output, digit);
    if rest >= 10 { Regroup(Decimal(rest / 10), digit, Reversed(output)); }
  }

  lemma Regroup(a: string, c: char, b: string)
    ensures (a + [c]) + b == a + ([c] + b)
  {
  }

  lemma DecimalStep(v: nat)
    ensures |Decimal(v)| > 0
    ensures v < 10 ==> Decimal(v) == [Digit(v % 10)]
    ensures v >= 10 ==> Decimal(v) == Decimal(v / 10) + [Digit(v % 10)]
  {
  }

  // ---------------------------------------------------------------- what is printed

  function Pow10(k: nat): (p: nat)
    ensures p > 0
  {
    if k == 0 then 1 else 10 * Pow10(k - 1)
  }

  lemma Pow10Step(k: nat)
    ensures Pow10(0) == 1 && Pow10(k + 1) == 10 * Pow10(k)
  {
  }

  lemma {:induction false} DecimalLonger(v: nat, k: nat)
    requires Pow10(k) <= v
    ensures k < |Decimal(v)|
  {
    if k > 0 { DecimalLonger(v / 10, k - 1); }
  }

  predicate AllDigits(s: string) {
    forall i :: 0 <= i < |s| ==> IsDigit(s[i], 10)
  }

  lemma {:induction false} ReadShift(s: string, acc: nat)
    requires AllDigits(s)
    ensures ReadFrom(s, 10, acc) == Times(acc, Pow10(|s|)) + ReadFrom(s, 10, 0)
    decreases |s|
  {
    if s == [] {
      TimesIs(acc, 1);
    } else {
      hide Pow10, Times, DigitOf, IsDigit;
      var d := DigitOf(s[0]);
      ReadDigit(s, acc);
      ReadDigit(s, 0);
      ReadShift(s[1..], 10 * acc + d);
      ReadShift(s[1..], d);
      Pow10Step(|s| - 1);
      TimesSum(Pow10(|s| - 1), 10 * acc, d);
      TimesIs(10, acc);
      TimesSwap(10, acc);
      TimesAssoc(acc, 10, Pow10(|s| - 1));
      TimesIs(10, Pow10(|s| - 1));
    }
  }

  lemma ReadDigit(s: string, acc: nat)
    requires s != [] && IsDigit(s[0], 10)
    ensures ReadFrom(s, 10, acc) == ReadFrom(s[1..], 10, 10 * acc + DigitOf(s[0]))
  {
  }

  /** The number that digits stand for, the least significant first. */
  function Number(output: string): nat {
    ReadFrom(Reversed(output), 10, 0)
  }

  lemma {:induction false} ReversedDigits(s: string)
    requires AllDigits(s)
    ensures AllDigits(Reversed(s))
  {
    hide IsDigit;
    if s != [] { ReversedDigits(s[1..]); }
  }

  lemma DigitIs(d: nat)
    requires d < 10
    ensures IsDigit(Digit(d), 10) && DigitOf(Digit(d)) == d
  {
  }

  lemma NumberStep(output: string, d: nat)
    requires AllDigits(output) && d < 10
    ensures AllDigits(output + [Digit(d)])
    ensures Number(output + [Digit(d)]) == Times(d, Pow10(|output|)) + Number(output)
  {
    hide Pow10, Reversed, Times, ReadFrom, IsDigit, DigitOf, Digit;
    var s := Reversed(output);
    DigitIs(d);
    ReversedDigits(output);
    ReversedAppend(output, Digit(d));
    assert ([Digit(d)] + s)[1..] == s;
    ReadDigit([Digit(d)] + s, 0);
    ReadShift(s, d);
  }

  lemma NumberIsLiteral(output: string)
    requires AllDigits(output)
    ensures Literal(Reversed(output)) == Number(output)
  {
    hide Reversed, ReadFrom;
    ReversedDigits(output);
  }

  /** Every division by ten on the way is right, and no quotient that is not zero tests false. */
  predicate Printable(n: nat, v: nat)
    requires n > 0
  {
    Divisible(n, v, 10) && (v < 10 || (Seen(n, v / 10) && Printable(n, v / 10)))
  }

  lemma PrintableStep(n: nat, v: nat)
    requires n > 0
    ensures Printable(n, v) <==> Divisible(n, v, 10) && (v < 10 || (Seen(n, v / 10) && Printable(n, v / 10)))
  {
  }

  /** The text of a number, the least significant digit first; or of a smaller one. */
  ghost predicate Printed(n: nat, v: nat, output: string)
    requires n > 0
  {
    if Printable(n, v) then Reversed(output) == Decimal(v) else Literal(Reversed(output)) < v
  }

  /** Digits are out, and `rest` is left to print. */
  ghost predicate Printing(n: nat, v: nat, rest: nat, output: string, exact: bool)
    requires n > 0
  {
    && AllDigits(output)
    && (if output == [] then rest == v else Seen(n, rest))
    && (if exact then
          && Emitted(v, rest, output) && (Printable(n, v) <==> Printable(n, rest))
          && Number(output) + Times(rest, Pow10(|output|)) == v
        else
          && !Printable(n, v)
          && Number(output) + Times(rest, Pow10(|output|)) < v)
  }

  lemma PrintingRoom(n: nat, v: nat, rest: nat, output: string, exact: bool)
    requires n > 0 && Printing(n, v, rest, output, exact)
    ensures |output| < |Decimal(v)|
  {
    hide Pow10, Decimal, Emitted, Printable, Seen, Times;
    if output != [] {
      ZeroUnseen(n);
      TimesMonotone(1, Pow10(|output|), rest, Pow10(|output|));
      TimesIs(1, Pow10(|output|));
      DecimalLonger(v, |output|);
    }
  }

  lemma PrintingStart(n: nat, v: nat)
    requires n > 0
    ensures Printing(n, v, v, [], true)
  {
    hide Printable;
    NothingEmitted(v);
    TimesIs(v, 1);
  }

  /** What one more digit takes from the rest. */
  lemma NumberKept(output: string, rest: nat, q: nat, rem: nat)
    requires AllDigits(output) && rem < 10 && 10 * q + rem <= rest
    ensures var output' := output + [Digit(rem)];
      && Number(output') + Times(q, Pow10(|output'|)) <= Number(output) + Times(rest, Pow10(|output|))
      && (10 * q + rem < rest ==>
          Number(output') + Times(q, Pow10(|output'|)) < Number(output) + Times(rest, Pow10(|output|)))
      && (10 * q + rem == rest ==>
          Number(output') + Times(q, Pow10(|output'|)) == Number(output) + Times(rest, Pow10(|output|)))
  {
    hide Pow10, Number, Times;
    var p := Pow10(|output|);
    NumberStep(output, rem);
    Pow10Step(|output|);
    TimesSum(p, 10 * q, rem);
    TimesSum(p, 10 * q + rem, rest - (10 * q + rem));
    TimesMonotone(if 10 * q + rem < rest then 1 else 0, p, rest - (10 * q + rem), p);
    TimesIs(1, p);
    TimesIs(0, p);
    TimesIs(10, q);
    TimesSwap(10, q);
    TimesAssoc(q, 10, p);
    TimesIs(10, p);
  }

  lemma TenDivided(rest: nat, q: nat, rem: nat)
    requires rem < 10 && 10 * q + rem <= rest
    ensures q == rest / 10 && rem == rest % 10 <==> 10 * q + rem == rest
  {
  }

  /** One digit, when the division leaves a digit. */
  lemma PrintDigit(n: nat, v: nat, rest: nat, output: string, exact: bool, q: nat, rem: nat)
    requires n > 0 && Printing(n, v, rest, output, exact) && rem < 10 && 10 * q + rem <= rest
    requires q == rest / 10 && rem == rest % 10 <==> Divisible(n, rest, 10)
    ensures var output' := output + [Digit(rem)];
      if Seen(n, q) then Printing(n, v, q, output', exact && Divisible(n, rest, 10)) else Printed(n, v, output')
  {
    hide Pow10, Number, Times, Decimal, Reversed, Digit, Divisible, Seen, Literal, Emitted;
    var output' := output + [Digit(rem)];
    NumberStep(output, rem);
    NumberKept(output, rest, q, rem);
    TenDivided(rest, q, rem);
    PrintableStep(n, rest);
    ZeroUnseen(n);
    if exact && Divisible(n, rest, 10) {
      EmitDigit(v, rest, output);
    }
    if !Seen(n, q) {
      NumberIsLiteral(output');
      TimesMonotone(if q > 0 then 1 else 0, 1, q, Pow10(|output'|));
      TimesIs(1, 1);
      TimesIs(0, 1);
    }
  }

  /** Ten is one native word, which is always seen and counted right. */
  lemma TenCounted(n: nat)
    requires n > 0
    ensures 10 < Modulus(n) && !Unseen(n, 10) && BitsSeen(n, 10) == BitLength(10)
  {
    hide Unseen, BitsSeen, BitLength, Modulus;
    TenFits(0);
    WordInLevel(n, 10);
    WordSeen(n, 10);
    BitsExact(n, 10);
  }

  /** One character, when the number to divide tests false: the division gives it back as the remainder. */
  lemma PrintNothing(n: nat, v: nat, rest: nat, output: string, exact: bool, c: char)
    requires n > 0 && v < Modulus(n) && rest < Modulus(n) && Printing(n, v, rest, output, exact)
    requires Unseen(n, rest) && rest >= 10
    ensures output == [] && Printed(n, v, [c])
  {
    hide Unseen, Seen, Modulus, Decimal, Emitted, Number, Times, Reaches;
    if Seen(n, rest) { SeenNotUnseen(n, rest); }
    assert Reversed([c]) == [c];
    PrintableStep(n, v);
    SingleCharacter(c);
  }

  lemma SingleCharacter(c: char)
    ensures Literal([c]) < 10
  {
    assert [c][1..] == [];
    ReadNothing(0);
    if IsDigit(c, 10) { ReadNothing(DigitOf(c)); }
  }

  lemma ReadNothing(acc: nat)
    ensures ReadFrom([], 10, acc) == acc
  {
  }

  /** `remainder + '0'`, narrowed to a character. */
  function CharacterOf(v: nat): (c: char)
    ensures v < 10 ==> c == Digit(v)
  {
    ((v + '0' as int) % 256) as char
  }

  /** The digits, least significant first, unless a division does not end or has no meaning. */
  method PrintDigits(n: nat, value: Num, output: array<char>) returns (ok: bool, size: nat)
    requires n > 0 && Fits(n, value) && output.Length == 1 + 3 * (Width(n) / 8)
    modifies output
    ensures Printable(n, Val(n, value)) ==> ok
    ensures ok ==> 0 < size < output.Length && Printed(n, Val(n, value), output[..size])
  {
    hide Val, Fits, Of, Modulus, Width, Pow2, Printing, Printed, Printable, Decimal, Seen, Unseen, Truthy, Divisible;
    hide BitsSeen, BitLength, Falsy;
    ghost var v, exact := Val(n, value), true;
    DigitRoom(n, value);
    ValBound(n, value);
    TenCounted(n);
    OfVal(n, 10);
    FalsyVal(n, Of(n, 10));
    var source := value;
    size := 0;
    assert output[..0] == [];
    PrintingStart(n, v);
    var more := true;
    while more
      invariant 0 <= size < output.Length && Fits(n, source) && (more || size > 0)
      invariant if more then Printing(n, v, Val(n, source), output[..size], exact) else Printed(n, v, output[..size])
      decreases more, Val(n, source)
    {
      ghost var rest, before := Val(n, source), output[..size];
      ValBound(n, source);
      PrintingRoom(n, v, rest, before, exact);
      var division := Divide(n, source, Of(n, 10));
      if !division.Quotient? {
        NotPrinted(n, v, rest, before, exact);
        return false, size;
      }
      ghost var q, rem := Val(n, division.quotient), Val(n, division.remainder);
      output[size] := CharacterOf(Val(n, division.remainder));
      size := size + 1;
      assert output[..size] == before + [CharacterOf(rem)];
      source := division.quotient;
      ZeroUnseen(n);
      TruthyVal(n, source);
      more := Truthy(n, source);
      if rem < 10 {
        PrintDigit(n, v, rest, before, exact, q, rem);
        exact := exact && Divisible(n, rest, 10);
      } else {
        PrintNothing(n, v, rest, before, exact, CharacterOf(rem));
        assert before + [CharacterOf(rem)] == [CharacterOf(rem)];
      }
    }
    ok := true;
  }

  lemma NotPrinted(n: nat, v: nat, rest: nat, output: string, exact: bool)
    requires n > 0 && Printing(n, v, rest, output, exact) && !Divisible(n, rest, 10)
    ensures !Printable(n, v)
  {
    hide Printable, Divisible, Seen, Number, Emitted, Times;
    PrintableStep(n, rest);
  }

  /** The digits in their order. */
  method Backwards(output: array<char>, size: nat) returns (data: string)
    requires 0 < size < output.Length
    ensures data == Reversed(output[..size])
  {
    hide Reversed;
    var text := new char[size];
    var x, y := size - 1, 0;
    while x >= 0 && y < size
      invariant x == size - 1 - y && 0 <= y <= size && fresh(text) && text != output && text.Length == size
      invariant forall k :: x < k < size ==> text[k] == output[size - 1 - k]
      decreases x
    {
      text[x] := output[y];
      x, y := x - 1, y + 1;
    }
    data := text[..];
    forall k | 0 <= k < size ensures data[k] == Reversed(output[..size])[k] {
      ReversedAt(output[..size], k);
    }
    assert |Reversed(output[..size])| == size;
  }

  /**
    * `stringify`: repeated division by ten into a buffer, then a reversing copy. The text is the number's exactly for
    * printable numbers; for the others, if there is a text at all, it stands for a smaller number.
    */
  method Stringify(n: nat, value: Num) returns (ok: bool, data: string)
    requires n > 0 && Fits(n, value)
    ensures ok && data == Decimal(Val(n, value)) <==> Printable(n, Val(n, value))
    ensures ok ==> |data| <= 3 * (Width(n) / 8)
    ensures ok && !Printable(n, Val(n, value)) ==> Literal(data) < Val(n, value)
  {
    hide Val, Fits, Width, Printable, Decimal, Reversed, Literal;
    WholeBytes(n);
    var output := new char[1 + 3 * (Width(n) / 8)];
    var size;
    ok, size := PrintDigits(n, value, output);
    data := "";
    if ok {
      data := Backwards(output, size);
      LiteralOfDecimal(Val(n, value));
    }
  }

  /** Pairs of native words are always printed. */
  lemma {:induction false} LowestPrintable(v: nat)
    requires v < Modulus(1)
    ensures Printable(1, v)
    decreases v
  {
    hide Modulus, Divisible, Seen;
    TenCounted(1);
    LowLevels(1, v, 10);
    if v >= 10 {
      SeenExact(1, v / 10);
      LowestPrintable(v / 10);
    }
  }

  /** So are single native words, at every level. */
  lemma {:induction false} WordPrintable(n: nat, v: nat)
    requires n > 0 && v < Modulus(0)
    ensures Printable(n, v)
    decreases v
  {
    hide Modulus, Divisible, Seen;
    TenFits(0);
    SingleWords(n, v, 10);
    if v >= 10 {
      WordSeen(n, v / 10);
      WordPrintable(n, v / 10);
    }
  }

  /** From level 2 on, ten times 2 to the width of a native word is not: the loop stops after its last digit. */
  lemma WordLost(n: nat)
    requires n > 1
    ensures 10 * Modulus(0) < Modulus(n) && !Printable(n, 10 * Modulus(0))
  {
    hide Modulus, Divisible, Seen, Unseen;
    WordUnseen(n);
    PrintableStep(n, 10 * Modulus(0));
    TenFits(0);
    ModulusSquare(1);
    MulMonotone(10, Modulus(0), Modulus(0), Modulus(0));
    LevelsGrow(n);
    StrictSquare(Modulus(0));
  }

  lemma StrictSquare(b: nat)
    requires b > 16
    ensures 10 * b < Square(b)
  {
    MulMonotone(11, b, b, b);
  }

  lemma {:induction false} LevelsGrow(n: nat)
    requires n > 0
    ensures Modulus(1) <= Modulus(n)
  {
    hide Pow2;
    ModulusIsPow2(1);
    ModulusIsPow2(n);
    WidthsGrow(n);
    Pow2Monotone(Width(1), Width(n));
  }

  lemma {:induction false} WidthsGrow(n: nat)
    requires n > 0
    ensures Width(1) <= Width(n)
  {
    if n > 1 { WidthsGrow(n - 1); }
  }

  lemma NothingEmitted(v: nat)
    ensures Emitted(v, v, [])
  {
  }

  lemma DigitRoom(n: nat, x: Num)
    requires Fits(n, x)
    ensures |Decimal(Val(n, x))| <= 3 * (Width(n) / 8)
  {
    hide Val, Fits, Decimal;
    WholeBytes(n);
    ValBound(n, x);
    ModulusIsPow2(n);
    DecimalLength(Val(n, x), Width(n) / 8);
  }

  lemma TenFits(n: nat)
    ensures Modulus(n) > 16
  {
    Pow2Monotone(8, Width(n));
    Pow2Eight();
  }

  predicate IsDigit(c: char, base: nat) {
    '0' <= c <= '9' || (base == 16 && ('a' <= c <= 'f' || 'A' <= c <= 'F'))
  }

  function DigitOf(c: char): (d: nat)
    requires IsDigit(c, 16)
    ensures d < 16 && (IsDigit(c, 10) ==> d < 10)
  {
    if c <= '9' then c as int - '0' as int
    else if c <= 'F' then c as int - 'A' as int + 10
    else c as int - 'a' as int + 10
  }

  /** The digits of `s` read after those of `acc`: separators are skipped, any other character ends the number. */
  function ReadFrom(s: string, base: nat, acc: nat): nat
    requires base == 10 || base == 16
  {
    if s == [] then acc
    else if s[0] == '\'' then ReadFrom(s[1..], base, acc)
    else if IsDigit(s[0], base) then ReadFrom(s[1..], base, base * acc + DigitOf(s[0]))
    else acc
  }

  predicate IsHex(s: string) {
    |s| >= 2 && s[0] == '0' && (s[1] == 'x' || s[1] == 'X')
  }

  /** The number a literal denotes, before it is cut to a width. */
  function Literal(s: string): nat {
    if IsHex(s) then ReadFrom(s[2..], 16, 0) else ReadFrom(s, 10, 0)
  }

  /** One more digit: `(p << 4) + d` or `(p << 3) + (p << 1) + d`. */
  method PushDigit(n: nat, p: Num, base: nat, c: char, ghost acc: nat) returns (r: Num)
    requires Fits(n, p) && (base == 10 || base == 16) && IsDigit(c, base)
    requires Val(n, p) == Mod(acc, Modulus(n))
    ensures Fits(n, r) && Val(n, r) == Mod(base * acc + DigitOf(c), Modulus(n))
  {
    hide Val, Fits, Of, Modulus, Width, Pow2, Shl, Add, Mod;
    TenFits(n);
    var digit := Of(n, DigitOf(c));
    OfVal(n, DigitOf(c));
    if base == 16 {
      SixteenTimes(n, p);
      r := Shl(n, p, 4);
    } else {
      TenTimes(n, p);
      r := Add(n, Shl(n, p, 3), Shl(n, p, 1));
    }
    AddVal(n, r, digit);
    ModSum(base * Val(n, p), DigitOf(c), Modulus(n));
    ModScaled(acc, base, DigitOf(c), Modulus(n));
    r := Add(n, r, digit);
  }

  lemma SixteenTimes(n: nat, p: Num)
    requires Fits(n, p)
    ensures 4 < Width(n) && Val(n, Shl(n, p, 4)) == Mod(16 * Val(n, p), Modulus(n))
  {
    hide Val, Fits, Modulus, Pow2, Shl, Mod;
    SmallPowers();
    ShlBy(n, p, 4, 16);
  }

  lemma TenTimes(n: nat, p: Num)
    requires Fits(n, p)
    ensures 3 < Width(n) && Val(n, Add(n, Shl(n, p, 3), Shl(n, p, 1))) == Mod(10 * Val(n, p), Modulus(n))
  {
    hide Val, Fits, Modulus, Pow2, Shl, Add, Mod;
    var m, v := Modulus(n), Val(n, p);
    SmallPowers();
    ShlBy(n, p, 3, 8);
    ShlBy(n, p, 1, 2);
    AddVal(n, Shl(n, p, 3), Shl(n, p, 1));
    ModSum(8 * v, Mod(2 * v, m), m);
    ModSum(2 * v, 8 * v, m);
  }

  lemma ShlBy(n: nat, p: Num, s: nat, factor: nat)
    requires Fits(n, p) && s < Width(n) && Pow2(s) == factor
    ensures Val(n, Shl(n, p, s)) == Mod(factor * Val(n, p), Modulus(n))
  {
    hide Val, Fits, Modulus, Width, Shl, Mod, Pow2, Shr, Div;
    ShiftVal(n, p, s);
    assert Val(n, p) * Pow2(s) == factor * Val(n, p);
  }

  lemma SmallPowers()
    ensures Pow2(1) == 2 && Pow2(3) == 8 && Pow2(4) == 16
  {
    assert Pow2(4) == 2 * Pow2(3) == 4 * Pow2(2) == 8 * Pow2(1);
  }

  lemma ModScaled(acc: nat, base: nat, d: nat, m: nat)
    requires m > 0
    ensures Mod(base * Mod(acc, m) + d, m) == Mod(base * acc + d, m)
  {
    hide Mod, Times;
    ModProduct(d, base, acc, m);
    TimesIs(base, acc);
    TimesIs(base, Mod(acc, m));
  }

  /** The literal operator: hexadecimal and decimal digits, wrapping at the width. */
  method Parse(n: nat, text: string) returns (p: Num)
    ensures Fits(n, p) && Val(n, p) == Literal(text) % Modulus(n)
  {
    hide Val, Fits, Of, Modulus, Mod, ReadFrom, DigitOf;
    p := Of(n, 0);
    OfVal(n, 0);
    ModSmall(0, Modulus(n));
    var s, base := 0, 10;
    if IsHex(text) {
      s, base := 2, 16;
    }
    ghost var acc: nat := 0;
    assert text[0..] == text;
    while s < |text|
      invariant 0 <= s <= |text| && Fits(n, p) && (base == 10 || base == 16)
      invariant Val(n, p) == Mod(acc, Modulus(n))
      invariant Literal(text) == ReadFrom(text[s..], base, acc)
    {
      var c := text[s];
      ReadStep(text, s, base, acc);
      s := s + 1;
      if c == '\'' {
      } else if IsDigit(c, base) {
        p := PushDigit(n, p, base, c, acc);
        acc := base * acc + DigitOf(c);
      } else {
        ReadEnd(text, s, base, acc);
        ModIs(acc, Modulus(n));
        return;
      }
    }
    ReadEnd(text, s, base, acc);
    ModIs(acc, Modulus(n));
  }

  lemma ReadStep(s: string, i: nat, base: nat, acc: nat)
    requires i < |s| && (base == 10 || base == 16)
    ensures s[i] == '\'' ==> ReadFrom(s[i..], base, acc) == ReadFrom(s[i + 1..], base, acc)
    ensures IsDigit(s[i], base)
      ==> ReadFrom(s[i..], base, acc) == ReadFrom(s[i + 1..], base, base * acc + DigitOf(s[i]))
    ensures s[i] != '\'' && !IsDigit(s[i], base) ==> ReadFrom(s[i..], base, acc) == acc
  {
    assert s[i..][1..] == s[i + 1..];
  }

  lemma ReadEnd(s: string, i: nat, base: nat, acc: nat)
    requires i <= |s| && (base == 10 || base == 16)
    ensures i == |s| ==> ReadFrom(s[i..], base, acc) == acc
  {
  }

  lemma {:induction false} ReadAppend(s: string, c: char, base: nat, acc: nat)
    requires base == 10 || base == 16
    requires forall i :: 0 <= i < |s| ==> IsDigit(s[i], base) || s[i] == '\''
    requires IsDigit(c, base)
    ensures ReadFrom(s + [c], base, acc) == base * ReadFrom(s, base, acc) + DigitOf(c)
  {
    if s == [] {
      assert s + [c] == [c];
    } else {
      assert (s + [c])[1..] == s[1..] + [c];
      ReadAppend(s[1..], c, base, if s[0] == '\'' then acc else base * acc + DigitOf(s[0]));
    }
  }

  /** Decimal text denotes the number it was made from. */
  lemma {:induction false} LiteralOfDecimal(v: nat)
    ensures Literal(Decimal(v)) == v
  {
    var s := Decimal(v);
    if v < 10 {
      assert s == [] + [Digit(v)];
      ReadAppend([], Digit(v), 10, 0);
    } else {
      LiteralOfDecimal(v / 10);
      ReadAppend(Decimal(v / 10), Digit(v % 10), 10, 0);
    }
  }

  /** Reading back the text of a number gives the number exactly when it is printable. */
  method TextRoundTrip(n: nat, x: Num) returns (ok: bool, y: Num)
    requires n > 0 && Fits(n, x)
    ensures ok && y == x <==> Printable(n, Val(n, x))
  {
    hide Val, Fits, Modulus, Literal, Decimal, Printable;
    var s;
    ok, s := Stringify(n, x);
    y := Parse(n, s);
    LiteralOfDecimal(Val(n, x));
    ValBound(n, x);
    if ok {
      SmallMod(Literal(s), Modulus(n));
      if Printable(n, Val(n, x)) { ValInjective(n, x, y); }
    }
  }
}
