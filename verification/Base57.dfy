/** Base-57 text of fixed-width integers. */
module Base57 {
  import opened Bits
  import opened Arith
  import opened Natural
  import opened NaturalDiv
  import opened NaturalTruth

  /** The table, in its runs of consecutive characters: no 0, 1, I, O or l. */
  const LOOKUP: string :=
    "23456789" + "ABCDEFGH" + "JKLMN" + "PQRSTUVWXYZ" + "abcdefghijk" + "mnopqrstuvwxyz"

  function Power57(k: nat): (p: nat)
    ensures p > 0
  {
    if k == 0 then 1 else 57 * Power57(k - 1)
  }

  /** `ceil(bits / log2(57))`: the least number of symbols with room for every value. */
  function Size(bits: nat): (s: nat)
    ensures Power57(s) >= Pow2(bits)
    ensures s > 0 ==> Power57(s - 1) < Pow2(bits)
  {
    if bits == 0 then 0
    else if Power57(Size(bits - 1)) >= Pow2(bits) then Size(bits - 1)
    else Size(bits - 1) + 1
  }

  /** The decoder's ranges: digits, then letters without I, O and l. */
  function Symbol(c: char): (r: int)
    ensures -1 <= r < 57
  {
    if '2' <= c <= '9' then c as int - '2' as int
    else if 'A' <= c <= 'H' then c as int - ('A' as int - 8)
    else if 'J' <= c <= 'N' then c as int - ('J' as int - 16)
    else if 'P' <= c <= 'Z' then c as int - ('P' as int - 21)
    else if 'a' <= c <= 'k' then c as int - ('a' as int - 32)
    else if 'm' <= c <= 'z' then c as int - ('m' as int - 43)
    else -1
  }

  predicate AllSymbols(s: string) {
    forall i :: 0 <= i < |s| ==> Symbol(s[i]) >= 0
  }

  ghost predicate Run(s: string, first: char) {
    forall k :: 0 <= k < |s| ==> s[k] as int == first as int + k
  }

  lemma Runs()
    ensures Run("23456789", '2') && Run("ABCDEFGH", 'A') && Run("JKLMN", 'J')
    ensures Run("PQRSTUVWXYZ", 'P') && Run("abcdefghijk", 'a') && Run("mnopqrstuvwxyz", 'm')
  {
  }

  lemma TableRuns()
    ensures |LOOKUP| == 57
    ensures forall k :: 0 <= k < 8 ==> LOOKUP[k] as int == '2' as int + (k - 0)
    ensures forall k :: 8 <= k < 16 ==> LOOKUP[k] as int == 'A' as int + (k - 8)
    ensures forall k :: 16 <= k < 21 ==> LOOKUP[k] as int == 'J' as int + (k - 16)
    ensures forall k :: 21 <= k < 32 ==> LOOKUP[k] as int == 'P' as int + (k - 21)
    ensures forall k :: 32 <= k < 43 ==> LOOKUP[k] as int == 'a' as int + (k - 32)
    ensures forall k :: 43 <= k < 57 ==> LOOKUP[k] as int == 'm' as int + (k - 43)
  {
    Runs();
  }

  /** The decoder's ranges invert the encoder's table. */
  lemma SymbolOfLookup(i: nat)
    requires i < 57
    ensures |LOOKUP| == 57 && Symbol(LOOKUP[i]) == i
  {
    hide LOOKUP;
    TableRuns();
  }

  lemma LookupOfSymbol(c: char)
    requires Symbol(c) >= 0
    ensures |LOOKUP| == 57 && LOOKUP[Symbol(c)] == c
  {
    hide LOOKUP;
    TableRuns();
  }

  /** The symbols are the digits and letters but 0, 1, I, O and l, numbered in the order of their codes. */
  lemma TableIs(c: char, d: char)
    ensures Symbol(c) >= 0 <==>
      ('0' <= c <= '9' || 'A' <= c <= 'Z' || 'a' <= c <= 'z')
      && c != '0' && c != '1' && c != 'I' && c != 'O' && c != 'l'
    ensures Symbol(c) >= 0 && Symbol(d) >= 0 ==> (c < d <==> Symbol(c) < Symbol(d))
  {
  }

  /** The number `s` stands for, its first symbol the least significant. */
  function Value(s: string): nat
    requires AllSymbols(s)
  {
    if s == "" then 0 else Symbol(s[0]) + 57 * Value(s[1..])
  }

  /** `Encode::Base57` of a native integer. */
  method Encode(bits: nat, value: nat) returns (result: string)
    requires value < Pow2(bits)
    ensures |result| == Size(bits) && AllSymbols(result) && Value(result) == value
  {
    hide Pow2, Power57, Symbol, Size, Value;
    var size := Size(bits);
    SizeRoom(bits);
    result := "";
    EmptyValue();
    var rest := value;
    while |result| < size
      invariant |result| <= size && AllSymbols(result)
      invariant value == Value(result) + Power57(|result|) * rest
      decreases size - |result|
    {
      SymbolOfLookup(rest % 57);
      AppendSymbol(result, LOOKUP[rest % 57], rest);
      result := result + [LOOKUP[rest % 57]];
      rest := rest / 57;
    }
    if rest > 0 { MulMonotone(Power57(size), 1, Power57(size), rest); }
  }

  lemma SizeRoom(bits: nat)
    ensures Power57(Size(bits)) >= Pow2(bits)
  {
  }

  lemma EmptyValue()
    ensures Value("") == 0 && Power57(0) == 1
  {
  }

  lemma {:induction false} ValueAppend(s: string, c: char)
    requires AllSymbols(s) && Symbol(c) >= 0
    ensures AllSymbols(s + [c]) && Value(s + [c]) == Value(s) + Power57(|s|) * Symbol(c)
  {
    hide Symbol;
    if s == "" {
      assert s + [c] == [c];
    } else {
      assert (s + [c])[1..] == s[1..] + [c];
      ValueAppend(s[1..], c);
      MulAssoc(57, Power57(|s| - 1), Symbol(c));
    }
  }

  lemma AppendSymbol(s: string, c: char, rest: nat)
    requires AllSymbols(s) && Symbol(c) == rest % 57
    ensures AllSymbols(s + [c])
    ensures Value(s + [c]) + Power57(|s + [c]|) * (rest / 57) == Value(s) + Power57(|s|) * rest
  {
    hide Value, Symbol;
    ValueAppend(s, c);
    var p := Power57(|s|);
    assert Power57(|s + [c]|) == 57 * p;
    assert p * (57 * (rest / 57) + rest % 57) == p * (57 * (rest / 57)) + p * (rest % 57);
    MulAssoc(p, 57, rest / 57);
  }

  /** `Decode::Base57`: from the last symbol to the first; one bad character makes the result zero. */
  method Decode(bits: nat, value: string) returns (result: nat)
    ensures result < Pow2(bits)
    ensures AllSymbols(value) ==> result == Value(value) % Pow2(bits)
    ensures !AllSymbols(value) ==> result == 0
  {
    hide Pow2, Value, Mod, Symbol;
    result := 0;
    var n := |value|;
    assert value[n..] == "";
    EmptyValue();
    ModSmall(0, Pow2(bits));
    while n > 0
      invariant 0 <= n <= |value| && AllSymbols(value[n..])
      invariant result == Mod(Value(value[n..]), Pow2(bits))
    {
      n := n - 1;
      if Symbol(value[n]) < 0 {
        return 0;
      }
      assert value[n..] == [value[n]] + value[n + 1..];
      PushSymbol(value[n], value[n + 1..], Pow2(bits));
      result := Mod(result * 57 + Symbol(value[n]), Pow2(bits));
    }
    assert value[0..] == value;
    ModIs(Value(value), Pow2(bits));
  }

  lemma PushSymbol(c: char, s: string, m: nat)
    requires m > 0 && AllSymbols(s) && Symbol(c) >= 0
    ensures AllSymbols([c] + s)
    ensures Mod(Mod(Value(s), m) * 57 + Symbol(c), m) == Mod(Value([c] + s), m)
  {
    hide Symbol;
    assert ([c] + s)[1..] == s;
    var v := Value(s);
    Fundamental(v, m);
    Fundamental(v % m * 57 + Symbol(c), m);
    var q := (v % m * 57 + Symbol(c)) / m;
    MulAssoc(m, v / m, 57);
    assert m * (v / m * 57 + q) == m * (v / m * 57) + m * q;
    DivModUnique(v * 57 + Symbol(c), v / m * 57 + q, (v % m * 57 + Symbol(c)) % m, m);
  }

  lemma {:induction false} ValueInjective(s: string, u: string)
    requires |s| == |u| && AllSymbols(s) && AllSymbols(u) && Value(s) == Value(u)
    ensures s == u
  {
    hide Symbol;
    if s != "" {
      ValueInjective(s[1..], u[1..]);
      LookupOfSymbol(s[0]);
      LookupOfSymbol(u[0]);
      assert s == [s[0]] + s[1..] && u == [u[0]] + u[1..];
    }
  }

  /** Decoding undoes encoding, at every width of a native integer. */
  method ValueRoundTrip(bits: nat, value: nat) returns (result: nat)
    requires value < Pow2(bits)
    ensures result == value
  {
    var text := Encode(bits, value);
    result := Decode(bits, text);
    SmallMod(value, Pow2(bits));
  }

  /** Encoding undoes decoding exactly on the full-length texts that stand for a value of the width. */
  method TextRoundTrip(bits: nat, text: string) returns (result: string)
    requires AllSymbols(text) && |text| == Size(bits)
    ensures result == text <==> Value(text) < Pow2(bits)
  {
    var value := Decode(bits, text);
    result := Encode(bits, value);
    if Value(text) < Pow2(bits) {
      SmallMod(Value(text), Pow2(bits));
      ValueInjective(text, result);
    }
  }

  // ---------------------------------------------------------------- Pairs

  /** Each of the next k divisions by 57 is right. */
  predicate Encodable(n: nat, v: nat, k: nat)
    requires n > 0
  {
    k == 0 || (Divisible(n, v, 57) && Encodable(n, v / 57, k - 1))
  }

  lemma EncodableStep(n: nat, v: nat, k: nat)
    requires n > 0 && k > 0
    ensures Encodable(n, v, k) <==> Divisible(n, v, 57) && Encodable(n, v / 57, k - 1)
  {
  }

  /** Symbols are out, and `rest` is left to encode. */
  ghost predicate Encoding(n: nat, v: nat, rest: nat, size: nat, result: string, exact: bool)
    requires n > 0
  {
    && |result| <= size && AllSymbols(result)
    && (if exact then
          && (Encodable(n, v, size) <==> Encodable(n, rest, size - |result|))
          && Value(result) + Times(Power57(|result|), rest) == v
        else
          && !Encodable(n, v, size)
          && Value(result) + Times(Power57(|result|), rest) < v)
  }

  lemma EncodingStart(n: nat, v: nat, size: nat)
    requires n > 0
    ensures Encoding(n, v, v, size, "", true)
  {
    hide Encodable;
    TimesIs(1, v);
  }

  lemma SymbolKept(s: string, c: char, rest: nat, q: nat, rem: nat)
    requires AllSymbols(s) && Symbol(c) == rem && 57 * q + rem <= rest
    ensures AllSymbols(s + [c])
    ensures Value(s + [c]) + Times(Power57(|s + [c]|), q) <= Value(s) + Times(Power57(|s|), rest)
    ensures 57 * q + rem < rest ==>
      Value(s + [c]) + Times(Power57(|s + [c]|), q) < Value(s) + Times(Power57(|s|), rest)
    ensures 57 * q + rem == rest ==>
      Value(s + [c]) + Times(Power57(|s + [c]|), q) == Value(s) + Times(Power57(|s|), rest)
  {
    hide Value, Symbol, Times, Power57;
    var p := Power57(|s|);
    var left := rest - (57 * q + rem);
    ValueAppend(s, c);
    Power57Step(|s|);
    TimesIs(p, rem);
    TimesSum(p, 57 * q, rem);
    TimesSum(p, 57 * q + rem, left);
    TimesMonotone(p, if left > 0 then 1 else 0, p, left);
    TimesIs(p, 1);
    TimesIs(p, 0);
    TimesIs(57, q);
    TimesAssoc(p, 57, q);
    TimesIs(p, 57);
  }

  lemma Power57Step(k: nat)
    ensures Power57(k + 1) == 57 * Power57(k)
  {
  }

  lemma Divided57(rest: nat, q: nat, rem: nat)
    requires rem < 57 && 57 * q + rem <= rest
    ensures q == rest / 57 && rem == rest % 57 <==> 57 * q + rem == rest
  {
  }

  lemma EncodeSymbol(n: nat, v: nat, rest: nat, size: nat, result: string, exact: bool, q: nat, rem: nat)
    requires n > 0 && Encoding(n, v, rest, size, result, exact) && |result| < size && rem < 57
    requires 57 * q + rem <= rest
    requires q == rest / 57 && rem == rest % 57 <==> Divisible(n, rest, 57)
    ensures |LOOKUP| == 57
    ensures Encoding(n, v, q, size, result + [LOOKUP[rem]], exact && Divisible(n, rest, 57))
  {
    hide Value, Symbol, Times, Power57, LOOKUP, Divisible;
    SymbolOfLookup(rem);
    SymbolKept(result, LOOKUP[rem], rest, q, rem);
    Divided57(rest, q, rem);
    EncodableStep(n, rest, size - |result|);
  }

  lemma EncodingStopped(n: nat, v: nat, rest: nat, size: nat, result: string, exact: bool)
    requires n > 0 && Encoding(n, v, rest, size, result, exact) && |result| < size && !Divisible(n, rest, 57)
    ensures !Encodable(n, v, size)
  {
    hide Value, Symbol, Times, Power57, Divisible;
    EncodableStep(n, rest, size - |result|);
  }

  lemma EncodingDone(n: nat, v: nat, rest: nat, size: nat, result: string, exact: bool)
    requires n > 0 && Encoding(n, v, rest, size, result, exact) && |result| == size && v < Power57(size)
    ensures exact ==> Encodable(n, v, size) && Value(result) == v
    ensures !exact ==> !Encodable(n, v, size) && Value(result) < v
  {
    hide Value, Symbol, Times, Power57, Divisible;
    TimesIs(Power57(size), 0);
    if exact && rest > 0 {
      TimesMonotone(Power57(size), 1, Power57(size), rest);
      TimesIs(Power57(size), 1);
    }
  }

  lemma FiftySeven(n: nat)
    requires n > 0
    ensures 57 < Modulus(0) && 57 < Modulus(n) && BitsSeen(n, 57) == BitLength(57) && !Unseen(n, 57)
  {
    hide Modulus, BitsSeen, BitLength, Unseen;
    WordsLarge();
    WordInLevel(n, 57);
    BitsExact(n, 57);
    WordSeen(n, 57);
  }

  lemma WordsLarge()
    ensures 57 < Modulus(0)
  {
    ModulusIsPow2(0);
    Pow2Monotone(6, Width(0));
    assert Pow2(6) == 2 * Pow2(5) == 4 * Pow2(4) == 8 * Pow2(3) == 16 * Pow2(2) == 32 * Pow2(1);
  }

  /**
    * `Encode::Base57` of a Pair: the text stands for the number exactly for encodable ones; for the others, if there is
    * a text at all, it stands for a smaller number. A remainder beyond the table has no meaning.
    */
  method EncodePair(n: nat, x: Num) returns (ok: bool, result: string)
    requires n > 0 && Fits(n, x)
    ensures ok ==> |result| == Size(Width(n)) && AllSymbols(result)
    ensures ok && Value(result) == Val(n, x) <==> Encodable(n, Val(n, x), Size(Width(n)))
    ensures ok ==> Value(result) <= Val(n, x)
  {
    hide Val, Fits, Of, Modulus, Power57, Symbol, Size, Value, Encoding, Encodable, Divisible, Falsy, Unseen, Pow2;
    hide BitsSeen, BitLength, LOOKUP;
    var size := Size(Width(n));
    ghost var v, exact := Val(n, x), true;
    SizeRoom(Width(n));
    ValBound(n, x);
    ModulusIsPow2(n);
    FiftySeven(n);
    OfVal(n, 57);
    var rest := x;
    result := "";
    EncodingStart(n, v, size);
    LookupLength();
    while |result| < size
      invariant |result| <= size && Fits(n, rest) && AllSymbols(result)
      invariant Encoding(n, v, Val(n, rest), size, result, exact)
      decreases size - |result|
    {
      var division := Divide(n, rest, Of(n, 57));
      if !division.Quotient? || Val(n, division.remainder) >= 57 {
        NotDivisible(n, Val(n, rest), division);
        EncodingStopped(n, v, Val(n, rest), size, result, exact);
        return false, "";
      }
      ghost var q, rem := Val(n, division.quotient), Val(n, division.remainder);
      EncodeSymbol(n, v, Val(n, rest), size, result, exact, q, rem);
      exact := exact && Divisible(n, Val(n, rest), 57);
      SymbolOfLookup(Val(n, division.remainder));
      result := result + [LOOKUP[Val(n, division.remainder)]];
      rest := division.quotient;
    }
    EncodingDone(n, v, Val(n, rest), size, result, exact);
    ok := true;
  }

  lemma LookupLength()
    ensures |LOOKUP| == 57
  {
    hide LOOKUP;
    TableRuns();
  }

  lemma NotDivisible(n: nat, rest: nat, d: Division)
    requires n > 0 && (Correct(n, d, rest, 57) <==> Divisible(n, rest, 57))
    requires d.Quotient? ==> Fits(n, d.remainder) && Val(n, d.remainder) >= 57
    ensures !Divisible(n, rest, 57)
  {
    hide Val, Fits, Divisible;
  }

  /** Decoding undoes the encoding of a Pair exactly for encodable numbers. */
  method PairRoundTrip(n: nat, x: Num) returns (ok: bool, result: nat)
    requires n > 0 && Fits(n, x)
    ensures ok && result == Val(n, x) <==> Encodable(n, Val(n, x), Size(Width(n)))
  {
    hide Val, Fits, Modulus, Value, Size, Encodable, Pow2;
    var text;
    ok, text := EncodePair(n, x);
    result := 0;
    if ok {
      result := Decode(Width(n), text);
      ValBound(n, x);
      ModulusIsPow2(n);
      SmallMod(Value(text), Pow2(Width(n)));
    }
  }

  /** Up to level 2 every number is encodable. */
  lemma {:induction false} LowEncodable(n: nat, v: nat, k: nat)
    requires 0 < n <= 2 && v < Modulus(n)
    ensures Encodable(n, v, k)
    decreases k
  {
    hide Modulus, Divisible;
    FiftySeven(n);
    LowLevels(n, v, 57);
    if k > 0 { LowEncodable(n, v / 57, k - 1); }
  }

  /** From level 3 on, 2 to the width of a native word is not. */
  lemma WordNotEncodable(n: nat, k: nat)
    requires n > 2 && k > 0
    ensures Modulus(0) < Modulus(n) && !Encodable(n, Modulus(0), k)
  {
    hide Modulus, Unseen, Reaches;
    WordUnseen(n);
    WordsLarge();
    EncodableStep(n, Modulus(0), k);
  }
}
