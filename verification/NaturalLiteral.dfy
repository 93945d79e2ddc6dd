/** What the literal operator reads: the digits of both bases, separators, and where a number ends. */
module NaturalLiteral {
  import opened NaturalText

  const LOWER: string := "0123456789abcdef"
  const UPPER: string := "0123456789ABCDEF"

  /** A table of sixteen digits, each in its lower or its upper case. */
  ghost predicate IsTable(table: string) {
    |table| == |LOWER| == |UPPER| == 16 && forall d :: 0 <= d < 16 ==> table[d] == LOWER[d] || table[d] == UPPER[d]
  }

  lemma Tables()
    ensures IsTable(LOWER) && IsTable(UPPER)
  {
  }

  /** The hexadecimal text of a number, its digits taken from a table. */
  function Hex(v: nat, table: string): string
    requires |table| == 16
  {
    if v < 16 then [table[v]] else Hex(v / 16, table) + [table[v % 16]]
  }

  lemma LowerDigit(d: nat)
    requires d < 16
    ensures |LOWER| == 16 && IsDigit(LOWER[d], 16) && DigitOf(LOWER[d]) == d
  {
    assert LOWER == "0123456789" + "abcdef";
    assert d < 10 ==> "0123456789"[d] as int == '0' as int + d;
    assert d >= 10 ==> "abcdef"[d - 10] as int == 'a' as int + (d - 10);
  }

  lemma UpperDigit(d: nat)
    requires d < 16
    ensures |UPPER| == 16 && IsDigit(UPPER[d], 16) && DigitOf(UPPER[d]) == d
  {
    assert UPPER == "0123456789" + "ABCDEF";
    assert d < 10 ==> "0123456789"[d] as int == '0' as int + d;
    assert d >= 10 ==> "ABCDEF"[d - 10] as int == 'A' as int + (d - 10);
  }

  lemma TableDigit(table: string, d: nat)
    requires IsTable(table) && d < 16
    ensures IsDigit(table[d], 16) && DigitOf(table[d]) == d
  {
    hide LOWER, UPPER;
    LowerDigit(d);
    UpperDigit(d);
  }

  lemma {:induction false} HexRead(v: nat, table: string)
    requires IsTable(table)
    ensures forall i :: 0 <= i < |Hex(v, table)| ==> IsDigit(Hex(v, table)[i], 16)
    ensures ReadFrom(Hex(v, table), 16, 0) == v
    decreases v
  {
    hide LOWER, UPPER, IsTable, IsDigit, DigitOf;
    TableSize(table);
    TableDigit(table, v % 16);
    if v < 16 {
      assert Hex(v, table) == [] + [table[v % 16]];
      ReadAppend([], table[v % 16], 16, 0);
    } else {
      HexRead(v / 16, table);
      ReadAppend(Hex(v / 16, table), table[v % 16], 16, 0);
    }
  }

  lemma TableSize(table: string)
    requires IsTable(table)
    ensures |table| == 16
  {
  }

  /** Hexadecimal text behind either prefix, in either case, denotes the number it was made from. */
  lemma LiteralOfHex(v: nat, table: string)
    requires IsTable(table)
    ensures Literal("0x" + Hex(v, table)) == v && Literal("0X" + Hex(v, table)) == v
  {
    hide LOWER, UPPER, IsTable, Hex, ReadFrom;
    TableSize(table);
    HexRead(v, table);
    var s := Hex(v, table);
    assert ("0x" + s)[2..] == s && ("0X" + s)[2..] == s;
  }

  /** So it does in either case alone. */
  lemma LiteralOfCase(v: nat)
    ensures |LOWER| == |UPPER| == 16
    ensures Literal("0x" + Hex(v, LOWER)) == Literal("0x" + Hex(v, UPPER)) == v
    ensures Literal("0X" + Hex(v, LOWER)) == Literal("0X" + Hex(v, UPPER)) == v
  {
    hide Literal, Hex;
    Tables();
    LiteralOfHex(v, LOWER);
    LiteralOfHex(v, UPPER);
  }

  /** The digits of decimal text are those of the table. */
  lemma DecimalDigit(d: nat)
    requires d < 10
    ensures |LOWER| == 16 && Digit(d) == LOWER[d]
  {
    assert LOWER == "0123456789" + "abcdef";
    assert "0123456789"[d] as int == '0' as int + d;
  }

  // ---------------------------------------------------------------- separators

  function Without(s: string): string {
    if s == [] then [] else (if s[0] == '\'' then [] else [s[0]]) + Without(s[1..])
  }

  lemma {:induction false} SeparatorsSkipped(s: string, base: nat, acc: nat)
    requires base == 10 || base == 16
    ensures ReadFrom(s, base, acc) == ReadFrom(Without(s), base, acc)
    decreases |s|
  {
    hide DigitOf;
    if s != [] {
      if s[0] == '\'' {
        assert Without(s) == Without(s[1..]);
        SeparatorsSkipped(s[1..], base, acc);
      } else {
        var rest := Without(s[1..]);
        assert Without(s) == [s[0]] + rest && ([s[0]] + rest)[1..] == rest;
        if IsDigit(s[0], base) { SeparatorsSkipped(s[1..], base, base * acc + DigitOf(s[0])); }
      }
    }
  }

  lemma WithoutStep(s: string)
    requires s != []
    ensures Without(s) == (if s[0] == '\'' then [] else [s[0]]) + Without(s[1..])
  {
  }

  lemma WithoutPrefix(s: string)
    requires IsHex(s)
    ensures IsHex(Without(s)) && Without(s)[2..] == Without(s[2..])
  {
    WithoutStep(s);
    WithoutStep(s[1..]);
    assert s[1..][1..] == s[2..];
    assert Without(s) == [s[0], s[1]] + Without(s[2..]);
  }

  /** A zero and a prefix letter that separators keep apart. */
  lemma ZeroRead(s: string)
    requires IsHex(s)
    ensures ReadFrom(s, 10, 0) == 0
  {
  }

  /**
    * Separators anywhere keep the number, unless they stand within the prefix, where the literal becomes decimal and
    * ends behind its zero.
    */
  lemma Separators(s: string)
    ensures IsHex(s) || !IsHex(Without(s)) ==> Literal(s) == Literal(Without(s))
    ensures !IsHex(s) && IsHex(Without(s)) ==> Literal(s) == 0
  {
    hide ReadFrom, Without;
    SeparatorsSkipped(s, 10, 0);
    if IsHex(s) {
      SeparatorsSkipped(s[2..], 16, 0);
      WithoutPrefix(s);
    } else if IsHex(Without(s)) {
      ZeroRead(Without(s));
    }
  }

  // ---------------------------------------------------------------- the end of a number

  lemma {:induction false} ReadTail(s: string, c: char, t: string, base: nat, acc: nat)
    requires (base == 10 || base == 16) && c != '\'' && !IsDigit(c, base)
    ensures ReadFrom(s + [c] + t, base, acc) == ReadFrom(s, base, acc)
    decreases |s|
  {
    hide DigitOf;
    var all := s + [c] + t;
    if s != [] {
      assert all[0] == s[0] && all[1..] == s[1..] + [c] + t;
      if s[0] == '\'' {
        ReadTail(s[1..], c, t, base, acc);
      } else if IsDigit(s[0], base) {
        ReadTail(s[1..], c, t, base, base * acc + DigitOf(s[0]));
      }
    }
  }

  /** Any other character ends the number, unless it makes a zero before it the prefix. */
  lemma Tail(s: string, c: char, t: string)
    requires c != '\'' && !IsDigit(c, if IsHex(s) then 16 else 10)
    ensures !(s == "0" && (c == 'x' || c == 'X')) ==> Literal(s + [c] + t) == Literal(s)
    ensures s == "0" && (c == 'x' || c == 'X') ==> Literal(s + [c] + t) == ReadFrom(t, 16, 0)
  {
    hide ReadFrom;
    var all := s + [c] + t;
    if IsHex(s) {
      assert all[2..] == s[2..] + [c] + t;
      ReadTail(s[2..], c, t, 16, 0);
    } else if s == "0" && (c == 'x' || c == 'X') {
      assert all[2..] == t;
    } else {
      NoPrefix(s, c, t);
      ReadTail(s, c, t, 10, 0);
    }
  }

  lemma NoPrefix(s: string, c: char, t: string)
    requires !IsHex(s) && !IsDigit(c, 10) && !(s == "0" && (c == 'x' || c == 'X'))
    ensures !IsHex(s + [c] + t)
  {
    var all := s + [c] + t;
    if |s| >= 2 {
      assert all[0] == s[0] && all[1] == s[1];
    } else if |s| == 1 {
      assert all[0] == s[0] && all[1] == c;
      assert s == [s[0]];
    } else {
      assert all[0] == c;
    }
  }
}
