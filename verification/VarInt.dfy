/** The number codings shared by patches and archives: variable-length numbers and four-byte words. */
module VarInt {
  import opened Bits
  import opened Arith

  /** `piece` stands in `s` at index `i`. */
  ghost predicate At(s: seq<byte>, i: nat, piece: seq<byte>) {
    i + |piece| <= |s| && s[i..i + |piece|] == piece
  }

  lemma AtSplit(s: seq<byte>, i: nat, a: seq<byte>, b: seq<byte>)
    requires At(s, i, a + b)
    ensures At(s, i, a) && At(s, i + |a|, b)
  {
    assert s[i..i + |a|] == (a + b)[..|a|] == a;
    assert s[i + |a|..i + |a| + |b|] == (a + b)[|a|..] == b;
  }

  lemma AtJoin(s: seq<byte>, i: nat, a: seq<byte>, b: seq<byte>)
    requires At(s, i, a) && At(s, i + |a|, b)
    ensures At(s, i, a + b)
  {
    assert s[i..i + |a + b|] == s[i..i + |a|] + s[i + |a|..i + |a| + |b|];
  }

  lemma AtOne(s: seq<byte>, i: nat)
    requires i < |s|
    ensures At(s, i, [s[i]])
  {
    var one := s[i..i + 1];
    assert |one| == 1 && one[0] == s[i];
  }

  lemma AtMeans(s: seq<byte>, i: nat, piece: seq<byte>)
    requires At(s, i, piece)
    ensures i + |piece| <= |s| && s[i..i + |piece|] == piece
  {
  }

  lemma AtStart(a: seq<byte>, b: seq<byte>)
    ensures At(a + b, 0, a)
  {
    assert (a + b)[0..0 + |a|] == a;
  }

  /** The bytes of a number: seven bits each, the last one marked by its top bit. */
  function Encode(n: nat): (s: seq<byte>)
    ensures |s| > 0
  {
    if n < 128 then [n + 128] else [n % 128] + Encode(n / 128 - 1)
  }

  /** The numbers of k bytes and fewer are below 128^k. */
  function Power128(k: nat): (p: nat)
    ensures p > 0
  {
    if k == 0 then 1 else 128 * Power128(k - 1)
  }

  lemma {:induction false} EncodeLength(n: nat, k: nat)
    requires k > 0 && n < Power128(k)
    ensures |Encode(n)| <= k
    decreases k
  {
    if n >= 128 { EncodeLength(n / 128 - 1, k - 1); }
  }

  /** A 32-bit number and a little more takes five bytes, a 64-bit one ten. */
  lemma EncodeBytes(n: nat)
    ensures n < 2 * WORD32 ==> |Encode(n)| <= 5
    ensures n < WORD64 ==> |Encode(n)| <= 10
  {
    assert Power128(5) == 0x8_0000_0000 by {
      assert Power128(5) == 128 * Power128(4) == 128 * 128 * Power128(3);
      assert Power128(3) == 128 * Power128(2) == 128 * 128 * Power128(1);
    }
    assert Power128(10) == 0x8_0000_0000 * 0x8_0000_0000 by {
      assert Power128(10) == 128 * Power128(9) == 128 * 128 * Power128(8);
      assert Power128(8) == 128 * Power128(7) == 128 * 128 * Power128(6);
      assert Power128(6) == 128 * Power128(5);
    }
    hide Encode, Power128;
    if n < 2 * WORD32 { EncodeLength(n, 5); }
    if n < WORD64 { EncodeLength(n, 10); }
  }

  /** Only the last byte of a code has its highest bit set. */
  lemma {:induction false} EncodeMarked(n: nat, i: nat)
    requires i < |Encode(n)|
    ensures Encode(n)[i] >= 128 <==> i == |Encode(n)| - 1
    decreases i
  {
    if i > 0 { EncodeMarked(n / 128 - 1, i - 1); }
  }

  /** The weight of the bytes: seven bits each, the k-th 128^k times, and one more for each but the first. */
  function Weight(s: seq<byte>): nat {
    if s == [] then 0
    else
      var last := |s| - 1;
      Weight(s[..last]) + (s[last] % 128 + if last > 0 then 1 else 0) * Power128(last)
  }

  lemma {:induction false} WeightCons(b: byte, t: seq<byte>)
    ensures Weight([b] + t) == b % 128 + if t == [] then 0 else 128 * (Weight(t) + 1)
    decreases |t|
  {
    if t == [] {
      assert ([b] + t)[..0] == [];
    } else {
      var k := |t| - 1;
      assert ([b] + t)[..k + 1] == [b] + t[..k];
      WeightCons(b, t[..k]);
      var x: nat, p := t[k] % 128, Power128(k);
      assert Power128(k + 1) == 128 * p;
      TimesAgain(x + 1, p);
      TimesAgain(x, p);
      if k == 0 { assert t[..k] == []; }
    }
  }

  lemma TimesAgain(x: nat, p: nat)
    ensures x * (128 * p) == 128 * (x * p) && (x + 1) * p == x * p + p
  {
  }

  lemma EncodeNonempty(n: nat)
    ensures |Encode(n)| > 0
  {
  }

  /** The code of a number weighs as much as the number. */
  lemma {:induction false} EncodeWeighs(n: nat)
    ensures Weight(Encode(n)) == n
  {
    hide Weight, Power128;
    if n < 128 {
      WeightCons(n + 128, []);
      assert [n + 128] + [] == Encode(n);
    } else {
      var more := n / 128 - 1;
      EncodeWeighs(more);
      assert Encode(n) == [n % 128] + Encode(more);
      hide Encode;
      WeightCons(n % 128, Encode(more));
      EncodeNonempty(more);
      Fundamental(n, 128);
    }
  }

  /** A number read off a byte string, and the index after it; `Ragged` when the bytes run out. */
  datatype Number = Number(value: nat, next: nat) | Ragged

  function Parse(s: seq<byte>, at: nat): (r: Number)
    ensures r.Number? ==> at < r.next <= |s|
    decreases |s| - at
  {
    if at >= |s| then Ragged
    else if s[at] >= 128 then Number(s[at] - 128, at + 1)
    else match Parse(s, at + 1)
      case Ragged => Ragged
      case Number(v, next) => Number(s[at] + 128 * (v + 1), next)
  }

  /** Whatever follows an encoded number, reading gives it back and stops right after it. */
  lemma {:induction false} ParseEncoded(s: seq<byte>, at: nat, n: nat)
    requires At(s, at, Encode(n))
    ensures Parse(s, at) == Number(n, at + |Encode(n)|)
    decreases n
  {
    assert s[at] == s[at..at + |Encode(n)|][0];
    if n >= 128 {
      AtSplit(s, at, [n % 128], Encode(n / 128 - 1));
      ParseEncoded(s, at + 1, n / 128 - 1);
    }
  }

  /** Writing back what was read gives the bytes that were read: no number has two codes. */
  lemma {:induction false} EncodeParsed(s: seq<byte>, at: nat)
    requires Parse(s, at).Number?
    ensures At(s, at, Encode(Parse(s, at).value))
    ensures Parse(s, at).next == at + |Encode(Parse(s, at).value)|
    decreases |s| - at
  {
    AtOne(s, at);
    if s[at] < 128 {
      EncodeParsed(s, at + 1);
      var v := Parse(s, at + 1).value;
      assert (s[at] + 128 * (v + 1)) / 128 - 1 == v;
      assert Encode(s[at] + 128 * (v + 1)) == [s[at]] + Encode(v);
      AtJoin(s, at, [s[at]], Encode(v));
    }
  }

  /** No code is the beginning of another. */
  lemma PrefixFree(m: nat, n: nat, tail: seq<byte>)
    requires Encode(m) + tail == Encode(n)
    ensures m == n && tail == []
  {
    hide Encode, Parse;
    var s := Encode(n);
    assert s[0..|s|] == s && s[0..|Encode(m)|] == Encode(m);
    ParseEncoded(s, 0, m);
    ParseEncoded(s, 0, n);
  }

  /** Reading past the end of a file gives 0xff, which also ends a number. */
  function Padded(s: seq<byte>): seq<byte> {
    s + [0xff]
  }

  lemma {:induction false} PaddedEnds(s: seq<byte>, at: nat)
    requires at <= |s|
    ensures Parse(Padded(s), at).Number?
    decreases |s| - at
  {
    if at < |s| { PaddedEnds(s, at + 1); }
  }

  // ---------------------------------------------------------------- words

  /** Four little-endian bytes. */
  function WordAt(s: seq<byte>, at: nat): nat
    requires at + 4 <= |s|
  {
    var a: nat, b: nat, c: nat, d: nat := s[at], s[at + 1], s[at + 2], s[at + 3];
    a + 256 * (b + 256 * (c + 256 * d))
  }

  function WordBytes(v: nat): (s: seq<byte>)
    ensures |s| == 4
  {
    [v % 256, v / 256 % 256, v / 256 / 256 % 256, v / 256 / 256 / 256 % 256]
  }

  lemma WordRoundTrip(s: seq<byte>, at: nat, v: nat)
    requires v < WORD32 && At(s, at, WordBytes(v))
    ensures at + 4 <= |s| && WordAt(s, at) == v
  {
    var w := s[at..at + 4];
    assert w == WordBytes(v);
    assert w[0] == s[at] && w[1] == s[at + 1] && w[2] == s[at + 2] && w[3] == s[at + 3];
  }

  // ---------------------------------------------------------------- the loops

  /** What `uintmax` holds of a number. */
  function Held(v: nat): (r: nat)
    ensures r < UINTMAX
  {
    v % UINTMAX
  }

  lemma HeldSmall(v: nat)
    requires v < WORD64
    ensures Held(v) == v
  {
    SmallMod(v, UINTMAX);
  }

  /** What a reader makes of a number. */
  function Wrapped(r: Number, m: WordRange): Number {
    match r
    case Ragged => Ragged
    case Number(v, next) => Number(v % m, next)
  }

  /** The decoding loop: `data` and `shift` are unsigned and wrap. */
  method Read(s: seq<byte>, start: nat, m: WordRange) returns (r: Number)
    ensures r == Wrapped(Parse(s, start), m)
  {
    hide Parse, Mod, Times;
    var at := start;
    var data, shift := 0, 1;
    ghost var sum: nat, scale: nat := 0, 1;
    ModSmall(0, m);
    ModSmall(1, m);
    if Parse(s, at).Number? { TimesIs(1, Parse(s, at).value); }
    while true
      invariant data == Mod(sum, m) && shift == Mod(scale, m)
      invariant Parse(s, at).Ragged? <==> Parse(s, start).Ragged?
      invariant Parse(s, at).Number? ==>
        Parse(s, start) == Number(sum + Times(scale, Parse(s, at).value), Parse(s, at).next)
      decreases |s| - at
    {
      ParseStep(s, at);
      if at >= |s| {
        return Ragged;
      }
      var x := s[at] % 128;
      at := at + 1;
      AddScaled(sum, scale, x, m);
      data := Mod(data + Times(x, shift), m);
      sum := sum + Times(x, scale);
      if s[at - 1] >= 128 {
        ModIs(sum, m);
        ScaledLast(scale, x);
        return Number(data, at);
      }
      if Parse(s, at).Number? { NextScale(sum, scale, x, Parse(s, at).value); }
      ShiftScale(sum, scale, m);
      shift := Mod(128 * shift, m);
      data := Mod(data + shift, m);
      scale := 128 * scale;
      sum := sum + scale;
    }
  }

  lemma ParseStep(s: seq<byte>, at: nat)
    ensures at >= |s| ==> Parse(s, at) == Ragged
    ensures at < |s| && s[at] >= 128 ==> Parse(s, at) == Number(s[at] - 128, at + 1)
    ensures at < |s| && s[at] < 128 ==> (Parse(s, at).Ragged? <==> Parse(s, at + 1).Ragged?)
    ensures at < |s| && s[at] < 128 && Parse(s, at + 1).Number? ==>
      Parse(s, at) == Number(s[at] + 128 * (Parse(s, at + 1).value + 1), Parse(s, at + 1).next)
  {
  }

  lemma AddScaled(sum: nat, scale: nat, x: nat, m: nat)
    requires m > 0
    ensures Times(x, Mod(scale, m)) >= 0 && Times(x, scale) >= 0 && Times(1, scale) == scale
    ensures Mod(Mod(sum, m) + Times(x, Mod(scale, m)), m) == Mod(sum + Times(x, scale), m)
  {
    hide Mod, Times;
    TimesMonotone(0, 0, x, scale);
    TimesMonotone(0, 0, x, Mod(scale, m));
    TimesIs(0, 0);
    TimesIs(1, scale);
    ModSum(sum, Times(x, Mod(scale, m)), m);
    ModProduct(sum, x, scale, m);
  }

  lemma ShiftScale(sum: nat, scale: nat, m: nat)
    requires m > 0
    ensures Mod(128 * Mod(scale, m), m) == Mod(128 * scale, m)
    ensures Mod(Mod(sum, m) + Mod(128 * scale, m), m) == Mod(sum + 128 * scale, m)
  {
    hide Mod, Times;
    ModProduct(0, 128, scale, m);
    TimesIs(128, scale);
    TimesIs(128, Mod(scale, m));
    ModSum(128 * scale, Mod(sum, m), m);
    ModSum(sum, 128 * scale, m);
  }

  lemma ScaledLast(scale: nat, x: nat)
    ensures Times(scale, x) == Times(x, scale)
  {
  }

  lemma NextScale(sum: nat, scale: nat, x: nat, v: nat)
    ensures sum - Times(x, scale) + Times(scale, x + 128 * (v + 1)) == sum + 128 * scale + Times(128 * scale, v)
  {
    hide Times;
    TimesSum(scale, x, 128 * (v + 1));
    TimesSum(scale, 128 * v, 128);
    TimesIs(scale, 128);
    TimesSwap(x, scale);
    TimesIs(128, v);
    TimesIs(128, scale);
    TimesAssoc(scale, 128, v);
    TimesSwap(scale, 128);
  }

  /** The encoding loop. */
  method Write(n: nat) returns (s: seq<byte>)
    ensures s == Encode(n)
  {
    s := [];
    var data := n;
    assert Encode(n) == [] + Encode(data);
    while true
      invariant Encode(n) == s + Encode(data)
      decreases data
    {
      var x := data % 128;
      data := data / 128;
      if data == 0 {
        return s + [128 + x];
      }
      assert s + ([x] + Encode(data - 1)) == (s + [x]) + Encode(data - 1);
      s := s + [x];
      data := data - 1;
    }
  }

  /** A reader recovers the numbers its type has, and no others. */
  method NumberRoundTrip(before: seq<byte>, n: nat, after: seq<byte>, m: WordRange) returns (r: Number)
    ensures r.Number? && r.next == |before| + |Encode(n)|
    ensures r.value == n <==> n < m
  {
    hide Encode, Parse;
    var code := Write(n);
    var s := before + code + after;
    assert s[|before|..|before| + |code|] == code;
    ParseEncoded(s, |before|, n);
    r := Read(s, |before|, m);
  }

  // ---------------------------------------------------------------- signed numbers

  predicate IsSigned(d: int, m: WordRange) {
    -(m / 2) <= d < m / 2
  }

  /** An unsigned pattern read as a signed integer of the same width. */
  function Signed(u: nat, m: WordRange): (d: int)
    requires u < m
    ensures IsSigned(d, m)
  {
    if u < m / 2 then u else u - m
  }

  /** `~data` of a signed integer. */
  function Complement(d: int): int {
    -d - 1
  }

  /** A signed number folded into an unsigned one: the sign in the lowest bit. */
  function Folded(value: int): nat {
    if value < 0 then 2 * (-value - 1) + 1 else 2 * value
  }

  lemma FoldedBack(value: int, m: WordRange)
    requires IsSigned(value, m)
    ensures Folded(value) < m && Folded(value) % m == Folded(value)
    ensures Folded(value) / 2 < m / 2
    ensures value == if Folded(value) % 2 == 1 then -(Folded(value) / 2) - 1 else Folded(value) / 2
  {
    if m == WORD64 { assert Folded(value) < WORD64; } else { assert Folded(value) < WORD128; }
    SmallMod(Folded(value), m);
  }

  /** `writevs`: complemented when negative, shifted, the sign below. */
  method WriteSigned(value: int, m: WordRange) returns (s: seq<byte>)
    requires IsSigned(value, m)
    ensures s == Encode(Folded(value))
  {
    hide Encode;
    FoldedBack(value, m);
    var negate := if value < 0 then 1 else 0;
    var data := value;
    if negate == 1 { data := Complement(data); }
    assert 2 * data + negate == Folded(value);
    s := Write((2 * data + negate) % m);
  }

  lemma HalfModulus(v: nat, m: WordRange)
    requires v < m
    ensures v / 2 < m / 2 && m == 2 * (m / 2)
  {
  }

  /** `readvs`: the complement is taken on the unsigned word. */
  method ReadSigned(s: seq<byte>, start: nat, m: WordRange) returns (r: Number, value: int)
    ensures r == Wrapped(Parse(s, start), m)
    ensures r.Number? ==> value == if r.value % 2 == 1 then -(r.value / 2) - 1 else r.value / 2
  {
    r := Read(s, start, m);
    value := 0;
    if r.Number? {
      var data := r.value / 2;
      HalfModulus(r.value, m);
      if r.value % 2 == 1 { data := m - 1 - data; }
      value := Signed(data, m);
    }
  }

  /** Signed numbers survive, over the whole signed range. */
  method SignedRoundTrip(value: int, m: WordRange) returns (result: int)
    requires IsSigned(value, m)
    ensures result == value
  {
    hide Encode, Parse, Folded;
    var code := WriteSigned(value, m);
    assert code[0..|code|] == code;
    ParseEncoded(code, 0, Folded(value));
    FoldedBack(value, m);
    var r;
    r, result := ReadSigned(code, 0, m);
  }
}
