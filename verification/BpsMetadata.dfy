/** Reading and replacing the markup of a patch. */
module BpsMetadata {
  import opened Bits
  import opened VarInt
  import opened Crc32
  import opened BpsPatch
  import opened BpsPlan
  import opened Maybe
  import opened Stream
  import PagedFile

  // ---------------------------------------------------------------- what a patch reads

  /** A number reads the same wherever its bytes stand. */
  lemma ParseLocal(s: seq<byte>, at: nat, u: seq<byte>, to: nat)
    requires Parse(s, at).Number? && At(u, to, s[at..Parse(s, at).next])
    ensures Parse(u, to) == Number(Parse(s, at).value, to + (Parse(s, at).next - at))
  {
    hide Parse, Encode;
    EncodeParsed(s, at);
    ParseEncoded(u, to, Parse(s, at).value);
  }

  lemma AtPart(s: seq<byte>, at: nat, u: seq<byte>, to: nat, from: nat, end: nat, last: nat)
    requires at <= from <= end <= last <= |s| && At(u, to, s[at..last])
    ensures At(u, to + (from - at), s[from..end])
  {
    var w := s[at..last];
    assert w == w[..from - at] + w[from - at..];
    AtSplit(u, to, w[..from - at], w[from - at..]);
    assert w[from - at..] == s[from..end] + s[end..last];
    AtSplit(u, to + (from - at), s[from..end], s[end..last]);
  }

  /** A copy reads the same wherever its offset stands. */
  lemma CopyLocal(p: seq<byte>, q: seq<byte>, source: seq<byte>, m: Machine, to: nat, mode: nat, length: nat)
    requires m.out + length <= |m.target| && StepCopy(p, source, m, mode, length).Some?
    requires StepCopy(p, source, m, mode, length).value.at <= |p|
    requires At(q, to, p[m.at..StepCopy(p, source, m, mode, length).value.at])
    ensures var next := StepCopy(p, source, m, mode, length).value;
      StepCopy(q, source, m.(at := to), mode, length) == Some(next.(at := to + (next.at - m.at)))
  {
    hide Parse, Paste, CopyWithin, At, Offset;
    ParseLocal(p, m.at, q, to);
  }

  /** An action reads the same wherever its bytes stand. */
  lemma StepLocal(p: seq<byte>, q: seq<byte>, source: seq<byte>, m: Machine, to: nat)
    requires Step(p, source, m).Some? && Step(p, source, m).value.at <= |p|
    requires At(q, to, p[m.at..Step(p, source, m).value.at])
    ensures var next := Step(p, source, m).value;
      Step(q, source, m.(at := to)) == Some(next.(at := to + (next.at - m.at)))
  {
    hide Parse, Paste, At, StepCopy;
    var last := Step(p, source, m).value.at;
    var next := Parse(p, m.at).next;
    var word := Parse(p, m.at).value % WORD64;
    AtPart(p, m.at, q, to, m.at, next, last);
    ParseLocal(p, m.at, q, to);
    if word % 4 == 1 {
      AtPart(p, m.at, q, to, next, last, last);
      AtData(p, next, last, q, to + (next - m.at));
    } else if word % 4 >= 2 {
      AtPart(p, m.at, q, to, next, last, last);
      CopyLocal(p, q, source, m.(at := next), to + (next - m.at), word % 4, word % WORD32 / 4 + 1);
    }
  }

  lemma AtData(p: seq<byte>, from: nat, end: nat, q: seq<byte>, to: nat)
    requires from <= end <= |p| && At(q, to, p[from..end])
    ensures to + (end - from) <= |q| && q[to..to + (end - from)] == p[from..end]
  {
  }

  /** The patcher's cursor only moves on. */
  lemma {:induction false} RunAdvances(p: seq<byte>, source: seq<byte>, m: Machine)
    ensures Run(p, source, m).1.at >= m.at
    decreases |p| - m.at
  {
    hide Step;
    if m.at + 12 < |p| && Step(p, source, m).Some? { RunAdvances(p, source, Step(p, source, m).value); }
  }

  /** Two patches with the same action bytes run alike, as long as the run ends at the footer. */
  lemma {:induction false} RunLocal(p: seq<byte>, q: seq<byte>, source: seq<byte>, m: Machine, to: nat)
    requires m.at + 12 <= |p| && |q| - to == |p| - m.at && At(q, to, p[m.at..|p| - 12])
    requires Run(p, source, m).0 && Run(p, source, m).1.at + 12 == |p|
    ensures Run(q, source, m.(at := to)) == (true, Run(p, source, m).1.(at := |q| - 12))
    decreases |p| - m.at
  {
    hide Step, At;
    if m.at + 12 < |p| {
      var next := Step(p, source, m).value;
      RunAdvances(p, source, next);
      AtPart(p, m.at, q, to, m.at, next.at, |p| - 12);
      AtPart(p, m.at, q, to, next.at, |p| - 12, |p| - 12);
      StepLocal(p, q, source, m, to);
      RunLocal(p, q, source, next, to + (next.at - m.at));
    }
  }

  // ---------------------------------------------------------------- the new patch

  /** The patch up to its markup, with both sizes rewritten as 64-bit numbers. */
  function Sizes(p: seq<byte>): seq<byte>
    requires |p| >= 4 && ReadHeader(p).Some?
  {
    var a := Parse(p, 4);
    var b := Parse(p, a.next);
    p[..4] + Encode(a.value % WORD64) + Encode(b.value % WORD64)
  }

  predicate HasFooter(p: seq<byte>) {
    |p| >= 4 && ReadHeader(p).Some? && ReadHeader(p).value.at + 12 <= |p|
  }

  /** Everything before the last checksum. */
  function Body(p: seq<byte>, markup: seq<byte>): seq<byte>
    requires HasFooter(p)
  {
    Sizes(p) + Encode(|markup|) + markup + p[ReadHeader(p).value.at..|p| - 4]
  }

  function Replaced(p: seq<byte>, markup: seq<byte>): seq<byte>
    requires HasFooter(p)
  {
    Body(p, markup) + WordBytes(Digest(Body(p, markup)))
  }

  /** The markup of a patch. */
  function Markup(p: seq<byte>): seq<byte>
    requires ReadHeader(p).Some?
  {
    var h := ReadHeader(p).value;
    p[h.at - h.markupSize..h.at]
  }

  lemma SizesSame(v: nat)
    ensures v % WORD64 % WORD64 == v % WORD64
  {
  }

  /** The new patch announces the same sizes, and the new markup. */
  lemma ReplacedHeader(p: seq<byte>, markup: seq<byte>)
    requires HasFooter(p) && |markup| < WORD32
    ensures var q, h := Replaced(p, markup), ReadHeader(p).value;
      && |q| == |Sizes(p)| + |Encode(|markup|)| + |markup| + (|p| - h.at)
      && q[..4] == p[..4]
      && ReadHeader(q) == Some(Header(h.sourceSize, h.targetSize, |markup|, |q| - (|p| - h.at)))
      && Markup(q) == markup
      && At(q, |q| - (|p| - h.at), p[h.at..|p| - 4])
  {
    hide Parse, Encode, At, WordBytes, Digest;
    var q, h := Replaced(p, markup), ReadHeader(p).value;
    var a := Parse(p, 4);
    var b := Parse(p, a.next);
    var x, y, z := Encode(a.value % WORD64), Encode(b.value % WORD64), Encode(|markup|);
    var rest := p[h.at..|p| - 4];
    var tail := WordBytes(Digest(Body(p, markup)));
    assert q == p[..4] + x + y + z + markup + rest + tail;
    AtStart(p[..4] + x + y + z + markup + rest, tail);
    AtSplit(q, 0, p[..4] + x + y + z + markup, rest);
    AtSplit(q, 0, p[..4] + x + y + z, markup);
    AtSplit(q, 0, p[..4] + x + y, z);
    AtSplit(q, 0, p[..4] + x, y);
    AtSplit(q, 0, p[..4], x);
    AtMeans(q, 0, p[..4]);
    AtMeans(q, |p[..4] + x + y + z|, markup);
    ParseEncoded(q, 4, a.value % WORD64);
    ParseEncoded(q, 4 + |x|, b.value % WORD64);
    ParseEncoded(q, 4 + |x| + |y|, |markup|);
    SizesSame(a.value);
    SizesSame(b.value);
    NumberNarrow(|markup|, 4 + |x| + |y| + |z|);
  }

  lemma LongEnough(p: seq<byte>)
    requires HasFooter(p)
    ensures |p| >= 19 && |Sizes(p)| >= 6
  {
    hide Encode;
  }

  lemma CheckBounds(p: seq<byte>, source: seq<byte>, sourceSize: nat, m: Machine)
    requires sourceSize <= |source| && !Check(p, source, sourceSize, m).OutOfBounds?
    ensures m.at + 12 <= |p| && m.out <= |m.target|
  {
  }

  lemma WordSame(p: seq<byte>, i: nat, q: seq<byte>, j: nat)
    requires i + 4 <= |p| && At(q, j, p[i..i + 4])
    ensures j + 4 <= |q| && WordAt(q, j) == WordAt(p, i)
  {
    var w := p[i..i + 4];
    assert w == q[j..j + 4];
    assert w[0] == p[i] && w[1] == p[i + 1] && w[2] == p[i + 2] && w[3] == p[i + 3];
    assert w[0] == q[j] && w[1] == q[j + 1] && w[2] == q[j + 2] && w[3] == q[j + 3];
  }

  /** The footer's first two words are kept, and its last is right. */
  lemma FooterKept(p: seq<byte>, q: seq<byte>, markup: seq<byte>, source: seq<byte>, sourceSize: nat, m: Machine)
    requires HasFooter(p) && q == Replaced(p, markup) && |q| >= 12 && sourceSize <= |source|
    requires m.at + 12 == |p| && m.out <= |m.target| && At(q, |q| - 12, p[|p| - 12..|p| - 4])
    ensures Check(q, source, sourceSize, m.(at := |q| - 12))
         == if Check(p, source, sourceSize, m).PatchChecksumInvalid? then Success else Check(p, source, sourceSize, m)
  {
    hide Digest, WordBytes, WordAt, At, Body;
    AtPart(p, |p| - 12, q, |q| - 12, |p| - 12, |p| - 8, |p| - 4);
    AtPart(p, |p| - 12, q, |q| - 12, |p| - 8, |p| - 4, |p| - 4);
    WordSame(p, |p| - 12, q, |q| - 12);
    WordSame(p, |p| - 8, q, |q| - 8);
    var body := Body(p, markup);
    assert q[..|q| - 4] == body;
    AtEnd(body, WordBytes(Digest(body)));
    WordRoundTrip(q, |body|, Digest(body));
  }

  lemma AtEnd(a: seq<byte>, b: seq<byte>)
    ensures At(a + b, |a|, b)
  {
  }

  /** Replacing the markup keeps what a patch does: the same buffer, the same verdict, and a checksum that now holds. */
  lemma ReplacedApplies(p: seq<byte>, markup: seq<byte>, source: seq<byte>, buffer: seq<byte>)
    requires HasFooter(p) && |markup| < WORD32 && !Interpret(p, source, buffer).status.OutOfBounds?
    ensures var r := Interpret(p, source, buffer);
      Interpret(Replaced(p, markup), source, buffer)
      == if r.status.PatchChecksumInvalid? then Outcome(Success, r.target) else r
  {
    hide ReadHeader, Run, Check, Replaced, Encode, At, HasFooter, Sizes, Markup;
    FooterRoom(p);
    var q, h := Replaced(p, markup), ReadHeader(p).value;
    ReplacedHeader(p, markup);
    LongEnough(p);
    if p[..4] == MAGIC && h.sourceSize <= |source| && h.targetSize <= |buffer| {
      var to := |q| - (|p| - h.at);
      var m := Machine(h.at, 0, 0, 0, buffer);
      var last := Run(p, source, m).1;
      CheckBounds(p, source, h.sourceSize, last);
      AtPart(p, h.at, q, to, h.at, |p| - 12, |p| - 4);
      RunLocal(p, q, source, m, to);
      AtPart(p, h.at, q, to, |p| - 12, |p| - 4, |p| - 4);
      FooterKept(p, q, markup, source, h.sourceSize, last);
    }
  }

  lemma FooterRoom(p: seq<byte>)
    requires HasFooter(p)
    ensures |p| >= 4 && ReadHeader(p).Some? && ReadHeader(p).value.at + 12 <= |p|
  {
  }

  // ---------------------------------------------------------------- the operations

  /** The C string in a byte buffer. */
  function UpToNul(s: seq<byte>): (r: seq<byte>)
    ensures |r| <= |s|
  {
    if s == [] || s[0] == 0 then [] else [s[0]] + UpToNul(s[1..])
  }

  lemma PaddedParse(s: seq<byte>, at: nat)
    requires Parse(s, at).Number?
    ensures Parse(Padded(s), at) == Parse(s, at)
  {
    hide Parse;
    var next := Parse(s, at).next;
    assert Padded(s)[at..next] == s[at..next];
    ParseLocal(s, at, Padded(s), at);
  }

  lemma NumberInside(s: seq<byte>, i: nat)
    requires Parse(s, i).Number?
    ensures NumberAt(s, i) == Parse(s, i)
  {
    hide Parse;
    PaddedParse(s, i);
  }

  /** The three numbers of a header, read off the file. */
  lemma HeaderNumbers(p: seq<byte>)
    requires ReadHeader(p).Some?
    ensures var a := NumberAt(p, 4); var b := NumberAt(p, a.next); var c := NumberAt(p, b.next);
      && a == Parse(p, 4) && b == Parse(p, a.next) && c == Parse(p, b.next)
      && ReadHeader(p).value.markupSize == c.value % WORD64 % WORD32
      && ReadHeader(p).value.at == c.next + c.value % WORD64 % WORD32 <= |p|
  {
    hide Parse, NumberAt;
    NumberInside(p, 4);
    NumberInside(p, Parse(p, 4).next);
    NumberInside(p, Parse(p, Parse(p, 4).next).next);
  }

  lemma SliceInside(s: seq<byte>, i: nat, n: nat)
    requires i + n <= |s|
    ensures Slice(s, i, n) == s[i..i + n]
  {
  }

  lemma ByteInside(s: seq<byte>, i: nat)
    ensures ByteAt(s, i) == if i < |s| then s[i] else 0xff
  {
  }

  /** `load`, from a file of at most 2^31 bytes. */
  method Load(p: seq<byte>) returns (ok: bool, text: seq<byte>)
    requires |p| <= PagedFile.LIMIT
    ensures ok <==> |p| >= 4 && p[..4] == MAGIC
    ensures ok && ReadHeader(p).Some? ==> text == UpToNul(Markup(p))
  {
    hide Parse, UpToNul, ReadHeader, NumberAt, Slice, ByteAt, Reader.Valid;
    var r := new Reader(p);
    for n := 0 to 4
      invariant fresh(r) && fresh(r.file) && fresh(r.file.buffer) && r.Valid() && r.data == p
      invariant r.cursor == n && n <= |p| && p[..n] == MAGIC[..n]
    {
      ByteInside(p, n);
      var b := r.Read();
      if b != MAGIC[n] { return false, []; }
      assert p[..n + 1] == p[..n] + [p[n]];
      assert MAGIC[..n + 1] == MAGIC[..n] + [MAGIC[n]];
    }
    var value := r.ReadNumber(WORD64);
    value := r.ReadNumber(WORD64);
    value := r.ReadNumber(WORD64);
    if ReadHeader(p).Some? {
      HeaderNumbers(p);
      SliceInside(p, r.cursor, value % WORD32);
    }
    var data := r.ReadBytes(value % WORD32);
    return true, UpToNul(data);
  }

  /** The old markup ends before the file does, so that one 32-bit signed seek skips it. */
  lemma Skipped(p: seq<byte>)
    requires HasFooter(p) && |p| <= PagedFile.LIMIT
    ensures Signed32(ReadHeader(p).value.markupSize) == ReadHeader(p).value.markupSize
  {
    hide Parse;
  }

  lemma SizesAre(p: seq<byte>)
    requires HasFooter(p)
    ensures var a := NumberAt(p, 4); var b := NumberAt(p, a.next);
      Sizes(p) == p[..4] + Encode(a.value % WORD64) + Encode(b.value % WORD64)
  {
    hide Parse, Encode;
    HeaderNumbers(p);
  }

  /** The magic and both sizes, and the cursor set behind the length of the old markup. */
  method CopySizes(w: Writer, r: Reader) returns (size: nat)
    requires w.Valid() && w.bytes == [] && r.Valid() && r.cursor == 0
    requires w.file != r.file && w.file.buffer != r.file.buffer
    modifies w, w.file, w.file.buffer, r, r.file, r.file.buffer
    ensures w.Valid() && r.Valid() && size < WORD32
    ensures HasFooter(r.data) ==> w.bytes == Sizes(r.data)
    ensures HasFooter(r.data) ==>
      size == ReadHeader(r.data).value.markupSize && r.cursor + size == ReadHeader(r.data).value.at
  {
    hide Parse, Encode, ReadHeader, NumberAt, ByteAt, Slice, Sizes, HasFooter, Reader.Valid, Writer.Valid;
    ghost var p := r.data;
    for n := 0 to 4
      invariant w.Valid() && r.Valid() && r.cursor == n && w.bytes == Slice(p, 0, n)
    {
      SliceMore(p, 0, n);
      var b := r.Read();
      w.Write(b);
    }
    var value := r.ReadNumber(WORD64);
    w.WriteNumber(value);
    value := r.ReadNumber(WORD64);
    w.WriteNumber(value);
    value := r.ReadNumber(WORD64);
    size := value % WORD32;
    if HasFooter(p) {
      FooterRoom(p);
      SliceInside(p, 0, 4);
      HeaderNumbers(p);
      SizesAre(p);
    }
  }

  /** Everything from the cursor to the last four bytes. */
  method CopyRest(w: Writer, r: Reader)
    requires w.Valid() && r.Valid() && r.cursor <= |r.data| && w.file != r.file && w.file.buffer != r.file.buffer
    modifies w, w.file, w.file.buffer, r, r.file, r.file.buffer
    ensures w.Valid()
    ensures var p, from := r.data, old(r.cursor);
      from + 4 <= |p| ==> w.bytes == old(w.bytes) + p[from..|p| - 4]
  {
    hide ByteAt, Slice, Reader.Valid, Writer.Valid;
    ghost var p, from := r.data, r.cursor;
    AtCursor(r);
    var length := (r.file.size - r.file.offset - 4) % WORD32;
    SliceNothing(p, from);
    for n := 0 to length
      invariant w.Valid() && r.Valid() && r.cursor == from + n && w.bytes == old(w.bytes) + Slice(p, from, n)
    {
      SliceMore(p, from, n);
      var b := r.Read();
      w.Write(b);
    }
    if from + 4 <= |p| {
      AtLimit(r);
      SliceInside(p, from, |p| - 4 - from);
    }
  }

  lemma AtLimit(r: Reader)
    requires r.Valid()
    ensures |r.data| <= PagedFile.LIMIT
  {
  }

  /** `save`, from a file of at most 2^31 bytes: the new one is whole if and only if it has no more than that. */
  method Save(p: seq<byte>, markup: seq<byte>) returns (q: seq<byte>)
    requires |p| <= PagedFile.LIMIT
    ensures HasFooter(p) ==> q == PagedFile.Kept(Replaced(p, markup))
    ensures HasFooter(p) ==> (q == Replaced(p, markup) <==> |Replaced(p, markup)| <= PagedFile.LIMIT)
  {
    hide Register, Encode, WordBytes, ReadHeader, Sizes, PagedFile.Kept, Writer.Valid, Reader.Valid;
    var w := new Writer();
    var r := new Reader(p);
    r.Seek(0);
    var size := CopySizes(w, r);
    w.WriteNumber(|markup|);
    if HasFooter(p) { Skipped(p); FooterRoom(p); }
    r.Skip(size);
    w.WriteAll(markup);
    CopyRest(w, r);
    assert HasFooter(p) ==> w.bytes == Body(p, markup);
    w.WriteDigest();
    if HasFooter(p) { PagedFile.KeptWhole(Replaced(p, markup)); }
    q := w.Close();
  }

  lemma {:induction false} UpToNulWhole(s: seq<byte>)
    requires 0 !in s
    ensures UpToNul(s) == s
  {
    if s != [] { UpToNulWhole(s[1..]); }
  }

  /** The markup saved into a patch is the markup loaded from it. */
  method SaveLoad(p: seq<byte>, markup: seq<byte>) returns (ok: bool, text: seq<byte>)
    requires |p| <= PagedFile.LIMIT && HasFooter(p) && |Replaced(p, markup)| <= PagedFile.LIMIT
    ensures ok <==> p[..4] == MAGIC
    ensures ok ==> text == UpToNul(markup)
    ensures ok && 0 !in markup ==> text == markup
  {
    hide ReadHeader, Replaced, Markup, Sizes, Encode, Digest;
    ReplacedLength(p, markup);
    ReplacedHeader(p, markup);
    var q := Save(p, markup);
    ok, text := Load(q);
    if 0 !in markup { UpToNulWhole(markup); }
  }

  lemma ReplacedLength(p: seq<byte>, markup: seq<byte>)
    requires HasFooter(p)
    ensures |Replaced(p, markup)| >= |markup|
  {
    hide Encode, ReadHeader;
  }
}
