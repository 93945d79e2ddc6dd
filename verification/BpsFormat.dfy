/** The patch format in its own terms: what each action writes, and when the patcher refuses with which code. */
module BpsFormat {
  import opened Bits
  import opened VarInt
  import opened Crc32
  import opened Crc32Remainder
  import opened Maybe
  import opened BpsPatch
  import opened BpsPlan
  import opened BpsMetadata
  import BpsLinear
  import BpsDelta
  import PagedFile

  // ---------------------------------------------------------------- what an action writes

  /** Overlapping copies repeat what they have written; others take what was there. */
  lemma {:induction false} CopiedByte(t: seq<byte>, from: nat, to: nat, length: nat, k: nat)
    requires from + length <= |t| && to + length <= |t| && k < length
    ensures var r := CopyWithin(t, from, to, length);
      r[to + k] == if from < to then r[from + k] else t[from + k]
    decreases length
  {
    var next, r := t[to := t[from]], CopyWithin(t, from, to, length);
    CopyUnfold(t, from, to, length);
    CopiedElsewhere(next, from + 1, to + 1, length - 1);
    if k == 0 {
      if from < to { SlicePoint(r, next, to + 1, from); }
      SlicePoint(r, next, to + 1, to);
    } else {
      CopiedByte(next, from + 1, to + 1, length - 1, k - 1);
    }
  }

  lemma SlicePoint(r: seq<byte>, t: seq<byte>, end: nat, k: nat)
    requires k < end <= |r| && end <= |t| && r[..end] == t[..end]
    ensures r[k] == t[k]
  {
    assert r[k] == r[..end][k] == t[..end][k];
  }

  lemma {:induction false} CopiedElsewhere(t: seq<byte>, from: nat, to: nat, length: nat)
    requires from + length <= |t| && to + length <= |t|
    ensures var r := CopyWithin(t, from, to, length);
      r[..to] == t[..to] && r[to + length..] == t[to + length..]
    decreases length
  {
    CopyUnfold(t, from, to, length);
    if length > 0 {
      var next, r := t[to := t[from]], CopyWithin(t, from, to, length);
      CopiedElsewhere(next, from + 1, to + 1, length - 1);
      assert r[..to] == r[..to + 1][..to] == next[..to + 1][..to] == t[..to];
      assert next[to + length..] == t[to + length..];
    }
  }

  lemma PastedBytes(t: seq<byte>, to: nat, bytes: seq<byte>)
    requires to + |bytes| <= |t|
    ensures var r := Paste(t, to, bytes);
      r[..to] == t[..to] && r[to..to + |bytes|] == bytes && r[to + |bytes|..] == t[to + |bytes|..]
  {
  }

  /** A relative offset in 32 bits: 31 bits of a signed magnitude, and below them a bit that turns the sign. */
  function Displacement(v: nat): int {
    var magnitude := v % WORD32 / 2;
    var d := if magnitude < 0x4000_0000 then magnitude else magnitude - 0x8000_0000;
    if v % 2 == 1 then -d else d
  }

  lemma OffsetDisplaces(v: nat)
    ensures Offset(v) == Displacement(v)
  {
    var low := v % WORD32;
    ModDouble(v, WORD32 / 2);
    DivModUnique(low, v / 2 % (WORD32 / 2), v % 2, 2);
  }

  /** The action of a number: its two lowest bits are the mode, the others the length less one. */
  ghost predicate Acts(patch: seq<byte>, source: seq<byte>, m: Machine, mode: nat, length: nat, n: Machine) {
    && Step(patch, source, m) == Some(n) && Parse(patch, m.at).Number?
    && mode == Parse(patch, m.at).value % 4 && length == Parse(patch, m.at).value % WORD32 / 4 + 1
  }

  lemma CutTwice(v: nat)
    ensures v % WORD64 % WORD32 == v % WORD32
  {
    Fundamental(v, WORD64);
    Fundamental(v % WORD64, WORD32);
    DivModUnique(v, WORD32 * (v / WORD64) + v % WORD64 / WORD32, v % WORD64 % WORD32, WORD32);
  }

  lemma ModeIs(v: nat)
    ensures v % WORD64 % 4 == v % 4
  {
    Fundamental(v, WORD64);
    Fundamental(v % WORD64, 4);
    DivModUnique(v, WORD64 / 4 * (v / WORD64) + v % WORD64 / 4, v % WORD64 % 4, 4);
  }

  lemma ActsNumber(patch: seq<byte>, source: seq<byte>, m: Machine, mode: nat, length: nat, n: Machine)
    requires Acts(patch, source, m, mode, length, n)
    ensures Step(patch, source, m) == Some(n) && Parse(patch, m.at).Number?
    ensures var r := Wrapped(Parse(patch, m.at), WORD64);
      r.Number? && r.next == Parse(patch, m.at).next && r.value % 4 == mode && r.value % WORD32 / 4 + 1 == length
  {
    hide Parse, Step;
    ModeIs(Parse(patch, m.at).value);
    CutTwice(Parse(patch, m.at).value);
  }

  /** Mode 0 takes bytes of the source at the output's own place. */
  lemma SourceReadAction(patch: seq<byte>, source: seq<byte>, m: Machine, length: nat, n: Machine)
    requires Acts(patch, source, m, 0, length, n)
    ensures n.out == m.out + length <= |m.target| == |n.target|
    ensures n.target[..m.out] == m.target[..m.out] && n.target[n.out..] == m.target[n.out..]
    ensures n.at == Parse(patch, m.at).next && n.sourceRel == m.sourceRel && n.targetRel == m.targetRel
    ensures n.out <= |source| && n.target[m.out..n.out] == source[m.out..n.out]
  {
    hide Parse, Paste, StepCopy, Acts, Wrapped;
    ActsNumber(patch, source, m, 0, length, n);
    PastedBytes(m.target, m.out, source[m.out..m.out + length]);
  }

  /** Mode 1 takes the bytes of the patch behind the number. */
  lemma TargetReadAction(patch: seq<byte>, source: seq<byte>, m: Machine, length: nat, n: Machine)
    requires Acts(patch, source, m, 1, length, n)
    ensures n.out == m.out + length <= |m.target| == |n.target|
    ensures n.target[..m.out] == m.target[..m.out] && n.target[n.out..] == m.target[n.out..]
    ensures n.sourceRel == m.sourceRel && n.targetRel == m.targetRel
    ensures var next := Parse(patch, m.at).next;
      n.at == next + length <= |patch| && n.target[m.out..n.out] == patch[next..next + length]
  {
    hide Parse, Paste, StepCopy, Acts, Wrapped;
    ActsNumber(patch, source, m, 1, length, n);
    var next := Parse(patch, m.at).next;
    PastedBytes(m.target, m.out, patch[next..next + length]);
  }

  /** Mode 2 moves a cursor of its own, in 32 bits, and takes bytes of the source from there. */
  lemma SourceCopyAction(patch: seq<byte>, source: seq<byte>, m: Machine, length: nat, n: Machine)
    requires Acts(patch, source, m, 2, length, n)
    ensures n.out == m.out + length <= |m.target| == |n.target|
    ensures n.target[..m.out] == m.target[..m.out] && n.target[n.out..] == m.target[n.out..]
    ensures var offset := Parse(patch, Parse(patch, m.at).next);
      offset.Number? && n.at == offset.next && n.targetRel == m.targetRel
      && var from := (m.sourceRel + Displacement(offset.value)) % WORD32;
         n.sourceRel == from + length <= |source| && n.target[m.out..n.out] == source[from..from + length]
  {
    hide Parse, Paste, Offset, Displacement, Acts;
    ActsNumber(patch, source, m, 2, length, n);
    OffsetCut(Parse(patch, Parse(patch, m.at).next));
    PastedBytes(m.target, m.out, source[n.sourceRel - length..n.sourceRel]);
  }

  /** Mode 3 does so within the target, where it repeats its own bytes when it overlaps them. */
  lemma TargetCopyAction(patch: seq<byte>, source: seq<byte>, m: Machine, length: nat, n: Machine, k: nat)
    requires Acts(patch, source, m, 3, length, n) && k < length
    ensures n.out == m.out + length <= |m.target| == |n.target|
    ensures n.target[..m.out] == m.target[..m.out] && n.target[n.out..] == m.target[n.out..]
    ensures var offset := Parse(patch, Parse(patch, m.at).next);
      offset.Number? && n.at == offset.next && n.sourceRel == m.sourceRel
      && var from := (m.targetRel + Displacement(offset.value)) % WORD32;
         n.targetRel == from + length <= |n.target|
         && n.target[m.out + k] == if from < m.out then n.target[from + k] else m.target[from + k]
  {
    hide Parse, CopyWithin, Offset, Displacement, Acts;
    ActsNumber(patch, source, m, 3, length, n);
    OffsetCut(Parse(patch, Parse(patch, m.at).next));
    CopiedElsewhere(m.target, n.targetRel - length, m.out, length);
    CopiedByte(m.target, n.targetRel - length, m.out, length, k);
  }

  lemma OffsetCut(offset: Number)
    ensures offset.Number? ==> Offset(offset.value % WORD64) == Displacement(offset.value)
  {
    hide Offset, Displacement;
    if offset.Number? {
      OffsetDisplaces(offset.value % WORD64);
      CutTwice(offset.value);
      ParityCut(offset.value);
      SameDisplacement(offset.value % WORD64, offset.value);
    }
  }

  lemma ParityCut(v: nat)
    ensures v % WORD64 % 2 == v % 2
  {
    ModDouble(v, WORD64 / 2);
    DivModUnique(2 * (v / 2 % (WORD64 / 2)) + v % 2, v / 2 % (WORD64 / 2), v % 2, 2);
  }

  lemma SameDisplacement(u: nat, v: nat)
    requires u % WORD32 == v % WORD32 && u % 2 == v % 2
    ensures Displacement(u) == Displacement(v)
  {
  }

  // ---------------------------------------------------------------- refusals before the first action

  /** Patches that are too short, or do not begin with "BPS1", change nothing and get a code of their own. */
  lemma Unreadable(patch: seq<byte>, source: seq<byte>, buffer: seq<byte>)
    ensures var r := Interpret(patch, source, buffer);
      && (r.status == PatchTooSmall <==> |patch| < 19)
      && (r.status == PatchInvalidHeader <==> |patch| >= 19 && patch[..4] != [0x42, 0x50, 0x53, 0x31])
      && (r.status == PatchTooSmall || r.status == PatchInvalidHeader ==> r.target == buffer)
  {
    hide Digest, WordAt, Run, ReadHeader;
  }

  /** The three numbers that stand behind the signature, and the markup that the third one measures. */
  ghost predicate Numbers(patch: seq<byte>, a: Number, b: Number, c: Number) {
    && |patch| >= 19 && patch[0..4] == [0x42, 0x50, 0x53, 0x31]
    && a.Number? && b.Number? && c.Number?
    && a == Parse(patch, 4) && b == Parse(patch, a.next) && c == Parse(patch, b.next)
    && c.next + c.value % WORD32 <= |patch|
  }

  lemma NumbersHeader(patch: seq<byte>, a: Number, b: Number, c: Number)
    requires Numbers(patch, a, b, c)
    ensures ReadHeader(patch)
         == Some(Header(a.value % WORD32, b.value % WORD32, c.value % WORD32, c.next + c.value % WORD32))
  {
    hide Parse;
    CutTwice(a.value);
    CutTwice(b.value);
    CutTwice(c.value);
  }

  /** The first number is the least size of the source, the second that of the target's buffer. */
  lemma TooSmall(patch: seq<byte>, source: seq<byte>, buffer: seq<byte>, a: Number, b: Number, c: Number)
    requires Numbers(patch, a, b, c)
    ensures var r := Interpret(patch, source, buffer);
      && (r.status == SourceTooSmall <==> a.value % WORD32 > |source|)
      && (r.status == TargetTooSmall <==> a.value % WORD32 <= |source| && b.value % WORD32 > |buffer|)
      && (r.status == SourceTooSmall || r.status == TargetTooSmall ==> r.target == buffer)
  {
    hide Digest, WordAt, Run, ReadHeader, Parse;
    NumbersHeader(patch, a, b, c);
  }

  // ---------------------------------------------------------------- the three checksums

  lemma StepInside(patch: seq<byte>, source: seq<byte>, m: Machine)
    requires Step(patch, source, m).Some?
    ensures Step(patch, source, m).value.out <= |m.target|
  {
    hide Parse, Paste, CopyWithin, Offset;
  }

  /** No action writes beyond the buffer. */
  lemma {:induction false} RunInside(patch: seq<byte>, source: seq<byte>, m: Machine)
    requires m.out <= |m.target|
    ensures Run(patch, source, m).1.out <= |Run(patch, source, m).1.target|
    decreases |patch| - m.at
  {
    hide Step;
    if m.at + 12 < |patch| && Step(patch, source, m).Some? {
      StepInside(patch, source, m);
      RunInside(patch, source, Step(patch, source, m).value);
    }
  }

  /** The sizes fit, and the actions end at the footer in the state `m`. */
  ghost predicate Ends(patch: seq<byte>, source: seq<byte>, buffer: seq<byte>, a: Number, b: Number, c: Number,
                       m: Machine)
  {
    && Numbers(patch, a, b, c)
    && a.value % WORD32 <= |source| && b.value % WORD32 <= |buffer|
    && Run(patch, source, Machine(c.next + c.value % WORD32, 0, 0, 0, buffer)) == (true, m)
    && m.at + 12 == |patch|
  }

  /**
    * After the actions the verdict is the first of the three checksums that differs from its word, twelve, eight and
    * four bytes before the patch's end: that of the source, of what was written, and of the patch before its last word.
    */
  lemma Verdicts(patch: seq<byte>, source: seq<byte>, buffer: seq<byte>, a: Number, b: Number, c: Number, m: Machine)
    requires Ends(patch, source, buffer, a, b, c, m)
    ensures m.out <= |m.target| && |patch| >= 12
    ensures var r := Interpret(patch, source, buffer);
      var sourceRight := Digest(source[..a.value % WORD32]) == WordAt(patch, |patch| - 12);
      var targetRight := Digest(m.target[..m.out]) == WordAt(patch, |patch| - 8);
      var patchRight := Digest(patch[..|patch| - 4]) == WordAt(patch, |patch| - 4);
      && r.target == m.target
      && (r.status == SourceChecksumInvalid <==> !sourceRight)
      && (r.status == TargetChecksumInvalid <==> sourceRight && !targetRight)
      && (r.status == PatchChecksumInvalid <==> sourceRight && targetRight && !patchRight)
      && (r.status == Success <==> sourceRight && targetRight && patchRight)
  {
    hide Digest, WordAt, Run, ReadHeader, Parse;
    NumbersHeader(patch, a, b, c);
    RunInside(patch, source, Machine(c.next + c.value % WORD32, 0, 0, 0, buffer));
  }

  /** Nothing else succeeds, or is told apart by a checksum. */
  lemma OnlyAtEnd(patch: seq<byte>, source: seq<byte>, buffer: seq<byte>)
    returns (a: Number, b: Number, c: Number, m: Machine)
    ensures var s := Interpret(patch, source, buffer).status;
      s == Success || s == SourceChecksumInvalid || s == TargetChecksumInvalid || s == PatchChecksumInvalid ==>
        Ends(patch, source, buffer, a, b, c, m)
  {
    hide Digest, WordAt, Run, Parse;
    a, b, c, m := Ragged, Ragged, Ragged, Machine(0, 0, 0, 0, []);
    var s := Interpret(patch, source, buffer).status;
    if s == Success || s == SourceChecksumInvalid || s == TargetChecksumInvalid || s == PatchChecksumInvalid {
      a := Parse(patch, 4);
      b := Parse(patch, a.next);
      c := Parse(patch, b.next);
      CutTwice(a.value);
      CutTwice(b.value);
      CutTwice(c.value);
      m := Run(patch, source, Machine(c.next + c.value % WORD32, 0, 0, 0, buffer)).1;
    }
  }

  // ---------------------------------------------------------------- a patch on another source

  /** Machines that differ in the target's bytes at most. */
  ghost predicate Alike(m: Machine, n: Machine) {
    n == m.(target := n.target) && |m.target| == |n.target|
  }

  lemma StepAlike(patch: seq<byte>, s: seq<byte>, u: seq<byte>, m: Machine, n: Machine)
    requires |s| == |u| && Alike(m, n)
    ensures Step(patch, s, m).Some? <==> Step(patch, u, n).Some?
    ensures Step(patch, s, m).Some? ==> Alike(Step(patch, s, m).value, Step(patch, u, n).value)
  {
    hide Parse, Paste, CopyWithin, Offset;
  }

  /** Which way the actions go does not depend on the bytes of the source or the buffer. */
  lemma {:induction false} RunAlike(patch: seq<byte>, s: seq<byte>, u: seq<byte>, m: Machine, n: Machine)
    requires |s| == |u| && Alike(m, n)
    ensures Run(patch, s, m).0 == Run(patch, u, n).0 && Alike(Run(patch, s, m).1, Run(patch, u, n).1)
    decreases |patch| - m.at
  {
    hide Step;
    if m.at + 12 < |patch| {
      StepAlike(patch, s, u, m, n);
      if Step(patch, s, m).Some? { RunAlike(patch, s, u, Step(patch, s, m).value, Step(patch, u, n).value); }
    }
  }

  /** So running out of bounds does not either. */
  lemma OutOfBoundsAlike(patch: seq<byte>, s: seq<byte>, u: seq<byte>, buffer: seq<byte>)
    requires |s| == |u|
    ensures Interpret(patch, s, buffer).status == OutOfBounds <==> Interpret(patch, u, buffer).status == OutOfBounds
  {
    hide Digest, WordAt, Run, ReadHeader;
    if |patch| >= 19 && ReadHeader(patch).Some? {
      var start := Machine(ReadHeader(patch).value.at, 0, 0, 0, buffer);
      RunAlike(patch, s, u, start, start);
    }
  }

  lemma EndsAlike(patch: seq<byte>, s: seq<byte>, u: seq<byte>, buffer: seq<byte>, a: Number, b: Number, c: Number,
                  m: Machine) returns (n: Machine)
    requires |s| == |u| && Ends(patch, s, buffer, a, b, c, m)
    ensures Ends(patch, u, buffer, a, b, c, n)
  {
    hide Run, Parse;
    var start := Machine(c.next + c.value % WORD32, 0, 0, 0, buffer);
    RunAlike(patch, s, u, start, start);
    n := Run(patch, u, start).1;
  }

  lemma HeaderEncoded(source: seq<byte>, target: seq<byte>, markup: seq<byte>, plan: Plan)
    requires Covers(source, target, plan, 0) && |PatchBytes(source, target, markup, plan)| < WORD32
    requires |source| < WORD32 && |target| < WORD32
    ensures var patch := PatchBytes(source, target, markup, plan);
      && |patch| >= 19 && patch[..4] == MAGIC && ReadHeader(patch).Some?
      && ReadHeader(patch).value.sourceSize == |source| && ReadHeader(patch).value.targetSize == |target|
  {
    hide Encode, Emit, ReadHeader, Sealed, HeaderBytes, Covers, MAGIC;
    var header, actions := HeaderBytes(source, target, markup), Emit(source, target, plan, 0, 0, 0, 0);
    var patch := PatchBytes(source, target, markup, plan);
    SealedExtends(source, target, header + actions);
    assert patch == header + (actions + patch[|header + actions|..]);
    AtStart(header, actions + patch[|header + actions|..]);
    HeaderLength(source, target, markup);
    HeaderRead(patch, source, target, markup);
  }

  /** A source or a buffer that is too short for an encoder's patch. */
  lemma Shorter(source: seq<byte>, given: seq<byte>, target: seq<byte>, markup: seq<byte>, plan: Plan,
                buffer: seq<byte>)
    requires Covers(source, target, plan, 0) && |PatchBytes(source, target, markup, plan)| < WORD32
    requires |source| < WORD32 && |target| < WORD32
    ensures var s := Interpret(PatchBytes(source, target, markup, plan), given, buffer).status;
      && (s == SourceTooSmall <==> |given| < |source|)
      && (s == TargetTooSmall <==> |given| >= |source| && |buffer| < |target|)
  {
    hide PatchBytes, Run, ReadHeader, Digest, WordAt, Covers;
    HeaderEncoded(source, target, markup, plan);
  }

  /** A patch refuses another source by its checksum, exactly when that of the bytes patched differs. */
  lemma OtherSource(source: seq<byte>, given: seq<byte>, target: seq<byte>, markup: seq<byte>, plan: Plan,
                    buffer: seq<byte>)
    requires Covers(source, target, plan, 0) && |target| <= |buffer| && |target| <= LIMIT
    requires |source| <= |given| && |source| <= LIMIT && |PatchBytes(source, target, markup, plan)| < WORD32
    ensures var s := Interpret(PatchBytes(source, target, markup, plan), given, buffer).status;
      && (Representable(plan, 0) ==>
            s != OutOfBounds && (s == SourceChecksumInvalid <==> Digest(given[..|source|]) != Digest(source)))
      && (!Representable(plan, 0) && |given| <= 2 * LIMIT ==> s == OutOfBounds)
  {
    hide Digest, WordAt, Run, ReadHeader, Parse, PatchBytes, Representable, Covers, Interpret, Numbers, Ends;
    var patch := PatchBytes(source, target, markup, plan);
    var alike := source + given[|source|..];
    PatchRecovers(source, alike, target, markup, plan, buffer);
    OutOfBoundsAlike(patch, alike, given, buffer);
    if Representable(plan, 0) {
      var a, b, c, m := OnlyAtEnd(patch, alike, buffer);
      var n := EndsAlike(patch, alike, given, buffer, a, b, c, m);
      Verdicts(patch, alike, buffer, a, b, c, m);
      Verdicts(patch, given, buffer, a, b, c, n);
      EndsNumbers(patch, given, buffer, a, b, c, n);
      HeaderEncoded(source, target, markup, plan);
      assert alike[..|source|] == source;
    }
  }

  lemma EndsNumbers(patch: seq<byte>, source: seq<byte>, buffer: seq<byte>, a: Number, b: Number, c: Number, m: Machine)
    requires Ends(patch, source, buffer, a, b, c, m)
    ensures a.Number? && b.Number? && c.Number?
    ensures ReadHeader(patch)
         == Some(Header(a.value % WORD32, b.value % WORD32, c.value % WORD32, c.next + c.value % WORD32))
  {
    hide Parse, Run;
    NumbersHeader(patch, a, b, c);
  }

  /** What the linear encoder writes refuses exactly the sources whose beginning has another checksum. */
  lemma LinearOtherSource(source: seq<byte>, given: seq<byte>, target: seq<byte>, markup: seq<byte>, buffer: seq<byte>)
    requires |target| <= |buffer| && |target| <= LIMIT && |source| <= |given| && |source| <= LIMIT
    requires PatchBound(target, markup) < WORD32
    ensures Interpret(BpsLinear.Patch(source, target, markup), given, buffer).status == SourceChecksumInvalid
       <==> Digest(given[..|source|]) != Digest(source)
  {
    hide Digest, PatchBytes, Representable, Covers, Interpret, BpsLinear.Plan;
    BpsLinear.PatchFits(source, target, markup);
    BpsLinear.PlanCovers(source, target, 0);
    BpsLinear.PlanForward(source, target, 0, 0);
    BpsLinear.ForwardRepresentable(BpsLinear.Plan(source, target, 0), 0, 0, 0);
    OtherSource(source, given, target, markup, BpsLinear.Plan(source, target, 0), buffer);
  }

  /** So does what the delta encoder writes, when it can be written. */
  lemma DeltaOtherSource(source: seq<byte>, given: seq<byte>, target: seq<byte>, markup: seq<byte>, buffer: seq<byte>)
    requires |target| <= |buffer| && |target| <= LIMIT && |source| <= |given| && |source| <= LIMIT
    requires PatchBound(target, markup) < WORD32 && BpsDelta.Writable(source, target)
    ensures Interpret(BpsDelta.Patch(source, target, markup), given, buffer).status == SourceChecksumInvalid
       <==> Digest(given[..|source|]) != Digest(source)
  {
    hide Digest, PatchBytes, Representable, Covers, Interpret, BpsDelta.Plan;
    BpsDelta.PatchFits(source, target, markup);
    BpsDelta.PlanCovers(source, target, 0, BpsDelta.Nil);
    OtherSource(source, given, target, markup, BpsDelta.Plan(source, target, 0, BpsDelta.Nil), buffer);
  }

  /** A source that was changed within four bytes is always refused. */
  lemma ChangedSource(a: seq<byte>, x: seq<byte>, y: seq<byte>, b: seq<byte>, target: seq<byte>, markup: seq<byte>,
                      buffer: seq<byte>)
    requires |x| == |y| <= 4 && x != y && |target| <= |buffer| && |target| <= LIMIT && |a + x + b| <= LIMIT
    requires PatchBound(target, markup) < WORD32
    ensures Interpret(BpsLinear.Patch(a + x + b, target, markup), a + y + b, buffer).status == SourceChecksumInvalid
    ensures BpsDelta.Writable(a + x + b, target) ==>
      Interpret(BpsDelta.Patch(a + x + b, target, markup), a + y + b, buffer).status == SourceChecksumInvalid
  {
    hide Digest, Interpret, BpsLinear.Patch, BpsDelta.Patch, BpsDelta.Writable;
    var source, given := a + x + b, a + y + b;
    BurstNoticed(a, x, y, b);
    assert given[..|source|] == given;
    LinearOtherSource(source, given, target, markup, buffer);
    if BpsDelta.Writable(source, target) { DeltaOtherSource(source, given, target, markup, buffer); }
  }

  // ---------------------------------------------------------------- a patch with another footer

  /** The last twelve bytes are not read before the actions have ended. */
  lemma SameHeader(p: seq<byte>, q: seq<byte>, a: Number, b: Number, c: Number)
    requires Numbers(p, a, b, c) && c.next + c.value % WORD32 + 12 <= |p| == |q| && q[..|p| - 12] == p[..|p| - 12]
    ensures Numbers(q, a, b, c)
  {
    hide Parse;
    SamePart(p, q, 0, 4);
    SameNumber(p, q, 4);
    SameNumber(p, q, a.next);
    SameNumber(p, q, b.next);
  }

  lemma SamePart(p: seq<byte>, q: seq<byte>, i: nat, j: nat)
    requires |p| == |q| && i <= j && j + 12 <= |p| && q[..|p| - 12] == p[..|p| - 12]
    ensures q[i..j] == p[i..j]
  {
    var u, v, x, y := p[..|p| - 12], q[..|p| - 12], p[i..j], q[i..j];
    forall k | 0 <= k < j - i ensures x[k] == y[k] {
      assert x[k] == p[i + k] == u[i + k];
      assert y[k] == q[i + k] == v[i + k];
    }
  }

  lemma SameNumber(p: seq<byte>, q: seq<byte>, at: nat)
    requires Parse(p, at).Number? && Parse(p, at).next + 12 <= |p| == |q| && q[..|p| - 12] == p[..|p| - 12]
    ensures Parse(q, at) == Parse(p, at)
  {
    hide Parse;
    var next := Parse(p, at).next;
    SamePart(p, q, at, next);
    ParseLocal(p, at, q, at);
  }

  lemma SameEnds(p: seq<byte>, q: seq<byte>, source: seq<byte>, buffer: seq<byte>, a: Number, b: Number, c: Number,
                 m: Machine)
    requires Ends(p, source, buffer, a, b, c, m) && |q| == |p| && q[..|p| - 12] == p[..|p| - 12]
    ensures Ends(q, source, buffer, a, b, c, m)
  {
    hide Parse, Run;
    var at := c.next + c.value % WORD32;
    var start := Machine(at, 0, 0, 0, buffer);
    RunAdvances(p, source, start);
    SameHeader(p, q, a, b, c);
    SamePart(p, q, at, |p| - 12);
    RunLocal(p, q, source, start, at);
  }

  lemma WordsSame(p: seq<byte>, q: seq<byte>, i: nat)
    requires i + 4 <= |p| == |q|
    ensures WordAt(p, i) == WordAt(q, i) <==> p[i..i + 4] == q[i..i + 4]
  {
    var v, w := p[i..i + 4], q[i..i + 4];
    assert v == [p[i], p[i + 1], p[i + 2], p[i + 3]] && w == [q[i], q[i + 1], q[i + 2], q[i + 3]];
    var x1: nat, x2: nat, x3: nat := p[i + 1], p[i + 2], p[i + 3];
    var y1: nat, y2: nat, y3: nat := q[i + 1], q[i + 2], q[i + 3];
    DigitsSame(p[i], x1 + 256 * (x2 + 256 * x3), q[i], y1 + 256 * (y2 + 256 * y3));
    DigitsSame(p[i + 1], x2 + 256 * x3, q[i + 1], y2 + 256 * y3);
    DigitsSame(p[i + 2], x3, q[i + 2], y3);
  }

  lemma DigitsSame(a: byte, x: nat, b: byte, y: nat)
    ensures a + 256 * x == b + 256 * y <==> a == b && x == y
  {
    if a + 256 * x == b + 256 * y { DivModUnique(a + 256 * x, y, b, 256); DivModUnique(a + 256 * x, x, a, 256); }
  }

  /** A patch that succeeds fails with the code of the first word of its footer that is changed. */
  lemma FooterChanged(p: seq<byte>, q: seq<byte>, source: seq<byte>, buffer: seq<byte>)
    requires Interpret(p, source, buffer).status == Success && |q| == |p| >= 12 && q[..|p| - 12] == p[..|p| - 12]
    ensures var s, n := Interpret(q, source, buffer).status, |p|;
      && (s == SourceChecksumInvalid <==> q[n - 12..n - 8] != p[n - 12..n - 8])
      && (s == TargetChecksumInvalid <==> q[..n - 8] == p[..n - 8] && q[n - 8..n - 4] != p[n - 8..n - 4])
      && (s == PatchChecksumInvalid <==> q[..n - 4] == p[..n - 4] && q != p)
      && (s == Success <==> q == p)
  {
    hide Digest, WordAt, Run, Parse, Interpret, Numbers, Ends;
    var n := |p|;
    var a, b, c, m := OnlyAtEnd(p, source, buffer);
    SameEnds(p, q, source, buffer, a, b, c, m);
    Verdicts(p, source, buffer, a, b, c, m);
    Verdicts(q, source, buffer, a, b, c, m);
    WordsSame(p, q, n - 12);
    WordsSame(p, q, n - 8);
    WordsSame(p, q, n - 4);
    Pieces(p);
    Pieces(q);
    CutPieces(p, q);
  }

  lemma Pieces(p: seq<byte>)
    requires |p| >= 12
    ensures var n := |p|; p[..n - 8] == p[..n - 12] + p[n - 12..n - 8]
    ensures var n := |p|; p[..n - 4] == p[..n - 8] + p[n - 8..n - 4]
    ensures var n := |p|; p == p[..n - 4] + p[n - 4..n]
  {
  }

  lemma CutPieces(p: seq<byte>, q: seq<byte>)
    requires |p| == |q| >= 12
    ensures var n := |p|; p[..n - 8] == q[..n - 8] ==> p[n - 12..n - 8] == q[n - 12..n - 8]
    ensures var n := |p|; p[..n - 4] == q[..n - 4] ==> p[..n - 8] == q[..n - 8] && p[n - 8..n - 4] == q[n - 8..n - 4]
    ensures var n := |p|; p == q ==> p[..n - 4] == q[..n - 4] && p[n - 4..n] == q[n - 4..n]
  {
    var n := |p|;
    assert p[n - 12..n - 8] == p[..n - 8][n - 12..] && q[n - 12..n - 8] == q[..n - 8][n - 12..];
    assert p[n - 8..n - 4] == p[..n - 4][n - 8..] && q[n - 8..n - 4] == q[..n - 4][n - 8..];
    assert p[..n - 8] == p[..n - 4][..n - 8] && q[..n - 8] == q[..n - 4][..n - 8];
  }

  // ---------------------------------------------------------------- in place

  /** Encoding, and then patching another source in place. */
  method PatchElsewhere(source: seq<byte>, given: seq<byte>, target: seq<byte>, markup: seq<byte>, buffer: array<byte>)
    returns (r: Status)
    requires |target| <= buffer.Length && |target| <= LIMIT && |source| <= LIMIT
    requires PatchBound(target, markup) <= PagedFile.LIMIT
    modifies buffer
    ensures r == SourceTooSmall <==> |given| < |source|
    ensures |given| >= |source| ==> (r == SourceChecksumInvalid <==> Digest(given[..|source|]) != Digest(source))
  {
    hide Digest, PatchBytes, Representable, Covers, Interpret, BpsLinear.Plan, BpsLinear.Patch;
    BpsLinear.PatchFits(source, target, markup);
    if |given| >= |source| { LinearOtherSource(source, given, target, markup, buffer[..]); }
    LinearShorter(source, given, target, markup, buffer[..]);
    var patch := BpsLinear.Create(source, target, markup);
    r := Apply(patch, given, buffer);
  }

  lemma LinearShorter(source: seq<byte>, given: seq<byte>, target: seq<byte>, markup: seq<byte>, buffer: seq<byte>)
    requires |target| <= |buffer| && |target| <= LIMIT && |source| <= LIMIT && PatchBound(target, markup) < WORD32
    ensures Interpret(BpsLinear.Patch(source, target, markup), given, buffer).status == SourceTooSmall
       <==> |given| < |source|
  {
    hide PatchBytes, Covers, Interpret, BpsLinear.Plan;
    BpsLinear.PatchFits(source, target, markup);
    BpsLinear.PlanCovers(source, target, 0);
    Shorter(source, given, target, markup, BpsLinear.Plan(source, target, 0), buffer);
  }
}
