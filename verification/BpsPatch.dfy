/** The patch format: a functional reading of it, and the patcher that carries it out in place. */
module BpsPatch {
  import opened Bits
  import opened VarInt
  import opened Crc32
  import opened Maybe

  /**
    * The patcher's result codes; `OutOfBounds` stands for a read or write outside a buffer, where C++ has no
    * meaning.
    */
  datatype Status =
    | Success | PatchTooSmall | PatchInvalidHeader | SourceTooSmall | TargetTooSmall
    | SourceChecksumInvalid | TargetChecksumInvalid | PatchChecksumInvalid | OutOfBounds

  /** The patcher's cursors and the buffer it writes. */
  datatype Machine = Machine(at: nat, sourceRel: nat, targetRel: nat, out: nat, target: seq<byte>)

  datatype Header = Header(sourceSize: nat, targetSize: nat, markupSize: nat, at: nat)

  datatype Outcome = Outcome(status: Status, target: seq<byte>)

  const MAGIC: seq<byte> := [0x42, 0x50, 0x53, 0x31]

  // ---------------------------------------------------------------- machine arithmetic

  /** A relative offset: the sign in the lowest bit, the magnitude above it. */
  function Offset(v: nat): int {
    var o := Signed32(v);
    if o % 2 == 1 then -(o / 2) else o / 2
  }

  // ---------------------------------------------------------------- copying

  /** `bytes` written over `t` at `to`. */
  function Paste(t: seq<byte>, to: nat, bytes: seq<byte>): (r: seq<byte>)
    requires to + |bytes| <= |t|
    ensures |r| == |t|
  {
    t[..to] + bytes + t[to + |bytes|..]
  }

  /** Byte-by-byte copying within `t`: later bytes see earlier ones, which is what makes runs. */
  function CopyWithin(t: seq<byte>, from: nat, to: nat, length: nat): (r: seq<byte>)
    requires from + length <= |t| && to + length <= |t|
    ensures |r| == |t|
    decreases length
  {
    if length == 0 then t else CopyWithin(t[to := t[from]], from + 1, to + 1, length - 1)
  }

  // ---------------------------------------------------------------- one action

  /** The copies: a signed offset moves one of the two relative cursors first. */
  function StepCopy(patch: seq<byte>, source: seq<byte>, m: Machine, mode: nat, length: nat): (r: Option<Machine>)
    requires m.out + length <= |m.target|
    ensures r.Some? ==> r.value.at > m.at && |r.value.target| == |m.target|
  {
    match Wrapped(Parse(patch, m.at), WORD64)
    case Ragged => None
    case Number(offset, next) =>
      if mode == 2 then
        var from := (m.sourceRel + Offset(offset)) % WORD32;
        if from + length > |source| then None
        else Some(Machine(next, from + length, m.targetRel, m.out + length,
                          Paste(m.target, m.out, source[from..from + length])))
      else
        var from := (m.targetRel + Offset(offset)) % WORD32;
        if from + length > |m.target| then None
        else Some(Machine(next, m.sourceRel, from + length, m.out + length,
                          CopyWithin(m.target, from, m.out, length)))
  }

  /** The machine after one action, or `None` when it touches a byte outside a buffer. */
  function Step(patch: seq<byte>, source: seq<byte>, m: Machine): (r: Option<Machine>)
    ensures r.Some? ==> r.value.at > m.at && |r.value.target| == |m.target|
  {
    match Wrapped(Parse(patch, m.at), WORD64)
    case Ragged => None
    case Number(word, next) =>
      var length := word % WORD32 / 4 + 1;
      var mode := word % 4;
      if m.out + length > |m.target| then None
      else if mode == 0 then
        if m.out + length > |source| then None
        else Some(m.(at := next, out := m.out + length,
                     target := Paste(m.target, m.out, source[m.out..m.out + length])))
      else if mode == 1 then
        if next + length > |patch| then None
        else Some(m.(at := next + length, out := m.out + length,
                     target := Paste(m.target, m.out, patch[next..next + length])))
      else StepCopy(patch, source, m.(at := next), mode, length)
  }

  /** The actions up to the footer, or the machine that could not go on. */
  function Run(patch: seq<byte>, source: seq<byte>, m: Machine): (r: (bool, Machine))
    ensures r.0 ==> r.1.at + 12 >= |patch|
    ensures |r.1.target| == |m.target|
    decreases |patch| - m.at
  {
    if m.at + 12 >= |patch| then (true, m)
    else match Step(patch, source, m)
      case None => (false, m)
      case Some(next) => Run(patch, source, next)
  }

  // ---------------------------------------------------------------- the whole patch

  function ReadHeader(patch: seq<byte>): (r: Option<Header>)
    ensures r.Some? ==> r.value.at <= |patch|
  {
    match Wrapped(Parse(patch, 4), WORD64)
    case Ragged => None
    case Number(sourceSize, a) =>
      match Wrapped(Parse(patch, a), WORD64)
      case Ragged => None
      case Number(targetSize, b) =>
        match Wrapped(Parse(patch, b), WORD64)
        case Ragged => None
        case Number(markupSize, c) =>
          var n := markupSize % WORD32;
          if c + n > |patch| then None
          else Some(Header(sourceSize % WORD32, targetSize % WORD32, n, c + n))
  }

  /** The three checksums, in the patcher's order. */
  function Check(patch: seq<byte>, source: seq<byte>, sourceSize: nat, m: Machine): Status
    requires sourceSize <= |source|
  {
    if m.at + 12 > |patch| || m.out > |m.target| then OutOfBounds
    else if Digest(source[..sourceSize]) != WordAt(patch, m.at) then SourceChecksumInvalid
    else if Digest(m.target[..m.out]) != WordAt(patch, m.at + 4) then TargetChecksumInvalid
    else if Digest(patch[..m.at + 8]) != WordAt(patch, m.at + 8) then PatchChecksumInvalid
    else Success
  }

  /** What the patcher makes of a patch, a source and a buffer for the target. */
  function Interpret(patch: seq<byte>, source: seq<byte>, buffer: seq<byte>): Outcome {
    if |patch| < 19 then Outcome(PatchTooSmall, buffer)
    else if patch[..4] != MAGIC then Outcome(PatchInvalidHeader, buffer)
    else match ReadHeader(patch)
      case None => Outcome(OutOfBounds, buffer)
      case Some(header) =>
        if header.sourceSize > |source| then Outcome(SourceTooSmall, buffer)
        else if header.targetSize > |buffer| then Outcome(TargetTooSmall, buffer)
        else
          var (halted, m) := Run(patch, source, Machine(header.at, 0, 0, 0, buffer));
          Outcome(if halted then Check(patch, source, header.sourceSize, m) else OutOfBounds, m.target)
  }

  // ---------------------------------------------------------------- the patcher

  lemma PasteNothing(t: seq<byte>, to: nat)
    requires to <= |t|
    ensures Paste(t, to, []) == t
  {
  }

  lemma PasteStep(t: seq<byte>, to: nat, bytes: seq<byte>, k: nat)
    requires to + |bytes| <= |t| && k < |bytes|
    ensures Paste(t, to, bytes[..k])[to + k := bytes[k]] == Paste(t, to, bytes[..k + 1])
  {
  }

  /** `while(length--) write(...)` from another buffer. */
  method WriteBytes(target: array<byte>, out: nat, bytes: seq<byte>, checksum: nat) returns (r: nat)
    requires out + |bytes| <= target.Length && checksum == Register(target[..out])
    modifies target
    ensures target[..] == Paste(old(target[..]), out, bytes)
    ensures r == Register(target[..out + |bytes|])
  {
    hide Register, Input, Paste;
    r := checksum;
    var k := 0;
    PasteNothing(target[..], out);
    assert bytes[..0] == [];
    while k < |bytes|
      invariant 0 <= k <= |bytes| && r == Register(target[..out + k])
      invariant target[..] == Paste(old(target[..]), out, bytes[..k])
    {
      RegisterAppend(target[..out + k], bytes[k]);
      ghost var before := target[..];
      target[out + k] := bytes[k];
      assert target[..] == before[out + k := bytes[k]];
      PasteStep(old(target[..]), out, bytes, k);
      assert target[..out + k + 1] == before[..out + k] + [bytes[k]];
      r := Input(r, bytes[k]);
      k := k + 1;
    }
    assert bytes[..k] == bytes;
  }

  /** `while(length--) write(target[from++])`: source and destination may overlap. */
  method CopyBytes(target: array<byte>, out: nat, start: nat, length: nat, checksum: nat) returns (r: nat)
    requires out + length <= target.Length && start + length <= target.Length && checksum == Register(target[..out])
    modifies target
    ensures target[..] == CopyWithin(old(target[..]), start, out, length)
    ensures r == Register(target[..out + length])
  {
    hide Register, Input, CopyWithin;
    r := checksum;
    var k := 0;
    while k < length
      invariant 0 <= k <= length && r == Register(target[..out + k])
      invariant CopyWithin(old(target[..]), start, out, length)
             == CopyWithin(target[..], start + k, out + k, length - k)
    {
      CopyUnfold(target[..], start + k, out + k, length - k);
      RegisterAppend(target[..out + k], target[start + k]);
      var b := target[start + k];
      ghost var before := target[..];
      target[out + k] := b;
      assert target[..] == before[out + k := b];
      assert target[..out + k + 1] == before[..out + k] + [b];
      r := Input(r, b);
      k := k + 1;
    }
    CopyUnfold(target[..], start + k, out + k, 0);
  }

  lemma CopyUnfold(t: seq<byte>, from: nat, to: nat, length: nat)
    requires from + length <= |t| && to + length <= |t|
    ensures length == 0 ==> CopyWithin(t, from, to, length) == t
    ensures length > 0 ==> CopyWithin(t, from, to, length) == CopyWithin(t[to := t[from]], from + 1, to + 1, length - 1)
  {
  }

  /** The patcher's local variables: its cursors and its two running checksums. */
  datatype Cursors = Cursors(at: nat, sourceRel: nat, targetRel: nat, out: nat, patchSum: nat, targetSum: nat)

  function MachineOf(c: Cursors, target: seq<byte>): Machine {
    Machine(c.at, c.sourceRel, c.targetRel, c.out, target)
  }

  predicate InStep(patch: seq<byte>, target: seq<byte>, c: Cursors) {
    && c.at <= |patch| && c.out <= |target|
    && c.patchSum == Register(patch[..c.at])
    && c.targetSum == Register(target[..c.out])
  }

  /** `decode`: the bytes read go into the patch's checksum. */
  method Decode(patch: seq<byte>, at: nat, sum: nat) returns (r: Number, sum': nat)
    requires at <= |patch| && sum == Register(patch[..at])
    ensures r == Wrapped(Parse(patch, at), WORD64)
    ensures r.Number? ==> r.next <= |patch| && sum' == Register(patch[..r.next])
  {
    hide Parse, Register;
    r := Read(patch, at, WORD64);
    sum' := sum;
    if r.Number? {
      assert patch[..at] + patch[at..r.next] == patch[..r.next];
      sum' := Feed(sum, patch[at..r.next], patch[..at]);
    }
  }

  /** SourceCopy and TargetCopy. */
  method ActCopy(patch: seq<byte>, source: seq<byte>, target: array<byte>, c: Cursors, mode: nat, length: nat)
    returns (ok: bool, d: Cursors)
    requires InStep(patch, target[..], c) && c.out + length <= target.Length
    modifies target
    ensures ok
      ==> StepCopy(patch, source, MachineOf(c, old(target[..])), mode, length) == Some(MachineOf(d, target[..]))
    ensures ok ==> InStep(patch, target[..], d)
    ensures !ok ==> StepCopy(patch, source, MachineOf(c, old(target[..])), mode, length) == None
    ensures !ok ==> target[..] == old(target[..])
  {
    hide Register, Parse, Paste, CopyWithin, Offset;
    d := c;
    var offset, sum := Decode(patch, c.at, c.patchSum);
    if offset.Ragged? { return false, c; }
    if mode == 2 {
      var from := (c.sourceRel + Offset(offset.value)) % WORD32;
      if from + length > |source| { return false, c; }
      var t := WriteBytes(target, c.out, source[from..from + length], c.targetSum);
      return true, Cursors(offset.next, from + length, c.targetRel, c.out + length, sum, t);
    }
    var from := (c.targetRel + Offset(offset.value)) % WORD32;
    if from + length > target.Length { return false, c; }
    var t := CopyBytes(target, c.out, from, length, c.targetSum);
    return true, Cursors(offset.next, c.sourceRel, from + length, c.out + length, sum, t);
  }

  /** The body of the action loop. */
  method Act(patch: seq<byte>, source: seq<byte>, target: array<byte>, c: Cursors) returns (ok: bool, d: Cursors)
    requires InStep(patch, target[..], c)
    modifies target
    ensures ok ==> Step(patch, source, MachineOf(c, old(target[..]))) == Some(MachineOf(d, target[..]))
    ensures ok ==> InStep(patch, target[..], d)
    ensures !ok ==> Step(patch, source, MachineOf(c, old(target[..]))) == None && target[..] == old(target[..])
  {
    hide Register, Parse, Paste, StepCopy;
    d := c;
    var word, sum := Decode(patch, c.at, c.patchSum);
    if word.Ragged? { return false, c; }
    var mode := word.value % 4;
    var length := word.value % WORD32 / 4 + 1;
    if c.out + length > target.Length { return false, c; }
    if mode == 0 {
      if c.out + length > |source| { return false, c; }
      var t := WriteBytes(target, c.out, source[c.out..c.out + length], c.targetSum);
      d := c.(at := word.next, out := c.out + length, patchSum := sum, targetSum := t);
      ok := true;
    } else if mode == 1 {
      if word.next + length > |patch| { return false, c; }
      var t := WriteBytes(target, c.out, patch[word.next..word.next + length], c.targetSum);
      assert patch[..word.next] + patch[word.next..word.next + length] == patch[..word.next + length];
      sum := Feed(sum, patch[word.next..word.next + length], patch[..word.next]);
      d := c.(at := word.next + length, out := c.out + length, patchSum := sum, targetSum := t);
      ok := true;
    } else {
      ok, d := ActCopy(patch, source, target, c.(at := word.next, patchSum := sum), mode, length);
    }
  }

  /** The header's three numbers and the markup that follows them. */
  method DecodeHeader(patch: seq<byte>) returns (header: Option<Header>, sum: nat)
    requires |patch| >= 19
    ensures header == ReadHeader(patch)
    ensures header.Some? ==> sum == Register(patch[..header.value.at])
  {
    hide Register, Parse;
    RegisterEmpty();
    assert [] + patch[..4] == patch[..4];
    sum := Feed(WORD32 - 1, patch[..4], []);
    var a, b, c;
    a, sum := Decode(patch, 4, sum);
    if a.Ragged? { return None, sum; }
    b, sum := Decode(patch, a.next, sum);
    if b.Ragged? { return None, sum; }
    c, sum := Decode(patch, b.next, sum);
    if c.Ragged? { return None, sum; }
    var n := c.value % WORD32;
    if c.next + n > |patch| { return None, sum; }
    assert patch[..c.next] + patch[c.next..c.next + n] == patch[..c.next + n];
    sum := Feed(sum, patch[c.next..c.next + n], patch[..c.next]);
    header := Some(Header(a.value % WORD32, b.value % WORD32, n, c.next + n));
  }

  /** The footer: the patch's own checksum covers everything before its last word. */
  method Finish(patch: seq<byte>, source: seq<byte>, sourceSize: nat, target: seq<byte>, c: Cursors) returns (r: Status)
    requires |patch| >= 12 && sourceSize <= |source| && InStep(patch, target, c)
    ensures r == Check(patch, source, sourceSize, MachineOf(c, target))
  {
    hide Register, WordAt;
    if c.at + 12 > |patch| { return OutOfBounds; }
    var sourceWord := WordAt(patch, c.at);
    var targetWord := WordAt(patch, c.at + 4);
    assert patch[..c.at] + patch[c.at..c.at + 8] == patch[..c.at + 8];
    var sum := Feed(c.patchSum, patch[c.at..c.at + 8], patch[..c.at]);
    var patchWord := WordAt(patch, c.at + 8);
    var sourceSum := Sum(source[..sourceSize]);
    if sourceSum != sourceWord { return SourceChecksumInvalid; }
    if WORD32 - 1 - c.targetSum != targetWord { return TargetChecksumInvalid; }
    if WORD32 - 1 - sum != patchWord { return PatchChecksumInvalid; }
    return Success;
  }

  /** `apply`: carries a patch out in the target buffer. */
  method Apply(patch: seq<byte>, source: seq<byte>, target: array<byte>) returns (r: Status)
    modifies target
    ensures Interpret(patch, source, old(target[..])) == Outcome(r, target[..])
  {
    hide Register, Parse, Step, ReadHeader, Check;
    if |patch| < 19 { return PatchTooSmall; }
    if patch[..4] != MAGIC { return PatchInvalidHeader; }
    var header, sum := DecodeHeader(patch);
    if header.None? { return OutOfBounds; }
    if header.value.sourceSize > |source| { return SourceTooSmall; }
    if header.value.targetSize > target.Length { return TargetTooSmall; }
    var c := Cursors(header.value.at, 0, 0, 0, sum, WORD32 - 1);
    RegisterEmpty();
    assert target[..0] == [];
    ghost var whole := Run(patch, source, MachineOf(c, target[..]));
    while c.at < |patch| - 12
      invariant InStep(patch, target[..], c)
      invariant Run(patch, source, MachineOf(c, target[..])) == whole
      decreases |patch| - c.at
    {
      var ok, d := Act(patch, source, target, c);
      if !ok { return OutOfBounds; }
      c := d;
    }
    r := Finish(patch, source, header.value.sourceSize, target[..], c);
  }
}
