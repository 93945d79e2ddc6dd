/** What the encoders write, and why the patcher recovers the target from it. */
module BpsPlan {
  import opened Bits
  import opened VarInt
  import opened Crc32
  import opened BpsPatch
  import opened Maybe

  const LIMIT: nat := 0x4000_0000

  /** One decision of an encoder; `Repeat` is the linear encoder's run of the byte just queued. */
  datatype Move =
    | Literal
    | KeepSource(length: nat)
    | CopySource(from: nat, length: nat)
    | CopyTarget(from: nat, length: nat)
    | Repeat(length: nat)

  /** The decisions that make up a target. */
  datatype Plan = Done | Then(move: Move, rest: Plan)

  function Length(move: Move): nat {
    if move.Literal? then 1 else move.length
  }

  /** `data[i..i + n]` agrees with `target[j..j + n]`. */
  ghost predicate Same(data: seq<byte>, i: nat, target: seq<byte>, j: nat, n: nat) {
    i + n <= |data| && j + n <= |target| && data[i..i + n] == target[j..j + n]
  }

  /** How far `data` from `i` on agrees with `target` from `j` on. */
  function Common(data: seq<byte>, i: nat, target: seq<byte>, j: nat): (n: nat)
    ensures n > 0 ==> i + n <= |data| && j + n <= |target|
    decreases |data| - i
  {
    if i < |data| && j < |target| && data[i] == target[j] then 1 + Common(data, i + 1, target, j + 1) else 0
  }

  lemma {:induction false} CommonIsSame(data: seq<byte>, i: nat, target: seq<byte>, j: nat)
    requires Common(data, i, target, j) > 0
    ensures Same(data, i, target, j, Common(data, i, target, j))
    decreases |data| - i
  {
    var n := Common(data, i, target, j);
    assert data[i..i + n] == [data[i]] + data[i + 1..i + n];
    assert target[j..j + n] == [target[j]] + target[j + 1..j + n];
    if n > 1 { CommonIsSame(data, i + 1, target, j + 1); }
  }

  /** No agreement is longer. */
  lemma {:induction false} CommonIsLongest(data: seq<byte>, i: nat, target: seq<byte>, j: nat, n: nat)
    requires Same(data, i, target, j, n)
    ensures n <= Common(data, i, target, j)
    decreases n
  {
    if n > 0 {
      var a, b := data[i..i + n], target[j..j + n];
      assert a[0] == data[i] && b[0] == target[j];
      assert data[i + 1..i + n] == a[1..] == b[1..] == target[j + 1..j + n];
      CommonIsLongest(data, i + 1, target, j + 1, n - 1);
    }
  }

  /** A decision that reproduces the target's bytes at `out`. */
  ghost predicate Sound(source: seq<byte>, target: seq<byte>, move: Move, out: nat) {
    && 0 < Length(move) && out + Length(move) <= |target|
    && match move
       case Literal => true
       case KeepSource(n) => Same(source, out, target, out, n)
       case CopySource(from, n) => Same(source, from, target, out, n)
       case CopyTarget(from, n) => from < out && Same(target, from, target, out, n)
       case Repeat(n) => 0 < out && Same(target, out - 1, target, out, n)
  }

  ghost predicate Covers(source: seq<byte>, target: seq<byte>, plan: Plan, out: nat) {
    match plan
    case Done => out == |target|
    case Then(move, rest) => Sound(source, target, move, out) && Covers(source, target, rest, out + Length(move))
  }

  // ---------------------------------------------------------------- the bytes of a plan

  /** `mode | ((length - 1) << 2)` in 32 bits. */
  function LengthWord(mode: nat, length: nat): nat
    requires mode < 4 && length > 0
  {
    (length - 1) * 4 % WORD32 + mode
  }

  /** `(relativeOffset < 0) | (abs(relativeOffset) << 1)` on a 32-bit signed integer, widened to 64 bits. */
  function SignedWord(difference: int): nat {
    var relative := Signed32(difference);
    var magnitude := if relative < 0 then -relative else relative;
    (Signed32(2 * magnitude) + if relative < 0 then 1 else 0) % WORD64
  }

  /** `relativeOffset << 1` on a 32-bit unsigned integer. */
  function UnsignedWord(difference: int): nat {
    2 * (difference % WORD32) % WORD32
  }

  function MoveBytes(move: Move, out: nat, sourceRel: nat, targetRel: nat): seq<byte>
    requires Length(move) > 0
  {
    match move
    case Literal => []
    case KeepSource(n) => Encode(LengthWord(0, n))
    case CopySource(from, n) => Encode(LengthWord(2, n)) + Encode(SignedWord(from - sourceRel))
    case CopyTarget(from, n) => Encode(LengthWord(3, n)) + Encode(SignedWord(from - targetRel))
    case Repeat(n) => Encode(LengthWord(3, n)) + Encode(UnsignedWord(out - 1 - targetRel))
  }

  function SourceRel(move: Move, sourceRel: nat): nat {
    if move.CopySource? then move.from + move.length else sourceRel
  }

  function TargetRel(move: Move, out: nat, targetRel: nat): nat {
    if move.CopyTarget? then move.from + move.length
    else if move.Repeat? && out > 0 then out - 1 + move.length
    else targetRel
  }

  /** The queued bytes, as one TargetRead. */
  function Flush(target: seq<byte>, out: nat, pending: nat): seq<byte>
    requires pending <= out <= |target|
  {
    if pending == 0 then [] else Encode(LengthWord(1, pending)) + target[out - pending..out]
  }

  /** Literals queue up; every other decision is written after the queue. */
  ghost function Emit(source: seq<byte>, target: seq<byte>, plan: Plan, out: nat, pending: nat,
                      sourceRel: nat, targetRel: nat): seq<byte>
    requires Covers(source, target, plan, out) && pending <= out
    decreases plan
  {
    match plan
    case Done => Flush(target, out, pending)
    case Then(move, rest) =>
      if move.Literal? then Emit(source, target, rest, out + 1, pending + 1, sourceRel, targetRel)
      else Flush(target, out, pending) + MoveBytes(move, out, sourceRel, targetRel)
           + Emit(source, target, rest, out + Length(move), 0, SourceRel(move, sourceRel),
                  TargetRel(move, out, targetRel))
  }

  /** What one decision adds to the bytes written so far. */
  lemma EmitMove(source: seq<byte>, target: seq<byte>, move: Move, rest: Plan, out: nat, pending: nat,
                 sourceRel: nat, targetRel: nat, written: seq<byte>)
    requires Covers(source, target, Then(move, rest), out) && pending <= out
    ensures 0 < Length(move) && out + Length(move) <= |target| && Covers(source, target, rest, out + Length(move))
    ensures move.Literal? ==>
      written + Emit(source, target, Then(move, rest), out, pending, sourceRel, targetRel)
      == written + Emit(source, target, rest, out + 1, pending + 1, sourceRel, targetRel)
    ensures !move.Literal? ==>
      written + Emit(source, target, Then(move, rest), out, pending, sourceRel, targetRel)
      == written + Flush(target, out, pending) + MoveBytes(move, out, sourceRel, targetRel)
         + Emit(source, target, rest, out + Length(move), 0, SourceRel(move, sourceRel),
                TargetRel(move, out, targetRel))
  {
    hide Flush, MoveBytes;
  }

  /** No source copy goes back by exactly 2^30, the one distance a 32-bit `abs(relativeOffset) << 1` cannot hold. */
  ghost predicate Representable(plan: Plan, sourceRel: nat) {
    match plan
    case Done => true
    case Then(move, rest) =>
      && (move.CopySource? ==> sourceRel - move.from != LIMIT)
      && Representable(rest, SourceRel(move, sourceRel))
  }

  function HeaderBytes(source: seq<byte>, target: seq<byte>, markup: seq<byte>): seq<byte> {
    MAGIC + Encode(|source|) + Encode(|target|) + Encode(|markup|) + markup
  }

  /** The checksums of source and target, then that of everything before. */
  function Sealed(source: seq<byte>, target: seq<byte>, body: seq<byte>): seq<byte> {
    var sums := body + WordBytes(Digest(source)) + WordBytes(Digest(target));
    sums + WordBytes(Digest(sums))
  }

  ghost function PatchBytes(source: seq<byte>, target: seq<byte>, markup: seq<byte>, plan: Plan): seq<byte>
    requires Covers(source, target, plan, 0)
  {
    Sealed(source, target, HeaderBytes(source, target, markup) + Emit(source, target, plan, 0, 0, 0, 0))
  }

  // ---------------------------------------------------------------- the length of a patch

  /** Matches are taken from four bytes on. */
  predicate Matching(plan: Plan) {
    match plan
    case Done => true
    case Then(move, rest) => (move.Literal? || Length(move) >= 4) && Matching(rest)
  }

  lemma FlushLength(target: seq<byte>, out: nat, pending: nat)
    requires pending <= out <= |target|
    ensures |Flush(target, out, pending)| <= 5 + pending
  {
    hide Encode;
    if pending > 0 { EncodeBytes(LengthWord(1, pending)); }
  }

  lemma MoveLength(move: Move, out: nat, sourceRel: nat, targetRel: nat)
    requires Length(move) > 0
    ensures |MoveBytes(move, out, sourceRel, targetRel)| <= 15
  {
    hide Encode, SignedWord, UnsignedWord;
    match move
    case Literal =>
    case KeepSource(n) => EncodeBytes(LengthWord(0, n));
    case CopySource(from, n) =>
      EncodeBytes(LengthWord(2, n));
      SignedBelow(from - sourceRel);
      EncodeBytes(SignedWord(from - sourceRel));
    case CopyTarget(from, n) =>
      EncodeBytes(LengthWord(3, n));
      SignedBelow(from - targetRel);
      EncodeBytes(SignedWord(from - targetRel));
    case Repeat(n) =>
      EncodeBytes(LengthWord(3, n));
      UnsignedBelow(out - 1 - targetRel);
      EncodeBytes(UnsignedWord(out - 1 - targetRel));
  }

  lemma SignedBelow(difference: int)
    ensures SignedWord(difference) < WORD64
  {
  }

  lemma UnsignedBelow(difference: int)
    ensures UnsignedWord(difference) < WORD64
  {
  }

  lemma EmitStep(source: seq<byte>, target: seq<byte>, move: Move, rest: Plan, out: nat, pending: nat,
                 sourceRel: nat, targetRel: nat)
    requires Covers(source, target, Then(move, rest), out) && pending <= out
    ensures 0 < Length(move) && out + Length(move) <= |target| && Covers(source, target, rest, out + Length(move))
    ensures |Emit(source, target, Then(move, rest), out, pending, sourceRel, targetRel)|
         == if move.Literal? then |Emit(source, target, rest, out + 1, pending + 1, sourceRel, targetRel)|
            else |Flush(target, out, pending)| + |MoveBytes(move, out, sourceRel, targetRel)|
                 + |Emit(source, target, rest, out + Length(move), 0, SourceRel(move, sourceRel),
                         TargetRel(move, out, targetRel))|
  {
    hide Flush, MoveBytes, Same;
  }

  lemma EmitDone(source: seq<byte>, target: seq<byte>, out: nat, pending: nat, sourceRel: nat, targetRel: nat)
    requires Covers(source, target, Done, out) && pending <= out <= |target|
    ensures |Emit(source, target, Done, out, pending, sourceRel, targetRel)| <= 5 + pending
  {
    hide Flush;
    FlushLength(target, out, pending);
  }

  lemma MatchingStep(move: Move, rest: Plan)
    requires Matching(Then(move, rest))
    ensures Matching(rest) && if move.Literal? then Length(move) == 1 else Length(move) >= 4
  {
  }

  /** Five bytes of actions for each byte of the target are enough. */
  lemma {:induction false} EmitLength(source: seq<byte>, target: seq<byte>, plan: Plan, out: nat, pending: nat,
                                      sourceRel: nat, targetRel: nat)
    requires Covers(source, target, plan, out) && Matching(plan) && pending <= out <= |target|
    ensures |Emit(source, target, plan, out, pending, sourceRel, targetRel)| <= pending + 5 * (|target| - out) + 5
    decreases plan
  {
    hide Emit, Covers, Matching, Length, Flush, MoveBytes, SourceRel, TargetRel;
    match plan
    case Done => EmitDone(source, target, out, pending, sourceRel, targetRel);
    case Then(move, rest) =>
      EmitStep(source, target, move, rest, out, pending, sourceRel, targetRel);
      MatchingStep(move, rest);
      if move.Literal? {
        EmitLength(source, target, rest, out + 1, pending + 1, sourceRel, targetRel);
      } else {
        var sourceRel', targetRel' := SourceRel(move, sourceRel), TargetRel(move, out, targetRel);
        FlushLength(target, out, pending);
        MoveLength(move, out, sourceRel, targetRel);
        EmitLength(source, target, rest, out + Length(move), 0, sourceRel', targetRel');
      }
  }

  /** The most bytes that a patch can have. */
  function PatchBound(target: seq<byte>, markup: seq<byte>): nat {
    |markup| + 5 * |target| + 36
  }

  lemma PatchLength(source: seq<byte>, target: seq<byte>, markup: seq<byte>, plan: Plan)
    requires Covers(source, target, plan, 0) && Matching(plan)
    requires |source| < WORD32 && |target| < WORD32 && |markup| < WORD32
    ensures |PatchBytes(source, target, markup, plan)| <= PatchBound(target, markup)
  {
    hide Encode, Emit, Covers, Matching, Sealed;
    EncodeBytes(|source|);
    EncodeBytes(|target|);
    EncodeBytes(|markup|);
    EmitLength(source, target, plan, 0, 0, 0, 0);
    SealedExtends(source, target, HeaderBytes(source, target, markup) + Emit(source, target, plan, 0, 0, 0, 0));
  }

  // ---------------------------------------------------------------- arithmetic of the action words

  lemma LengthWordRead(mode: nat, length: nat)
    requires mode < 4 && 0 < length <= LIMIT
    ensures var w := LengthWord(mode, length) % WORD64; w % 4 == mode && w % WORD32 / 4 + 1 == length
  {
    var w := (length - 1) * 4 + mode;
    assert LengthWord(mode, length) == w && w < WORD32;
    assert w % WORD64 == w && w % WORD32 == w;
    assert w / 4 == length - 1 && w % 4 == mode;
  }

  lemma SignedWordIs(d: int)
    requires -(LIMIT as int) <= d < LIMIT
    ensures SignedWord(d) == if d >= 0 then 2 * d else if d + LIMIT > 0 then 1 - 2 * d else WORD64 - 2 * LIMIT + 1
  {
    hide Signed32;
    Signed32Small(d);
    if d + LIMIT > 0 {
      Signed32Small(if d >= 0 then 2 * d else -2 * d);
    } else {
      Signed32Smallest();
    }
  }

  lemma Signed32Smallest()
    ensures Signed32(2 * LIMIT) == -2 * LIMIT
  {
  }

  lemma OffsetIs(e: nat)
    requires e < LIMIT
    ensures Offset(2 * e) == e && Offset(2 * e + 1) == 0 - e
    ensures Offset(WORD64 - 2 * LIMIT + 1) == LIMIT
  {
    Signed32Small(2 * e);
    Signed32Small(2 * e + 1);
    FarOffset();
    hide Signed32;
  }

  lemma FarOffset()
    ensures Offset(WORD64 - 2 * LIMIT + 1) == LIMIT
  {
    assert Signed32(WORD64 - 2 * LIMIT + 1) == 1 - 2 * LIMIT;
  }

  /** The sign-and-magnitude word moves a cursor to where the encoder meant, except 2^30 backwards. */
  lemma SignedWordRead(rel: nat, from: nat)
    requires rel <= LIMIT && from < LIMIT
    ensures rel - from != LIMIT ==> (rel + Offset(SignedWord(from - rel) % WORD64)) % WORD32 == from
    ensures rel - from == LIMIT ==> (rel + Offset(SignedWord(from - rel) % WORD64)) % WORD32 == 2 * LIMIT
  {
    hide SignedWord, Offset;
    SignedWordIs(from - rel);
    if rel <= from { OffsetIs(from - rel); } else if rel - from < LIMIT { OffsetIs(rel - from); } else { OffsetIs(0); }
  }

  lemma UnsignedWordIs(d: nat)
    requires d < LIMIT
    ensures UnsignedWord(d) == 2 * d && UnsignedWord(d) % WORD64 == 2 * d
  {
  }

  lemma UnsignedWordRead(rel: nat, from: nat)
    requires rel <= from < LIMIT
    ensures (rel + Offset(UnsignedWord(from - rel) % WORD64)) % WORD32 == from
  {
    hide UnsignedWord, Offset;
    UnsignedWordIs(from - rel);
    OffsetIs(from - rel);
  }

  // ---------------------------------------------------------------- the buffer while patching

  /** The buffer when the first `k` bytes of the target are in place. */
  function Progress(target: seq<byte>, base: seq<byte>, k: nat): (r: seq<byte>)
    requires k <= |target| <= |base|
    ensures |r| == |base|
  {
    target[..k] + base[k..]
  }

  lemma PasteProgress(data: seq<byte>, i: nat, target: seq<byte>, base: seq<byte>, k: nat, n: nat)
    requires |target| <= |base| && Same(data, i, target, k, n)
    ensures Paste(Progress(target, base, k), k, data[i..i + n]) == Progress(target, base, k + n)
  {
    assert data[i..i + n] == target[k..k + n];
    assert target[..k] + target[k..k + n] == target[..k + n];
  }

  lemma {:induction false} CopyProgress(target: seq<byte>, base: seq<byte>, from: nat, k: nat, n: nat)
    requires |target| <= |base| && from < k && Same(target, from, target, k, n)
    ensures CopyWithin(Progress(target, base, k), from, k, n) == Progress(target, base, k + n)
    decreases n
  {
    if n > 0 {
      var t := Progress(target, base, k);
      var a := target[from..from + n];
      assert a[0] == target[from] && a[0] == target[k..k + n][0] == target[k];
      assert t[k := t[from]] == Progress(target, base, k + 1);
      assert target[from + 1..from + n] == a[1..] == target[k + 1..k + n];
      CopyProgress(target, base, from + 1, k + 1, n - 1);
    }
  }

  // ---------------------------------------------------------------- the patcher on an encoder's bytes

  /** The queued literals, read back. */
  lemma FlushStep(patch: seq<byte>, source: seq<byte>, target: seq<byte>, base: seq<byte>, out: nat, pending: nat,
                  at: nat, sourceRel: nat, targetRel: nat)
    requires 0 < pending <= out <= |target| <= |base| && |target| <= LIMIT
    requires At(patch, at, Flush(target, out, pending))
    ensures Step(patch, source, Machine(at, sourceRel, targetRel, out - pending, Progress(target, base, out - pending)))
         == Some(Machine(at + |Flush(target, out, pending)|, sourceRel, targetRel, out, Progress(target, base, out)))
  {
    hide Encode, Parse, LengthWord, Progress, Paste, StepCopy;
    var word := LengthWord(1, pending);
    AtSplit(patch, at, Encode(word), target[out - pending..out]);
    ParseEncoded(patch, at, word);
    LengthWordRead(1, pending);
    LengthWordSmall(1, pending);
    var i := at + |Encode(word)|;
    assert patch[i..i + pending] == target[out - pending..out];
    PasteProgress(patch, i, target, base, out - pending, pending);
  }

  lemma LengthWordSmall(mode: nat, length: nat)
    requires mode < 4 && length > 0
    ensures LengthWord(mode, length) % WORD64 == LengthWord(mode, length) < WORD64
  {
  }

  /** A KeepSource decision, read back. */
  lemma KeepStep(patch: seq<byte>, source: seq<byte>, target: seq<byte>, base: seq<byte>, n: nat, out: nat,
                 at: nat, sourceRel: nat, targetRel: nat)
    requires 0 < n && out + n <= |target| <= |base| && |target| <= LIMIT && Same(source, out, target, out, n)
    requires At(patch, at, Encode(LengthWord(0, n)))
    ensures Step(patch, source, Machine(at, sourceRel, targetRel, out, Progress(target, base, out)))
         == Some(Machine(at + |Encode(LengthWord(0, n))|, sourceRel, targetRel, out + n,
                         Progress(target, base, out + n)))
  {
    hide Encode, Parse, LengthWord, Progress, Paste, StepCopy;
    ParseEncoded(patch, at, LengthWord(0, n));
    LengthWordRead(0, n);
    PasteProgress(source, out, target, base, out, n);
  }

  /** A copy, read back: both words, for either cursor. */
  lemma CopyStep(patch: seq<byte>, source: seq<byte>, target: seq<byte>, base: seq<byte>, mode: nat, n: nat, word: nat,
                 at: nat, m: Machine)
    requires 2 <= mode < 4 && 0 < n <= LIMIT && m.at == at && m.out + n <= |m.target|
    requires At(patch, at, Encode(LengthWord(mode, n)) + Encode(word))
    ensures Parse(patch, at + |Encode(LengthWord(mode, n))|)
         == Number(word, at + |Encode(LengthWord(mode, n)) + Encode(word)|)
    ensures Step(patch, source, m) == StepCopy(patch, source, m.(at := at + |Encode(LengthWord(mode, n))|), mode, n)
  {
    hide Encode, Parse, LengthWord, Progress, Paste, StepCopy;
    AtSplit(patch, at, Encode(LengthWord(mode, n)), Encode(word));
    ParseEncoded(patch, at, LengthWord(mode, n));
    ParseEncoded(patch, at + |Encode(LengthWord(mode, n))|, word);
    LengthWordRead(mode, n);
  }

  /** The machine after a decision, on an encoder's buffer. */
  function After(target: seq<byte>, base: seq<byte>, move: Move, out: nat, at: nat, sourceRel: nat,
                 targetRel: nat): Machine
    requires Length(move) > 0 && out + Length(move) <= |target| <= |base|
  {
    Machine(at + |MoveBytes(move, out, sourceRel, targetRel)|,
            SourceRel(move, sourceRel), TargetRel(move, out, targetRel), out + Length(move),
            Progress(target, base, out + Length(move)))
  }

  lemma SourceStep(patch: seq<byte>, source: seq<byte>, target: seq<byte>, base: seq<byte>, from: nat, n: nat, out: nat,
                   at: nat, sourceRel: nat, targetRel: nat)
    requires 0 < n && out + n <= |target| <= |base| && |target| <= LIMIT && sourceRel <= LIMIT && from < LIMIT
    requires Same(source, from, target, out, n)
    requires At(patch, at, MoveBytes(CopySource(from, n), out, sourceRel, targetRel))
    ensures var m := Machine(at, sourceRel, targetRel, out, Progress(target, base, out));
      && (sourceRel - from != LIMIT ==>
          Step(patch, source, m) == Some(After(target, base, CopySource(from, n), out, at, sourceRel, targetRel)))
      && (sourceRel - from == LIMIT && |source| <= 2 * LIMIT ==> Step(patch, source, m) == None)
  {
    hide Encode, Parse, LengthWord, SignedWord, Offset, Progress, Paste, Step;
    var m := Machine(at, sourceRel, targetRel, out, Progress(target, base, out));
    CopyStep(patch, source, target, base, 2, n, SignedWord(from - sourceRel), at, m);
    SignedWordRead(sourceRel, from);
    PasteProgress(source, from, target, base, out, n);
  }

  lemma TargetStep(patch: seq<byte>, source: seq<byte>, target: seq<byte>, base: seq<byte>, from: nat, n: nat, out: nat,
                   at: nat, sourceRel: nat, targetRel: nat)
    requires 0 < n && out + n <= |target| <= |base| && |target| <= LIMIT && targetRel < LIMIT && from < out
    requires Same(target, from, target, out, n)
    requires At(patch, at, MoveBytes(CopyTarget(from, n), out, sourceRel, targetRel))
    ensures Step(patch, source, Machine(at, sourceRel, targetRel, out, Progress(target, base, out)))
         == Some(After(target, base, CopyTarget(from, n), out, at, sourceRel, targetRel))
  {
    hide Encode, Parse, LengthWord, SignedWord, Offset, Progress, CopyWithin, Step;
    var m := Machine(at, sourceRel, targetRel, out, Progress(target, base, out));
    CopyStep(patch, source, target, base, 3, n, SignedWord(from - targetRel), at, m);
    SignedWordRead(targetRel, from);
    CopyProgress(target, base, from, out, n);
  }

  lemma RepeatStep(patch: seq<byte>, source: seq<byte>, target: seq<byte>, base: seq<byte>, n: nat, out: nat,
                   at: nat, sourceRel: nat, targetRel: nat)
    requires 0 < n && 0 < out && out + n <= |target| <= |base| && |target| <= LIMIT && targetRel < out
    requires Same(target, out - 1, target, out, n)
    requires At(patch, at, MoveBytes(Repeat(n), out, sourceRel, targetRel))
    ensures Step(patch, source, Machine(at, sourceRel, targetRel, out, Progress(target, base, out)))
         == Some(After(target, base, Repeat(n), out, at, sourceRel, targetRel))
  {
    hide Encode, Parse, LengthWord, UnsignedWord, Offset, Progress, CopyWithin, Step;
    var m := Machine(at, sourceRel, targetRel, out, Progress(target, base, out));
    CopyStep(patch, source, target, base, 3, n, UnsignedWord(out - 1 - targetRel), at, m);
    UnsignedWordRead(targetRel, out - 1);
    CopyProgress(target, base, out - 1, out, n);
  }

  lemma SameExtends(source: seq<byte>, given: seq<byte>, i: nat, target: seq<byte>, j: nat, n: nat)
    requires source <= given && Same(source, i, target, j, n)
    ensures Same(given, i, target, j, n)
  {
    assert given[i..i + n] == source[i..i + n];
  }

  /** Any decision but a literal, read back. */
  lemma MoveStep(patch: seq<byte>, source: seq<byte>, given: seq<byte>, target: seq<byte>, base: seq<byte>,
                 move: Move, out: nat, at: nat, sourceRel: nat, targetRel: nat)
    requires !move.Literal? && Sound(source, target, move, out) && source <= given
    requires |target| <= |base| && |target| <= LIMIT && |source| <= LIMIT
    requires sourceRel <= |source| && (targetRel < out || targetRel == 0)
    requires At(patch, at, MoveBytes(move, out, sourceRel, targetRel))
    ensures var m := Machine(at, sourceRel, targetRel, out, Progress(target, base, out));
      if move.CopySource? && sourceRel - move.from == LIMIT then |given| <= 2 * LIMIT ==> Step(patch, given, m) == None
      else Step(patch, given, m) == Some(After(target, base, move, out, at, sourceRel, targetRel))
  {
    hide Encode, Step, Progress, Same, LengthWord, SignedWord, UnsignedWord;
    match move
    case KeepSource(n) =>
      SameExtends(source, given, out, target, out, n);
      KeepStep(patch, given, target, base, n, out, at, sourceRel, targetRel);
    case CopySource(from, n) =>
      SameExtends(source, given, from, target, out, n);
      SameBounds(source, from, target, out, n);
      SourceStep(patch, given, target, base, from, n, out, at, sourceRel, targetRel);
    case CopyTarget(from, n) => TargetStep(patch, given, target, base, from, n, out, at, sourceRel, targetRel);
    case Repeat(n) => RepeatStep(patch, given, target, base, n, out, at, sourceRel, targetRel);
  }

  lemma SameBounds(data: seq<byte>, i: nat, target: seq<byte>, j: nat, n: nat)
    requires Same(data, i, target, j, n)
    ensures i + n <= |data| && j + n <= |target|
  {
  }

  /** A run of the patcher that stops before the footer with the target in place. */
  ghost predicate Recovers(patch: seq<byte>, given: seq<byte>, target: seq<byte>, base: seq<byte>, m: Machine)
  {
    var (halted, last) := Run(patch, given, m);
    |target| <= |base| && halted && last.at + 12 == |patch| && last.out == |target|
      && last.target == Progress(target, base, |target|)
  }

  /** One action that the patcher carries out is one unfolding of its run. */
  lemma RunStep(patch: seq<byte>, given: seq<byte>, m: Machine, next: Machine)
    requires m.at + 12 < |patch| && Step(patch, given, m) == Some(next)
    ensures Run(patch, given, m) == Run(patch, given, next)
  {
  }

  lemma RunStuck(patch: seq<byte>, given: seq<byte>, m: Machine)
    requires m.at + 12 < |patch| && Step(patch, given, m) == None
    ensures !Run(patch, given, m).0
  {
  }

  ghost predicate Limits(source: seq<byte>, target: seq<byte>, base: seq<byte>, given: seq<byte>) {
    |target| <= |base| && |target| <= LIMIT && |source| <= LIMIT && source <= given
  }

  /** Bytes still queued do not stop the patcher: it reads them as one action. */
  lemma RunFlush(patch: seq<byte>, source: seq<byte>, given: seq<byte>, target: seq<byte>, base: seq<byte>,
                 out: nat, pending: nat, at: nat, sourceRel: nat, targetRel: nat)
    requires Limits(source, target, base, given) && pending <= out <= |target|
    requires At(patch, at, Flush(target, out, pending)) && at + |Flush(target, out, pending)| + 12 <= |patch|
    ensures Run(patch, given, Machine(at, sourceRel, targetRel, out - pending, Progress(target, base, out - pending)))
         == Run(patch, given,
                Machine(at + |Flush(target, out, pending)|, sourceRel, targetRel, out, Progress(target, base, out)))
  {
    hide Encode, Step, Progress, Run, At;
    if pending > 0 {
      FlushStep(patch, given, target, base, out, pending, at, sourceRel, targetRel);
      RunStep(patch, given,
        Machine(at, sourceRel, targetRel, out - pending, Progress(target, base, out - pending)),
        Machine(at + |Flush(target, out, pending)|, sourceRel, targetRel, out, Progress(target, base, out)));
    }
  }

  /** The bytes of the rest of a plan stand at `at`, up to the footer. */
  ghost predicate Stands(patch: seq<byte>, source: seq<byte>, target: seq<byte>, plan: Plan, out: nat, pending: nat,
                         at: nat, sourceRel: nat, targetRel: nat)
  {
    && Covers(source, target, plan, out) && pending <= out
    && sourceRel <= |source| && (targetRel < out || targetRel == 0)
    && At(patch, at, Emit(source, target, plan, out, pending, sourceRel, targetRel))
    && at + |Emit(source, target, plan, out, pending, sourceRel, targetRel)| + 12 == |patch|
  }

  /** The patcher's run from `m` for a plan that may or may not be representable. */
  ghost predicate RunsAs(patch: seq<byte>, given: seq<byte>, target: seq<byte>, base: seq<byte>, representable: bool,
                         m: Machine)
  {
    && (representable ==> Recovers(patch, given, target, base, m))
    && (!representable && |given| <= 2 * LIMIT ==> !Run(patch, given, m).0)
  }

  /** The patcher when `pending` bytes of the target are still to come out of the queue. */
  function Waiting(target: seq<byte>, base: seq<byte>, out: nat, pending: nat, at: nat, sourceRel: nat,
                   targetRel: nat): Machine
    requires pending <= out <= |target| <= |base|
  {
    Machine(at, sourceRel, targetRel, out - pending, Progress(target, base, out - pending))
  }

  /** The bytes of a plan drive the patcher to the whole target, exactly when every distance can be written. */
  lemma {:induction false} RunPlan(patch: seq<byte>, source: seq<byte>, given: seq<byte>, target: seq<byte>,
                                   base: seq<byte>, plan: Plan, out: nat, pending: nat, at: nat,
                                   sourceRel: nat, targetRel: nat)
    requires Limits(source, target, base, given)
    requires Stands(patch, source, target, plan, out, pending, at, sourceRel, targetRel) && out <= |target|
    ensures RunsAs(patch, given, target, base, Representable(plan, sourceRel),
                   Waiting(target, base, out, pending, at, sourceRel, targetRel))
    decreases plan, 0
  {
    hide Encode, Step, Progress, Run, Flush, MoveBytes, At, Sound;
    CoversBound(source, target, plan, out);
    match plan
    case Done =>
      RunFlush(patch, source, given, target, base, out, pending, at, sourceRel, targetRel);
      RunEnd(patch, given,
             Machine(at + |Flush(target, out, pending)|, sourceRel, targetRel, out, Progress(target, base, out)));
    case Then(move, rest) =>
      if move.Literal? {
        RunPlan(patch, source, given, target, base, rest, out + 1, pending + 1, at, sourceRel, targetRel);
      } else {
        RunMove(patch, source, given, target, base, move, rest, out, pending, at, sourceRel, targetRel);
      }
  }

  lemma RunEnd(patch: seq<byte>, given: seq<byte>, m: Machine)
    requires m.at + 12 == |patch|
    ensures Run(patch, given, m) == (true, m)
  {
  }

  lemma {:induction false} CoversBound(source: seq<byte>, target: seq<byte>, plan: Plan, out: nat)
    requires Covers(source, target, plan, out)
    ensures out <= |target|
    ensures plan.Then? ==> 0 < Length(plan.move) && out + Length(plan.move) <= |target|
  {
  }

  lemma {:induction false} RunMove(patch: seq<byte>, source: seq<byte>, given: seq<byte>, target: seq<byte>,
                                   base: seq<byte>, move: Move, rest: Plan, out: nat, pending: nat, at: nat,
                                   sourceRel: nat, targetRel: nat)
    requires Limits(source, target, base, given) && !move.Literal?
    requires Stands(patch, source, target, Then(move, rest), out, pending, at, sourceRel, targetRel) && out <= |target|
    ensures RunsAs(patch, given, target, base, Representable(Then(move, rest), sourceRel),
                   Waiting(target, base, out, pending, at, sourceRel, targetRel))
    decreases rest, 1
  {
    hide Encode, Step, Progress, Run, Flush, MoveBytes, At;
    CoversBound(source, target, Then(move, rest), out);
    var queued, bytes := Flush(target, out, pending), MoveBytes(move, out, sourceRel, targetRel);
    var m := After(target, base, move, out, at + |queued|, sourceRel, targetRel);
    var tail := Emit(source, target, rest, out + Length(move), 0, m.sourceRel, m.targetRel);
    AtSplit(patch, at, queued + bytes, tail);
    AtSplit(patch, at, queued, bytes);
    MoveNonempty(move, out, sourceRel, targetRel);
    RunFlush(patch, source, given, target, base, out, pending, at, sourceRel, targetRel);
    var first := Machine(at + |queued|, sourceRel, targetRel, out, Progress(target, base, out));
    MoveStep(patch, source, given, target, base, move, out, at + |queued|, sourceRel, targetRel);
    if move.CopySource? && sourceRel - move.from == LIMIT {
      if |given| <= 2 * LIMIT { RunStuck(patch, given, first); }
    } else {
      RunStep(patch, given, first, m);
      CursorsInRange(source, target, move, out, sourceRel, targetRel);
      RunPlan(patch, source, given, target, base, rest, out + Length(move), 0, m.at, m.sourceRel, m.targetRel);
    }
  }

  lemma CursorsInRange(source: seq<byte>, target: seq<byte>, move: Move, out: nat, sourceRel: nat, targetRel: nat)
    requires Sound(source, target, move, out)
    requires sourceRel <= |source| && (targetRel < out || targetRel == 0)
    ensures SourceRel(move, sourceRel) <= |source|
    ensures TargetRel(move, out, targetRel) < out + Length(move)
  {
  }

  lemma MoveNonempty(move: Move, out: nat, sourceRel: nat, targetRel: nat)
    requires Length(move) > 0 && !move.Literal?
    ensures |MoveBytes(move, out, sourceRel, targetRel)| > 0
  {
    hide Encode;
  }

  // ---------------------------------------------------------------- header, footer, and the whole

  lemma HeaderRead(patch: seq<byte>, source: seq<byte>, target: seq<byte>, markup: seq<byte>)
    requires |source| < WORD32 && |target| < WORD32 && |markup| < WORD32
    requires At(patch, 0, HeaderBytes(source, target, markup))
    ensures |patch| >= 4 && patch[..4] == MAGIC
    ensures ReadHeader(patch) == Some(Header(|source|, |target|, |markup|, |HeaderBytes(source, target, markup)|))
  {
    hide Encode, Parse, At, HeaderBytes, MAGIC, Wrapped;
    HeaderPieces(patch, source, target, markup);
    NumberNarrow(|source|, 4 + |Encode(|source|)|);
    NumberNarrow(|target|, 4 + |Encode(|source|)| + |Encode(|target|)|);
    NumberNarrow(|markup|, 4 + |Encode(|source|)| + |Encode(|target|)| + |Encode(|markup|)|);
    ParseEncoded(patch, 4, |source|);
    ParseEncoded(patch, 4 + |Encode(|source|)|, |target|);
    ParseEncoded(patch, 4 + |Encode(|source|)| + |Encode(|target|)|, |markup|);
  }

  lemma NumberNarrow(v: nat, next: nat)
    requires v < WORD32
    ensures Wrapped(Number(v, next), WORD64) == Number(v, next) && v % WORD32 == v
  {
  }

  lemma HeaderPieces(patch: seq<byte>, source: seq<byte>, target: seq<byte>, markup: seq<byte>)
    requires At(patch, 0, HeaderBytes(source, target, markup))
    ensures |patch| >= 4 && patch[..4] == MAGIC
    ensures At(patch, 4, Encode(|source|)) && At(patch, 4 + |Encode(|source|)|, Encode(|target|))
    ensures At(patch, 4 + |Encode(|source|)| + |Encode(|target|)|, Encode(|markup|))
    ensures 4 + |Encode(|source|)| + |Encode(|target|)| + |Encode(|markup|)| + |markup| <= |patch|
    ensures |HeaderBytes(source, target, markup)|
      == 4 + |Encode(|source|)| + |Encode(|target|)| + |Encode(|markup|)| + |markup|
  {
    hide Encode, Parse, At;
    var a, b, c := Encode(|source|), Encode(|target|), Encode(|markup|);
    AtSplit(patch, 0, MAGIC + a + b + c, markup);
    AtSplit(patch, 0, MAGIC + a + b, c);
    AtSplit(patch, 0, MAGIC + a, b);
    AtSplit(patch, 0, MAGIC, a);
    AtMeans(patch, 0, MAGIC);
    AtMeans(patch, |MAGIC + a + b + c|, markup);
  }

  /** The footer satisfies the patcher's three checks. */
  lemma FooterChecks(source: seq<byte>, given: seq<byte>, target: seq<byte>, body: seq<byte>, m: Machine)
    requires source <= given && m.at == |body| && m.out == |target| <= |m.target| && m.target[..m.out] == target
    ensures Check(Sealed(source, target, body), given, |source|, m) == Success
  {
    hide Digest, WordAt, WordBytes;
    var a, b := WordBytes(Digest(source)), WordBytes(Digest(target));
    var sums := body + a + b;
    var c := WordBytes(Digest(sums));
    var patch := Sealed(source, target, body);
    assert patch == sums + c;
    assert patch[|body|..|body| + 4] == a;
    assert patch[|body| + 4..|body| + 8] == b;
    assert patch[|body| + 8..|body| + 12] == c;
    WordRoundTrip(patch, |body|, Digest(source));
    WordRoundTrip(patch, |body| + 4, Digest(target));
    WordRoundTrip(patch, |body| + 8, Digest(sums));
    assert patch[..|body| + 8] == sums;
    assert given[..|source|] == source;
  }

  lemma SealedExtends(source: seq<byte>, target: seq<byte>, body: seq<byte>)
    ensures |Sealed(source, target, body)| == |body| + 12 && body <= Sealed(source, target, body)
  {
  }

  /** The bytes written for a plan give back its target, exactly when every distance can be written. */
  lemma PatchRecovers(source: seq<byte>, given: seq<byte>, target: seq<byte>, markup: seq<byte>, plan: Plan,
                      buffer: seq<byte>)
    requires Covers(source, target, plan, 0) && Limits(source, target, buffer, given)
    requires |PatchBytes(source, target, markup, plan)| < WORD32
    ensures var r := Interpret(PatchBytes(source, target, markup, plan), given, buffer);
      && (Representable(plan, 0) ==> r == Outcome(Success, target + buffer[|target|..]))
      && (!Representable(plan, 0) && |given| <= 2 * LIMIT ==> r.status == OutOfBounds)
  {
    hide Encode, Run, Check, Emit, ReadHeader, Sealed, HeaderBytes, Representable, Covers;
    var header := HeaderBytes(source, target, markup);
    var actions := Emit(source, target, plan, 0, 0, 0, 0);
    var body := header + actions;
    var patch := Sealed(source, target, body);
    SealedExtends(source, target, body);
    var start := Machine(|header|, 0, 0, 0, buffer);
    assert Progress(target, buffer, 0) == buffer;
    AtStart(body, patch[|body|..]);
    AtSplit(patch, 0, header, actions);
    assert patch == PatchBytes(source, target, markup, plan);
    HeaderLength(source, target, markup);
    HeaderRead(patch, source, target, markup);
    assert Waiting(target, buffer, 0, 0, |header|, 0, 0) == start;
    RunPlan(patch, source, given, target, buffer, plan, 0, 0, |header|, 0, 0);
    if Representable(plan, 0) {
      var last := Run(patch, given, start).1;
      FooterChecks(source, given, target, body, last);
    }
  }

  lemma HeaderLength(source: seq<byte>, target: seq<byte>, markup: seq<byte>)
    ensures |HeaderBytes(source, target, markup)| >= 7 + |markup|
  {
    hide Encode;
  }
}
