/** The linear encoder: runs, unchanged stretches and literals, in one pass. */
module BpsLinear {
  import opened Bits
  import opened VarInt
  import opened Crc32
  import opened BpsPatch
  import opened BpsPlan
  import opened BpsWriter
  import opened Stream
  import PagedFile

  /** How many bytes from `out + n` on repeat the byte at `out`. */
  function Repeats(target: seq<byte>, out: nat, n: nat): (r: nat)
    requires out < |target| && 0 < n
    ensures out + n <= |target| ==> out + n + r <= |target|
    decreases |target| - (out + n)
  {
    if out + n < |target| && target[out] == target[out + n] then 1 + Repeats(target, out, n + 1) else 0
  }

  lemma {:induction false} RepeatsSame(target: seq<byte>, out: nat, n: nat, k: nat)
    requires out < |target| && 0 < n && n <= k < n + Repeats(target, out, n)
    ensures out + k < |target| && target[out + k] == target[out]
    decreases k - n
  {
    if n < k { RepeatsSame(target, out, n + 1, k); }
  }

  /** The run ends at the target's end or at a different byte. */
  lemma {:induction false} RepeatsMaximal(target: seq<byte>, out: nat, n: nat)
    requires out < |target| && 0 < n && out + n <= |target|
    ensures var end := out + n + Repeats(target, out, n); end == |target| || target[end] != target[out]
    decreases |target| - (out + n)
  {
    if out + n < |target| && target[out] == target[out + n] { RepeatsMaximal(target, out, n + 1); }
  }

  /** The decisions of the linear encoder from `out` on. */
  function Plan(source: seq<byte>, target: seq<byte>, out: nat): BpsPlan.Plan
    requires out <= |target|
    decreases |target| - out
  {
    if out == |target| then Done
    else
      var run := Repeats(target, out, 1);
      var kept := Common(source, out, target, out);
      if run >= 4 then Then(Literal, Then(Repeat(run), Plan(source, target, out + 1 + run)))
      else if kept >= 4 then Then(KeepSource(kept), Plan(source, target, out + kept))
      else Then(Literal, Plan(source, target, out + 1))
  }

  lemma RunIsSame(target: seq<byte>, out: nat)
    requires out < |target|
    ensures Same(target, out, target, out + 1, Repeats(target, out, 1))
  {
    var n := Repeats(target, out, 1);
    var a, b := target[out..out + n], target[out + 1..out + 1 + n];
    forall k | 0 <= k < n ensures a[k] == b[k] {
      if k > 0 { RepeatsSame(target, out, 1, k); }
      RepeatsSame(target, out, 1, k + 1);
    }
  }

  /** Every decision reproduces the target, to its end. */
  lemma {:induction false} PlanCovers(source: seq<byte>, target: seq<byte>, out: nat)
    requires out <= |target|
    ensures Covers(source, target, Plan(source, target, out), out)
    decreases |target| - out
  {
    hide Same, Repeats, Common;
    if out < |target| {
      var run := Repeats(target, out, 1);
      var kept := Common(source, out, target, out);
      if run >= 4 {
        RunIsSame(target, out);
        PlanCovers(source, target, out + 1 + run);
      } else if kept >= 4 {
        CommonIsSame(source, out, target, out);
        PlanCovers(source, target, out + kept);
      } else {
        PlanCovers(source, target, out + 1);
      }
    }
  }

  /**
    * A run of four repetitions or more comes first, as long as it is; then four unchanged bytes or more; else a
    * literal.
    */
  lemma PlanTakes(source: seq<byte>, target: seq<byte>, out: nat)
    requires out < |target|
    ensures var plan := Plan(source, target, out);
      if out + 5 <= |target| && Same(target, out, target, out + 1, 4) then
        plan.Then? && plan.move == Literal && plan.rest.Then? && plan.rest.move.Repeat?
        && var n := plan.rest.move.length;
           && n >= 4 && out + 1 + n <= |target| && Same(target, out, target, out + 1, n)
           && (out + 1 + n < |target| ==> target[out + 1 + n] != target[out])
      else if Same(source, out, target, out, 4) then
        plan.Then? && plan.move.KeepSource?
        && var n := plan.move.length;
           n >= 4 && Same(source, out, target, out, n) && !Same(source, out, target, out, n + 1)
      else plan == Then(Literal, Plan(source, target, out + 1))
  {
    hide Repeats, Common;
    var run, kept := Repeats(target, out, 1), Common(source, out, target, out);
    RepeatsMaximal(target, out, 1);
    if run > 0 { RunIsSame(target, out); }
    if out + 5 <= |target| && Same(target, out, target, out + 1, 4) { FourRepeated(target, out); }
    if run >= 4 { SameFewer(target, out, target, out + 1, run, 4); }
    if kept > 0 { CommonIsSame(source, out, target, out); }
    if Same(source, out, target, out, 4) { CommonIsLongest(source, out, target, out, 4); }
    if Same(source, out, target, out, kept + 1) { CommonIsLongest(source, out, target, out, kept + 1); }
    if kept >= 4 { SameFewer(source, out, target, out, kept, 4); }
  }

  lemma SameFewer(data: seq<byte>, i: nat, target: seq<byte>, j: nat, n: nat, m: nat)
    requires Same(data, i, target, j, n) && m <= n
    ensures Same(data, i, target, j, m)
  {
    assert data[i..i + m] == data[i..i + n][..m];
    assert target[j..j + m] == target[j..j + n][..m];
  }

  lemma FourRepeated(target: seq<byte>, out: nat)
    requires out + 5 <= |target| && Same(target, out, target, out + 1, 4)
    ensures Repeats(target, out, 1) >= 4
  {
    var a, b := target[out..out + 4], target[out + 1..out + 5];
    assert a[0] == b[0] && a[1] == b[1] && a[2] == b[2] && a[3] == b[3];
    assert Repeats(target, out, 1) == 1 + Repeats(target, out, 2);
    assert Repeats(target, out, 3) == 1 + Repeats(target, out, 4);
  }

  /** Runs are copied forwards only: no relative offset is negative. */
  ghost predicate Forward(plan: BpsPlan.Plan, out: nat, targetRel: nat) {
    match plan
    case Done => true
    case Then(move, rest) =>
      && (move.Repeat? ==> targetRel < out)
      && !move.CopySource? && !move.CopyTarget?
      && Forward(rest, out + Length(move), TargetRel(move, out, targetRel))
  }

  lemma {:induction false} PlanForward(source: seq<byte>, target: seq<byte>, out: nat, targetRel: nat)
    requires out <= |target| && (targetRel < out || targetRel == 0)
    ensures Forward(Plan(source, target, out), out, targetRel)
    decreases |target| - out
  {
    hide Repeats, Common;
    if out < |target| {
      var run := Repeats(target, out, 1);
      var kept := Common(source, out, target, out);
      if run >= 4 {
        PlanForward(source, target, out + 1 + run, out + run);
      } else if kept >= 4 {
        PlanForward(source, target, out + kept, targetRel);
      } else {
        PlanForward(source, target, out + 1, targetRel);
      }
    }
  }

  lemma {:induction false} ForwardRepresentable(plan: BpsPlan.Plan, out: nat, targetRel: nat, sourceRel: nat)
    requires Forward(plan, out, targetRel)
    ensures Representable(plan, sourceRel)
  {
    if plan.Then? {
      ForwardRepresentable(plan.rest, out + Length(plan.move), TargetRel(plan.move, out, targetRel), sourceRel);
    }
  }

  /** The bytes of the patch. */
  ghost function Patch(source: seq<byte>, target: seq<byte>, markup: seq<byte>): seq<byte> {
    PlanCovers(source, target, 0);
    PatchBytes(source, target, markup, Plan(source, target, 0))
  }

  /** Applying what the linear encoder writes gives the target back, for any source that begins with the encoder's. */
  lemma Recovers(source: seq<byte>, given: seq<byte>, target: seq<byte>, markup: seq<byte>, buffer: seq<byte>)
    requires Limits(source, target, buffer, given) && |Patch(source, target, markup)| < WORD32
    ensures Interpret(Patch(source, target, markup), given, buffer) == Outcome(Success, target + buffer[|target|..])
  {
    hide Interpret, PatchBytes, Plan, Covers, Representable;
    PlanCovers(source, target, 0);
    PlanForward(source, target, 0, 0);
    ForwardRepresentable(Plan(source, target, 0), 0, 0, 0);
    PatchRecovers(source, given, target, markup, Plan(source, target, 0), buffer);
  }

  lemma {:induction false} PlanMatching(source: seq<byte>, target: seq<byte>, out: nat)
    requires out <= |target|
    ensures Matching(Plan(source, target, out))
    decreases |target| - out
  {
    hide Repeats, Common;
    if out < |target| {
      var run := Repeats(target, out, 1);
      var kept := Common(source, out, target, out);
      if run >= 4 {
        PlanMatching(source, target, out + 1 + run);
      } else if kept >= 4 {
        PlanMatching(source, target, out + kept);
      } else {
        PlanMatching(source, target, out + 1);
      }
    }
  }

  /** A bound that can be told from the lengths before anything is encoded. */
  lemma PatchFits(source: seq<byte>, target: seq<byte>, markup: seq<byte>)
    requires |source| < WORD32 && |target| < WORD32 && |markup| < WORD32
    ensures |Patch(source, target, markup)| <= PatchBound(target, markup)
  {
    hide Plan, Covers, Matching, PatchBytes;
    PlanCovers(source, target, 0);
    PlanMatching(source, target, 0);
    PatchLength(source, target, markup, Plan(source, target, 0));
  }

  /** Every patch of that many bytes recovers the target. */
  lemma RecoversBySize(source: seq<byte>, given: seq<byte>, target: seq<byte>, markup: seq<byte>, buffer: seq<byte>)
    requires Limits(source, target, buffer, given) && PatchBound(target, markup) < WORD32
    ensures Interpret(Patch(source, target, markup), given, buffer) == Outcome(Success, target + buffer[|target|..])
  {
    hide Interpret, Patch;
    PatchFits(source, target, markup);
    Recovers(source, given, target, markup, buffer);
  }

  // ---------------------------------------------------------------- the encoder

  /** The two lengths measured at each step. */
  method Measure(source: seq<byte>, target: seq<byte>, out: nat) returns (sourceLength: nat, runLength: nat)
    requires out < |target|
    ensures sourceLength == Common(source, out, target, out) && runLength == Repeats(target, out, 1)
  {
    var n := 0;
    var smaller := if |source| < |target| then |source| else |target|;
    sourceLength := 0;
    while out + n < smaller
      invariant sourceLength == n
      invariant Common(source, out, target, out) == sourceLength + Common(source, out + n, target, out + n)
    {
      if source[out + n] != target[out + n] { break; }
      sourceLength := sourceLength + 1;
      n := n + 1;
    }
    n := 1;
    runLength := 0;
    while out + n < |target|
      invariant n > 0 && Repeats(target, out, 1) == runLength + Repeats(target, out, n)
    {
      if target[out] != target[out + n] { break; }
      runLength := runLength + 1;
      n := n + 1;
    }
  }

  /** `bpslinear::create`: the file keeps the whole patch if and only if that has at most 2^31 bytes. */
  method Create(source: seq<byte>, target: seq<byte>, markup: seq<byte>) returns (disk: seq<byte>)
    ensures disk == PagedFile.Kept(Patch(source, target, markup))
    ensures disk == Patch(source, target, markup) <==> |Patch(source, target, markup)| <= PagedFile.LIMIT
  {
    hide Flush, MoveBytes, HeaderBytes, Sealed, Encode, Register, Rest, Patch, PagedFile.Kept, Writer.Valid;
    var w := new Writer();
    WriteHeader(w, source, target, markup);
    var out, pending, targetRel := 0, 0, 0;
    ghost var body := HeaderBytes(source, target, markup) + Rest(source, target, 0, 0, 0);
    while out < |target|
      invariant 0 <= out <= |target| && pending <= out && w.Valid()
      invariant fresh(w) && fresh(w.file) && fresh(w.file.buffer)
      invariant w.bytes + Rest(source, target, out, pending, targetRel) == body
      decreases |target| - out
    {
      PlanStep(source, target, out, pending, targetRel, w.bytes);
      var sourceLength, runLength := Measure(source, target, out);
      if runLength >= 4 {
        pending := pending + 1;
        out := out + 1;
        WriteQueue(w, target, out, pending);
        pending := 0;
        w.WriteNumber(LengthWord(3, runLength));
        w.WriteNumber(UnsignedWord(out - 1 - targetRel));
        out := out + runLength;
        targetRel := out - 1;
      } else if sourceLength >= 4 {
        WriteQueue(w, target, out, pending);
        pending := 0;
        w.WriteNumber(LengthWord(0, sourceLength));
        out := out + sourceLength;
      } else {
        pending := pending + 1;
        out := out + 1;
      }
    }
    WriteQueue(w, target, out, pending);
    PlanEnd(source, target, pending, targetRel);
    WriteFooter(w, source, target);
    PatchSealed(source, target, markup);
    PagedFile.KeptWhole(w.bytes);
    disk := w.Close();
  }

  /** The bytes still to be written. */
  ghost function Rest(source: seq<byte>, target: seq<byte>, out: nat, pending: nat, targetRel: nat): seq<byte>
    requires pending <= out <= |target|
  {
    PlanCovers(source, target, out);
    Emit(source, target, Plan(source, target, out), out, pending, 0, targetRel)
  }

  lemma PatchSealed(source: seq<byte>, target: seq<byte>, markup: seq<byte>)
    ensures Patch(source, target, markup)
         == Sealed(source, target, HeaderBytes(source, target, markup) + Rest(source, target, 0, 0, 0))
  {
    hide Plan, Emit, Covers, Sealed, HeaderBytes;
  }

  lemma PlanEnd(source: seq<byte>, target: seq<byte>, pending: nat, targetRel: nat)
    requires pending <= |target|
    ensures Rest(source, target, |target|, pending, targetRel) == Flush(target, |target|, pending)
  {
  }

  /** What one turn of the loop adds to the bytes written so far. */
  lemma PlanStep(source: seq<byte>, target: seq<byte>, out: nat, pending: nat, targetRel: nat, written: seq<byte>)
    requires pending <= out < |target|
    ensures var run := Repeats(target, out, 1);
      var kept := Common(source, out, target, out);
      written + Rest(source, target, out, pending, targetRel)
      == if run >= 4 then
           written + Flush(target, out + 1, pending + 1) + Encode(LengthWord(3, run))
           + Encode(UnsignedWord(out - targetRel)) + Rest(source, target, out + 1 + run, 0, out + run)
         else if kept >= 4 then
           written + Flush(target, out, pending) + Encode(LengthWord(0, kept))
           + Rest(source, target, out + kept, 0, targetRel)
         else
           written + Rest(source, target, out + 1, pending + 1, targetRel)
  {
    hide Flush, Encode, Sound, Covers, Emit, LengthWord, UnsignedWord, Repeats, Common;
    PlanCovers(source, target, out);
    var run, kept := Repeats(target, out, 1), Common(source, out, target, out);
    if run >= 4 {
      var rest := Plan(source, target, out + 1 + run);
      var a, b := Encode(LengthWord(3, run)), Encode(UnsignedWord(out - targetRel));
      EmitMove(source, target, Literal, Then(Repeat(run), rest), out, pending, 0, targetRel, written);
      EmitMove(source, target, Repeat(run), rest, out + 1, pending + 1, 0, targetRel, written);
      Regroup(written + Flush(target, out + 1, pending + 1), a, b);
    } else if kept >= 4 {
      EmitMove(source, target, KeepSource(kept), Plan(source, target, out + kept), out, pending, 0, targetRel, written);
    } else {
      EmitMove(source, target, Literal, Plan(source, target, out + 1), out, pending, 0, targetRel, written);
    }
  }

  lemma Regroup(a: seq<byte>, b: seq<byte>, c: seq<byte>)
    ensures a + (b + c) == a + b + c
  {
  }

  /** Encoding and patching in place: the buffer ends up holding the target. */
  method RoundTrip(source: seq<byte>, target: seq<byte>, markup: seq<byte>, buffer: array<byte>) returns (r: Status)
    requires Limits(source, target, buffer[..], source) && |Patch(source, target, markup)| <= PagedFile.LIMIT
    modifies buffer
    ensures r == Success && buffer[..] == target + old(buffer[|target|..])
  {
    hide Interpret, Patch;
    Recovers(source, source, target, markup, buffer[..]);
    assert buffer[..][|target|..] == buffer[|target|..];
    var patch := Create(source, target, markup);
    r := Apply(patch, source, buffer);
  }

  /** The same, for lengths that promise a patch of at most 2^31 bytes. */
  method RoundTripBySize(source: seq<byte>, target: seq<byte>, markup: seq<byte>, buffer: array<byte>)
    returns (r: Status)
    requires Limits(source, target, buffer[..], source) && PatchBound(target, markup) <= PagedFile.LIMIT
    modifies buffer
    ensures r == Success && buffer[..] == target + old(buffer[|target|..])
  {
    hide Patch;
    PatchFits(source, target, markup);
    r := RoundTrip(source, target, markup, buffer);
  }
}
