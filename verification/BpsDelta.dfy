/** The delta encoder: the longest match over source, target so far, and the unchanged position. */
module BpsDelta {
  import opened Bits
  import opened VarInt
  import opened Crc32
  import opened BpsPatch
  import opened BpsPlan
  import opened BpsWriter
  import opened Stream
  import PagedFile

  /** The encoder's linked lists of offsets, the newest first. */
  datatype Offsets = Nil | Node(offset: nat, next: Offsets)

  /** The best match so far: `maxLength`, `maxOffset` and `mode`. */
  datatype Choice = Choice(length: nat, from: nat, mode: nat)

  // ---------------------------------------------------------------- the choice, by brute force

  /** A candidate replaces the best one only when it is strictly longer. */
  function Better(c: Choice, length: nat, from: nat, mode: nat): Choice {
    if length > c.length then Choice(length, from, mode) else c
  }

  function Scan(data: seq<byte>, list: Offsets, target: seq<byte>, out: nat, mode: nat, c: Choice): Choice
    decreases list
  {
    match list
    case Nil => c
    case Node(offset, next) =>
      Scan(data, next, target, out, mode, Better(c, Common(data, offset, target, out), offset, mode))
  }

  /** Every offset below `n`, the highest first. */
  function All(n: nat): Offsets {
    if n == 0 then Nil else Node(n - 1, All(n - 1))
  }

  predicate In(offset: nat, list: Offsets) {
    match list
    case Nil => false
    case Node(o, next) => o == offset || In(offset, next)
  }

  function Pick(source: seq<byte>, sourceList: Offsets, target: seq<byte>, targetList: Offsets, out: nat): Choice {
    var kept := Better(Choice(0, 0, 1), Common(source, out, target, out), 0, 0);
    Scan(target, targetList, target, out, 3, Scan(source, sourceList, target, out, 2, kept))
  }

  /** Matches shorter than four bytes are not worth an action. */
  function MoveOf(c: Choice): Move {
    if c.length < 4 then Literal
    else if c.mode == 0 then KeepSource(c.length)
    else if c.mode == 2 then CopySource(c.from, c.length)
    else CopyTarget(c.from, c.length)
  }

  function Decide(source: seq<byte>, target: seq<byte>, starts: Offsets, out: nat): Move {
    MoveOf(Pick(source, All(|source|), target, starts, out))
  }

  // ---------------------------------------------------------------- what the choice is

  /** The length of the candidate a choice names. */
  ghost predicate Genuine(source: seq<byte>, target: seq<byte>, out: nat, c: Choice) {
    || (c.mode == 1 && c.length == 0)
    || (c.mode == 0 && c.length == Common(source, out, target, out))
    || (c.mode == 2 && c.length == Common(source, c.from, target, out))
    || (c.mode == 3 && c.length == Common(target, c.from, target, out) && c.from < out)
  }

  ghost predicate Below(list: Offsets, bound: nat) {
    match list
    case Nil => true
    case Node(o, next) => o < bound && Below(next, bound)
  }

  lemma {:induction false} BelowWeaken(list: Offsets, a: nat, b: nat)
    requires Below(list, a) && a <= b
    ensures Below(list, b)
  {
    if list.Node? { BelowWeaken(list.next, a, b); }
  }

  lemma {:induction false} ScanGenuine(source: seq<byte>, target: seq<byte>, list: Offsets, out: nat, mode: nat,
                                       c: Choice)
    requires Genuine(source, target, out, c) && (mode == 2 || (mode == 3 && Below(list, out)))
    ensures Genuine(source, target, out, Scan(if mode == 2 then source else target, list, target, out, mode, c))
    decreases list
  {
    if list.Node? {
      var data := if mode == 2 then source else target;
      ScanGenuine(source, target, list.next, out, mode,
                  Better(c, Common(data, list.offset, target, out), list.offset, mode));
    }
  }

  lemma {:induction false} ScanMaximal(data: seq<byte>, list: Offsets, target: seq<byte>, out: nat, mode: nat,
                                       c: Choice, o: nat)
    ensures Scan(data, list, target, out, mode, c).length >= c.length
    ensures In(o, list) ==> Scan(data, list, target, out, mode, c).length >= Common(data, o, target, out)
    decreases list
  {
    if list.Node? {
      ScanMaximal(data, list.next, target, out, mode,
                  Better(c, Common(data, list.offset, target, out), list.offset, mode), o);
    }
  }

  lemma {:induction false} AllIn(n: nat, o: nat)
    ensures In(o, All(n)) <==> o < n
  {
    if n > 0 { AllIn(n - 1, o); }
  }

  lemma PickGenuine(source: seq<byte>, sourceList: Offsets, target: seq<byte>, targetList: Offsets, out: nat)
    requires Below(targetList, out)
    ensures Genuine(source, target, out, Pick(source, sourceList, target, targetList, out))
  {
    hide Scan, Common;
    var kept := Better(Choice(0, 0, 1), Common(source, out, target, out), 0, 0);
    ScanGenuine(source, target, sourceList, out, 2, kept);
    ScanGenuine(source, target, targetList, out, 3, Scan(source, sourceList, target, out, 2, kept));
  }

  /** The chosen length is the longest of the unchanged position, every source offset, and every earlier start. */
  lemma PickMaximal(source: seq<byte>, target: seq<byte>, starts: Offsets, out: nat, o: nat)
    ensures var best := Pick(source, All(|source|), target, starts, out).length;
      && Common(source, out, target, out) <= best
      && (o < |source| ==> Common(source, o, target, out) <= best)
      && (In(o, starts) ==> Common(target, o, target, out) <= best)
  {
    hide Scan, Common, All;
    var kept := Better(Choice(0, 0, 1), Common(source, out, target, out), 0, 0);
    AllIn(|source|, o);
    ScanMaximal(source, All(|source|), target, out, 2, kept, o);
    ScanMaximal(target, starts, target, out, 3, Scan(source, All(|source|), target, out, 2, kept), o);
  }

  /** The candidates of a list, in the order in which they are tried. */
  ghost function Tried(data: seq<byte>, list: Offsets, target: seq<byte>, out: nat, mode: nat): seq<Choice>
    decreases list
  {
    match list
    case Nil => []
    case Node(o, next) =>
      [Choice(Common(data, o, target, out), o, mode)] + Tried(data, next, target, out, mode)
  }

  /** Everything there is to choose from, no match at all first. */
  ghost function Candidates(source: seq<byte>, target: seq<byte>, starts: Offsets, out: nat): seq<Choice> {
    [Choice(0, 0, 1), Choice(Common(source, out, target, out), 0, 0)]
    + Tried(source, All(|source|), target, out, 2) + Tried(target, starts, target, out, 3)
  }

  /** The first of the longest candidates. */
  ghost predicate FirstLongest(tried: seq<Choice>, c: Choice) {
    exists k :: 0 <= k < |tried| && tried[k] == c
      && (forall j :: 0 <= j < k ==> tried[j].length < c.length)
      && (forall j :: 0 <= j < |tried| ==> tried[j].length <= c.length)
  }

  lemma FirstLongestMore(tried: seq<Choice>, c: Choice, d: Choice)
    requires FirstLongest(tried, c)
    ensures FirstLongest(tried + [d], Better(c, d.length, d.from, d.mode))
  {
    var all, n := tried + [d], |tried|;
    var k :| 0 <= k < n && tried[k] == c
      && (forall j :: 0 <= j < k ==> tried[j].length < c.length)
      && (forall j :: 0 <= j < n ==> tried[j].length <= c.length);
    assert forall j :: 0 <= j < n ==> all[j] == tried[j];
    if d.length > c.length { assert all[n] == d; } else { assert all[k] == c; }
  }

  lemma {:induction false} ScanFirst(data: seq<byte>, list: Offsets, target: seq<byte>, out: nat, mode: nat, c: Choice,
                                     tried: seq<Choice>)
    requires FirstLongest(tried, c)
    ensures FirstLongest(tried + Tried(data, list, target, out, mode), Scan(data, list, target, out, mode, c))
    decreases list
  {
    hide FirstLongest, Common;
    match list
    case Nil => assert tried + [] == tried;
    case Node(o, next) =>
      var d := Choice(Common(data, o, target, out), o, mode);
      FirstLongestMore(tried, c, d);
      ScanFirst(data, next, target, out, mode, Better(c, d.length, o, mode), tried + [d]);
      assert tried + ([d] + Tried(data, next, target, out, mode))
          == (tried + [d]) + Tried(data, next, target, out, mode);
  }

  /** Of several longest candidates the first is taken: nothing, the unchanged position, the source, the target. */
  lemma PickFirst(source: seq<byte>, target: seq<byte>, starts: Offsets, out: nat)
    ensures FirstLongest(Candidates(source, target, starts, out), Pick(source, All(|source|), target, starts, out))
  {
    hide Common, Scan, Tried, FirstLongest;
    var none, kept := Choice(0, 0, 1), Choice(Common(source, out, target, out), 0, 0);
    OnlyChoice(none);
    FirstLongestMore([none], none, kept);
    assert [none] + [kept] == [none, kept];
    var first := Better(none, kept.length, 0, 0);
    ScanFirst(source, All(|source|), target, out, 2, first, [none, kept]);
    ScanFirst(target, starts, target, out, 3, Scan(source, All(|source|), target, out, 2, first),
              [none, kept] + Tried(source, All(|source|), target, out, 2));
  }

  lemma OnlyChoice(c: Choice)
    ensures FirstLongest([c], c)
  {
    assert [c][0] == c;
  }

  lemma CommonBound(data: seq<byte>, i: nat, target: seq<byte>, j: nat)
    requires Common(data, i, target, j) > 0
    ensures i + Common(data, i, target, j) <= |data| && j + Common(data, i, target, j) <= |target|
  {
  }

  lemma PickSound(source: seq<byte>, target: seq<byte>, starts: Offsets, out: nat)
    requires out < |target| && Below(starts, out)
    ensures Sound(source, target, Decide(source, target, starts, out), out)
    ensures 0 < Length(Decide(source, target, starts, out)) <= |target| - out
  {
    hide Common, Pick, All, Same;
    var c := Pick(source, All(|source|), target, starts, out);
    PickGenuine(source, All(|source|), target, starts, out);
    if c.length >= 4 {
      if c.mode == 0 {
        CommonIsSame(source, out, target, out);
        CommonBound(source, out, target, out);
      } else if c.mode == 2 {
        CommonIsSame(source, c.from, target, out);
        CommonBound(source, c.from, target, out);
      } else {
        CommonIsSame(target, c.from, target, out);
        CommonBound(target, c.from, target, out);
      }
    }
  }

  /** A match of four bytes or more is taken when there is one, and no candidate is longer than the one taken. */
  lemma DecideLongest(source: seq<byte>, target: seq<byte>, starts: Offsets, out: nat)
    requires out < |target| && Below(starts, out)
    ensures var move := Decide(source, target, starts, out);
      var longest := if move.Literal? then 3 else Length(move);
      && (!move.Literal? ==> longest >= 4)
      && Common(source, out, target, out) <= longest
      && (forall o :: 0 <= o < |source| ==> Common(source, o, target, out) <= longest)
      && (forall o: nat :: In(o, starts) ==> Common(target, o, target, out) <= longest)
  {
    hide Common, In, All;
    PickMaximal(source, target, starts, out, 0);
    forall o | 0 <= o < |source|
      ensures Common(source, o, target, out) <= Pick(source, All(|source|), target, starts, out).length
    {
      PickMaximal(source, target, starts, out, o);
    }
    forall o: nat | In(o, starts)
      ensures Common(target, o, target, out) <= Pick(source, All(|source|), target, starts, out).length
    {
      PickMaximal(source, target, starts, out, o);
    }
  }

  /** The decisions of the delta encoder from `out` on; `starts` are the positions where earlier steps began. */
  ghost function Plan(source: seq<byte>, target: seq<byte>, out: nat, starts: Offsets): BpsPlan.Plan
    requires out <= |target| && Below(starts, out)
    decreases |target| - out
  {
    if out == |target| then Done
    else
      var move := Decide(source, target, starts, out);
      PickSound(source, target, starts, out);
      BelowWeaken(starts, out, out + Length(move));
      Then(move, Plan(source, target, out + Length(move), Node(out, starts)))
  }

  /** Every decision reproduces the target, to its end. */
  lemma {:induction false} PlanCovers(source: seq<byte>, target: seq<byte>, out: nat, starts: Offsets)
    requires out <= |target| && Below(starts, out)
    ensures Covers(source, target, Plan(source, target, out, starts), out)
    decreases |target| - out
  {
    hide Sound, Decide;
    if out < |target| {
      var move := Decide(source, target, starts, out);
      PickSound(source, target, starts, out);
      BelowWeaken(starts, out, out + Length(move));
      PlanCovers(source, target, out + Length(move), Node(out, starts));
    }
  }

  // ---------------------------------------------------------------- the whole encoding

  lemma {:induction false} ShortSourceRepresentable(source: seq<byte>, target: seq<byte>, plan: BpsPlan.Plan,
                                                    out: nat, sourceRel: nat)
    requires Covers(source, target, plan, out) && sourceRel <= |source| < LIMIT
    ensures Representable(plan, sourceRel)
    decreases plan
  {
    if plan.Then? {
      ShortSourceRepresentable(source, target, plan.rest, out + Length(plan.move), SourceRel(plan.move, sourceRel));
    }
  }

  /** The bytes of the patch. */
  ghost function Patch(source: seq<byte>, target: seq<byte>, markup: seq<byte>): seq<byte> {
    PlanCovers(source, target, 0, Nil);
    PatchBytes(source, target, markup, Plan(source, target, 0, Nil))
  }

  /** No source copy of the encoding goes back by 2^30. */
  ghost predicate Writable(source: seq<byte>, target: seq<byte>) {
    Representable(Plan(source, target, 0, Nil), 0)
  }

  /** Applying what the delta encoder writes gives the target back exactly when no source copy goes back by 2^30. */
  lemma Recovers(source: seq<byte>, given: seq<byte>, target: seq<byte>, markup: seq<byte>, buffer: seq<byte>)
    requires Limits(source, target, buffer, given) && |Patch(source, target, markup)| < WORD32
    ensures |source| < LIMIT ==> Writable(source, target)
    ensures var r := Interpret(Patch(source, target, markup), given, buffer);
      && (Writable(source, target) ==> r == Outcome(Success, target + buffer[|target|..]))
      && (!Writable(source, target) && |given| <= 2 * LIMIT ==> r.status == OutOfBounds)
  {
    hide Interpret, PatchBytes, Plan, Covers, Representable;
    PlanCovers(source, target, 0, Nil);
    if |source| < LIMIT { ShortSourceRepresentable(source, target, Plan(source, target, 0, Nil), 0, 0); }
    PatchRecovers(source, given, target, markup, Plan(source, target, 0, Nil), buffer);
  }

  lemma {:induction false} PlanMatching(source: seq<byte>, target: seq<byte>, out: nat, starts: Offsets)
    requires out <= |target| && Below(starts, out)
    ensures Matching(Plan(source, target, out, starts))
    decreases |target| - out
  {
    hide Sound, Decide;
    if out < |target| {
      var move := Decide(source, target, starts, out);
      PickSound(source, target, starts, out);
      DecideMatch(source, target, starts, out);
      BelowWeaken(starts, out, out + Length(move));
      PlanMatching(source, target, out + Length(move), Node(out, starts));
    }
  }

  lemma DecideMatch(source: seq<byte>, target: seq<byte>, starts: Offsets, out: nat)
    requires out < |target| && Below(starts, out)
    ensures var move := Decide(source, target, starts, out); move.Literal? || Length(move) >= 4
  {
    hide Pick, All;
  }

  /** A bound that can be told from the lengths before anything is encoded. */
  lemma PatchFits(source: seq<byte>, target: seq<byte>, markup: seq<byte>)
    requires |source| < WORD32 && |target| < WORD32 && |markup| < WORD32
    ensures |Patch(source, target, markup)| <= PatchBound(target, markup)
  {
    hide Plan, Covers, Matching, PatchBytes;
    PlanCovers(source, target, 0, Nil);
    PlanMatching(source, target, 0, Nil);
    PatchLength(source, target, markup, Plan(source, target, 0, Nil));
  }

  /** Sources shorter than 2^30 bytes and targets that promise a patch short enough always recover. */
  lemma RecoversBySize(source: seq<byte>, given: seq<byte>, target: seq<byte>, markup: seq<byte>, buffer: seq<byte>)
    requires Limits(source, target, buffer, given) && |source| < LIMIT && PatchBound(target, markup) < WORD32
    ensures Interpret(Patch(source, target, markup), given, buffer) == Outcome(Success, target + buffer[|target|..])
  {
    hide Interpret, Patch, Writable;
    PatchFits(source, target, markup);
    Recovers(source, given, target, markup, buffer);
  }

  // ---------------------------------------------------------------- the index

  /** Two bytes from `i` on; the last byte stands alone. */
  function Symbol(data: seq<byte>, i: nat): (s: nat)
    requires i < |data|
    ensures s < 65536
  {
    var low: nat := data[i];
    if i + 1 < |data| then var high: nat := data[i + 1]; low + 256 * high else low
  }

  /** The bucket of a symbol. */
  function Bucket(data: seq<byte>, list: Offsets, symbol: nat): Offsets {
    match list
    case Nil => Nil
    case Node(o, next) =>
      if o < |data| && Symbol(data, o) == symbol then Node(o, Bucket(data, next, symbol))
      else Bucket(data, next, symbol)
  }

  /** Different symbols agree on one byte at most. */
  lemma SymbolsApart(data: seq<byte>, i: nat, target: seq<byte>, j: nat)
    requires i < |data| && j < |target| && Symbol(data, i) != Symbol(target, j)
    ensures Common(data, i, target, j) < 2
  {
  }

  ghost predicate Agree(c: Choice, d: Choice) {
    c == d || (c.length < 2 && d.length < 2)
  }

  /** Scanning one bucket loses no match of two bytes or more. */
  lemma {:induction false} BucketSuffices(data: seq<byte>, list: Offsets, target: seq<byte>, out: nat, mode: nat,
                                          c: Choice, d: Choice)
    requires out < |target| && Agree(c, d)
    ensures Agree(Scan(data, list, target, out, mode, c),
                  Scan(data, Bucket(data, list, Symbol(target, out)), target, out, mode, d))
    decreases list
  {
    hide Symbol, Common;
    if list.Node? {
      var o := list.offset;
      var c' := Better(c, Common(data, o, target, out), o, mode);
      if o < |data| && Symbol(data, o) == Symbol(target, out) {
        BucketSuffices(data, list.next, target, out, mode, c', Better(d, Common(data, o, target, out), o, mode));
      } else {
        if o < |data| { SymbolsApart(data, o, target, out); } else { CommonNone(data, o, target, out); }
        BucketSuffices(data, list.next, target, out, mode, c', d);
      }
    }
  }

  lemma CommonNone(data: seq<byte>, i: nat, target: seq<byte>, j: nat)
    requires i >= |data|
    ensures Common(data, i, target, j) == 0
  {
  }

  /** The indexed search decides as the brute-force one does. */
  lemma IndexedPick(source: seq<byte>, target: seq<byte>, starts: Offsets, out: nat)
    requires out < |target|
    ensures var symbol := Symbol(target, out);
      MoveOf(Pick(source, Bucket(source, All(|source|), symbol), target, Bucket(target, starts, symbol), out))
      == Decide(source, target, starts, out)
  {
    hide Symbol, Common, Scan, All, Bucket;
    var symbol := Symbol(target, out);
    var kept := Better(Choice(0, 0, 1), Common(source, out, target, out), 0, 0);
    BucketSuffices(source, All(|source|), target, out, 2, kept, kept);
    BucketSuffices(target, starts, target, out, 3, Scan(source, All(|source|), target, out, 2, kept),
                   Scan(source, Bucket(source, All(|source|), symbol), target, out, 2, kept));
  }

  /** Building the source's buckets. */
  method Index(source: seq<byte>) returns (tree: array<Offsets>)
    ensures fresh(tree) && tree.Length == 65536
    ensures forall s :: 0 <= s < 65536 ==> tree[s] == Bucket(source, All(|source|), s)
  {
    hide Symbol;
    tree := new Offsets[65536](_ => Nil);
    var offset := 0;
    while offset < |source|
      invariant 0 <= offset <= |source| && fresh(tree)
      invariant forall s :: 0 <= s < 65536 ==> tree[s] == Bucket(source, All(offset), s)
    {
      var symbol := Symbol(source, offset);
      tree[symbol] := Node(offset, tree[symbol]);
      offset := offset + 1;
    }
  }

  // ---------------------------------------------------------------- the encoder

  method MatchSource(source: seq<byte>, from: nat, target: seq<byte>, out: nat) returns (length: nat)
    ensures length == Common(source, from, target, out)
  {
    length := 0;
    var x, y := from, out;
    while x < |source| && y < |target| && source[x] == target[y]
      invariant x == from + length && y == out + length
      invariant Common(source, from, target, out) == length + Common(source, x, target, y)
    {
      x, y := x + 1, y + 1;
      length := length + 1;
    }
  }

  /** An earlier start needs no bound of its own: it stays behind `y`. */
  method MatchTarget(target: seq<byte>, from: nat, out: nat) returns (length: nat)
    requires from < out
    ensures length == Common(target, from, target, out)
  {
    length := 0;
    var x, y := from, out;
    while y < |target| && target[x] == target[y]
      invariant x == from + length && y == out + length
      invariant Common(target, from, target, out) == length + Common(target, x, target, y)
      decreases |target| - y
    {
      x, y := x + 1, y + 1;
      length := length + 1;
    }
  }

  /** The search of one step, through the buckets of the step's symbol. */
  method Search(source: seq<byte>, sourceList: Offsets, target: seq<byte>, targetList: Offsets, out: nat)
    returns (c: Choice)
    requires Below(targetList, out)
    ensures c == Pick(source, sourceList, target, targetList, out)
  {
    hide Common;
    var length := MatchSource(source, out, target, out);
    c := Better(Choice(0, 0, 1), length, 0, 0);
    ghost var kept := c;
    var node := sourceList;
    while node.Node?
      invariant Scan(source, node, target, out, 2, c) == Scan(source, sourceList, target, out, 2, kept)
      decreases node
    {
      length := MatchSource(source, node.offset, target, out);
      c := Better(c, length, node.offset, 2);
      node := node.next;
    }
    ghost var copied := c;
    node := targetList;
    while node.Node?
      invariant Below(node, out)
      invariant Scan(target, node, target, out, 3, c) == Scan(target, targetList, target, out, 3, copied)
      decreases node
    {
      length := MatchTarget(target, node.offset, out);
      c := Better(c, length, node.offset, 3);
      node := node.next;
    }
  }

  lemma {:induction false} BucketBelow(data: seq<byte>, list: Offsets, symbol: nat, bound: nat)
    requires Below(list, bound)
    ensures Below(Bucket(data, list, symbol), bound)
  {
    if list.Node? { BucketBelow(data, list.next, symbol, bound); }
  }

  /** One turn of the loop is one decision of the plan. */
  lemma PlanStep(source: seq<byte>, target: seq<byte>, out: nat, starts: Offsets)
    requires out < |target| && Below(starts, out)
    ensures var move := Decide(source, target, starts, out);
      && 0 < Length(move) <= |target| - out && Below(Node(out, starts), out + Length(move))
      && Plan(source, target, out, starts)
         == Then(move, Plan(source, target, out + Length(move), Node(out, starts)))
  {
    hide Decide, Sound;
    PickSound(source, target, starts, out);
    BelowWeaken(starts, out, out + Length(Decide(source, target, starts, out)));
  }

  lemma PlanEnd(source: seq<byte>, target: seq<byte>, starts: Offsets, pending: nat, sourceRel: nat, targetRel: nat)
    requires pending <= |target| && Below(starts, |target|)
    ensures Covers(source, target, Plan(source, target, |target|, starts), |target|)
    ensures Emit(source, target, Plan(source, target, |target|, starts), |target|, pending, sourceRel, targetRel)
         == Flush(target, |target|, pending)
  {
  }

  /** Writing one decision that is not a literal. */
  method WriteMove(w: Writer, move: Move, ghost out: nat, sourceRel: nat, targetRel: nat)
    requires w.Valid() && Length(move) > 0 && !move.Literal? && !move.Repeat?
    modifies w, w.file, w.file.buffer
    ensures w.Valid() && w.bytes == old(w.bytes) + MoveBytes(move, out, sourceRel, targetRel)
  {
    hide Register, Encode, SignedWord, LengthWord, Writer.Valid;
    match move
    case KeepSource(n) =>
      w.WriteNumber(LengthWord(0, n));
    case CopySource(from, n) =>
      w.WriteNumber(LengthWord(2, n));
      w.WriteNumber(SignedWord(from - sourceRel));
    case CopyTarget(from, n) =>
      w.WriteNumber(LengthWord(3, n));
      w.WriteNumber(SignedWord(from - targetRel));
  }

  /** `bpsdelta::create`: the file keeps the whole patch if and only if that has at most 2^31 bytes. */
  method Create(source: seq<byte>, target: seq<byte>, markup: seq<byte>) returns (disk: seq<byte>)
    ensures disk == PagedFile.Kept(Patch(source, target, markup))
    ensures disk == Patch(source, target, markup) <==> |Patch(source, target, markup)| <= PagedFile.LIMIT
  {
    hide Flush, MoveBytes, HeaderBytes, Sealed, Encode, Register, Covers, Plan, Emit, Pick, Symbol, Decide, All;
    hide PagedFile.Kept, Writer.Valid;
    var w := new Writer();
    WriteHeader(w, source, target, markup);
    var sourceTree := Index(source);
    var targetTree := new Offsets[65536](_ => Nil);
    var out: nat, pending: nat, sourceRel: nat, targetRel: nat := 0, 0, 0, 0;
    ghost var starts := Nil;
    PlanCovers(source, target, 0, Nil);
    ghost var body := HeaderBytes(source, target, markup)
                      + Emit(source, target, Plan(source, target, 0, Nil), 0, 0, 0, 0);
    while out < |target|
      invariant 0 <= out <= |target| && pending <= out && w.Valid() && Below(starts, out)
      invariant fresh(w) && fresh(w.file) && fresh(w.file.buffer)
      invariant fresh(targetTree) && targetTree.Length == 65536 && sourceTree.Length == 65536
      invariant forall s :: 0 <= s < 65536 ==> sourceTree[s] == Bucket(source, All(|source|), s)
      invariant forall s :: 0 <= s < 65536 ==> targetTree[s] == Bucket(target, starts, s)
      invariant sourceTree != targetTree
      invariant Covers(source, target, Plan(source, target, out, starts), out)
      invariant w.bytes + Emit(source, target, Plan(source, target, out, starts), out, pending, sourceRel, targetRel)
        == body
      decreases |target| - out
    {
      PlanStep(source, target, out, starts);
      ghost var next := out + Length(Decide(source, target, starts, out));
      EmitMove(source, target, Decide(source, target, starts, out), Plan(source, target, next, Node(out, starts)),
               out, pending, sourceRel, targetRel, w.bytes);
      IndexedPick(source, target, starts, out);
      var symbol := Symbol(target, out);
      BucketBelow(target, starts, symbol, out);
      var choice := Search(source, sourceTree[symbol], target, targetTree[symbol], out);
      targetTree[symbol] := Node(out, targetTree[symbol]);
      starts := Node(out, starts);
      var move := MoveOf(choice);
      if move.Literal? {
        pending := pending + 1;
      } else {
        WriteQueue(w, target, out, pending);
        pending := 0;
        WriteMove(w, move, out, sourceRel, targetRel);
        if move.CopySource? { sourceRel := move.from + move.length; }
        if move.CopyTarget? { targetRel := move.from + move.length; }
      }
      out := out + Length(move);
    }
    WriteQueue(w, target, out, pending);
    PlanEnd(source, target, starts, pending, sourceRel, targetRel);
    WriteFooter(w, source, target);
    assert w.bytes == Patch(source, target, markup);
    PagedFile.KeptWhole(w.bytes);
    disk := w.Close();
  }

  /** Encoding and patching in place: the buffer ends up holding the target, unless a copy goes back by 2^30. */
  method RoundTrip(source: seq<byte>, target: seq<byte>, markup: seq<byte>, buffer: array<byte>) returns (r: Status)
    requires Limits(source, target, buffer[..], source)
    requires |Patch(source, target, markup)| <= PagedFile.LIMIT
    modifies buffer
    ensures r == if Writable(source, target) then Success else OutOfBounds
    ensures r == Success ==> buffer[..] == target + old(buffer[|target|..])
    ensures |source| < LIMIT ==> r == Success
  {
    hide Interpret, Patch, Writable;
    Recovers(source, source, target, markup, buffer[..]);
    assert buffer[..][|target|..] == buffer[|target|..];
    var patch := Create(source, target, markup);
    r := Apply(patch, source, buffer);
  }

  /** The same, for lengths that promise success. */
  method RoundTripBySize(source: seq<byte>, target: seq<byte>, markup: seq<byte>, buffer: array<byte>)
    returns (r: Status)
    requires Limits(source, target, buffer[..], source)
    requires |source| < LIMIT && PatchBound(target, markup) <= PagedFile.LIMIT
    modifies buffer
    ensures r == Success && buffer[..] == target + old(buffer[|target|..])
  {
    hide Patch, Writable;
    PatchFits(source, target, markup);
    r := RoundTrip(source, target, markup, buffer);
  }

  // ---------------------------------------------------------------- the distance that cannot be written

  /** A source of 2^30 bytes that begins with 1 2 3 4 and ends with 5 6 7 8. */
  function FarSource(): (s: seq<byte>)
    ensures |s| == LIMIT
  {
    seq(LIMIT, i => if i < 4 then i + 1 else if i >= LIMIT - 4 then i - LIMIT + 9 else 0)
  }

  lemma FarFirst(source: seq<byte>, target: seq<byte>)
    requires source == FarSource() && target == [5, 6, 7, 8, 1, 2, 3, 4]
    ensures Decide(source, target, Nil, 0) == CopySource(LIMIT - 4, 4)
  {
    hide Pick, All;
    var c := Pick(source, All(|source|), target, Nil, 0);
    PickGenuine(source, All(|source|), target, Nil, 0);
    PickMaximal(source, target, Nil, 0, LIMIT - 4);
    assert source[LIMIT - 4..LIMIT - 4 + 4] == target[0..4];
    CommonIsLongest(source, LIMIT - 4, target, 0, 4);
    CommonBound(source, LIMIT - 4, target, 0);
    assert source[0] == 1;
    if c.from < LIMIT { assert source[c.from] == 5 ==> c.from == LIMIT - 4; }
  }

  lemma FarSecond(source: seq<byte>, target: seq<byte>)
    requires source == FarSource() && target == [5, 6, 7, 8, 1, 2, 3, 4]
    ensures Decide(source, target, Node(0, Nil), 4) == CopySource(0, 4)
  {
    hide Pick, All;
    var c := Pick(source, All(|source|), target, Node(0, Nil), 4);
    PickGenuine(source, All(|source|), target, Node(0, Nil), 4);
    PickMaximal(source, target, Node(0, Nil), 4, 0);
    assert source[0..4] == target[4..8];
    CommonIsLongest(source, 0, target, 4, 4);
    CommonBound(source, 0, target, 4);
    assert source[4] == 0;
    if c.from < LIMIT { assert source[c.from] == 1 ==> c.from == 0; }
    if c.from < 4 { assert target[c.from] != 1; }
  }

  /** At a source of 2^30 bytes the encoder can produce a patch the patcher cannot follow. */
  lemma TooFar(markup: seq<byte>, buffer: seq<byte>)
    requires |buffer| >= 8 && |markup| < PagedFile.LIMIT
    ensures !Writable(FarSource(), [5, 6, 7, 8, 1, 2, 3, 4])
    ensures Interpret(Patch(FarSource(), [5, 6, 7, 8, 1, 2, 3, 4], markup), FarSource(), buffer).status == OutOfBounds
  {
    hide Interpret, Patch, Decide;
    var source, target: seq<byte> := FarSource(), [5, 6, 7, 8, 1, 2, 3, 4];
    PatchFits(source, target, markup);
    Recovers(source, source, target, markup, buffer);
    FarFirst(source, target);
    FarSecond(source, target);
    var plan := Plan(source, target, 0, Nil);
    assert plan == Then(CopySource(LIMIT - 4, 4), Plan(source, target, 4, Node(0, Nil)));
    assert plan.rest.move == CopySource(0, 4);
  }
}
