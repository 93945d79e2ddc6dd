/** The linear-probing hash table, for runs of insertions, reservations and searches. */
module HashSet {
  import opened Bits
  import opened BitRound
  import opened Maybe

  // ---------------------------------------------------------------- slots

  function One<T>(slot: Option<T>): multiset<T> {
    if slot.Some? then multiset{slot.value} else multiset{}
  }

  /** The elements in a table's slots. */
  function Contents<T>(s: seq<Option<T>>): multiset<T> {
    if s == [] then multiset{} else Contents(s[..|s| - 1]) + One(s[|s| - 1])
  }

  lemma ContentsLast<T>(front: seq<Option<T>>, last: Option<T>)
    ensures Contents(front + [last]) == Contents(front) + One(last)
  {
    assert (front + [last])[..|front + [last]| - 1] == front;
  }

  lemma {:induction false} ContentsUpdate<T>(s: seq<Option<T>>, i: nat, x: T)
    requires i < |s| && s[i].None?
    ensures Contents(s[i := Some(x)]) == Contents(s) + multiset{x}
  {
    hide Contents;
    var front, last := s[..|s| - 1], s[|s| - 1];
    assert s == front + [last];
    ContentsLast(front, last);
    if i < |front| {
      assert s[i := Some(x)] == front[i := Some(x)] + [last];
      ContentsLast(front[i := Some(x)], last);
      ContentsUpdate(front, i, x);
    } else {
      assert s[i := Some(x)] == front + [Some(x)];
      ContentsLast(front, Some(x));
    }
  }

  lemma {:induction false} ContentsIn<T>(s: seq<Option<T>>, x: T)
    ensures x in Contents(s) <==> exists i :: 0 <= i < |s| && s[i] == Some(x)
  {
    if s != [] {
      var front := s[..|s| - 1];
      ContentsIn(front, x);
      if x in Contents(front) {
        var i :| 0 <= i < |front| && front[i] == Some(x);
        assert s[i] == Some(x);
      }
      if i :| 0 <= i < |s| && s[i] == Some(x) {
        if i < |s| - 1 { assert front[i] == Some(x); }
      }
    }
  }

  /** A table with fewer elements than slots has an empty one. */
  lemma {:induction false} EmptySlot<T>(s: seq<Option<T>>) returns (i: nat)
    requires |Contents(s)| < |s|
    ensures i < |s| && s[i].None?
  {
    if s[|s| - 1].None? {
      i := |s| - 1;
    } else {
      i := EmptySlot(s[..|s| - 1]);
    }
  }

  lemma {:induction false} ContentsNothing<T>(s: seq<Option<T>>)
    requires forall i :: 0 <= i < |s| ==> s[i].None?
    ensures Contents(s) == multiset{}
  {
    if s != [] { ContentsNothing(s[..|s| - 1]); }
  }

  /** Slot `j` lies on the way from `home` to `i`, wrapping at the end. */
  predicate Between(home: nat, i: nat, j: nat) {
    if home <= i then home <= j < i else home <= j || j < i
  }

  /** `hash & (length - 1)`. */
  function Home<T>(x: T, length: nat, hash: T -> nat): nat
    requires length > 0
  {
    And(hash(x), length - 1)
  }

  lemma HomeInside<T>(x: T, length: nat, k: nat, hash: T -> nat)
    requires length == Pow2(k)
    ensures Home(x, length, hash) == hash(x) % length < length
  {
    AndMask(hash(x), k);
  }

  /** No slot between an element's home and its own is empty. */
  ghost predicate Chained<T>(s: seq<Option<T>>, hash: T -> nat) {
    forall i, j :: 0 <= i < |s| && 0 <= j < |s| && s[i].Some? && Between(Home(s[i].value, |s|, hash), i, j) ==>
      s[j].Some?
  }

  /** Equal elements have equal hashes. */
  ghost predicate Compatible<T(!new)>(hash: T -> nat, same: (T, T) -> bool) {
    forall x, y :: same(x, y) ==> hash(x) == hash(y)
  }

  lemma ChainedUpdate<T>(s: seq<Option<T>>, i: nat, x: T, hash: T -> nat)
    requires i < |s| && s[i].None? && Chained(s, hash)
    requires forall j :: 0 <= j < |s| && Between(Home(x, |s|, hash), i, j) ==> s[j].Some?
    ensures Chained(s[i := Some(x)], hash)
  {
    hide Home, Between;
  }

  lemma ChainedNothing<T>(s: seq<Option<T>>, hash: T -> nat)
    requires forall i :: 0 <= i < |s| ==> s[i].None?
    ensures Chained(s, hash)
  {
  }

  /** The distance a probe has to go. */
  function Distance(from: nat, to: nat, length: nat): nat
    requires from < length
  {
    if from <= to then to - from else to + length - from
  }

  /** The first empty slot from an element's home on: where `while(pool[hash])` stops. */
  method Probe<T>(pool: array<Option<T>>, home: nat) returns (slot: nat)
    requires home < pool.Length && |Contents(pool[..])| < pool.Length
    ensures slot < pool.Length && pool[slot].None?
    ensures forall j :: 0 <= j < pool.Length && Between(home, slot, j) ==> pool[j].Some?
  {
    ghost var empty := EmptySlot(pool[..]);
    slot := home;
    while pool[slot].Some?
      invariant slot < pool.Length
      invariant forall j :: 0 <= j < pool.Length && Between(home, slot, j) ==> pool[j].Some?
      invariant !Between(home, slot, empty) && Distance(home, slot, pool.Length) <= Distance(home, empty, pool.Length)
      decreases Distance(slot, empty, pool.Length)
    {
      slot := slot + 1;
      if slot >= pool.Length { slot := 0; }
    }
  }

  /** The first slot from an element's home on that is empty or holds an equal element. */
  method Search<T>(pool: array<Option<T>>, value: T, home: nat, same: (T, T) -> bool) returns (hit: bool, slot: nat)
    requires home < pool.Length && |Contents(pool[..])| < pool.Length
    ensures slot < pool.Length && (hit ==> pool[slot].Some? && same(value, pool[slot].value))
    ensures !hit ==> pool[slot].None?
    ensures forall j :: 0 <= j < pool.Length && Between(home, slot, j) ==> pool[j].Some? && !same(value, pool[j].value)
  {
    ghost var empty := EmptySlot(pool[..]);
    slot := home;
    while pool[slot].Some?
      invariant slot < pool.Length
      invariant forall j :: 0 <= j < pool.Length && Between(home, slot, j) ==>
        pool[j].Some? && !same(value, pool[j].value)
      invariant !Between(home, slot, empty) && Distance(home, slot, pool.Length) <= Distance(home, empty, pool.Length)
      decreases Distance(slot, empty, pool.Length)
    {
      if same(value, pool[slot].value) { return true, slot; }
      slot := slot + 1;
      if slot >= pool.Length { slot := 0; }
    }
    hit := false;
  }

  /** Putting an element into the first empty slot from its home on. */
  method Place<T>(pool: array<Option<T>>, x: T, ghost k: nat, hash: T -> nat)
    requires pool.Length == Pow2(k) && |Contents(pool[..])| < pool.Length && Chained(pool[..], hash)
    modifies pool
    ensures Contents(pool[..]) == old(Contents(pool[..])) + multiset{x} && Chained(pool[..], hash)
  {
    hide Home, Pow2, Contents, Chained, Between;
    HomeInside(x, pool.Length, k, hash);
    var slot := Probe(pool, Home(x, pool.Length, hash));
    ghost var s := pool[..];
    ContentsUpdate(s, slot, x);
    ChainedUpdate(s, slot, x, hash);
    pool[slot] := Some(x);
    assert pool[..] == s[slot := Some(x)];
  }

  lemma RehashStart<T>(s: seq<Option<T>>)
    ensures s[..0] == [] && Contents(s[..0]) == multiset{}
  {
  }

  lemma {:induction false} PrefixSmaller<T>(s: seq<Option<T>>, n: nat)
    requires n <= |s|
    ensures |Contents(s[..n])| <= |Contents(s)|
    decreases |s| - n
  {
    hide Contents;
    if n == |s| {
      assert s[..n] == s;
    } else {
      PrefixSmaller(s, n + 1);
      assert s[..n + 1] == s[..n] + [s[n]];
      ContentsLast(s[..n], s[n]);
    }
  }

  lemma RehashStep<T>(s: seq<Option<T>>, n: nat)
    requires n < |s|
    ensures Contents(s[..n + 1]) == Contents(s[..n]) + One(s[n])
    ensures |Contents(s[..n])| + |One(s[n])| <= |Contents(s)|
  {
    hide Contents;
    assert s[..n + 1] == s[..n] + [s[n]];
    ContentsLast(s[..n], s[n]);
    PrefixSmaller(s, n + 1);
  }

  /** Moving every element of one table into another, which is empty. */
  method Rehash<T>(pool: array<Option<T>>, copy: array<Option<T>>, ghost k: nat, hash: T -> nat)
    requires pool != copy
    requires Contents(pool[..]) != multiset{} ==> copy.Length == Pow2(k) && |Contents(pool[..])| < copy.Length
    requires Contents(copy[..]) == multiset{} && Chained(copy[..], hash)
    modifies pool, copy
    ensures Contents(copy[..]) == old(Contents(pool[..])) && Chained(copy[..], hash)
  {
    hide Pow2, Contents, Chained;
    ghost var was := pool[..];
    RehashStart(was);
    var n := 0;
    while n < pool.Length
      invariant 0 <= n <= pool.Length && pool[n..] == was[n..]
      invariant Contents(copy[..]) == Contents(was[..n]) && Chained(copy[..], hash)
    {
      RehashStep(was, n);
      assert pool[n] == pool[n..][0] == was[n];
      if pool[n].Some? {
        Place(copy, pool[n].value, k, hash);
        pool[n] := None;
      }
      assert pool[n + 1..] == was[n + 1..];
      n := n + 1;
    }
    assert was[..n] == was;
  }

  // ---------------------------------------------------------------- the set

  /** Lengths and counts are 32-bit. */
  type Length = n: nat | n < WORD32

  /** The largest table, and the most elements at half load of it. */
  const MOST: nat := 0x8000_0000
  const HALF: nat := 0x4000_0000

  /** The slots of a table for `wanted` elements: `round` gives more than 32 bits hold above 2^31. */
  method Slots(wanted: Length) returns (slots: Length, ghost k: nat)
    ensures slots > 0 <==> 0 < wanted <= MOST
    ensures slots > 0 ==> slots == Pow2(k) && wanted <= slots < 2 * wanted && slots <= MOST
  {
    hide Pow2;
    var rounded;
    rounded, k := Round(wanted, UINTMAX);
    Powers();
    if wanted > 0 {
      if wanted <= MOST {
        if k > 31 { Pow2Monotone(32, k); }
        Pow2Monotone(k, 31);
      } else {
        if k < 32 { Pow2Monotone(k, 31); }
        if k > 32 { Pow2Monotone(33, k); Pow2Step(32); }
      }
    }
    slots := rounded % WORD32;
  }

  class HashSet<T(!new)> {
    const hash: T -> nat
    const same: (T, T) -> bool
    var pool: array?<Option<T>>
    var length: Length
    var count: Length
    ghost var exponent: nat

    /**
      * At most half full, and every element within reach of its home; a table may have no slots at all, and the largest
      * one takes one element more.
      */
    ghost predicate Valid()
      reads this, pool
    {
      && Compatible(hash, same)
      && length <= MOST && (length > 0 ==> length == Pow2(exponent))
      && (2 * count <= length || (length == MOST && count == HALF + 1))
      && (pool == null ==> count == 0)
      && (pool != null ==>
          pool.Length == length && Chained(pool[..], hash) && |Contents(pool[..])| == count)
    }

    ghost function Elements(): multiset<T>
      reads this, pool
    {
      if pool == null then multiset{} else Contents(pool[..])
    }

    /** A length is rounded up to a power of two; zero stays zero, and above 2^31 nothing is left of it. */
    constructor (hash: T -> nat, same: (T, T) -> bool, wanted: Length)
      requires Compatible(hash, same)
      ensures Valid() && this.hash == hash && this.same == same && pool == null
      ensures Elements() == multiset{} && count == 0
      ensures length > 0 <==> 0 < wanted <= MOST
      ensures length > 0 ==> wanted <= length < 2 * wanted
    {
      hide Pow2;
      var slots, k := Slots(wanted);
      this.hash := hash;
      this.same := same;
      pool := null;
      length := slots;
      count := 0;
      exponent := k;
    }

    /**
      * `reserve`: every element is placed anew in a table with room for twice as many. Where that has no slots but
      * there are elements, the code writes outside it.
      */
    method Reserve(size: Length) returns (inside: bool)
      requires Valid()
      modifies this`pool, this`length, this`exponent, pool
      ensures inside <==> count == 0 || (size <= MOST && count <= HALF)
      ensures pool == old(pool) || (pool != null && fresh(pool))
      ensures inside ==> Valid() && Elements() == old(Elements()) && pool != null && fresh(pool)
      ensures inside ==> (length > 0 <==> count > 0 || 0 < size <= MOST)
      ensures inside && length > 0 ==> length >= size && length >= 2 * count
    {
      hide Pow2, Contents, Chained, Compatible;
      var doubled: Length := 2 * count % WORD32;
      assert doubled == 2 * count;
      var slots, k := Slots(if size > doubled then size else doubled);
      if pool != null && count > 0 && slots == 0 { return false; }
      var copy := new Option<T>[slots](_ => None);
      ContentsNothing(copy[..]);
      ChainedNothing(copy[..], hash);
      if pool != null {
        Rehash(pool, copy, k, hash);
      }
      pool := copy;
      length := slots;
      exponent := k;
      return true;
    }

    /** The beginning of `insert`: a table is allocated, and grows when it is half full. */
    method MakeRoom() returns (inside: bool)
      requires Valid()
      modifies this`pool, this`length, this`exponent, pool
      ensures inside <==> count <= HALF
      ensures pool != null && (pool == old(pool) || fresh(pool))
      ensures inside ==> Valid() && Elements() == old(Elements()) && (length > 0 <==> old(length) > 0)
      ensures inside && length > 0 ==> 2 * (count + 1) <= length || (length == MOST && count == HALF)
    {
      hide Pow2, Contents, Chained, Compatible;
      if pool == null {
        var empty := new Option<T>[length](_ => None);
        ContentsNothing(empty[..]);
        ChainedNothing(empty[..], hash);
        pool := empty;
      }
      inside := true;
      if count >= length / 2 {
        if length > 0 { DoubledLength(exponent); }
        inside := Reserve(2 * length % WORD32);
      }
    }

    /** `insert`. Without slots, or beyond the largest table's room, the code writes outside the table. */
    method Insert(value: T) returns (inside: bool)
      requires Valid()
      modifies this`pool, this`length, this`exponent, this`count, pool
      ensures pool != null && (pool == old(pool) || fresh(pool))
      ensures inside <==> old(length) > 0 && old(count) <= HALF
      ensures inside ==> Valid() && length > 0
      ensures inside ==> Elements() == old(Elements()) + multiset{value} && count == old(count) + 1
    {
      hide Pow2, Contents, Chained, Compatible;
      inside := MakeRoom();
      if !inside { return; }
      count := count + 1;
      if length == 0 { return false; }
      Place(pool, value, exponent, hash);
    }

    /** `find`: an element equal to `value`, if there is one. A table without slots is read outside. */
    method Find(value: T) returns (inside: bool, r: Option<T>)
      requires Valid()
      ensures inside <==> pool == null || length > 0
      ensures inside ==> (r.Some? <==> exists y :: y in Elements() && same(value, y))
      ensures inside && r.Some? ==> r.value in Elements() && same(value, r.value)
    {
      if pool == null { return true, None; }
      if length == 0 { return false, None; }
      hide Pow2, Contents, Between, Home, Compatible, Chained;
      HomeInside(value, length, exponent, hash);
      var hit, slot := Search(pool, value, Home(value, length, hash), same);
      if hit {
        ContentsIn(pool[..], pool[slot].value);
        assert pool[..][slot] == pool[slot];
        return true, pool[slot];
      }
      NotFound(pool[..], value, slot, hash, same);
      return true, None;
    }
  }

  lemma MostIsPower()
    ensures Pow2(31) == MOST
  {
    hide Pow2;
    Powers();
  }

  /** Below the largest length, doubling stays within it; and a length above one is even. */
  lemma DoubledLength(k: nat)
    requires Pow2(k) <= MOST
    ensures Pow2(k) == MOST || 2 * Pow2(k) <= MOST
    ensures Pow2(k) > 1 ==> Pow2(k) % 2 == 0
  {
    hide Pow2;
    MostIsPower();
    Pow2Step(k);
    Pow2Step(if k > 0 then k - 1 else 0);
    if k < 31 { Pow2Monotone(k + 1, 31); } else { Pow2Monotone(31, k); }
  }

  /** A search that ends at an empty slot has passed every place an equal element could be in. */
  lemma NotFound<T(!new)>(s: seq<Option<T>>, value: T, slot: nat, hash: T -> nat, same: (T, T) -> bool)
    requires slot < |s| && s[slot].None? && Chained(s, hash) && Compatible(hash, same) && Home(value, |s|, hash) < |s|
    requires forall j :: 0 <= j < |s| && Between(Home(value, |s|, hash), slot, j) ==>
      s[j].Some? && !same(value, s[j].value)
    ensures forall y :: y in Contents(s) ==> !same(value, y)
  {
    hide Contents, Home;
    forall y | y in Contents(s) ensures !same(value, y) {
      ContentsIn(s, y);
      var i :| 0 <= i < |s| && s[i] == Some(y);
      SameHome(y, value, |s|, hash, same);
      assert Home(y, |s|, hash) == Home(value, |s|, hash) ==> Between(Home(value, |s|, hash), slot, i);
    }
  }

  lemma SameHome<T(!new)>(y: T, value: T, length: nat, hash: T -> nat, same: (T, T) -> bool)
    requires length > 0 && Compatible(hash, same)
    ensures same(value, y) ==> Home(y, length, hash) == Home(value, length, hash)
  {
  }

  // ---------------------------------------------------------------- every run

  datatype Operation<T> = Put(value: T) | Grow(size: Length) | Ask(value: T)

  /** What a run has inserted. */
  function Inserted<T>(ops: seq<Operation<T>>): multiset<T> {
    if ops == [] then multiset{}
    else
      var last := ops[|ops| - 1];
      Inserted(ops[..|ops| - 1]) + if last.Put? then multiset{last.value} else multiset{}
  }

  ghost predicate Holds<T(!new)>(m: multiset<T>, value: T, same: (T, T) -> bool) {
    exists y :: y in m && same(value, y)
  }

  /** A question is answered by what was inserted before it. */
  ghost function Answers<T(!new)>(ops: seq<Operation<T>>, same: (T, T) -> bool): seq<bool> {
    if ops == [] then []
    else
      var front, last := ops[..|ops| - 1], ops[|ops| - 1];
      Answers(front, same) + if last.Ask? then [Holds(Inserted(front), last.value, same)] else []
  }

  /** Whether the table has slots: empty ones lose them to a reservation of nothing, or of more than 2^31. */
  ghost predicate Slotted<T>(length: Length, ops: seq<Operation<T>>) {
    if ops == [] then 0 < length <= MOST
    else
      var front, last := ops[..|ops| - 1], ops[|ops| - 1];
      if last.Grow? then |Inserted(front)| > 0 || 0 < last.size <= MOST else Slotted(length, front)
  }

  /** Whether the table has been allocated. */
  predicate Allocated<T>(ops: seq<Operation<T>>) {
    exists i :: 0 <= i < |ops| && !ops[i].Ask?
  }

  /** The operation can be carried out inside the table. */
  ghost predicate Inside<T>(length: Length, ops: seq<Operation<T>>, op: Operation<T>) {
    match op
    case Put(_) => Slotted(length, ops) && |Inserted(ops)| <= HALF
    case Grow(size) => |Inserted(ops)| == 0 || (size <= MOST && |Inserted(ops)| <= HALF)
    case Ask(_) => Slotted(length, ops) || !Allocated(ops)
  }

  ghost predicate RunInside<T>(length: Length, ops: seq<Operation<T>>) {
    forall n :: 0 <= n < |ops| ==> Inside(length, ops[..n], ops[n])
  }

  lemma RunStep<T(!new)>(length: Length, ops: seq<Operation<T>>, op: Operation<T>, same: (T, T) -> bool)
    ensures Inserted(ops + [op]) == Inserted(ops) + if op.Put? then multiset{op.value} else multiset{}
    ensures Answers(ops + [op], same)
         == Answers(ops, same) + if op.Ask? then [Holds(Inserted(ops), op.value, same)] else []
    ensures Slotted(length, ops + [op])
       <==> if op.Grow? then |Inserted(ops)| > 0 || 0 < op.size <= MOST else Slotted(length, ops)
    ensures Allocated(ops + [op]) <==> Allocated(ops) || !op.Ask?
  {
    hide Holds;
    assert (ops + [op])[..|ops + [op]| - 1] == ops;
    AllocatedStep(ops, op);
  }

  lemma AllocatedStep<T>(ops: seq<Operation<T>>, op: Operation<T>)
    ensures Allocated(ops + [op]) <==> Allocated(ops) || !op.Ask?
  {
    var all := ops + [op];
    if i :| 0 <= i < |ops| && !ops[i].Ask? { assert !all[i].Ask?; }
    if !op.Ask? { assert !all[|ops|].Ask?; }
  }

  lemma RunInsideStep<T>(length: Length, ops: seq<Operation<T>>, op: Operation<T>)
    ensures RunInside(length, ops + [op]) <==> RunInside(length, ops) && Inside(length, ops, op)
  {
    hide Inside;
    var all := ops + [op];
    assert all[..|ops|] == ops && all[|ops|] == op;
    assert forall n :: 0 <= n < |ops| ==> all[..n] == ops[..n] && all[n] == ops[n];
  }

  lemma RunLeft<T>(length: Length, ops: seq<Operation<T>>, n: nat)
    requires n < |ops| && !Inside(length, ops[..n], ops[n])
    ensures !RunInside(length, ops)
  {
  }

  lemma RunNothing<T(!new)>(length: Length, same: (T, T) -> bool)
    ensures Inserted<T>([]) == multiset{} && Answers<T>([], same) == []
    ensures (Slotted<T>(length, []) <==> 0 < length <= MOST) && !Allocated<T>([]) && RunInside<T>(length, [])
  {
  }

  method Perform<T(!new)>(s: HashSet<T>, op: Operation<T>) returns (inside: bool, answer: seq<bool>)
    requires s.Valid()
    modifies s, s.pool
    ensures s.pool == null || s.pool == old(s.pool) || fresh(s.pool)
    ensures inside <==>
      match op
      case Put(_) => old(s.length) > 0 && |old(s.Elements())| <= HALF
      case Grow(size) => |old(s.Elements())| == 0 || (size <= MOST && |old(s.Elements())| <= HALF)
      case Ask(_) => old(s.length) > 0 || old(s.pool) == null
    ensures inside ==> s.Valid()
    ensures inside ==> s.Elements() == old(s.Elements()) + if op.Put? then multiset{op.value} else multiset{}
    ensures inside ==>
      (s.length > 0 <==> if op.Grow? then |old(s.Elements())| > 0 || 0 < op.size <= MOST else old(s.length) > 0)
    ensures inside ==> (s.pool == null <==> old(s.pool) == null && op.Ask?)
    ensures inside ==> answer == if op.Ask? then [Holds(old(s.Elements()), op.value, s.same)] else []
  {
    hide Pow2, Contents, Chained, Compatible;
    answer := [];
    match op
    case Put(value) => inside := s.Insert(value);
    case Grow(size) => inside := s.Reserve(size);
    case Ask(value) =>
      var r;
      inside, r := s.Find(value);
      answer := [r.Some?];
  }

  /**
    * A run answers as a multiset would, through every growth of the table, if and only if nothing is put into a table
    * without slots or looked up in an allocated one, no more than 2^31 slots are reserved for elements, and nothing is
    * put in or reserved once there are more than 2^30 elements; the run stops at the first access outside.
    */
  method Run<T(!new)>(hash: T -> nat, same: (T, T) -> bool, length: Length, ops: seq<Operation<T>>)
    returns (inside: bool, answers: seq<bool>)
    requires Compatible(hash, same)
    ensures inside <==> RunInside(length, ops)
    ensures inside ==> answers == Answers(ops, same)
  {
    hide Compatible, Inserted, Answers, Slotted, Allocated, RunInside, HashSet.Valid, HashSet.Elements, Holds;
    var s := new HashSet(hash, same, length);
    answers := [];
    RunNothing(length, same);
    assert ops[..0] == [];
    for n := 0 to |ops|
      invariant fresh(s) && (s.pool != null ==> fresh(s.pool)) && s.Valid() && s.same == same
      invariant s.Elements() == Inserted(ops[..n])
      invariant (s.length > 0 <==> Slotted(length, ops[..n])) && (s.pool != null <==> Allocated(ops[..n]))
      invariant RunInside(length, ops[..n])
      invariant answers == Answers(ops[..n], same)
    {
      RunStep(length, ops[..n], ops[n], same);
      RunInsideStep(length, ops[..n], ops[n]);
      assert ops[..n] + [ops[n]] == ops[..n + 1];
      var answer;
      inside, answer := Perform(s, ops[n]);
      if !inside {
        RunLeft(length, ops, n);
        return;
      }
      answers := answers + answer;
    }
    assert ops[..|ops|] == ops;
    inside := true;
  }

  /** Reserving nothing for nothing leaves a table that cannot be searched. */
  lemma EmptiedFails<T(!new)>(length: Length, x: T, same: (T, T) -> bool)
    ensures !RunInside(length, [Grow(0), Ask(x)])
  {
    hide Slotted, Allocated, Inserted, RunInside, Answers;
    var none, a: seq<Operation<T>> := [], [Grow(0)];
    assert none + [Grow(0)] == a && a + [Ask(x)] == [Grow(0), Ask(x)];
    RunNothing(length, same);
    RunStep(length, none, Grow(0), same);
    RunInsideStep(length, a, Ask(x));
  }

  /** Reserving something afterwards mends it. */
  lemma EmptiedMended<T(!new)>(length: Length, x: T, same: (T, T) -> bool)
    ensures RunInside(length, [Grow(0), Grow(8), Put(x), Ask(x)])
  {
    hide Slotted, Allocated, Inserted, RunInside, Answers;
    var none, a, b: seq<Operation<T>> := [], [Grow(0)], [Grow(0), Grow(8)];
    var c := [Grow(0), Grow(8), Put(x)];
    assert none + [Grow(0)] == a && a + [Grow(8)] == b && b + [Put(x)] == c;
    assert c + [Ask(x)] == [Grow(0), Grow(8), Put(x), Ask(x)];
    RunNothing(length, same);
    RunStep(length, none, Grow(0), same);
    RunStep(length, a, Grow(8), same);
    RunStep(length, b, Put(x), same);
    RunInsideStep(length, none, Grow(0));
    RunInsideStep(length, a, Grow(8));
    RunInsideStep(length, b, Put(x));
    RunInsideStep(length, c, Ask(x));
  }

  /** Reserving more than 2^31 leaves no slots either, and with an element in the table it fails by itself. */
  lemma OvergrownFails<T(!new)>(length: Length, x: T, same: (T, T) -> bool)
    ensures !RunInside(length, [Grow(0x8000_0001), Ask(x)])
    ensures !RunInside(length, [Put(x), Grow(0x8000_0001)])
  {
    hide Slotted, Allocated, Inserted, RunInside, Answers;
    var none, a, b: seq<Operation<T>> := [], [Grow(0x8000_0001)], [Put(x)];
    assert none + [Grow(0x8000_0001)] == a && a + [Ask(x)] == [Grow(0x8000_0001), Ask(x)];
    assert none + [Put(x)] == b && b + [Grow(0x8000_0001)] == [Put(x), Grow(0x8000_0001)];
    RunNothing(length, same);
    RunStep(length, none, Grow(0x8000_0001), same);
    RunStep(length, none, Put(x), same);
    RunInsideStep(length, a, Ask(x));
    RunInsideStep(length, b, Grow(0x8000_0001));
  }
}
