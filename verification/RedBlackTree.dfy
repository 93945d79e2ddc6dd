/** The red-black tree of nall::set as a value: what its recursive operations compute. */
module RedBlackTree {
  import opened Bits
  import opened Maybe

  /** An element; elements are compared by key, and an equal element may carry another payload. */
  datatype Entry<V> = Entry(key: int, payload: V)

  datatype Tree<V> = Leaf | Node(red: bool, value: Entry<V>, left: Tree<V>, right: Tree<V>)

  predicate Red<V>(t: Tree<V>) {
    t.Node? && t.red
  }

  function Link<V>(t: Tree<V>, dir: bool): Tree<V>
    requires t.Node?
  {
    if dir then t.right else t.left
  }

  function Relink<V>(t: Tree<V>, dir: bool, child: Tree<V>): Tree<V>
    requires t.Node?
  {
    if dir then t.(right := child) else t.(left := child)
  }

  function Paint<V>(t: Tree<V>, red: bool): Tree<V>
    requires t.Node?
  {
    t.(red := red)
  }

  // ---------------------------------------------------------------- meaning and shape

  function InOrder<V>(t: Tree<V>): seq<Entry<V>> {
    match t
    case Leaf => []
    case Node(_, e, l, r) => InOrder(l) + [e] + InOrder(r)
  }

  ghost predicate Sorted<V>(s: seq<Entry<V>>) {
    forall i, j :: 0 <= i < j < |s| ==> s[i].key < s[j].key
  }

  function Size<V>(t: Tree<V>): nat {
    match t
    case Leaf => 0
    case Node(_, _, l, r) => Size(l) + 1 + Size(r)
  }

  function Height<V>(t: Tree<V>): nat {
    match t
    case Leaf => 0
    case Node(_, _, l, r) => 1 + if Height(l) < Height(r) then Height(r) else Height(l)
  }

  function BlackHeight<V>(t: Tree<V>): nat {
    match t
    case Leaf => 0
    case Node(red, _, l, _) => BlackHeight(l) + if red then 0 else 1
  }

  predicate Balanced<V>(t: Tree<V>) {
    t.Node? ==> Balanced(t.left) && Balanced(t.right) && BlackHeight(t.left) == BlackHeight(t.right)
  }

  predicate NoRedRed<V>(t: Tree<V>) {
    t.Node? ==> NoRedRed(t.left) && NoRedRed(t.right) && (t.red ==> !Red(t.left) && !Red(t.right))
  }

  /** A subtree of a red-black tree: its root may be red. */
  predicate RedBlack<V>(t: Tree<V>) {
    Balanced(t) && NoRedRed(t)
  }

  /** What every public operation keeps. */
  ghost predicate Valid<V>(t: Tree<V>) {
    RedBlack(t) && !Red(t) && Sorted(InOrder(t))
  }

  // ---------------------------------------------------------------- sorted sequences of entries

  function Put<V>(s: seq<Entry<V>>, e: Entry<V>): seq<Entry<V>> {
    if s == [] then [e]
    else if e.key < s[0].key then [e] + s
    else if e.key == s[0].key then [e] + s[1..]
    else [s[0]] + Put(s[1..], e)
  }

  function Drop<V>(s: seq<Entry<V>>, key: int): seq<Entry<V>> {
    if s == [] then []
    else if s[0].key == key then s[1..]
    else [s[0]] + Drop(s[1..], key)
  }

  /** The finite map a sequence of entries stands for. */
  function MapOf<V>(s: seq<Entry<V>>): map<int, V> {
    if s == [] then map[] else MapOf(s[1..])[s[0].key := s[0].payload]
  }

  lemma {:induction false} PutLeft<V>(a: seq<Entry<V>>, b: seq<Entry<V>>, e: Entry<V>)
    requires b != [] && e.key < b[0].key
    ensures Put(a + b, e) == Put(a, e) + b
  {
    if a == [] {
      assert a + b == b;
    } else {
      assert (a + b)[0] == a[0] && (a + b)[1..] == a[1..] + b;
      PutLeft(a[1..], b, e);
    }
  }

  lemma {:induction false} PutRight<V>(a: seq<Entry<V>>, b: seq<Entry<V>>, e: Entry<V>)
    requires forall x <- a :: x.key < e.key
    ensures Put(a + b, e) == a + Put(b, e)
  {
    if a == [] {
      assert a + b == b;
    } else {
      assert (a + b)[0] == a[0] && (a + b)[1..] == a[1..] + b;
      PutRight(a[1..], b, e);
    }
  }

  lemma PutAround<V>(a: seq<Entry<V>>, x: Entry<V>, b: seq<Entry<V>>, e: Entry<V>)
    requires Sorted(a + [x] + b)
    ensures e.key < x.key ==> Put(a + [x] + b, e) == Put(a, e) + [x] + b
    ensures e.key == x.key ==> Put(a + [x] + b, e) == a + [e] + b
    ensures e.key > x.key ==> Put(a + [x] + b, e) == a + [x] + Put(b, e)
  {
    SortedParts(a, x, b);
    if e.key < x.key {
      assert a + [x] + b == a + ([x] + b);
      PutLeft(a, [x] + b, e);
    } else if e.key == x.key {
      assert a + [x] + b == a + ([x] + b);
      PutRight(a, [x] + b, e);
      assert ([x] + b)[1..] == b;
    } else {
      PutRight(a + [x], b, e);
    }
  }

  lemma {:induction false} DropLeft<V>(a: seq<Entry<V>>, b: seq<Entry<V>>, key: int)
    requires forall x <- b :: x.key != key
    ensures Drop(a + b, key) == Drop(a, key) + b
  {
    if a == [] {
      assert a + b == b;
      if b != [] { DropLeft([], b[1..], key); assert [] + b[1..] == b[1..]; }
    } else {
      assert (a + b)[0] == a[0] && (a + b)[1..] == a[1..] + b;
      DropLeft(a[1..], b, key);
    }
  }

  lemma {:induction false} DropRight<V>(a: seq<Entry<V>>, b: seq<Entry<V>>, key: int)
    requires forall x <- a :: x.key != key
    ensures Drop(a + b, key) == a + Drop(b, key)
  {
    if a == [] {
      assert a + b == b;
    } else {
      assert (a + b)[0] == a[0] && (a + b)[1..] == a[1..] + b;
      DropRight(a[1..], b, key);
    }
  }

  lemma DropAround<V>(a: seq<Entry<V>>, x: Entry<V>, b: seq<Entry<V>>, key: int)
    requires Sorted(a + [x] + b)
    ensures key < x.key ==> Drop(a + [x] + b, key) == Drop(a, key) + [x] + b
    ensures key == x.key ==> Drop(a + [x] + b, key) == a + b
    ensures key > x.key ==> Drop(a + [x] + b, key) == a + [x] + Drop(b, key)
  {
    SortedParts(a, x, b);
    if key < x.key {
      assert a + [x] + b == a + ([x] + b);
      DropLeft(a, [x] + b, key);
    } else if key == x.key {
      assert a + [x] + b == a + ([x] + b);
      DropRight(a, [x] + b, key);
      assert ([x] + b)[1..] == b;
    } else {
      DropRight(a + [x], b, key);
    }
  }

  // ---------------------------------------------------------------- find

  function Find<V>(t: Tree<V>, key: int): Option<Entry<V>> {
    if t.Leaf? then None
    else if t.value.key == key then Some(t.value)
    else Find(Link(t, t.value.key < key), key)
  }

  lemma {:induction false} FindMeetsOrder<V>(t: Tree<V>, key: int)
    requires Sorted(InOrder(t))
    ensures Find(t, key).Some? ==> Find(t, key).value.key == key && Find(t, key).value in InOrder(t)
    ensures Find(t, key).None? ==> forall e <- InOrder(t) :: e.key != key
  {
    if t.Node? && t.value.key != key {
      SortedParts(InOrder(t.left), t.value, InOrder(t.right));
      FindMeetsOrder(Link(t, t.value.key < key), key);
    }
  }

  /** Looking down the tree finds exactly the entry of the finite map. */
  lemma FindMeetsMap<V>(t: Tree<V>, key: int)
    requires Sorted(InOrder(t))
    ensures Find(t, key).Some? <==> key in MapOf(InOrder(t))
    ensures Find(t, key).Some? ==> Find(t, key).value == Entry(key, MapOf(InOrder(t))[key])
  {
    FindMeetsOrder(t, key);
    MapOfKeys(InOrder(t));
  }

  // ---------------------------------------------------------------- rotations

  function Rotate<V>(a: Tree<V>, dir: bool): Tree<V>
    requires a.Node? && Link(a, !dir).Node?
  {
    var b := Link(a, !dir);
    Relink(Paint(b, false), dir, Paint(Relink(a, !dir, Link(b, dir)), true))
  }

  function RotateTwice<V>(t: Tree<V>, dir: bool): Tree<V>
    requires t.Node? && Link(t, !dir).Node? && Link(Link(t, !dir), dir).Node?
  {
    Rotate(Relink(t, !dir, Rotate(Link(t, !dir), !dir)), dir)
  }

  /** A rotation moves no element past another. */
  lemma RotateKeepsOrder<V>(a: Tree<V>, dir: bool)
    requires a.Node? && Link(a, !dir).Node?
    ensures InOrder(Rotate(a, dir)) == InOrder(a)
    ensures Size(Rotate(a, dir)) == Size(a)
  {
    var b := Link(a, !dir);
    if dir {
      assert InOrder(a) == InOrder(b.left) + [b.value] + (InOrder(b.right) + [a.value] + InOrder(a.right));
    } else {
      assert InOrder(a) == (InOrder(a.left) + [a.value] + InOrder(b.left)) + [b.value] + InOrder(b.right);
    }
  }

  lemma RotateTwiceKeepsOrder<V>(t: Tree<V>, dir: bool)
    requires t.Node? && Link(t, !dir).Node? && Link(Link(t, !dir), dir).Node?
    ensures InOrder(RotateTwice(t, dir)) == InOrder(t)
    ensures Size(RotateTwice(t, dir)) == Size(t)
  {
    RotateKeepsOrder(Link(t, !dir), !dir);
    RotateKeepsOrder(Relink(t, !dir, Rotate(Link(t, !dir), !dir)), dir);
  }

  // ---------------------------------------------------------------- insert

  function Insert<V>(t: Tree<V>, e: Entry<V>): (r: Tree<V>)
    ensures r.Node?
  {
    if t.Leaf? then Node(true, e, Leaf, Leaf)
    else if t.value.key == e.key then t.(value := e)
    else
      var dir := t.value.key < e.key;
      FixInsert(Relink(t, dir, Insert(Link(t, dir), e)), dir)
  }

  /** The rebalancing at one node after an insertion below its link `dir`. */
  function FixInsert<V>(t: Tree<V>, dir: bool): (r: Tree<V>)
    requires t.Node?
    ensures r.Node?
  {
    if !Red(Link(t, dir)) then t
    else if Red(Link(t, !dir)) then Node(true, t.value, Paint(t.left, false), Paint(t.right, false))
    else if Red(Link(Link(t, dir), dir)) then Rotate(t, !dir)
    else if Red(Link(Link(t, dir), !dir)) then RotateTwice(t, !dir)
    else t
  }

  /** Root insertion: `insert` followed by painting the root black. */
  function InsertRoot<V>(t: Tree<V>, e: Entry<V>): Tree<V> {
    Paint(Insert(t, e), false)
  }

  lemma FixInsertKeepsOrder<V>(t: Tree<V>, dir: bool)
    requires t.Node?
    ensures InOrder(FixInsert(t, dir)) == InOrder(t)
    ensures Size(FixInsert(t, dir)) == Size(t)
  {
    if Red(Link(t, dir)) && !Red(Link(t, !dir)) {
      if Red(Link(Link(t, dir), dir)) {
        RotateKeepsOrder(t, !dir);
      } else if Red(Link(Link(t, dir), !dir)) {
        RotateTwiceKeepsOrder(t, !dir);
      }
    }
  }

  /** What an insertion may leave at a node that was red: one red child, for the parent to repair. */
  predicate AlmostRedBlack<V>(t: Tree<V>) {
    && Balanced(t)
    && (t.Node? ==> NoRedRed(t.left) && NoRedRed(t.right) && !(t.red && Red(t.left) && Red(t.right)))
  }

  lemma FixInsertShape<V>(t: Tree<V>, dir: bool)
    requires t.Node? && Balanced(t)
    requires AlmostRedBlack(Link(t, dir)) && NoRedRed(Link(t, !dir))
    requires t.red ==> NoRedRed(Link(t, dir)) && !Red(Link(t, !dir))
    ensures BlackHeight(FixInsert(t, dir)) == BlackHeight(t)
    ensures AlmostRedBlack(FixInsert(t, dir))
    ensures t.red ==> FixInsert(t, dir).red
    ensures !t.red ==> RedBlack(FixInsert(t, dir))
  {
    var child := Link(t, dir);
    if child.Node? {
      var inner := Link(child, !dir);
      assert Balanced(child) && Balanced(inner);
      assert inner.Node? ==> Balanced(inner.left) && Balanced(inner.right);
      assert Balanced(Link(child, dir)) && NoRedRed(inner);
    }
  }

  /** Insertion into any red-black subtree keeps the black height; a black node stays red-black. */
  lemma {:induction false} InsertShape<V>(t: Tree<V>, e: Entry<V>)
    requires RedBlack(t)
    ensures BlackHeight(Insert(t, e)) == BlackHeight(t)
    ensures AlmostRedBlack(Insert(t, e))
    ensures Red(t) ==> Insert(t, e).red
    ensures !Red(t) ==> RedBlack(Insert(t, e))
  {
    if t.Node? && t.value.key != e.key {
      var dir := t.value.key < e.key;
      InsertShape(Link(t, dir), e);
      FixInsertShape(Relink(t, dir, Insert(Link(t, dir), e)), dir);
    }
  }

  lemma {:induction false} InsertOrder<V>(t: Tree<V>, e: Entry<V>)
    requires Sorted(InOrder(t))
    ensures InOrder(Insert(t, e)) == Put(InOrder(t), e)
  {
    if t.Node? {
      PutAround(InOrder(t.left), t.value, InOrder(t.right), e);
      if t.value.key != e.key {
        var dir := t.value.key < e.key;
        SortedParts(InOrder(t.left), t.value, InOrder(t.right));
        InsertOrder(Link(t, dir), e);
        FixInsertKeepsOrder(Relink(t, dir, Insert(Link(t, dir), e)), dir);
      }
    }
  }

  lemma SortedParts<V>(a: seq<Entry<V>>, x: Entry<V>, b: seq<Entry<V>>)
    requires Sorted(a + [x] + b)
    ensures Sorted(a) && Sorted(b)
    ensures forall e <- a :: e.key < x.key
    ensures forall e <- b :: x.key < e.key
  {
    var s := a + [x] + b;
    assert a == s[..|a|] && s[|a|] == x;
    assert forall i :: 0 <= i < |a| ==> s[i] == a[i];
    forall i | 0 <= i < |b| ensures x.key < b[i].key {
      assert s[|a| + 1 + i] == b[i];
    }
    forall i, j | 0 <= i < j < |b| ensures b[i].key < b[j].key {
      assert s[|a| + 1 + i] == b[i] && s[|a| + 1 + j] == b[j];
    }
  }

  lemma SizeIsLength<V>(t: Tree<V>)
    ensures Size(t) == |InOrder(t)|
  {
  }

  // ---------------------------------------------------------------- remove

  /** Moves blackness back into the side `dir` of `p`, whose other child is black. */
  function Restructure<V>(p: Tree<V>, dir: bool): (Tree<V>, bool)
    requires p.Node? && Link(p, !dir).Node?
  {
    var s := Link(p, !dir);
    if !Red(s.left) && !Red(s.right) then (Relink(Paint(p, false), !dir, Paint(s, true)), p.red)
    else
      var q := if Red(Link(s, !dir)) then Rotate(p, dir) else RotateTwice(p, dir);
      (Node(p.red, q.value, Paint(q.left, false), Paint(q.right, false)), true)
  }

  /** `balance` at one node after its side `dir` lost one black level; the flag is `done`. */
  function Balance<V>(t: Tree<V>, dir: bool): (Tree<V>, bool)
    requires t.Node?
    requires Red(Link(t, !dir)) ==> Link(Link(t, !dir), dir).Node?
  {
    var s := Link(t, !dir);
    if s.Leaf? then (t, false)
    else if s.red then
      var top := Rotate(t, dir);
      var (p, done) := Restructure(Link(top, dir), dir);
      (Relink(top, dir, p), done)
    else Restructure(t, dir)
  }

  function Max<V>(t: Tree<V>): Entry<V>
    requires t.Node?
  {
    if t.right.Leaf? then t.value else Max(t.right)
  }

  /** Unlinks a node with at most one child. */
  function Detach<V>(t: Tree<V>): (Tree<V>, bool)
    requires t.Node?
  {
    var save := if t.left.Leaf? then t.right else t.left;
    if t.red then (save, true)
    else if Red(save) then (Paint(save, false), true)
    else (save, false)
  }

  /** The state in which `balance` is called: side `dir` is one black level short. */
  predicate Short<V>(t: Tree<V>, dir: bool) {
    && t.Node?
    && RedBlack(t.left) && RedBlack(t.right)
    && BlackHeight(Link(t, dir)) + 1 == BlackHeight(Link(t, !dir))
    && !Red(Link(t, dir))
    && (t.red ==> !Red(Link(t, !dir)))
  }

  /** The black height of a subtree with a deficient side, as it was before. */
  function FullHeight<V>(t: Tree<V>, dir: bool): nat
    requires t.Node?
  {
    BlackHeight(Link(t, !dir)) + if t.red then 0 else 1
  }

  /** A result of removal from a subtree of black height `height` whose root was red or not. */
  predicate Repaired<V>(r: (Tree<V>, bool), height: nat, wasRed: bool) {
    && RedBlack(r.0)
    && height == BlackHeight(r.0) + (if r.1 then 0 else 1)
    && (Red(r.0) ==> wasRed)
    && (!r.1 ==> !Red(r.0))
  }

  lemma RestructureRepairs<V>(p: Tree<V>, dir: bool)
    requires Short(p, dir) && !Red(Link(p, !dir))
    ensures Link(p, !dir).Node?
    ensures Repaired(Restructure(p, dir), FullHeight(p, dir), p.red)
    ensures p.red ==> Restructure(p, dir).1
  {
    var s := Link(p, !dir);
    var inner := Link(s, dir);
    assert RedBlack(s.left) && RedBlack(s.right);
    if !Red(s.left) && !Red(s.right) {
    } else if Red(Link(s, !dir)) {
    } else {
      assert RedBlack(inner.left) && RedBlack(inner.right);
    }
  }

  lemma RestructureOrder<V>(p: Tree<V>, dir: bool)
    requires p.Node? && Link(p, !dir).Node?
    ensures InOrder(Restructure(p, dir).0) == InOrder(p)
  {
    var s := Link(p, !dir);
    if Red(Link(s, !dir)) {
      RotateKeepsOrder(p, dir);
    } else if Red(Link(s, dir)) {
      RotateTwiceKeepsOrder(p, dir);
    }
  }

  /** The key step of deletion: `done` comes back true exactly when the black height is restored. */
  lemma BalanceRepairs<V>(t: Tree<V>, dir: bool)
    requires Short(t, dir)
    ensures Red(Link(t, !dir)) ==> Link(Link(t, !dir), dir).Node?
    ensures Repaired(Balance(t, dir), FullHeight(t, dir), t.red)
  {
    var s := Link(t, !dir);
    if s.red {
      assert RedBlack(s.left) && RedBlack(s.right);
      RestructureRepairs(Link(Rotate(t, dir), dir), dir);
    } else {
      RestructureRepairs(t, dir);
    }
  }

  lemma BalanceOrder<V>(t: Tree<V>, dir: bool)
    requires t.Node?
    requires Red(Link(t, !dir)) ==> Link(Link(t, !dir), dir).Node?
    ensures InOrder(Balance(t, dir).0) == InOrder(t)
    ensures Size(Balance(t, dir).0) == Size(t)
  {
    SizeIsLength(t);
    SizeIsLength(Balance(t, dir).0);
    if Red(Link(t, !dir)) {
      RotateKeepsOrder(t, dir);
      RestructureOrder(Link(Rotate(t, dir), dir), dir);
    } else if Link(t, !dir).Node? {
      RestructureOrder(t, dir);
    }
  }

  lemma DetachRepairs<V>(t: Tree<V>)
    requires t.Node? && RedBlack(t) && (t.left.Leaf? || t.right.Leaf?)
    ensures Repaired(Detach(t), BlackHeight(t), t.red)
    ensures InOrder(Detach(t).0) == InOrder(t.left) + InOrder(t.right)
  {
    var save := if t.left.Leaf? then t.right else t.left;
    assert RedBlack(save);
    assert save.Node? ==> RedBlack(save.left) && RedBlack(save.right);
  }

  function Remove<V>(t: Tree<V>, key: int): (r: (Tree<V>, bool))
    requires RedBlack(t)
    ensures Repaired(r, BlackHeight(t), Red(t))
  {
    if t.Leaf? then (t, true)
    else if t.value.key == key && (t.left.Leaf? || t.right.Leaf?) then
      DetachRepairs(t);
      Detach(t)
    else
      var found := t.value.key == key;
      var target := if found then Max(t.left).key else key;
      var u := if found then t.(value := Max(t.left)) else t;
      var dir := u.value.key < target;
      var (child, done) := Remove(Link(u, dir), target);
      var v := Relink(u, dir, child);
      if done then (v, true)
      else
        BalanceRepairs(v, dir);
        Balance(v, dir)
  }

  /** Removal of `key` below the link `dir` of `u`, followed by rebalancing at `u`. */
  function Descend<V>(u: Tree<V>, dir: bool, key: int): (Tree<V>, bool)
    requires u.Node? && RedBlack(u)
  {
    var (child, done) := Remove(Link(u, dir), key);
    var v := Relink(u, dir, child);
    if done then (v, true)
    else
      BalanceRepairs(v, dir);
      Balance(v, dir)
  }

  function RemoveRoot<V>(t: Tree<V>, key: int): Tree<V>
    requires RedBlack(t)
  {
    var r := Remove(t, key).0;
    if r.Node? then Paint(r, false) else r
  }

  lemma {:induction false} MaxIsLast<V>(t: Tree<V>)
    requires t.Node?
    ensures InOrder(t) != [] && InOrder(t)[|InOrder(t)| - 1] == Max(t)
  {
    if t.right.Node? { MaxIsLast(t.right); }
  }

  /** One level of removal: the order below the link and the rebalancing, put together. */
  lemma RemoveStepOrder<V>(u: Tree<V>, dir: bool, target: int)
    requires u.Node? && RedBlack(u)
    ensures var (child, done) := Remove(Link(u, dir), target);
            var v := Relink(u, dir, child);
            && (!done ==> Short(v, dir) && InOrder(Balance(v, dir).0) == InOrder(v))
  {
    var (child, done) := Remove(Link(u, dir), target);
    if !done {
      BalanceRepairs(Relink(u, dir, child), dir);
      BalanceOrder(Relink(u, dir, child), dir);
    }
  }

  lemma {:induction false} RemoveOrder<V>(t: Tree<V>, key: int)
    requires RedBlack(t) && Sorted(InOrder(t))
    ensures InOrder(Remove(t, key).0) == Drop(InOrder(t), key)
  {
    if t.Node? {
      DropAround(InOrder(t.left), t.value, InOrder(t.right), key);
      SortedParts(InOrder(t.left), t.value, InOrder(t.right));
      if t.value.key != key {
        var dir := t.value.key < key;
        RemoveOrder(Link(t, dir), key);
        RemoveStepOrder(t, dir, key);
      } else if t.left.Leaf? || t.right.Leaf? {
        DetachRepairs(t);
      } else {
        RemoveOrder(t.left, Max(t.left).key);
        HeirOrder(t);
      }
    }
  }

  lemma {:induction false} DropLast<V>(a: seq<Entry<V>>)
    requires Sorted(a) && a != []
    ensures Drop(a, a[|a| - 1].key) + [a[|a| - 1]] == a
  {
    if |a| > 1 {
      assert a[1..][|a| - 2] == a[|a| - 1];
      DropLast(a[1..]);
    }
  }

  /** The heir takes the removed element's place and disappears from the left subtree. */
  lemma HeirOrder<V>(t: Tree<V>)
    requires t.Node? && t.left.Node? && t.right.Node? && RedBlack(t) && Sorted(InOrder(t.left))
    requires InOrder(Remove(t.left, Max(t.left).key).0) == Drop(InOrder(t.left), Max(t.left).key)
    ensures InOrder(Remove(t, t.value.key).0) == InOrder(t.left) + InOrder(t.right)
  {
    var heir := Max(t.left);
    MaxIsLast(t.left);
    DropLast(InOrder(t.left));
    RemoveStepOrder(t.(value := heir), false, heir.key);
    var v := Relink(t.(value := heir), false, Remove(t.left, heir.key).0);
    assert InOrder(v) == Drop(InOrder(t.left), heir.key) + [heir] + InOrder(t.right);
  }

  // ---------------------------------------------------------------- public operations

  /** `insert` on any valid tree: valid again, and the entry replaced or added at its place. */
  lemma InsertKeepsValid<V>(t: Tree<V>, e: Entry<V>)
    requires Valid(t)
    ensures Valid(InsertRoot(t, e))
    ensures InOrder(InsertRoot(t, e)) == Put(InOrder(t), e)
    ensures MapOf(InOrder(InsertRoot(t, e))) == MapOf(InOrder(t))[e.key := e.payload]
    ensures Size(InsertRoot(t, e)) == Size(t) + if e.key in MapOf(InOrder(t)) then 0 else 1
  {
    InsertShape(t, e);
    InsertOrder(t, e);
    PutSorted(InOrder(t), e);
    PutUpdatesMap(InOrder(t), e);
    SizeIsLength(t);
    SizeIsLength(InsertRoot(t, e));
  }

  /** `remove` on any valid tree: valid again, without the key. */
  lemma RemoveKeepsValid<V>(t: Tree<V>, key: int)
    requires Valid(t)
    ensures Valid(RemoveRoot(t, key))
    ensures InOrder(RemoveRoot(t, key)) == Drop(InOrder(t), key)
    ensures MapOf(InOrder(RemoveRoot(t, key))) == MapOf(InOrder(t)) - {key}
    ensures Size(RemoveRoot(t, key)) == Size(t) - if key in MapOf(InOrder(t)) then 1 else 0
  {
    RemoveOrder(t, key);
    DropSorted(InOrder(t), key);
    DropUpdatesMap(InOrder(t), key);
    SizeIsLength(t);
    SizeIsLength(RemoveRoot(t, key));
  }

  lemma {:induction false} PutSorted<V>(s: seq<Entry<V>>, e: Entry<V>)
    requires Sorted(s)
    ensures Sorted(Put(s, e))
    ensures forall x <- Put(s, e) :: x == e || x in s
  {
    if s != [] && e.key > s[0].key {
      var rest := Put(s[1..], e);
      PutSorted(s[1..], e);
      assert forall x <- rest :: s[0].key < x.key;
    }
  }

  lemma MapOfCons<V>(e: Entry<V>, s: seq<Entry<V>>)
    ensures MapOf([e] + s) == MapOf(s)[e.key := e.payload]
  {
    assert ([e] + s)[1..] == s;
  }

  lemma HeadAndTail<V>(s: seq<Entry<V>>)
    requires s != []
    ensures s == [s[0]] + s[1..]
  {
  }

  lemma SortedTail<V>(s: seq<Entry<V>>)
    requires Sorted(s) && s != []
    ensures Sorted(s[1..])
    ensures forall i :: 0 <= i < |s[1..]| ==> s[0].key < s[1..][i].key
  {
  }

  /** A key below every entry's is not in the map. */
  lemma KeyBelow<V>(s: seq<Entry<V>>, key: int)
    requires forall i :: 0 <= i < |s| ==> key < s[i].key
    ensures key !in MapOf(s)
  {
    MapOfKeys(s);
  }

  lemma PutStep<V>(s: seq<Entry<V>>, e: Entry<V>)
    ensures s == [] ==> Put(s, e) == [e]
    ensures s != [] && e.key < s[0].key ==> Put(s, e) == [e] + s
    ensures s != [] && e.key == s[0].key ==> Put(s, e) == [e] + s[1..]
    ensures s != [] && e.key > s[0].key ==> Put(s, e) == [s[0]] + Put(s[1..], e)
  {
  }

  lemma UpdatesSwap<V>(m: map<int, V>, a: int, x: V, b: int, y: V)
    requires a != b
    ensures m[a := x][b := y] == m[b := y][a := x]
  {
  }

  lemma UpdateAgain<V>(m: map<int, V>, a: int, x: V, y: V)
    ensures m[a := x][a := y] == m[a := y]
  {
  }

  lemma {:induction false} PutUpdatesMap<V>(s: seq<Entry<V>>, e: Entry<V>)
    requires Sorted(s)
    ensures MapOf(Put(s, e)) == MapOf(s)[e.key := e.payload]
    ensures |Put(s, e)| == |s| + if e.key in MapOf(s) then 0 else 1
    decreases |s|
  {
    hide Put, MapOf, Sorted;
    PutStep(s, e);
    if s == [] {
      MapOfCons(e, s);
      assert [e] + s == [e];
      KeyBelow(s, e.key);
    } else {
      var head, rest := s[0], s[1..];
      HeadAndTail(s);
      MapOfCons(head, rest);
      SortedTail(s);
      if e.key < head.key {
        MapOfCons(e, s);
        KeyBelow(rest, e.key);
      } else if e.key == head.key {
        MapOfCons(e, rest);
        UpdateAgain(MapOf(rest), e.key, head.payload, e.payload);
      } else {
        PutUpdatesMap(rest, e);
        MapOfCons(head, Put(rest, e));
        UpdatesSwap(MapOf(rest), e.key, e.payload, head.key, head.payload);
      }
    }
  }

  lemma {:induction false} DropSorted<V>(s: seq<Entry<V>>, key: int)
    requires Sorted(s)
    ensures Sorted(Drop(s, key))
    ensures forall x <- Drop(s, key) :: x in s
  {
    hide Drop;
    DropStep(s, key);
    if s != [] && s[0].key != key {
      var rest := Drop(s[1..], key);
      DropSorted(s[1..], key);
      forall x | x in rest ensures s[0].key < x.key {
        var i :| 0 <= i < |s[1..]| && s[1..][i] == x;
        assert s[1..][i] == s[i + 1];
      }
    }
  }

  lemma DropStep<V>(s: seq<Entry<V>>, key: int)
    ensures s == [] ==> Drop(s, key) == []
    ensures s != [] && s[0].key == key ==> Drop(s, key) == s[1..]
    ensures s != [] && s[0].key != key ==> Drop(s, key) == [s[0]] + Drop(s[1..], key)
  {
  }

  lemma UpdateAndDrop<V>(m: map<int, V>, a: int, x: V, key: int)
    ensures a != key ==> m[a := x] - {key} == (m - {key})[a := x]
    ensures a == key && key !in m ==> m[a := x] - {key} == m
  {
  }

  lemma {:induction false} DropUpdatesMap<V>(s: seq<Entry<V>>, key: int)
    requires Sorted(s)
    ensures MapOf(Drop(s, key)) == MapOf(s) - {key}
    ensures |Drop(s, key)| == |s| - if key in MapOf(s) then 1 else 0
    decreases |s|
  {
    hide Drop, MapOf, Sorted;
    DropStep(s, key);
    if s == [] {
      KeyBelow(s, key);
    } else {
      var head, rest := s[0], s[1..];
      HeadAndTail(s);
      MapOfCons(head, rest);
      SortedTail(s);
      UpdateAndDrop(MapOf(rest), head.key, head.payload, key);
      if head.key == key {
        KeyBelow(rest, key);
      } else {
        DropUpdatesMap(rest, key);
        MapOfCons(head, Drop(rest, key));
      }
    }
  }

  /** The keys of the map are the keys of the entries, and each entry gives its payload. */
  lemma {:induction false} MapOfKeys<V>(s: seq<Entry<V>>)
    ensures forall i :: 0 <= i < |s| ==> s[i].key in MapOf(s)
    ensures forall k <- MapOf(s) :: exists i :: 0 <= i < |s| && s[i].key == k
    ensures Sorted(s) ==> forall i :: 0 <= i < |s| ==> MapOf(s)[s[i].key] == s[i].payload
  {
    if s != [] {
      MapOfKeys(s[1..]);
      assert forall i :: 0 < i < |s| ==> s[i] == s[1..][i - 1];
    }
  }

  /** The height bound of a red-black tree: Height <= 2 * log2(Size + 1). */
  lemma HeightBound<V>(t: Tree<V>)
    requires Valid(t)
    ensures Pow2(Height(t)) <= (Size(t) + 1) * (Size(t) + 1)
  {
    BlackHeightBounds(t);
    var b := BlackHeight(t);
    Pow2Monotone(Height(t), b + b);
    Pow2Add(b, b);
    MulMonotone(Pow2(b), Pow2(b), Size(t) + 1, Size(t) + 1);
  }

  lemma {:induction false} BlackHeightBounds<V>(t: Tree<V>)
    requires RedBlack(t)
    ensures Pow2(BlackHeight(t)) <= Size(t) + 1
    ensures Height(t) <= 2 * BlackHeight(t) + if Red(t) then 1 else 0
  {
    if t.Node? {
      BlackHeightBounds(t.left);
      BlackHeightBounds(t.right);
    }
  }

  // ---------------------------------------------------------------- whole runs

  datatype Operation<V> = Inserted(entry: Entry<V>) | Removed(key: int)

  /** The tree after a run of operations on an empty set; the last operation is applied last. */
  function RunTree<V>(ops: seq<Operation<V>>): (t: Tree<V>)
    ensures Valid(t)
  {
    if ops == [] then Leaf
    else
      var t := RunTree(ops[..|ops| - 1]);
      match ops[|ops| - 1]
      case Inserted(e) => InsertKeepsValid(t, e); InsertRoot(t, e)
      case Removed(key) => RemoveKeepsValid(t, key); RemoveRoot(t, key)
  }

  function RunMap<V>(ops: seq<Operation<V>>): map<int, V> {
    if ops == [] then map[]
    else
      var m := RunMap(ops[..|ops| - 1]);
      match ops[|ops| - 1]
      case Inserted(e) => m[e.key := e.payload]
      case Removed(key) => m - {key}
  }

  /** One more operation, on the tree and on the map. */
  lemma RunStep<V>(ops: seq<Operation<V>>)
    requires ops != []
    ensures var t, last := RunTree(ops[..|ops| - 1]), ops[|ops| - 1];
      && RunTree(ops) == (if last.Inserted? then InsertRoot(t, last.entry) else RemoveRoot(t, last.key))
    ensures var m, last := RunMap(ops[..|ops| - 1]), ops[|ops| - 1];
      && RunMap(ops) == (if last.Inserted? then m[last.entry.key := last.entry.payload] else m - {last.key})
  {
    hide Valid, InsertRoot, RemoveRoot;
  }

  lemma UpdateSize<V>(m: map<int, V>, key: int, x: V)
    ensures |m[key := x]| == |m| + if key in m then 0 else 1
  {
    assert m[key := x].Keys == m.Keys + {key};
    if key in m { assert m.Keys + {key} == m.Keys; }
  }

  lemma RemovalSize<V>(m: map<int, V>, key: int)
    ensures |m - {key}| == |m| - if key in m then 1 else 0
  {
    assert (m - {key}).Keys == m.Keys - {key};
    if key !in m { assert m.Keys - {key} == m.Keys; }
  }

  /** The tree stands for the map. */
  ghost predicate StandsFor<V>(t: Tree<V>, m: map<int, V>) {
    MapOf(InOrder(t)) == m && Size(t) == |m|
  }

  lemma InsertedStands<V>(t: Tree<V>, m: map<int, V>, e: Entry<V>)
    requires Valid(t) && StandsFor(t, m)
    ensures StandsFor(InsertRoot(t, e), m[e.key := e.payload])
  {
    hide Valid, InsertRoot, MapOf, InOrder, Size;
    InsertKeepsValid(t, e);
    UpdateSize(m, e.key, e.payload);
  }

  lemma RemovedStands<V>(t: Tree<V>, m: map<int, V>, key: int)
    requires Valid(t) && StandsFor(t, m)
    ensures StandsFor(RemoveRoot(t, key), m - {key})
  {
    hide Valid, RemoveRoot, MapOf, InOrder, Size;
    RemoveKeepsValid(t, key);
    RemovalSize(m, key);
  }

  lemma {:induction false} RunStandsFor<V>(ops: seq<Operation<V>>)
    ensures StandsFor(RunTree(ops), RunMap(ops))
    decreases |ops|
  {
    if ops == [] {
    } else {
      hide Valid, InsertRoot, RemoveRoot, RunTree, RunMap, StandsFor;
      var init := ops[..|ops| - 1];
      RunStandsFor(init);
      RunStep(ops);
      match ops[|ops| - 1]
      case Inserted(e) => InsertedStands(RunTree(init), RunMap(init), e);
      case Removed(key) => RemovedStands(RunTree(init), RunMap(init), key);
    }
  }

  /** Over every run of insertions and removals the tree refines a finite map, and its height stays logarithmic. */
  lemma RunRefinesMap<V>(ops: seq<Operation<V>>)
    ensures MapOf(InOrder(RunTree(ops))) == RunMap(ops)
    ensures Size(RunTree(ops)) == |RunMap(ops)|
    ensures Pow2(Height(RunTree(ops))) <= (|RunMap(ops)| + 1) * (|RunMap(ops)| + 1)
  {
    hide Valid, MapOf, InOrder, Size, RunTree, RunMap, Pow2, Height;
    RunStandsFor(ops);
    HeightBound(RunTree(ops));
  }
}
