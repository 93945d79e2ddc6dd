/** nall::set on the heap: nodes with links that insert and remove rewrite in place. */
module RedBlackSet {
  import opened RedBlackTree
  import opened Maybe
  import T = RedBlackTree

  class Cell<V> {
    var value: Entry<V>
    var red: bool
    var left: Cell?<V>
    var right: Cell?<V>

    constructor (value: Entry<V>)
      ensures this.value == value && red && left == null && right == null
    {
      this.value, red, left, right := value, true, null, null;
    }

    function LinkOf(dir: bool): Cell?<V>
      reads this
    {
      if dir then right else left
    }
  }

  /** The cells of a subtree and how they hang together; only specifications mention it. */
  datatype Shape<V> = Nil | Bin(cell: Cell<V>, l: Shape<V>, r: Shape<V>)

  ghost function Child<V>(s: Shape<V>, dir: bool): Shape<V>
    requires s.Bin?
  {
    if dir then s.r else s.l
  }

  ghost function Cells<V>(s: Shape<V>): set<Cell<V>> {
    match s
    case Nil => {}
    case Bin(c, l, r) => Cells(l) + {c} + Cells(r)
  }

  /** No cell occurs twice. */
  ghost predicate Distinct<V>(s: Shape<V>) {
    match s
    case Nil => true
    case Bin(c, l, r) =>
      Distinct(l) && Distinct(r) && c !in Cells(l) && c !in Cells(r) && Cells(l) !! Cells(r)
  }

  ghost predicate Linked<V>(n: Cell?<V>, s: Shape<V>)
    reads Cells(s)
  {
    match s
    case Nil => n == null
    case Bin(c, l, r) => n == c && Linked(c.left, l) && Linked(c.right, r)
  }

  /** The tree value a shape holds at the moment. */
  ghost function View<V>(s: Shape<V>): Tree<V>
    reads Cells(s)
  {
    match s
    case Nil => Leaf
    case Bin(c, l, r) => Node(c.red, c.value, View(l), View(r))
  }

  ghost predicate Holds<V>(n: Cell?<V>, s: Shape<V>)
    reads Cells(s)
  {
    Distinct(s) && Linked(n, s)
  }

  predicate IsRed<V>(n: Cell?<V>)
    reads n
  {
    n != null && n.red
  }

  /** Null tests and colour tests on links are tests on the tree. */
  lemma LinkTests<V>(n: Cell?<V>, s: Shape<V>)
    requires Holds(n, s)
    ensures n == null <==> View(s).Leaf?
    ensures n == null <==> s.Nil?
    ensures n != null ==> n in Cells(s)
    ensures IsRed(n) <==> Red(View(s))
  {
  }

  /** Taking a node apart. */
  lemma Unfold<V>(n: Cell?<V>, s: Shape<V>, dir: bool)
    requires Holds(n, s) && n != null
    ensures s.Bin? && s.cell == n && View(s).Node? && View(s).value == n.value && View(s).red == n.red
    ensures Holds(n.LinkOf(dir), Child(s, dir)) && Holds(n.LinkOf(!dir), Child(s, !dir))
    ensures Link(View(s), dir) == View(Child(s, dir)) && Link(View(s), !dir) == View(Child(s, !dir))
    ensures Cells(s) == Cells(Child(s, dir)) + {n} + Cells(Child(s, !dir))
    ensures n !in Cells(Child(s, dir)) + Cells(Child(s, !dir))
    ensures Cells(Child(s, dir)) !! Cells(Child(s, !dir))
    ensures n.LinkOf(dir) != null <==> View(Child(s, dir)).Node?
    ensures n.LinkOf(!dir) != null <==> View(Child(s, !dir)).Node?
  {
  }

  ghost function Join<V>(n: Cell<V>, dir: bool, c: Shape<V>, d: Shape<V>): Shape<V> {
    if dir then Bin(n, d, c) else Bin(n, c, d)
  }

  ghost function Make<V>(red: bool, value: Entry<V>, dir: bool, c: Tree<V>, d: Tree<V>): Tree<V> {
    if dir then Node(red, value, d, c) else Node(red, value, c, d)
  }

  /** Putting a node together: `c` hangs on link `dir` and `d` on the other one. */
  lemma Fold<V>(n: Cell<V>, dir: bool, c: Shape<V>, d: Shape<V>)
    requires Holds(n.LinkOf(dir), c) && Holds(n.LinkOf(!dir), d)
    requires n !in Cells(c) + Cells(d) && Cells(c) !! Cells(d)
    ensures Holds(n, Join(n, dir, c, d))
    ensures Cells(Join(n, dir, c, d)) == Cells(c) + {n} + Cells(d)
    ensures View(Join(n, dir, c, d)) == Make(n.red, n.value, dir, View(c), View(d))
  {
  }

  /** Colours `n` and stores a subtree on its link `dir`. */
  method Hang<V>(n: Cell<V>, red: bool, dir: bool, child: Cell?<V>, ghost c: Shape<V>, ghost d: Shape<V>)
    requires Holds(child, c) && Holds(n.LinkOf(!dir), d)
    requires n !in Cells(c) && n !in Cells(d) && Cells(c) !! Cells(d)
    modifies n
    ensures Holds(n, Join(n, dir, c, d))
    ensures Cells(Join(n, dir, c, d)) == Cells(c) + {n} + Cells(d)
    ensures View(Join(n, dir, c, d)) == old(Make(red, n.value, dir, View(c), View(d)))
    ensures n.LinkOf(dir) == child && n.LinkOf(!dir) == old(n.LinkOf(!dir)) && n.value == old(n.value)
  {
    hide Distinct, Linked, View, Cells;
    n.red := red;
    if dir { n.right := child; } else { n.left := child; }
    Fold(n, dir, c, d);
  }

  /** The pointer exchange of a rotation: `b` comes up, `a` goes down on its side `dir`. */
  method Exchange<V>(a: Cell<V>, b: Cell<V>, dir: bool, ghost x: Shape<V>, ghost y: Shape<V>, ghost z: Shape<V>)
    requires a != b && a.LinkOf(!dir) == b
    requires Holds(a.LinkOf(dir), x) && Holds(b.LinkOf(dir), y) && Holds(b.LinkOf(!dir), z)
    requires a !in Cells(x) + Cells(y) + Cells(z) && b !in Cells(x) + Cells(y) + Cells(z)
    requires Cells(x) !! Cells(y) && Cells(x) !! Cells(z) && Cells(y) !! Cells(z)
    modifies a, b
    ensures b.LinkOf(dir) == a && a.value == old(a.value) && b.value == old(b.value)
    ensures Holds(b, Join(b, dir, Join(a, dir, x, y), z))
    ensures View(Join(b, dir, Join(a, dir, x, y), z)) ==
            old(Make(false, b.value, dir, Make(true, a.value, dir, View(x), View(y)), View(z)))
    ensures Cells(Join(b, dir, Join(a, dir, x, y), z)) == Cells(x) + Cells(y) + Cells(z) + {a, b}
  {
    hide Distinct, Linked, View, Cells;
    assert allocated(Cells(x)) && allocated(Cells(y)) && allocated(Cells(z));
    Hang(a, true, !dir, b.LinkOf(dir), y, x);
    Hang(b, false, dir, a, Join(a, dir, x, y), z);
  }

  method Rotate<V>(a: Cell<V>, dir: bool, ghost s: Shape<V>) returns (top: Cell<V>, ghost s': Shape<V>)
    requires Holds(a, s) && View(s).Node? && Link(View(s), !dir).Node?
    modifies Cells(s)
    ensures Holds(top, s') && Cells(s') == Cells(s)
    ensures View(s') == T.Rotate(old(View(s)), dir)
    ensures top == old(a.LinkOf(!dir)) && top.LinkOf(dir) == a
    ensures forall c <- Cells(s) | old(allocated(c)) :: c.value == old(c.value)
  {
    Unfold(a, s, dir);
    top := a.LinkOf(!dir);
    Unfold(top, Child(s, !dir), dir);
    ghost var x, y, z := Child(s, dir), Child(Child(s, !dir), dir), Child(Child(s, !dir), !dir);
    Exchange(a, top, dir, x, y, z);
    s' := Join(top, dir, Join(a, dir, x, y), z);
  }

  method RotateTwice<V>(a: Cell<V>, dir: bool, ghost s: Shape<V>) returns (top: Cell<V>, ghost s': Shape<V>)
    requires Holds(a, s) && View(s).Node? && Link(View(s), !dir).Node? && Link(Link(View(s), !dir), dir).Node?
    modifies Cells(s)
    ensures Holds(top, s') && Cells(s') == Cells(s)
    ensures View(s') == T.RotateTwice(old(View(s)), dir)
    ensures forall c <- Cells(s) | old(allocated(c)) :: c.value == old(c.value)
  {
    hide Distinct, Linked, View, Cells;
    Unfold(a, s, dir);
    ghost var x := Child(s, dir);
    var other := a.LinkOf(dir);
    ghost var v := View(x);
    assert allocated(Cells(x));
    var b, y := Rotate(a.LinkOf(!dir), !dir, Child(s, !dir));
    assert View(x) == v;
    assert Holds(other, x);
    Hang(a, a.red, !dir, b, y, x);
    top, s' := Rotate(a, dir, Join(a, !dir, y, x));
  }

  /** Colours a node, and both its children black. */
  method PaintFamily<V>(n: Cell<V>, red: bool, ghost s: Shape<V>)
    requires Holds(n, s) && View(s).Node? && View(s).left.Node? && View(s).right.Node?
    modifies Cells(s)
    ensures Holds(n, s)
    ensures View(s) == Node(red, old(View(s)).value, Paint(old(View(s)).left, false), Paint(old(View(s)).right, false))
    ensures forall c <- Cells(s) | old(allocated(c)) :: c.value == old(c.value)
  {
    hide Distinct, Linked, View, Cells;
    Unfold(n, s, false);
    ghost var l, r := s.l, s.r;
    LinkTests(n.left, l);
    LinkTests(n.right, r);
    assert allocated(Cells(l)) && allocated(Cells(r));
    n.red := red;
    PaintCell(n.left, false, l);
    PaintCell(n.right, false, r);
    Fold(n, false, l, r);
  }

  method PaintCell<V>(n: Cell<V>, red: bool, ghost s: Shape<V>)
    requires Holds(n, s) && View(s).Node?
    modifies n
    ensures Holds(n, s) && View(s) == Paint(old(View(s)), red) && n.value == old(n.value)
  {
    n.red := red;
  }

  method StoreValue<V>(n: Cell<V>, value: Entry<V>, ghost s: Shape<V>)
    requires Holds(n, s) && View(s).Node?
    modifies n
    ensures Holds(n, s) && View(s) == old(View(s)).(value := value) && n.value == value
  {
    n.value := value;
  }

  method FixInsertAt<V>(n: Cell<V>, dir: bool, ghost s: Shape<V>) returns (top: Cell<V>, ghost s': Shape<V>)
    requires Holds(n, s)
    modifies Cells(s)
    ensures Holds(top, s') && Cells(s') == Cells(s)
    ensures View(s') == T.FixInsert(old(View(s)), dir)
    ensures forall c <- Cells(s) | old(allocated(c)) :: c.value == old(c.value)
  {
    hide Distinct, Linked, View, Cells;
    Unfold(n, s, dir);
    var child := n.LinkOf(dir);
    LinkTests(child, Child(s, dir));
    LinkTests(n.LinkOf(!dir), Child(s, !dir));
    top, s' := n, s;
    if !IsRed(child) { return; }
    Unfold(child, Child(s, dir), dir);
    LinkTests(child.LinkOf(dir), Child(Child(s, dir), dir));
    LinkTests(child.LinkOf(!dir), Child(Child(s, dir), !dir));
    if IsRed(n.LinkOf(!dir)) {
      PaintFamily(n, true, s);
    } else if IsRed(child.LinkOf(dir)) {
      top, s' := Rotate(n, !dir, s);
    } else if IsRed(child.LinkOf(!dir)) {
      top, s' := RotateTwice(n, !dir, s);
    }
  }

  method RestructureAt<V>(p: Cell<V>, dir: bool, ghost s: Shape<V>)
    returns (top: Cell<V>, ghost s': Shape<V>, done: bool)
    requires Holds(p, s) && View(s).Node? && Link(View(s), !dir).Node?
    modifies Cells(s)
    ensures Holds(top, s') && Cells(s') == Cells(s)
    ensures (View(s'), done) == T.Restructure(old(View(s)), dir)
  {
    hide Distinct, Linked, View, Cells;
    Unfold(p, s, dir);
    var sib := p.LinkOf(!dir);
    Unfold(sib, Child(s, !dir), dir);
    LinkTests(sib.LinkOf(dir), Child(Child(s, !dir), dir));
    LinkTests(sib.LinkOf(!dir), Child(Child(s, !dir), !dir));
    if !IsRed(sib.left) && !IsRed(sib.right) {
      done := p.red;
      top, s' := p, s;
      PaintPair(p, sib, dir, s);
    } else {
      var save := p.red;
      if IsRed(sib.LinkOf(!dir)) {
        top, s' := Rotate(p, dir, s);
      } else {
        top, s' := RotateTwice(p, dir, s);
      }
      PaintFamily(top, save, s');
      done := true;
    }
  }

  method PaintPair<V>(p: Cell<V>, sib: Cell<V>, dir: bool, ghost s: Shape<V>)
    requires Holds(p, s) && View(s).Node? && Link(View(s), !dir).Node? && sib == p.LinkOf(!dir)
    modifies Cells(s)
    ensures Holds(p, s)
    ensures View(s) == Relink(Paint(old(View(s)), false), !dir, Paint(Link(old(View(s)), !dir), true))
  {
    hide Distinct, Linked, View, Cells;
    Unfold(p, s, dir);
    ghost var x, y := Child(s, dir), Child(s, !dir);
    assert allocated(Cells(x)) && allocated(Cells(y));
    LinkTests(sib, y);
    p.red := false;
    PaintCell(sib, true, y);
    Fold(p, dir, x, y);
  }

  method BalanceAt<V>(n: Cell<V>, dir: bool, ghost s: Shape<V>) returns (top: Cell<V>, ghost s': Shape<V>, done: bool)
    requires Holds(n, s) && Short(View(s), dir)
    modifies Cells(s)
    ensures Red(Link(old(View(s)), !dir)) ==> Link(Link(old(View(s)), !dir), dir).Node?
    ensures Holds(top, s') && Cells(s') == Cells(s)
    ensures (View(s'), done) == T.Balance(old(View(s)), dir)
  {
    hide Distinct, Linked, View, Cells;
    BalanceRepairs(View(s), dir);
    Unfold(n, s, dir);
    var p, sib := n, n.LinkOf(!dir);
    LinkTests(sib, Child(s, !dir));
    if sib == null { return n, s, false; }
    if IsRed(sib) {
      Unfold(sib, Child(s, !dir), dir);
      top, s' := Rotate(n, dir, s);
      Unfold(top, s', dir);
      ghost var x, y := Child(s', dir), Child(s', !dir);
      assert allocated(Cells(y));
      var q, x', d := RestructureAt(p, dir, x);
      Hang(top, top.red, dir, q, x', y);
      s', done := Join(top, dir, x', y), d;
    } else {
      top, s', done := RestructureAt(p, dir, s);
    }
  }

  method Rightmost<V>(n: Cell<V>, ghost s: Shape<V>) returns (heir: Cell<V>)
    requires Holds(n, s) && View(s).Node?
    ensures heir in Cells(s) && heir.value == Max(View(s))
  {
    hide Distinct, Linked, Cells;
    heir := n;
    ghost var sub := s;
    Unfold(heir, sub, true);
    while heir.right != null
      invariant Holds(heir, sub) && View(sub).Node? && Max(View(sub)) == Max(View(s))
      invariant Cells(sub) <= Cells(s) && heir in Cells(sub)
      decreases sub
    {
      Unfold(heir, sub, true);
      heir, sub := heir.right, sub.r;
      LinkTests(heir, sub);
    }
    Unfold(heir, sub, true);
  }

  method NewLeaf<V>(e: Entry<V>) returns (n: Cell<V>, ghost s: Shape<V>)
    ensures Holds(n, s) && fresh(n) && Cells(s) == {n} && n.value == e
    ensures View(s) == Node(true, e, Leaf, Leaf)
  {
    n := new Cell(e);
    s := Bin(n, Nil, Nil);
  }

  /** One level of inserting, and what it does to the number of nodes. */
  lemma InsertStep<V>(t: Tree<V>, e: Entry<V>)
    ensures t.Leaf? ==> T.Insert(t, e) == Node(true, e, Leaf, Leaf) && Size(T.Insert(t, e)) == Size(t) + 1
    ensures t.Node? && t.value.key == e.key ==> T.Insert(t, e) == t.(value := e) && Size(t.(value := e)) == Size(t)
    ensures t.Node? && t.value.key != e.key ==>
      var dir := t.value.key < e.key;
      var u := Relink(t, dir, T.Insert(Link(t, dir), e));
      T.Insert(t, e) == FixInsert(u, dir) && Size(u) == Size(t) - Size(Link(t, dir)) + Size(T.Insert(Link(t, dir), e))
  {
    hide FixInsert;
  }

  class Set<V> {
    var root: Cell?<V>
    var nodes: nat
    ghost var shape: Shape<V>

    ghost predicate Valid()
      reads this, Cells(shape)
    {
      Holds(root, shape) && T.Valid(View(shape)) && nodes == Size(View(shape))
    }

    /** The elements in their order, and as a finite map. */
    ghost function Elements(): seq<Entry<V>>
      reads this, Cells(shape)
    {
      InOrder(View(shape))
    }

    ghost function Contents(): map<int, V>
      reads this, Cells(shape)
    {
      MapOf(Elements())
    }

    constructor ()
      ensures Valid() && Contents() == map[] && nodes == 0 && fresh(Cells(shape))
    {
      root, nodes, shape := null, 0, Nil;
    }

    static method FindAt(n: Cell?<V>, key: int, ghost s: Shape<V>) returns (r: Option<Entry<V>>)
      requires Holds(n, s)
      ensures r == T.Find(old(View(s)), key)
      decreases s
    {
      hide Distinct, Linked, View, Cells;
      LinkTests(n, s);
      if n == null { return None; }
      var dir := n.value.key < key;
      Unfold(n, s, dir);
      if n.value.key == key { return Some(n.value); }
      r := FindAt(n.LinkOf(dir), key, Child(s, dir));
    }

    method Find(key: int) returns (r: Option<Entry<V>>)
      requires Valid()
      ensures Valid() && Contents() == old(Contents())
      ensures r.Some? <==> key in old(Contents())
      ensures r.Some? ==> r.value == Entry(key, old(Contents())[key])
    {
      FindMeetsMap(View(shape), key);
      assert allocated(Cells(shape));
      r := FindAt(root, key, shape);
    }

    method InsertAt(n: Cell?<V>, e: Entry<V>, ghost s: Shape<V>) returns (n': Cell<V>, v: Cell<V>, ghost s': Shape<V>)
      requires Holds(n, s)
      modifies this`nodes, Cells(s)
      ensures Holds(n', s') && fresh(Cells(s') - Cells(s))
      ensures View(s') == T.Insert(old(View(s)), e)
      ensures nodes - Size(View(s')) == old(nodes - Size(View(s)))
      ensures v in Cells(s') && v.value == e
      decreases s
    {
      hide Distinct, Linked, View, Cells, FixInsert, InOrder, T.Insert, Size;
      LinkTests(n, s);
      InsertStep(View(s), e);
      if n == null {
        nodes := nodes + 1;
        n', s' := NewLeaf(e);
        return n', n', s';
      }
      Unfold(n, s, true);
      if n.value.key == e.key {
        StoreValue(n, e, s);
        return n, n, s;
      }
      var dir := n.value.key < e.key;
      Unfold(n, s, dir);
      ghost var other := Child(s, !dir);
      assert allocated(Cells(other));
      var child, leaf, sub := InsertAt(n.LinkOf(dir), e, Child(s, dir));
      Hang(n, n.red, dir, child, sub, other);
      ghost var u := Join(n, dir, sub, other);
      FixInsertKeepsOrder(View(u), dir);
      v := leaf;
      n', s' := FixInsertAt(n, dir, u);
    }

    /** Returns the stored value, or nothing when an equal element was there and has been overwritten. */
    method Insert(e: Entry<V>) returns (r: Option<Entry<V>>)
      requires Valid()
      modifies this, Cells(shape)
      ensures Valid() && fresh(Cells(shape) - old(Cells(shape)))
      ensures Elements() == Put(old(Elements()), e)
      ensures Contents() == old(Contents())[e.key := e.payload]
      ensures nodes == old(nodes) + if e.key in old(Contents()) then 0 else 1
      ensures r == if e.key in old(Contents()) then None else Some(e)
    {
      hide Distinct, Linked, View, Cells;
      var count := nodes;
      ghost var t := View(shape);
      InsertKeepsValid(t, e);
      InsertShape(t, e);
      var n, v, s := InsertAt(root, e, shape);
      LinkTests(n, s);
      root, shape := n, s;
      assert allocated(Cells(s));
      PaintCell(root, false, shape);
      assert View(shape) == InsertRoot(t, e);
      r := if nodes == count then None else Some(v.value);
    }

    /** Unlinks a node with at most one child. */
    method DetachAt(n: Cell<V>, ghost s: Shape<V>) returns (n': Cell?<V>, ghost s': Shape<V>, done: bool)
      requires Holds(n, s) && View(s).Node? && (n.left == null || n.right == null)
      modifies Cells(s)
      ensures Holds(n', s') && Cells(s') <= Cells(s)
      ensures (View(s'), done) == Detach(old(View(s)))
      ensures Size(View(s')) == Size(old(View(s))) - 1
    {
      hide Distinct, Linked, View, Cells;
      Unfold(n, s, true);
      LinkTests(n.left, s.l);
      LinkTests(n.right, s.r);
      n', s' := if n.left == null then n.right else n.left, if n.left == null then s.r else s.l;
      LinkTests(n', s');
      if n.red {
        done := true;
      } else if IsRed(n') {
        PaintCell(n', false, s');
        done := true;
      } else {
        done := false;
      }
    }

    /** Removes `key` below `n`, which is the found node with its heir's element or a node on the way. */
    method RemoveBelow(n: Cell<V>, key: int, ghost s: Shape<V>) returns (n': Cell<V>, ghost s': Shape<V>, done: bool)
      requires Holds(n, s) && View(s).Node? && RedBlack(View(s)) && Size(View(s)) <= nodes
      modifies this`nodes, Cells(s)
      ensures Holds(n', s') && Cells(s') <= Cells(s)
      ensures (View(s'), done) == Descend(old(View(s)), old(n.value.key) < key, key)
      ensures nodes - Size(View(s')) == old(nodes - Size(View(s)))
      decreases s, 0
    {
      hide Distinct, Linked, View, Cells;
      var dir := n.value.key < key;
      Unfold(n, s, dir);
      RemoveStepOrder(View(s), dir, key);
      ghost var other := Child(s, !dir);
      assert allocated(Cells(other));
      var child, sub, d := RemoveAt(n.LinkOf(dir), key, Child(s, dir));
      Hang(n, n.red, dir, child, sub, other);
      n', s', done := n, Join(n, dir, sub, other), d;
      if !done {
        BalanceOrder(View(s'), dir);
        n', s', done := BalanceAt(n, dir, s');
      }
    }

    method RemoveAt(n: Cell?<V>, key: int, ghost s: Shape<V>) returns (n': Cell?<V>, ghost s': Shape<V>, done: bool)
      requires Holds(n, s) && RedBlack(View(s)) && Size(View(s)) <= nodes
      modifies this`nodes, Cells(s)
      ensures Holds(n', s') && Cells(s') <= Cells(s)
      ensures (View(s'), done) == T.Remove(old(View(s)), key)
      ensures nodes - Size(View(s')) == old(nodes - Size(View(s)))
      decreases s, 1
    {
      hide Distinct, Linked, View, Cells;
      LinkTests(n, s);
      if n == null { return null, s, true; }
      Unfold(n, s, true);
      LinkTests(n.left, s.l);
      LinkTests(n.right, s.r);
      var target := key;
      if n.value.key == key {
        if n.left == null || n.right == null {
          n', s', done := DetachAt(n, s);
          nodes := nodes - 1;
          return;
        }
        assert allocated(Cells(s.l)) && allocated(Cells(s));
        var heir := Rightmost(n.left, s.l);
        target := heir.value.key;
        StoreValue(n, heir.value, s);
      }
      n', s', done := RemoveBelow(n, target, s);
    }

    method Remove(key: int) returns (removed: bool)
      requires Valid()
      modifies this, Cells(shape)
      ensures Valid() && Cells(shape) <= old(Cells(shape))
      ensures Elements() == Drop(old(Elements()), key)
      ensures Contents() == old(Contents()) - {key}
      ensures nodes == old(nodes) - if key in old(Contents()) then 1 else 0
      ensures removed <==> key in old(Contents())
    {
      hide Distinct, Linked, View, Cells;
      var count := nodes;
      ghost var t := View(shape);
      RemoveKeepsValid(t, key);
      var n, s, _ := RemoveAt(root, key, shape);
      root, shape := n, s;
      LinkTests(n, s);
      assert allocated(Cells(s));
      if root != null { PaintCell(root, false, shape); }
      assert View(shape) == RemoveRoot(t, key);
      removed := nodes < count;
    }
  }

  /** nall::map: a set of key-value nodes that are compared by key alone. */
  class Map<V> {
    const root: Set<V>

    ghost predicate Valid()
      reads this, root, Cells(root.shape)
    {
      root.Valid()
    }

    ghost function Contents(): map<int, V>
      reads this, root, Cells(root.shape)
    {
      root.Contents()
    }

    constructor ()
      ensures Valid() && Contents() == map[] && fresh(root) && fresh(Cells(root.shape))
    {
      root := new Set();
    }

    method Find(key: int) returns (r: Option<V>)
      requires Valid()
      ensures Valid() && Contents() == old(Contents())
      ensures r == if key in old(Contents()) then Some(old(Contents())[key]) else None
    {
      var node := root.Find(key);
      r := if node.Some? then Some(node.value.payload) else None;
    }

    method Insert(key: int, value: V)
      requires Valid()
      modifies root, Cells(root.shape)
      ensures Valid() && fresh(Cells(root.shape) - old(Cells(root.shape)))
      ensures Contents() == old(Contents())[key := value]
    {
      var _ := root.Insert(Entry(key, value));
    }

    method Remove(key: int)
      requires Valid()
      modifies root, Cells(root.shape)
      ensures Valid() && Cells(root.shape) <= old(Cells(root.shape))
      ensures Contents() == old(Contents()) - {key}
    {
      var _ := root.Remove(key);
    }
  }
}
