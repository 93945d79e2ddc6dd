/** The in-order iterator of nall::set: a stack of ancestors, advanced without recursion. */
module RedBlackIterator {
  import opened RedBlackTree
  import opened RedBlackSet

  /** The cells of a subtree from left to right. */
  ghost function Line<V>(s: Shape<V>): seq<Cell<V>> {
    match s
    case Nil => []
    case Bin(c, l, r) => Line(l) + [c] + Line(r)
  }

  ghost function Last<X>(s: seq<X>): X
    requires s != []
  {
    s[|s| - 1]
  }

  ghost function Init<X>(s: seq<X>): seq<X>
    requires s != []
  {
    s[..|s| - 1]
  }

  /** Each element of a path is a child of the one before. */
  ghost predicate Path<V>(trail: seq<Shape<V>>) {
    trail != [] ==>
      && Last(trail).Bin? && Distinct(Last(trail))
      && Path(Init(trail))
      && (|trail| > 1 ==> Last(trail) == Last(Init(trail)).l || Last(trail) == Last(Init(trail)).r)
  }

  /** The cells that come after everything below the end of the path. */
  ghost function After<V>(trail: seq<Shape<V>>): seq<Cell<V>>
    requires Path(trail)
  {
    if |trail| <= 1 then []
    else
      assert Path(Init(trail));
      var p := Last(Init(trail));
      if Last(trail) == p.l then [p.cell] + Line(p.r) + After(Init(trail)) else After(Init(trail))
  }

  /** The cells still to visit, the one at the end of the path first. */
  ghost function Pending<V>(trail: seq<Shape<V>>): seq<Cell<V>>
    requires Path(trail) && trail != []
  {
    [Last(trail).cell] + Line(Last(trail).r) + After(trail)
  }

  ghost function Values<V>(cells: seq<Cell<V>>): seq<Entry<V>>
    reads cells
  {
    if cells == [] then [] else [cells[0].value] + Values(cells[1..])
  }

  lemma {:induction false} ValuesJoin<V>(a: seq<Cell<V>>, b: seq<Cell<V>>)
    ensures Values(a + b) == Values(a) + Values(b)
  {
    if a == [] {
      assert a + b == b;
    } else {
      assert (a + b)[0] == a[0] && (a + b)[1..] == a[1..] + b;
      ValuesJoin(a[1..], b);
    }
  }

  lemma {:induction false} LineHoldsOrder<V>(s: Shape<V>)
    ensures Values(Line(s)) == InOrder(View(s))
    ensures |Line(s)| == Size(View(s))
  {
    if s.Bin? {
      LineHoldsOrder(s.l);
      LineHoldsOrder(s.r);
      ValuesJoin(Line(s.l) + [s.cell], Line(s.r));
      ValuesJoin(Line(s.l), [s.cell]);
      assert Values([s.cell]) == [s.cell.value];
    }
  }

  /** Walking down a left link keeps what lies at and after the end of the path. */
  lemma StepLeft<V>(trail: seq<Shape<V>>)
    requires Path(trail) && trail != [] && Last(trail).l.Bin?
    ensures Path(trail + [Last(trail).l])
    ensures Line(Last(trail).l) + After(trail + [Last(trail).l]) == Line(Last(trail)) + After(trail)
  {
    var t := Last(trail);
    assert Init(trail + [t.l]) == trail;
    JoinAround(Line(t.l), t.cell, Line(t.r), After(trail));
  }

  lemma JoinAround<X>(a: seq<X>, x: X, b: seq<X>, c: seq<X>)
    ensures a + ([x] + b + c) == a + [x] + b + c
  {
  }

  lemma StepRight<V>(trail: seq<Shape<V>>)
    requires Path(trail) && trail != [] && Last(trail).r.Bin?
    ensures Path(trail + [Last(trail).r])
    ensures [Last(trail).cell] + (Line(Last(trail).r) + After(trail + [Last(trail).r])) == Pending(trail)
  {
    assert Init(trail + [Last(trail).r]) == trail;
    DistinctChildren(Last(trail));
  }

  lemma DistinctChildren<V>(t: Shape<V>)
    requires t.Bin? && Distinct(t)
    ensures t.l.Bin? || t.r.Bin? ==> t.l != t.r
    ensures t.l.Bin? && t.r.Bin? ==> t.l.cell != t.r.cell
  {
    assert t.l.Bin? ==> t.l.cell in Cells(t.l);
    assert t.r.Bin? ==> t.r.cell in Cells(t.r);
  }

  /** The stack holds the cells along the path. */
  ghost predicate Along<V>(stack: seq<Cell<V>>, trail: seq<Shape<V>>, root: Shape<V>)
    reads Cells(root)
  {
    && |stack| == |trail|
    && Path(trail)
    && (trail != [] ==>
        && Cells(Last(trail)) <= Cells(root)
        && Linked(Last(stack), Last(trail))
        && Along(Init(stack), Init(trail), root))
  }

  /** The node on top of the stack, its links and what is left below it. */
  lemma Top<V>(stack: seq<Cell<V>>, trail: seq<Shape<V>>, root: Shape<V>)
    requires Along(stack, trail, root) && trail != []
    ensures Last(stack) == Last(trail).cell && Last(stack) in Cells(root)
    ensures Last(stack).left == if Last(trail).l.Bin? then Last(trail).l.cell else null
    ensures Last(stack).right == if Last(trail).r.Bin? then Last(trail).r.cell else null
  {
    assert Linked(Last(stack).left, Last(trail).l) && Linked(Last(stack).right, Last(trail).r);
  }

  lemma Push<V>(stack: seq<Cell<V>>, trail: seq<Shape<V>>, root: Shape<V>, dir: bool)
    requires Along(stack, trail, root) && trail != [] && Child(Last(trail), dir).Bin?
    ensures Along(stack + [Child(Last(trail), dir).cell], trail + [Child(Last(trail), dir)], root)
  {
    var c := Child(Last(trail), dir);
    assert Init(stack + [c.cell]) == stack && Init(trail + [c]) == trail;
    assert Cells(c) <= Cells(Last(trail));
    assert Linked(Last(stack).LinkOf(dir), c);
  }

  /** Pushes the chain of left links below the top of the stack. */
  method PushLeft<V>(stack: seq<Cell<V>>, ghost trail: seq<Shape<V>>, ghost root: Shape<V>)
    returns (stack': seq<Cell<V>>, ghost trail': seq<Shape<V>>)
    requires Along(stack, trail, root) && trail != []
    ensures trail' != [] && Along(stack', trail', root)
    ensures Pending(trail') == Line(Last(trail)) + After(trail)
  {
    hide Linked, Distinct, Cells;
    stack', trail' := stack, trail;
    Top(stack', trail', root);
    while stack'[|stack'| - 1].left != null
      invariant trail' != [] && Along(stack', trail', root)
      invariant Line(Last(trail')) + After(trail') == Line(Last(trail)) + After(trail)
      decreases Last(trail')
    {
      Top(stack', trail', root);
      StepLeft(trail');
      Push(stack', trail', root, false);
      stack', trail' := stack' + [stack'[|stack'| - 1].left], trail' + [Last(trail').l];
    }
    Top(stack', trail', root);
    assert Line(Last(trail')) == [Last(trail').cell] + Line(Last(trail').r);
  }

  /** Leaves finished subtrees until a node is reached from its left side. */
  method PopRight<V>(stack: seq<Cell<V>>, ghost trail: seq<Shape<V>>, ghost root: Shape<V>)
    returns (stack': seq<Cell<V>>, ghost trail': seq<Shape<V>>)
    requires Along(stack, trail, root) && trail != [] && After(trail) != []
    ensures trail' != [] && Along(stack', trail', root)
    ensures Pending(trail') == After(trail)
  {
    hide Linked, Distinct, Cells;
    stack', trail' := stack, trail;
    var done := false;
    while !done
      invariant trail' != [] && Along(stack', trail', root)
      invariant if done then Pending(trail') == After(trail) else After(trail') == After(trail)
      decreases |trail'|, !done
    {
      Top(stack', trail', root);
      var child := stack'[|stack'| - 1];
      stack', trail' := stack'[..|stack'| - 1], Init(trail');
      Top(stack', trail', root);
      DistinctChildren(Last(trail'));
      done := child != stack'[|stack'| - 1].right;
    }
  }

  /** The stack's way to the next node: down the right subtree, or up out of finished ones. */
  method Successor<V>(stack: seq<Cell<V>>, ghost trail: seq<Shape<V>>, ghost root: Shape<V>)
    returns (stack': seq<Cell<V>>, ghost trail': seq<Shape<V>>)
    requires Along(stack, trail, root) && trail != [] && Line(Last(trail).r) + After(trail) != []
    ensures trail' != [] && Along(stack', trail', root)
    ensures Pending(trail') == Line(Last(trail).r) + After(trail)
  {
    hide Linked, Distinct, Cells;
    Top(stack, trail, root);
    if stack[|stack| - 1].right != null {
      StepRight(trail);
      Push(stack, trail, root, true);
      stack', trail' := PushLeft(stack + [stack[|stack| - 1].right], trail + [Last(trail).r], root);
    } else {
      stack', trail' := PopRight(stack, trail, root);
    }
  }

  /** What is pending once the element at the top of the stack has been visited. */
  lemma NextPending<V>(stack: seq<Cell<V>>, trail: seq<Shape<V>>, root: Shape<V>, next: nat)
    requires Along(stack, trail, root) && trail != []
    requires 0 < next < |Line(root)| && Pending(trail) == Line(root)[next - 1..]
    ensures Line(root)[next..] == Line(Last(trail).r) + After(trail)
  {
    hide Linked, Distinct, Cells, View, InOrder, Line;
    assert Line(root)[next..] == Line(root)[next - 1..][1..];
  }

  class Cursor<V> {
    const source: Set<V>
    var position: nat
    var stack: seq<Cell<V>>
    ghost var trail: seq<Shape<V>>

    /** While elements are left, the stack leads to the next one, and they are what is pending. */
    ghost predicate Valid()
      reads this, source, Cells(source.shape)
    {
      && source.Valid()
      && |source.Elements()| == source.nodes
      && position <= source.nodes == |Line(source.shape)|
      && (position < source.nodes ==>
          && trail != []
          && Along(stack, trail, source.shape)
          && Pending(trail) == Line(source.shape)[position..])
    }

    /** `begin()`. */
    constructor (source: Set<V>)
      requires source.Valid()
      ensures Valid() && this.source == source && position == 0
      ensures source.Elements() == old(source.Elements())
    {
      ghost var root := source.shape;
      SizeIsLength(View(root));
      LineHoldsOrder(root);
      LinkTests(source.root, root);
      assert Line(root)[0..] == Line(root);
      assert allocated(Cells(root));
      this.source, position := source, 0;
      if source.root != null {
        assert Along([], [], root) && Init([root]) == [] && Init([source.root]) == [];
        var st, tr := PushLeft([source.root], [root], root);
        stack, trail := st, tr;
      } else {
        stack, trail := [], [];
      }
    }

    /** `operator*`. */
    method Current() returns (e: Entry<V>)
      requires Valid() && position < source.nodes
      ensures Valid() && source.Elements() == old(source.Elements())
      ensures e == source.Elements()[position]
    {
      LineHoldsOrder(source.shape);
      Top(stack, trail, source.shape);
      ValueAt(Line(source.shape), position);
      e := stack[|stack| - 1].value;
    }

    /** `operator++`, which stays at `end()`. */
    method Advance()
      requires Valid()
      modifies this
      ensures Valid() && position == if old(position) < source.nodes then old(position) + 1 else source.nodes
      ensures source.Elements() == old(source.Elements())
    {
      hide Linked, Distinct, Cells, View, InOrder;
      ghost var root := source.shape;
      assert allocated(Cells(root));
      position := position + 1;
      if position >= source.nodes { position := source.nodes; return; }
      NextPending(stack, trail, root, position);
      var st, tr := Successor(stack, trail, root);
      stack, trail := st, tr;
    }
  }

  lemma {:induction false} ValueAt<V>(cells: seq<Cell<V>>, i: nat)
    requires i < |cells|
    ensures |Values(cells)| == |cells| && Values(cells)[i] == cells[i].value
  {
    if |cells| == 1 {
      assert Values(cells[1..]) == [];
    } else {
      ValueAt(cells[1..], if i == 0 then 0 else i - 1);
    }
  }

  /** A loop from `begin()` to `end()` visits every element exactly once, in strictly increasing order. */
  method Visit<V>(source: Set<V>) returns (visited: seq<Entry<V>>)
    requires source.Valid()
    ensures source.Valid() && visited == old(source.Elements())
    ensures Sorted(visited)
  {
    hide Linked, Distinct, Cells, View, InOrder, Line, Along, Path, Pending;
    var it := new Cursor(source);
    ghost var elements := source.Elements();
    visited := [];
    while it.position != source.nodes
      invariant it.Valid() && it.source == source && fresh(it)
      invariant source.Elements() == elements && visited == elements[..it.position]
      decreases source.nodes - it.position
    {
      var e := it.Current();
      visited := visited + [e];
      it.Advance();
    }
  }
}
