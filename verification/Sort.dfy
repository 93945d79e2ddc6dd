/** The hybrid sort: insertion below 64 elements, merging above, and the stable order both compute. */
module Sort {

  const SMALL: nat := 64

  /** A comparator that is a strict weak order. */
  ghost predicate StrictWeak<T(!new)>(lt: (T, T) -> bool) {
    && (forall x, y {:trigger lt(x, y)} :: lt(x, y) ==> !lt(y, x))
    && (forall x, y, z {:trigger lt(x, y), lt(y, z)} :: !lt(x, y) && !lt(y, z) ==> !lt(x, z))
  }

  // ---------------------------------------------------------------- the stable order

  /** `x` put behind every element that is not greater, as far as these reach from the front. */
  function Put<T>(s: seq<T>, x: T, lt: (T, T) -> bool): (r: seq<T>)
    ensures |r| == |s| + 1
  {
    if s == [] then [x]
    else if lt(x, s[0]) then [x] + s
    else [s[0]] + Put(s[1..], x, lt)
  }

  /** The elements put in one by one, in the order given. */
  function Sorted<T>(s: seq<T>, lt: (T, T) -> bool): (r: seq<T>)
    ensures |r| == |s|
  {
    if s == [] then [] else Put(Sorted(s[..|s| - 1], lt), s[|s| - 1], lt)
  }

  ghost predicate Ascending<T>(s: seq<T>, lt: (T, T) -> bool) {
    forall i, j :: 0 <= i < j < |s| ==> !lt(s[j], s[i])
  }

  lemma {:induction false} PutElements<T>(s: seq<T>, x: T, lt: (T, T) -> bool)
    ensures multiset(Put(s, x, lt)) == multiset(s) + multiset{x}
  {
    if s != [] {
      assert s == [s[0]] + s[1..];
      if !lt(x, s[0]) { PutElements(s[1..], x, lt); }
    }
  }

  /** Sorting keeps every element as often as it was there. */
  lemma {:induction false} SortedElements<T>(s: seq<T>, lt: (T, T) -> bool)
    ensures multiset(Sorted(s, lt)) == multiset(s)
  {
    if s != [] {
      assert s == s[..|s| - 1] + [s[|s| - 1]];
      SortedElements(s[..|s| - 1], lt);
      PutElements(Sorted(s[..|s| - 1], lt), s[|s| - 1], lt);
    }
  }

  lemma AscendingTail<T>(s: seq<T>, lt: (T, T) -> bool)
    requires s != []
    ensures Ascending(s, lt) <==> Ascending(s[1..], lt) && forall k :: 0 <= k < |s[1..]| ==> !lt(s[1..][k], s[0])
  {
    assert forall k :: 0 < k < |s| ==> s[k] == s[1..][k - 1];
  }

  lemma {:induction false} PutAscending<T(!new)>(s: seq<T>, x: T, lt: (T, T) -> bool)
    requires StrictWeak(lt) && Ascending(s, lt)
    ensures Ascending(Put(s, x, lt), lt)
  {
    if s != [] {
      AscendingTail(s, lt);
      var r := Put(s, x, lt);
      if lt(x, s[0]) {
        assert r[1..] == s;
        AscendingTail(r, lt);
        forall k | 0 <= k < |s| ensures !lt(s[k], x) {
          assert !lt(s[0], x);
          assert k == 0 || !lt(s[k], s[0]);
        }
      } else {
        PutAscending(s[1..], x, lt);
        assert r[1..] == Put(s[1..], x, lt);
        AscendingTail(r, lt);
        PutElements(s[1..], x, lt);
        forall k | 0 <= k < |r[1..]| ensures !lt(r[1..][k], s[0]) {
          assert r[1..][k] in multiset(r[1..]);
        }
      }
    }
  }

  /** Sorting puts no element before a greater one's place. */
  lemma {:induction false} SortedAscending<T(!new)>(s: seq<T>, lt: (T, T) -> bool)
    requires StrictWeak(lt)
    ensures Ascending(Sorted(s, lt), lt)
  {
    if s != [] {
      SortedAscending(s[..|s| - 1], lt);
      PutAscending(Sorted(s[..|s| - 1], lt), s[|s| - 1], lt);
    }
  }

  /** The elements of `s` that are equivalent to `x`, in order. */
  function Alike<T>(s: seq<T>, x: T, lt: (T, T) -> bool): seq<T> {
    if s == [] then []
    else (if !lt(s[0], x) && !lt(x, s[0]) then [s[0]] else []) + Alike(s[1..], x, lt)
  }

  lemma {:induction false} AlikeAppend<T>(a: seq<T>, b: seq<T>, x: T, lt: (T, T) -> bool)
    ensures Alike(a + b, x, lt) == Alike(a, x, lt) + Alike(b, x, lt)
  {
    if a == [] {
      assert a + b == b;
    } else {
      assert (a + b)[1..] == a[1..] + b;
      AlikeAppend(a[1..], b, x, lt);
    }
  }

  lemma LessFrom<T(!new)>(y: T, x: T, z: T, lt: (T, T) -> bool)
    requires StrictWeak(lt) && lt(y, z) && !lt(y, x)
    ensures lt(x, z)
  {
  }

  lemma LessTo<T(!new)>(y: T, z: T, w: T, lt: (T, T) -> bool)
    requires StrictWeak(lt) && lt(y, z) && !lt(w, z)
    ensures lt(y, w)
  {
  }

  /** In an ascending list, an element behind a greater one is not alike. */
  lemma {:induction false} NoneAlike<T(!new)>(s: seq<T>, y: T, x: T, lt: (T, T) -> bool)
    requires StrictWeak(lt) && Ascending(s, lt) && s != [] && lt(y, s[0]) && !lt(y, x) && !lt(x, y)
    ensures Alike(s, x, lt) == []
  {
    LessFrom(y, x, s[0], lt);
    if |s| > 1 {
      AscendingTail(s, lt);
      assert s[1] == s[1..][0];
      LessTo(y, s[0], s[1], lt);
      NoneAlike(s[1..], y, x, lt);
    }
  }

  lemma {:induction false} PutStable<T(!new)>(s: seq<T>, y: T, x: T, lt: (T, T) -> bool)
    requires StrictWeak(lt) && Ascending(s, lt)
    ensures Alike(Put(s, y, lt), x, lt) == Alike(s, x, lt) + Alike([y], x, lt)
  {
    hide Put, Alike, Ascending;
    PutHead(s, y, lt);
    AlikeOne(y, x, lt);
    if s == [] {
      AlikeEmpty(x, lt);
    } else {
      AscendingTail(s, lt);
      assert s == [s[0]] + s[1..];
      AlikeAppend([s[0]], s[1..], x, lt);
      if lt(y, s[0]) {
        AlikeAppend([y], s, x, lt);
        if !lt(y, x) && !lt(x, y) { NoneAlike(s, y, x, lt); }
      } else {
        PutStable(s[1..], y, x, lt);
        AlikeAppend([s[0]], Put(s[1..], y, lt), x, lt);
      }
    }
  }

  lemma AlikeEmpty<T>(x: T, lt: (T, T) -> bool)
    ensures Alike([], x, lt) == []
  {
  }

  lemma AlikeOne<T>(y: T, x: T, lt: (T, T) -> bool)
    ensures Alike([y], x, lt) == if !lt(y, x) && !lt(x, y) then [y] else []
  {
    assert [y][1..] == [];
  }

  /** Equivalent elements keep their order. */
  lemma {:induction false} SortedStable<T(!new)>(s: seq<T>, x: T, lt: (T, T) -> bool)
    requires StrictWeak(lt)
    ensures Alike(Sorted(s, lt), x, lt) == Alike(s, x, lt)
  {
    if s != [] {
      var before, last := s[..|s| - 1], s[|s| - 1];
      SortedStable(before, x, lt);
      SortedAscending(before, lt);
      PutStable(Sorted(before, lt), last, x, lt);
      AlikeAppend(before, [last], x, lt);
      assert s == before + [last];
    }
  }

  // ---------------------------------------------------------------- merging

  function Merge<T>(l: seq<T>, r: seq<T>, lt: (T, T) -> bool): (m: seq<T>)
    ensures |m| == |l| + |r|
    decreases |l| + |r|
  {
    if l == [] then r
    else if r == [] then l
    else if !lt(r[0], l[0]) then [l[0]] + Merge(l[1..], r, lt)
    else [r[0]] + Merge(l, r[1..], lt)
  }

  lemma PutHead<T>(s: seq<T>, x: T, lt: (T, T) -> bool)
    ensures s == [] ==> Put(s, x, lt) == [x]
    ensures s != [] && lt(x, s[0]) ==> Put(s, x, lt) == [x] + s
    ensures s != [] && !lt(x, s[0]) ==> Put(s, x, lt) == [s[0]] + Put(s[1..], x, lt)
  {
  }

  lemma MergeHead<T>(l: seq<T>, y: T, r: seq<T>, lt: (T, T) -> bool)
    requires l != []
    ensures !lt(y, l[0]) ==> Merge(l, [y] + r, lt) == [l[0]] + Merge(l[1..], [y] + r, lt)
    ensures lt(y, l[0]) ==> Merge(l, [y] + r, lt) == [y] + Merge(l, r, lt)
  {
    assert ([y] + r)[1..] == r;
  }

  /** Putting an element into the right half before merging is putting it in afterwards. */
  lemma {:induction false} MergePut<T(!new)>(l: seq<T>, r: seq<T>, x: T, lt: (T, T) -> bool)
    requires StrictWeak(lt)
    ensures Merge(l, Put(r, x, lt), lt) == Put(Merge(l, r, lt), x, lt)
    decreases |l| + |r|
  {
    hide Put, Merge;
    PutHead(r, x, lt);
    if l == [] {
      MergeEmpty(r, lt);
      MergeEmpty(Put(r, x, lt), lt);
    } else if r == [] {
      MergeEmpty(l, lt);
      PutHead(l, x, lt);
      MergeHead(l, x, [], lt);
      assert [x] + [] == [x];
      if !lt(x, l[0]) {
        MergeEmpty(l[1..], lt);
        MergePut(l[1..], r, x, lt);
      }
    } else if !lt(r[0], l[0]) {
      MergePutLeft(l, r, x, lt);
    } else {
      MergePutRight(l, r, x, lt);
    }
  }

  lemma MergeEmpty<T>(s: seq<T>, lt: (T, T) -> bool)
    ensures Merge([], s, lt) == s && Merge(s, [], lt) == s
  {
  }

  lemma {:induction false} MergePutLeft<T(!new)>(l: seq<T>, r: seq<T>, x: T, lt: (T, T) -> bool)
    requires StrictWeak(lt) && l != [] && r != [] && !lt(r[0], l[0])
    ensures Merge(l, Put(r, x, lt), lt) == Put(Merge(l, r, lt), x, lt)
    decreases |l| + |r|, 0
  {
    hide Put, Merge;
    PutHead(r, x, lt);
    assert r == [r[0]] + r[1..];
    MergeHead(l, r[0], r[1..], lt);
    var m := Merge(l, r, lt);
    assert m[0] == l[0] && m[1..] == Merge(l[1..], r, lt);
    PutHead(m, x, lt);
    if lt(x, l[0]) {
      MergeHead(l, x, r, lt);
    } else {
      MergePut(l[1..], r, x, lt);
      if lt(x, r[0]) {
        MergeHead(l, x, r, lt);
      } else {
        MergeHead(l, r[0], Put(r[1..], x, lt), lt);
      }
    }
  }

  lemma {:induction false} MergePutRight<T(!new)>(l: seq<T>, r: seq<T>, x: T, lt: (T, T) -> bool)
    requires StrictWeak(lt) && l != [] && r != [] && lt(r[0], l[0])
    ensures Merge(l, Put(r, x, lt), lt) == Put(Merge(l, r, lt), x, lt)
    decreases |l| + |r|, 0
  {
    hide Put, Merge;
    PutHead(r, x, lt);
    assert r == [r[0]] + r[1..];
    MergeHead(l, r[0], r[1..], lt);
    var m := Merge(l, r, lt);
    assert m[0] == r[0] && m[1..] == Merge(l, r[1..], lt);
    PutHead(m, x, lt);
    if lt(x, r[0]) {
      Transitive(x, r[0], l[0], lt);
      MergeHead(l, x, r, lt);
    } else {
      MergePut(l, r[1..], x, lt);
      MergeHead(l, r[0], Put(r[1..], x, lt), lt);
    }
  }

  lemma Transitive<T(!new)>(x: T, y: T, z: T, lt: (T, T) -> bool)
    requires StrictWeak(lt) && lt(x, y) && lt(y, z)
    ensures lt(x, z)
  {
    assert !lt(z, y);
  }

  /** Merging two sorted halves is sorting the whole, stably. */
  lemma {:induction false} MergeSorted<T(!new)>(l: seq<T>, r: seq<T>, lt: (T, T) -> bool)
    requires StrictWeak(lt)
    ensures Merge(Sorted(l, lt), Sorted(r, lt), lt) == Sorted(l + r, lt)
    decreases |r|
  {
    hide Put, Merge;
    if r == [] {
      assert l + r == l;
      MergeEmpty(Sorted(l, lt), lt);
    } else {
      var before, last := r[..|r| - 1], r[|r| - 1];
      assert (l + r)[..|l + r| - 1] == l + before;
      MergeSorted(l, before, lt);
      MergePut(Sorted(l, lt), Sorted(before, lt), last, lt);
    }
  }

  /** `x` behind the first `p` elements of `s`. */
  function Placed<T>(s: seq<T>, x: T, p: nat): (r: seq<T>)
    requires p <= |s|
  {
    s[..p] + [x] + s[p..]
  }

  lemma PlacedTail<T>(s: seq<T>, x: T, p: nat)
    requires 0 < p <= |s|
    ensures Placed(s, x, p) == [s[0]] + Placed(s[1..], x, p - 1)
  {
    assert s[..p] == [s[0]] + s[1..][..p - 1];
    assert s[p..] == s[1..][p - 1..];
  }

  /** Where insertion from the right ends up. */
  lemma {:induction false} PutAt<T>(s: seq<T>, x: T, p: nat, lt: (T, T) -> bool)
    requires p <= |s| && (forall k :: 0 <= k < p ==> !lt(x, s[k])) && (p < |s| ==> lt(x, s[p]))
    ensures Put(s, x, lt) == Placed(s, x, p)
    decreases p
  {
    hide Put;
    PutHead(s, x, lt);
    if p > 0 {
      hide Placed;
      var rest := s[1..];
      assert forall k :: 0 <= k < |rest| ==> rest[k] == s[k + 1];
      PutAt(rest, x, p - 1, lt);
      PlacedTail(s, x, p);
    }
  }

  /** In an ascending list, what does not come after one element does not come after those before it. */
  lemma FrontKept<T(!new)>(s: seq<T>, x: T, p: nat, lt: (T, T) -> bool)
    requires StrictWeak(lt) && Ascending(s, lt) && p <= |s| && (p > 0 ==> !lt(x, s[p - 1]))
    ensures forall k :: 0 <= k < p ==> !lt(x, s[k])
  {
    forall k | 0 <= k < p ensures !lt(x, s[k]) {
      if k < p - 1 { assert !lt(s[p - 1], s[k]); }
    }
  }

  // ---------------------------------------------------------------- the array

  /** Moving up what comes after `copy`, from the right: `copy` belongs at `p`. */
  method MoveUp<T(!new)>(a: array<T>, lo: nat, i: nat, copy: T, lt: (T, T) -> bool) returns (p: nat)
    requires lo + i < a.Length
    modifies a
    ensures p <= i
    ensures forall k :: 0 <= k < a.Length && (k < lo + p || k > lo + i) ==> a[k] == old(a[k])
    ensures forall k :: lo + p <= k < lo + i ==> a[k + 1] == old(a[k])
    ensures p > 0 ==> !lt(copy, old(a[lo + p - 1]))
    ensures p < i ==> lt(copy, old(a[lo + p]))
  {
    p := i;
    while p > 0 && lt(copy, a[lo + p - 1])
      invariant p <= i
      invariant forall k :: 0 <= k < a.Length && (k < lo + p || k > lo + i) ==> a[k] == old(a[k])
      invariant forall k :: lo + p <= k < lo + i ==> a[k + 1] == old(a[k])
      invariant p < i ==> lt(copy, old(a[lo + p]))
    {
      a[lo + p] := a[lo + p - 1];
      p := p - 1;
    }
  }

  /** Moving the element behind an ascending stretch into its place, from the right. */
  method InsertLast<T(!new)>(a: array<T>, lo: nat, i: nat, lt: (T, T) -> bool)
    requires StrictWeak(lt) && lo + i < a.Length && Ascending(a[lo..lo + i], lt)
    modifies a
    ensures a[lo..lo + i + 1] == Put(old(a[lo..lo + i]), old(a[lo + i]), lt)
    ensures forall k :: 0 <= k < a.Length && (k < lo || k > lo + i) ==> a[k] == old(a[k])
  {
    hide Put, Placed, Ascending, StrictWeak;
    ghost var sorted := a[lo..lo + i];
    var copy := a[lo + i];
    var p := MoveUp(a, lo, i, copy, lt);
    FrontKept(sorted, copy, p, lt);
    PutAt(sorted, copy, p, lt);
    a[lo + p] := copy;
    ghost var all := a[lo..lo + i + 1];
    forall k | p <= k < i ensures all[k + 1] == sorted[k] {
      assert a[lo + k + 1] == old(a[lo + k]);
    }
    PlacedIs(sorted, copy, p, all);
  }

  /** `sort` below 64 elements. */
  method InsertionSort<T(!new)>(a: array<T>, lo: nat, size: nat, lt: (T, T) -> bool)
    requires StrictWeak(lt) && lo + size <= a.Length
    modifies a
    ensures a[lo..lo + size] == Sorted(old(a[lo..lo + size]), lt)
    ensures forall k :: 0 <= k < a.Length && (k < lo || k >= lo + size) ==> a[k] == old(a[k])
  {
    hide Put, Sorted, Ascending, StrictWeak;
    ghost var was := a[lo..lo + size];
    if size <= 1 {
      SortedShort(was, lt);
      return;
    }
    var i := 1;
    SortedShort(was[..1], lt);
    assert a[lo..lo + 1] == was[..1];
    while i < size
      invariant 1 <= i <= size
      invariant a[lo..lo + i] == Sorted(was[..i], lt)
      invariant forall k :: 0 <= k < a.Length && (k < lo || k >= lo + i) ==> a[k] == old(a[k])
    {
      SortedAscending(was[..i], lt);
      SortedLast(was, i, lt);
      InsertLast(a, lo, i, lt);
      i := i + 1;
    }
    assert was[..size] == was;
  }

  lemma SortedShort<T>(s: seq<T>, lt: (T, T) -> bool)
    requires |s| <= 1
    ensures Sorted(s, lt) == s
  {
  }

  lemma SortedLast<T>(s: seq<T>, i: nat, lt: (T, T) -> bool)
    requires i < |s|
    ensures Sorted(s[..i + 1], lt) == Put(Sorted(s[..i], lt), s[i], lt)
  {
    assert s[..i + 1][..i] == s[..i];
  }

  lemma PlacedIs<T>(s: seq<T>, x: T, p: nat, r: seq<T>)
    requires p <= |s| && |r| == |s| + 1 && r[p] == x
    requires (forall k :: 0 <= k < p ==> r[k] == s[k]) && (forall k :: p <= k < |s| ==> r[k + 1] == s[k])
    ensures r == Placed(s, x, p)
  {
    var q := Placed(s, x, p);
    forall k | 0 <= k < |r| ensures r[k] == q[k] {
      if k > p { assert r[(k - 1) + 1] == s[k - 1]; }
    }
  }

  lemma MergeStep<T>(l: seq<T>, r: seq<T>, i: nat, j: nat, lt: (T, T) -> bool)
    requires i <= |l| && j <= |r|
    ensures i == |l| && j == |r| ==> Merge(l[i..], r[j..], lt) == []
    ensures i < |l| && (j == |r| || !lt(r[j], l[i])) ==>
      Merge(l[i..], r[j..], lt) == [l[i]] + Merge(l[i + 1..], r[j..], lt)
    ensures j < |r| && (i == |l| || lt(r[j], l[i])) ==>
      Merge(l[i..], r[j..], lt) == [r[j]] + Merge(l[i..], r[j + 1..], lt)
  {
    if i < |l| { assert l[i..][1..] == l[i + 1..] && l[i..] == [l[i]] + l[i + 1..]; }
    if j < |r| { assert r[j..][1..] == r[j + 1..] && r[j..] == [r[j]] + r[j + 1..]; }
    if j == |r| && i < |l| { MergeEmpty(l[i + 1..], lt); }
    if i == |l| && j < |r| { MergeEmpty(r[j + 1..], lt); }
  }

  /** What is done, followed by what is left to do, is the whole. */
  ghost predicate Halfway<T(!new)>(done: seq<T>, left: seq<T>, whole: seq<T>) {
    done + left == whole
  }

  lemma HalfwayStart<T(!new)>(whole: seq<T>)
    ensures Halfway([], whole, whole)
  {
    assert [] + whole == whole;
  }

  lemma HalfwayStep<T(!new)>(done: seq<T>, x: T, left: seq<T>, whole: seq<T>)
    requires Halfway(done, [x] + left, whole)
    ensures Halfway(done + [x], left, whole)
  {
    assert done + ([x] + left) == (done + [x]) + left;
  }

  lemma HalfwayEnd<T(!new)>(done: seq<T>, whole: seq<T>)
    requires Halfway(done, [], whole)
    ensures done == whole
  {
    assert done + [] == done;
  }

  /** Both sorted halves into a buffer, the left one first where neither comes before the other. */
  method MergeInto<T(!new)>(buffer: array<T>, l: seq<T>, r: seq<T>, lt: (T, T) -> bool)
    requires buffer.Length == |l| + |r|
    modifies buffer
    ensures buffer[..] == Merge(l, r, lt)
  {
    hide Merge, Halfway;
    var offset, left, right := 0, 0, 0;
    ghost var whole := Merge(l, r, lt);
    assert l[0..] == l && r[0..] == r && buffer[..0] == [];
    HalfwayStart(whole);
    while left < |l| && right < |r|
      invariant 0 <= left <= |l| && 0 <= right <= |r| && offset == left + right
      invariant Halfway(buffer[..offset], Merge(l[left..], r[right..], lt), whole)
      decreases |l| + |r| - offset
    {
      MergeStep(l, r, left, right, lt);
      ghost var before := buffer[..offset];
      if !lt(r[right], l[left]) {
        buffer[offset] := l[left];
        HalfwayStep(before, l[left], Merge(l[left + 1..], r[right..], lt), whole);
        left := left + 1;
      } else {
        buffer[offset] := r[right];
        HalfwayStep(before, r[right], Merge(l[left..], r[right + 1..], lt), whole);
        right := right + 1;
      }
      assert buffer[..offset + 1] == before + [buffer[offset]];
      offset := offset + 1;
    }
    while left < |l|
      invariant 0 <= left <= |l| && 0 <= right <= |r| && offset == left + right && (left < |l| ==> right == |r|)
      invariant Halfway(buffer[..offset], Merge(l[left..], r[right..], lt), whole)
    {
      MergeStep(l, r, left, right, lt);
      ghost var before := buffer[..offset];
      HalfwayStep(before, l[left], Merge(l[left + 1..], r[right..], lt), whole);
      buffer[offset] := l[left];
      assert buffer[..offset + 1] == before + [l[left]];
      left, offset := left + 1, offset + 1;
    }
    while right < |r|
      invariant left == |l| && 0 <= right <= |r| && offset == left + right
      invariant Halfway(buffer[..offset], Merge(l[left..], r[right..], lt), whole)
    {
      MergeStep(l, r, left, right, lt);
      ghost var before := buffer[..offset];
      HalfwayStep(before, r[right], Merge(l[left..], r[right + 1..], lt), whole);
      buffer[offset] := r[right];
      assert buffer[..offset + 1] == before + [r[right]];
      right, offset := right + 1, offset + 1;
    }
    MergeStep(l, r, left, right, lt);
    HalfwayEnd(buffer[..offset], whole);
    assert buffer[..offset] == buffer[..];
  }

  /** Moving the buffer back into its stretch. */
  method CopyBack<T>(a: array<T>, lo: nat, buffer: array<T>)
    requires buffer != a && lo + buffer.Length <= a.Length
    modifies a
    ensures a[lo..lo + buffer.Length] == buffer[..]
    ensures forall k :: 0 <= k < a.Length && (k < lo || k >= lo + buffer.Length) ==> a[k] == old(a[k])
  {
    for i := 0 to buffer.Length
      invariant forall k :: 0 <= k < i ==> a[lo + k] == buffer[k]
      invariant forall k :: 0 <= k < a.Length && (k < lo || k >= lo + buffer.Length) ==> a[k] == old(a[k])
    {
      a[lo + i] := buffer[i];
    }
  }

  /** A stretch and its halves. */
  lemma Halves<T>(s: seq<T>, lo: nat, middle: nat, hi: nat)
    requires lo <= middle <= hi <= |s|
    ensures s[lo..hi][..middle - lo] == s[lo..middle] && s[lo..hi][middle - lo..] == s[middle..hi]
    ensures s[lo..middle] + s[middle..hi] == s[lo..hi]
  {
  }

  lemma SameStretch<T>(s: seq<T>, t: seq<T>, lo: nat, hi: nat)
    requires lo <= hi <= |s| == |t| && forall k :: lo <= k < hi ==> s[k] == t[k]
    ensures s[lo..hi] == t[lo..hi]
  {
  }

  /** Both halves sorted: merged, they are the whole one sorted. */
  method SortHalves<T(!new)>(a: array<T>, lo: nat, size: nat, lt: (T, T) -> bool) returns (middle: nat)
    requires StrictWeak(lt) && SMALL <= size && lo + size <= a.Length
    modifies a
    ensures middle <= size
    ensures Merge(a[lo..lo + middle], a[lo + middle..lo + size], lt) == Sorted(old(a[lo..lo + size]), lt)
    ensures forall k :: 0 <= k < a.Length && (k < lo || k >= lo + size) ==> a[k] == old(a[k])
    decreases size, 0
  {
    hide StrictWeak, Sorted, Merge;
    middle := size / 2;
    ghost var s0 := a[..];
    Halves(s0, lo, lo + middle, lo + size);
    Sort(a, lo, middle, lt);
    ghost var s1 := a[..];
    SameStretch(s0, s1, lo + middle, lo + size);
    Sort(a, lo + middle, size - middle, lt);
    ghost var s2 := a[..];
    SameStretch(s1, s2, lo, lo + middle);
    MergeSorted(s0[lo..lo + middle], s0[lo + middle..lo + size], lt);
  }

  /** `sort`: in place, stable, at every size. */
  method Sort<T(!new)>(a: array<T>, lo: nat, size: nat, lt: (T, T) -> bool)
    requires StrictWeak(lt) && lo + size <= a.Length
    modifies a
    ensures a[lo..lo + size] == Sorted(old(a[lo..lo + size]), lt)
    ensures forall k :: 0 <= k < a.Length && (k < lo || k >= lo + size) ==> a[k] == old(a[k])
    decreases size, 1
  {
    hide StrictWeak, Sorted, Merge;
    if size <= 1 {
      SortedShort(a[lo..lo + size], lt);
      return;
    }
    if size < SMALL {
      InsertionSort(a, lo, size, lt);
      return;
    }
    var middle := SortHalves(a, lo, size, lt);
    var first := a[lo];
    var buffer := new T[size](_ => first);
    MergeInto(buffer, a[lo..lo + middle], a[lo + middle..lo + size], lt);
    CopyBack(a, lo, buffer);
  }

  /** The whole promise: ascending, the same elements, and equivalent ones in their old order. */
  method SortList<T(!new)>(a: array<T>, lt: (T, T) -> bool)
    requires StrictWeak(lt)
    modifies a
    ensures Ascending(a[..], lt)
    ensures multiset(a[..]) == multiset(old(a[..]))
    ensures forall x :: Alike(a[..], x, lt) == Alike(old(a[..]), x, lt)
  {
    hide StrictWeak, Sorted, Alike, Ascending;
    ghost var was := a[..];
    assert was == a[0..0 + a.Length];
    SortedAscending(was, lt);
    SortedElements(was, lt);
    forall x ensures Alike(Sorted(was, lt), x, lt) == Alike(was, x, lt) { SortedStable(was, x, lt); }
    Sort(a, 0, a.Length, lt);
    assert a[..] == a[0..0 + a.Length];
  }
}
