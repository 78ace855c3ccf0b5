/**
 * The binary heap operations the scheduler uses, written as the standard library writes them:
 * items move into a hole and the new item is stored once, at the end.  `le` is the order.
 */
module Heap {
  import opened Sorting

  function Parent(i: nat): nat
    requires i > 0
  {
    (i - 1) / 2
  }

  predicate EdgeOk<T>(le: (T, T) -> bool, h: seq<T>, i: nat) { 0 < i < |h| ==> le(h[Parent(i)], h[i]) }

  /** Every position from `start` on is no larger than its children. */
  ghost predicate HeapFrom<T>(le: (T, T) -> bool, h: seq<T>, start: nat)
  {
    forall i :: 0 < i < |h| && Parent(i) >= start ==> EdgeOk(le, h, i)
  }

  ghost predicate IsHeap<T>(le: (T, T) -> bool, h: seq<T>) { HeapFrom(le, h, 0) }

  /** Position pos is `start` or a descendant of it. */
  predicate Below(start: nat, pos: nat): (below: bool)
    ensures below ==> start <= pos
    decreases pos
  {
    pos == start || (pos > start && Below(start, Parent(pos)))
  }

  lemma {:induction false} RootIsAbove(pos: nat)
    ensures Below(0, pos)
  {
    if pos > 0 {
      RootIsAbove(Parent(pos));
    }
  }

  /** A heap from `start` on, but for the item at pos, which may be too small for its place. */
  ghost predicate MayRise<T>(le: (T, T) -> bool, h: seq<T>, start: nat, pos: nat)
  {
    && pos < |h| && Below(start, pos)
    && (forall i :: 0 < i < |h| && i != pos && Parent(i) >= start ==> EdgeOk(le, h, i))
    && (pos > start ==> forall i :: 0 < i < |h| && Parent(i) == pos ==> le(h[Parent(pos)], h[i]))
  }

  /** A heap from `start` on, but for the hole at pos. */
  ghost predicate HoleAt<T>(le: (T, T) -> bool, h: seq<T>, start: nat, pos: nat)
  {
    && pos < |h| && Below(start, pos)
    && (forall i :: 0 < i < |h| && i != pos && Parent(i) != pos && Parent(i) >= start ==> EdgeOk(le, h, i))
    && (pos > start ==> forall i :: 0 < i < |h| && Parent(i) == pos ==> le(h[Parent(pos)], h[i]))
  }

  /** The item rises past a larger parent. */
  lemma RiseStep<T(!new)>(le: (T, T) -> bool, h: seq<T>, start: nat, pos: nat)
    requires Preorder(le) && MayRise(le, h, start, pos) && pos > start && !le(h[Parent(pos)], h[pos])
    ensures MayRise(le, h[pos := h[Parent(pos)]][Parent(pos) := h[pos]], start, Parent(pos))
  {
    var p := Parent(pos);
    var g := h[pos := h[p]][p := h[pos]];
    assert le(h[pos], h[p]);
    if p > start {
      assert Below(start, p) && Below(start, Parent(p));
      assert EdgeOk(le, h, p);
    }
    forall i | 0 < i < |g| && i != p && Parent(i) >= start ensures EdgeOk(le, g, i) {
      assert i != pos ==> EdgeOk(le, h, i);
    }
    if p > start {
      forall i | 0 < i < |g| && Parent(i) == p ensures le(g[Parent(p)], g[i]) {
        assert i != pos ==> EdgeOk(le, h, i);
      }
    }
  }

  lemma RiseDone<T(!new)>(le: (T, T) -> bool, h: seq<T>, start: nat, pos: nat)
    requires MayRise(le, h, start, pos) && (pos == start || le(h[Parent(pos)], h[pos]))
    ensures HeapFrom(le, h, start)
  {
    forall i | 0 < i < |h| && Parent(i) >= start ensures EdgeOk(le, h, i) {
    }
  }

  lemma MovedHole<T>(h: seq<T>, pos: nat, to: nat, x: T)
    requires pos < |h| && to < |h| && pos != to
    ensures multiset(h[pos := h[to]][to := x]) == multiset(h[pos := x])
  {
    assert h[pos := h[to]][to := x] == h[pos := x][pos := h[to]][to := x];
  }

  lemma SameSwap<T>(h: seq<T>, pos: nat, parent: nat, x: T)
    requires pos < |h| && parent < |h| && pos != parent
    ensures var full := h[pos := x];
            h[pos := h[parent]][parent := x] == full[pos := full[parent]][parent := full[pos]]
  {
  }

  /** `_siftdown`: the item at pos rises until its parent is no larger. */
  method SiftDown<T(!new)>(le: (T, T) -> bool, heap: seq<T>, start: nat, at: nat) returns (h: seq<T>)
    requires Preorder(le) && MayRise(le, heap, start, at)
    ensures HeapFrom(le, h, start) && multiset(h) == multiset(heap) && |h| == |heap|
  {
    h := heap;
    var item := h[at];
    var pos := at;
    while pos > start
      invariant |h| == |heap| && start <= pos < |h|
      invariant multiset(h[pos := item]) == multiset(heap)
      invariant MayRise(le, h[pos := item], start, pos)
    {
      var parent := Parent(pos);
      if le(h[parent], item) { break; }
      ghost var full := h[pos := item];
      RiseStep(le, full, start, pos);
      MovedHole(h, pos, parent, item);
      SameSwap(h, pos, parent, item);
      h := h[pos := h[parent]];
      pos := parent;
    }
    h := h[pos := item];
    RiseDone(le, h, start, pos);
  }

  /** The smaller child moves up into the hole. */
  lemma HoleStep<T(!new)>(le: (T, T) -> bool, h: seq<T>, start: nat, pos: nat, child: nat)
    requires Preorder(le) && HoleAt(le, h, start, pos) && pos < child < |h| && Parent(child) == pos
    requires forall i :: 0 < i < |h| && Parent(i) == pos ==> le(h[child], h[i])
    ensures HoleAt(le, h[pos := h[child]], start, child)
  {
    var g := h[pos := h[child]];
    forall i | 0 < i < |g| && i != child && Parent(i) != child && Parent(i) >= start ensures EdgeOk(le, g, i) {
      if i != pos && Parent(i) != pos {
        assert EdgeOk(le, h, i);
      }
    }
    forall i | 0 < i < |g| && Parent(i) == child ensures le(g[Parent(child)], g[i]) {
      assert EdgeOk(le, h, i);
    }
  }

  lemma HoleAtLeaf<T(!new)>(le: (T, T) -> bool, h: seq<T>, start: nat, pos: nat, x: T)
    requires HoleAt(le, h, start, pos) && 2 * pos + 1 >= |h|
    ensures MayRise(le, h[pos := x], start, pos)
  {
    var g := h[pos := x];
    forall i | 0 < i < |g| && i != pos && Parent(i) >= start ensures EdgeOk(le, g, i) {
      assert EdgeOk(le, h, i);
    }
  }

  lemma SmallerChild<T(!new)>(le: (T, T) -> bool, h: seq<T>, pos: nat, child: nat)
    requires Preorder(le) && 2 * pos + 1 < |h|
    requires child == if 2 * pos + 2 < |h| && le(h[2 * pos + 2], h[2 * pos + 1]) then 2 * pos + 2 else 2 * pos + 1
    ensures Parent(child) == pos && forall i :: 0 < i < |h| && Parent(i) == pos ==> le(h[child], h[i])
  {
    forall i | 0 < i < |h| && Parent(i) == pos ensures le(h[child], h[i]) {
      assert i == 2 * pos + 1 || i == 2 * pos + 2;
    }
  }

  /** `_siftup`: the hole sinks to a leaf, and the item rises from there into place. */
  method SiftUp<T(!new)>(le: (T, T) -> bool, heap: seq<T>, start: nat) returns (h: seq<T>)
    requires Preorder(le) && start < |heap| && HeapFrom(le, heap, start + 1)
    ensures HeapFrom(le, h, start) && multiset(h) == multiset(heap) && |h| == |heap|
  {
    h := heap;
    var item := h[start];
    var pos := start;
    var child := 2 * pos + 1;
    assert HoleAt(le, h, start, pos);
    while child < |h|
      invariant |h| == |heap| && start <= pos < |h| && child == 2 * pos + 1
      invariant multiset(h[pos := item]) == multiset(heap)
      invariant HoleAt(le, h, start, pos)
      decreases |h| - pos
    {
      var right := child + 1;
      if right < |h| && le(h[right], h[child]) {
        child := right;
      }
      SmallerChild(le, h, pos, child);
      HoleStep(le, h, start, pos, child);
      MovedHole(h, pos, child, item);
      h := h[pos := h[child]];
      pos := child;
      child := 2 * pos + 1;
    }
    HoleAtLeaf(le, h, start, pos, item);
    h := SiftDown(le, h[pos := item], start, pos);
  }

  method Push<T(!new)>(le: (T, T) -> bool, heap: seq<T>, item: T) returns (h: seq<T>)
    requires Preorder(le) && IsHeap(le, heap)
    ensures IsHeap(le, h) && multiset(h) == multiset(heap) + multiset{item}
  {
    var grown := heap + [item];
    RootIsAbove(|heap|);
    forall i | 0 < i < |grown| && i != |heap| ensures EdgeOk(le, grown, i) {
      assert EdgeOk(le, heap, i);
    }
    h := SiftDown(le, grown, 0, |heap|);
  }

  method Pop<T(!new)>(le: (T, T) -> bool, heap: seq<T>) returns (item: T, h: seq<T>)
    requires Preorder(le) && IsHeap(le, heap) && heap != []
    ensures item == heap[0]
    ensures IsHeap(le, h) && multiset(heap) == multiset(h) + multiset{item}
  {
    var last := heap[|heap| - 1];
    var rest := heap[..|heap| - 1];
    assert heap == rest + [last];
    if rest == [] {
      return last, rest;
    }
    item := rest[0];
    var moved := rest[0 := last];
    forall i | 0 < i < |moved| && Parent(i) >= 1 ensures EdgeOk(le, moved, i) {
      assert EdgeOk(le, heap, i);
    }
    h := SiftUp(le, moved, 0);
  }

  /** `heapify`: from the last position with a child back to the root. */
  method Heapify<T(!new)>(le: (T, T) -> bool, items: seq<T>) returns (h: seq<T>)
    requires Preorder(le)
    ensures IsHeap(le, h) && multiset(h) == multiset(items)
  {
    h := items;
    var i := |h| / 2;
    while i > 0
      invariant 0 <= i && |h| == |items| && i <= |h| / 2
      invariant multiset(h) == multiset(items)
      invariant HeapFrom(le, h, i)
    {
      i := i - 1;
      h := SiftUp(le, h, i);
    }
  }

  /** The root of a heap is a least item. */
  lemma {:induction false} RootIsLeast<T(!new)>(le: (T, T) -> bool, h: seq<T>, i: nat)
    requires Preorder(le) && IsHeap(le, h) && i < |h|
    ensures le(h[0], h[i])
  {
    if i > 0 {
      RootIsLeast(le, h, Parent(i));
      assert EdgeOk(le, h, i);
    }
  }
}
