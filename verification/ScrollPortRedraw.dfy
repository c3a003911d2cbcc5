/** hterm.ScrollPort's redraw as a whole: the folds are put in their places first, with the ends of
    the selection that are out of sight stashed outside of them, and then the rows are drawn. */
module ScrollPortRedraw {
  import opened JsText
  import opened ScrollPort

  // ----- list operations around a node

  lemma Split(s: seq<Node>, n: Node)
    requires n in s
    ensures s == s[..Position(s, n)] + [n] + s[Position(s, n) + 1..]
  {
    var p := Position(s, n);
    assert s == s[..p] + [s[p]] + s[p + 1..];
  }

  /** Two different nodes, in order. */
  lemma SplitPair(s: seq<Node>, first: Node, second: Node)
    requires Distinct(s) && first in s && second in s && first != second && Ordered(s, first, second)
    ensures var p, q := Position(s, first), Position(s, second);
            p < q && s == s[..p] + [first] + s[p + 1..q] + [second] + s[q + 1..]
  {
    hide Distinct, Ordered, Position;
    var p, q := Position(s, first), Position(s, second);
    InDifferentPlaces(s, first, second, p, q);
    Slices(s, p, q);
  }

  lemma InDifferentPlaces(s: seq<Node>, first: Node, second: Node, p: nat, q: nat)
    requires p < |s| && q < |s| && s[p] == first && s[q] == second && first != second && Ordered(s, first, second)
    ensures p < q
  {
  }

  lemma Slices(s: seq<Node>, p: nat, q: nat)
    requires p < q < |s|
    ensures s == s[..p] + [s[p]] + s[p + 1..q] + [s[q]] + s[q + 1..]
  {
  }

  /** The pieces around a node do not hold it. */
  lemma AroundNode(a: seq<Node>, n: Node, b: seq<Node>)
    requires Distinct(a + [n] + b)
    ensures n !in a && n !in b && Distinct(a) && Distinct(b) && Distinct(a + b) && forall x | x in a :: x !in b
    ensures n in a + [n] + b && Position(a + [n] + b, n) == |a|
  {
    hide Distinct;
    PositionAfter(a, n, b);
    DistinctParts(a + [n], b);
    DistinctParts(a, [n]);
    assert n in a + [n];
    assert forall x | x in a :: x in a + [n];
    DistinctJoin(a, b);
  }

  lemma WithoutAround(a: seq<Node>, p: Node, b: seq<Node>, n: Node)
    requires p != n
    ensures Without(a + [p] + b, n) == Without(a, n) + [p] + Without(b, n)
  {
    hide Without;
    WithoutConcat(a + [p], b, n);
    WithoutConcat(a, [p], n);
    WithoutAbsent([p], n);
  }

  /** Puts the fold `f` right in front of `p`, unless it is there. */
  method PutBefore(dom: RowNodes, f: Node, p: Node, ghost a: seq<Node>, ghost b: seq<Node>)
    requires dom.children == a + [p] + b && Distinct(dom.children) && f != p
    modifies dom
    ensures dom.children == Without(a, f) + [f] + ([p] + Without(b, f)) && Distinct(dom.children)
    ensures forall x | x != f :: x in dom.disturbed <==> x in old(dom.disturbed)
  {
    hide Distinct, Without, Position;
    AroundNode(a, p, b);
    if f !in dom.children || dom.NextSibling(f) != Some(p) {
      Associates(a, [p], b);
      InsertAt(a, [p] + b, f);
      WithoutCons(p, b, f);
      dom.InsertBefore(f, p);
    } else {
      InPlaceBefore(dom, f, p, a, b);
    }
  }

  lemma InPlaceBefore(dom: RowNodes, f: Node, p: Node, a: seq<Node>, b: seq<Node>)
    requires dom.children == a + [p] + b && Distinct(dom.children) && f in dom.children && dom.NextSibling(f) == Some(p)
    ensures dom.children == Without(a, f) + [f] + ([p] + Without(b, f))
  {
    hide Distinct, Without, Position;
    var c := dom.children;
    var i := Position(c, f);
    assert c[i + 1] == p && c[|a|] == p;
    SamePlace(c, i + 1, |a|);
    LastOf(a, f, [p] + b) by {
      Associates(a, [p], b);
    }
    AroundNode(a, p, b);
    WithoutLast(a, f);
    assert f !in b by {
      Associates(a, [p], b);
      DistinctParts(a, [p] + b);
      assert f in a && forall x | x in b :: x in [p] + b;
    }
    WithoutAbsent(b, f);
    Associates(a, [p], b);
  }

  lemma LastOf(a: seq<Node>, f: Node, tail: seq<Node>)
    requires a != [] && (a + tail)[|a| - 1] == f
    ensures a[|a| - 1] == f && f in a
  {
  }

  lemma SamePlace(s: seq<Node>, i: nat, j: nat)
    requires Distinct(s) && i < |s| && j < |s| && s[i] == s[j]
    ensures i == j
  {
  }

  lemma WithoutLast(a: seq<Node>, f: Node)
    requires Distinct(a) && a != [] && a[|a| - 1] == f
    ensures a == Without(a, f) + [f]
  {
    hide Distinct, Without;
    var front := a[..|a| - 1];
    assert a == front + [f] + [];
    AroundNode(front, f, []);
    WithoutConcat(front, [f], f);
    WithoutAbsent(front, f);
    WithoutCons(f, [], f);
    WithoutAbsent([], f);
    assert front + [f] == a && [f] + [] == [f] && front + [] == front;
  }

  /** Puts the fold `f` right behind `p`, unless it is there. */
  method PutBehind(dom: RowNodes, f: Node, p: Node, ghost a: seq<Node>, ghost b: seq<Node>)
    requires dom.children == a + [p] + b && Distinct(dom.children) && f != p
    modifies dom
    ensures dom.children == Without(a, f) + [p] + [f] + Without(b, f) && Distinct(dom.children)
    ensures forall x | x != f :: x in dom.disturbed <==> x in old(dom.disturbed)
  {
    hide Distinct, Without, Position;
    NextOf(dom, p, a, b);
    WithoutConcat(a, [p], f);
    WithoutAbsent([p], f);
    var next := dom.NextSibling(p);
    if next != Some(f) {
      if next.None? {
        WithoutAround(a, p, b, f);
        WithoutAbsent([], f);
        WithoutStaysDistinct(dom.children, f);
        DistinctBetween(Without(a, f) + [p], f, Without(b, f));
        assert Without(a, f) + [p] + [] + [f] == Without(a, f) + [p] + [f] + [];
        dom.AppendChild(f);
      } else {
        InsertAt(a + [p], b, f);
        dom.InsertBefore(f, next.value);
      }
    } else {
      AlreadyBehind(f, p, a, b);
    }
  }

  lemma NextOf(dom: RowNodes, p: Node, a: seq<Node>, b: seq<Node>)
    requires dom.children == a + [p] + b && Distinct(dom.children)
    ensures p in dom.children && dom.NextSibling(p) == (if b == [] then None else Some(b[0])) && forall x | x in b :: x in dom.children
  {
    hide Distinct, Position;
    PositionAfter(a, p, b);
  }

  lemma AlreadyBehind(f: Node, p: Node, a: seq<Node>, b: seq<Node>)
    requires Distinct(a + [p] + b) && f != p && b != [] && b[0] == f
    ensures a + [p] + b == Without(a, f) + [p] + [f] + Without(b, f)
  {
    hide Distinct, Without;
    AroundNode(a, p, b);
    WithoutAbsent(a, f);
    assert b == [f] + b[1..];
    DistinctTail(b);
    WithoutCons(f, b[1..], f);
    WithoutAbsent(b[1..], f);
    assert [] + b[1..] == b[1..];
    Associates(a + [p], [f], b[1..]);
  }

  /** Removes what stands between `s` and `e`. */
  method TrimBetween(dom: RowNodes, s: Node, e: Node, ghost a: seq<Node>, ghost y: seq<Node>, ghost b: seq<Node>)
    requires dom.children == a + [s] + (y + ([e] + b)) && Distinct(dom.children)
    modifies dom
    ensures dom.children == a + [s] + ([e] + b) && Distinct(dom.children)
    ensures forall x :: x in dom.disturbed <==> x in old(dom.disturbed) || x in y
  {
    hide Distinct, Without, Position;
    ghost var i := 0;
    assert y[0..] == y;
    NextOf(dom, s, a, y + ([e] + b));
    while dom.NextSibling(s) != Some(e)
      invariant i <= |y| && dom.children == a + [s] + (y[i..] + ([e] + b)) && Distinct(dom.children) && s in dom.children
      invariant forall x :: x in dom.disturbed <==> x in old(dom.disturbed) || x in y[..i]
      decreases |y| - i
    {
      NextOf(dom, s, a, y[i..] + ([e] + b));
      NotEmptyYet(y[i..], [e] + b, e);
      var tail := y[i..] + ([e] + b);
      assert tail[0] == y[i] && tail[1..] == y[i + 1..] + ([e] + b);
      RemoveAt(a + [s], tail);
      assert tail[0] in dom.children;
      dom.RemoveChild(dom.NextSibling(s).value);
      TakeGrows(y, i);
      i := i + 1;
      NextOf(dom, s, a, y[i..] + ([e] + b));
    }
    TrimmedAll(dom, s, e, a, y, i, b);
  }

  lemma TakeGrows(y: seq<Node>, i: nat)
    requires i < |y|
    ensures y[..i + 1] == y[..i] + [y[i]]
  {
  }

  lemma NotEmptyYet(y: seq<Node>, tail: seq<Node>, e: Node)
    requires tail != [] && tail[0] == e && (y + tail)[0] != e
    ensures y != []
  {
  }

  lemma TrimmedAll(dom: RowNodes, s: Node, e: Node, a: seq<Node>, y: seq<Node>, i: nat, b: seq<Node>)
    requires i <= |y| && dom.children == a + [s] + (y[i..] + ([e] + b)) && Distinct(dom.children)
    requires s in dom.children && dom.NextSibling(s) == Some(e)
    ensures i == |y|
  {
    hide Distinct, Position;
    var tail := y[i..] + ([e] + b);
    NextOf(dom, s, a, tail);
    DistinctParts(a + [s], tail);
    assert tail[|y| - i] == e;
    SamePlace(tail, 0, |y| - i);
  }

  /** Removes what stands in front of `s`. */
  method DropBefore(dom: RowNodes, s: Node, ghost a: seq<Node>, ghost b: seq<Node>)
    requires dom.children == a + ([s] + b) && Distinct(dom.children)
    modifies dom
    ensures dom.children == [s] + b && Distinct(dom.children)
    ensures forall x :: x in dom.disturbed <==> x in old(dom.disturbed) || x in a
  {
    hide Distinct, Without;
    ghost var i := 0;
    assert a[0..] == a;
    while dom.children[0] != s
      invariant i <= |a| && dom.children == a[i..] + ([s] + b) && Distinct(dom.children)
      invariant forall x :: x in dom.disturbed <==> x in old(dom.disturbed) || x in a[..i]
      decreases |a| - i
    {
      NotEmptyYet(a[i..], [s] + b, s);
      var tail := a[i..] + ([s] + b);
      assert tail[0] == a[i] && tail[1..] == a[i + 1..] + ([s] + b);
      assert [] + tail == tail && [] + tail[1..] == tail[1..];
      RemoveAt([], tail);
      dom.RemoveChild(dom.children[0]);
      TakeGrows(a, i);
      i := i + 1;
    }
    assert dom.children[|a| - i] == s;
    SamePlace(dom.children, 0, |a| - i);
    assert [] + ([s] + b) == [s] + b;
  }

  /** Removes what stands behind `e`. */
  method DropAfter(dom: RowNodes, e: Node, ghost a: seq<Node>, ghost b: seq<Node>)
    requires dom.children == a + [e] + b && Distinct(dom.children)
    modifies dom
    ensures dom.children == a + [e] && Distinct(dom.children)
    ensures forall x :: x in dom.disturbed <==> x in old(dom.disturbed) || x in b
  {
    hide Distinct, Without;
    ghost var i := |b|;
    assert b[..i] == b && b[i..] == [];
    while dom.children[|dom.children| - 1] != e
      invariant i <= |b| && dom.children == a + [e] + b[..i] && Distinct(dom.children)
      invariant forall x :: x in dom.disturbed <==> x in old(dom.disturbed) || x in b[i..]
      decreases i
    {
      assert i > 0;
      assert dom.children == (a + [e] + b[..i - 1]) + [b[i - 1]];
      RemoveAt(a + [e] + b[..i - 1], [b[i - 1]]);
      assert b[i..] == [] + b[i..] && b[i - 1..] == [b[i - 1]] + b[i..];
      dom.RemoveChild(dom.children[|dom.children| - 1]);
      i := i - 1;
    }
    assert dom.children[|a|] == e;
    SamePlace(dom.children, |a|, |a| + i);
    assert a + [e] + [] == a + [e];
  }

  // ----- the selection around the folds

  predicate Multiline(sel: Selection)
    requires Rows(sel)
  {
    sel.Selected? && sel.start.index != sel.end.index
  }

  /** The ends of the selection that stand above the visible rows. */
  function AboveFold(sel: Selection, top: int): seq<Node>
    requires Rows(sel)
  {
    if sel.NoSelection? || sel.start.index >= top then []
    else if !Multiline(sel) || sel.end.index >= top then [sel.start]
    else [sel.start, sel.end]
  }

  /** The ends of the selection that stand below the visible rows. */
  function BelowFold(sel: Selection, bottom: int): seq<Node>
    requires Rows(sel)
  {
    if sel.NoSelection? || sel.end.index <= bottom then []
    else if !Multiline(sel) || sel.start.index <= bottom then [sel.end]
    else [sel.start, sel.end]
  }

  /** The ends of the selection are in the list, in order. */
  predicate Holds(nodes: seq<Node>, sel: Selection) {
    sel.Selected? ==> sel.start in nodes && sel.end in nodes && Ordered(nodes, sel.start, sel.end)
  }

  /** The ends of the selection from row `top` on are in the list, and only those. */
  predicate HoldsFrom(nodes: seq<Node>, sel: Selection, top: int)
    requires Rows(sel)
  {
    sel.Selected? ==>
      && (sel.start in nodes <==> top <= sel.start.index)
      && (sel.end in nodes <==> top <= sel.end.index)
      && Ordered(nodes, sel.start, sel.end)
  }

  /** The second of two nodes in order stands behind the first, and the first before the second. */
  lemma InOrder(a: seq<Node>, n: Node, b: seq<Node>, s: Node, e: Node)
    requires Distinct(a + [n] + b) && s != e && Ordered(a + [n] + b, s, e) && s in a + [n] + b && e in a + [n] + b
    ensures n == s ==> e in b && e !in a
    ensures n == e ==> s in a && s !in b
  {
    var c := a + [n] + b;
    AroundNode(a, n, b);
    var i, j := Position(c, s), Position(c, e);
    assert c[i] == s && c[j] == e && i <= j;
    assert n == s ==> i == |a| && c[j] == b[j - |a| - 1];
    assert n == e ==> j == |a| && c[i] == a[i];
  }

  lemma NotBoth(nodes: seq<Node>, s: Node, e: Node)
    requires s !in nodes || e !in nodes
    ensures Ordered(nodes, s, e)
  {
  }

  // ----- the top fold

  /** Makes the fold the first child, unless it is. */
  method PutFirst(dom: RowNodes, f: Node)
    requires Distinct(dom.children)
    modifies dom
    ensures dom.children == [f] + Without(old(dom.children), f) && Distinct(dom.children)
    ensures forall x | x != f :: x in dom.disturbed <==> x in old(dom.disturbed)
  {
    hide Distinct, Without, Position;
    ghost var c := dom.children;
    if dom.children == [] {
      dom.AppendChild(f);
      WithoutAbsent([], f);
      DistinctAlone(f);
      assert dom.children == [] + [f] && [] + [f] == [f] && [f] == [f] + [];
    } else if dom.children[0] != f {
      assert [] + c == c;
      InsertAt([], c, f);
      WithoutAbsent([], f);
      assert [] + [f] + Without(c, f) == [f] + Without(c, f);
      dom.InsertBefore(f, dom.children[0]);
    } else {
      assert c == [f] + c[1..];
      DistinctTail(c);
      WithoutCons(f, c[1..], f);
      WithoutAbsent(c[1..], f);
      assert [] + c[1..] == c[1..];
    }
  }

  /** Only `s` stands above the fold. */
  method FoldBehindStart(dom: RowNodes, f: Node, s: Node, ghost a: seq<Node>, ghost b: seq<Node>)
    requires dom.children == a + [s] + b && Distinct(dom.children) && f != s
    modifies dom
    ensures dom.children == [s] + [f] + Without(b, f) && Distinct(dom.children)
    ensures forall x | x != f && x !in a :: x in dom.disturbed <==> x in old(dom.disturbed)
  {
    hide Distinct, Without;
    PutBehind(dom, f, s, a, b);
    Associates(Without(a, f), [s], [f] + Without(b, f));
    Associates(Without(a, f) + [s], [f], Without(b, f));
    DropBefore(dom, s, Without(a, f), [f] + Without(b, f));
    Associates([s], [f], Without(b, f));
  }

  /** Both ends stand above the fold. */
  method FoldBehindEnd(dom: RowNodes, f: Node, s: Node, e: Node, ghost a: seq<Node>, ghost y: seq<Node>, ghost b: seq<Node>)
    requires dom.children == a + [s] + y + [e] + b && Distinct(dom.children) && f != s && f != e
    modifies dom
    ensures dom.children == [s, e] + [f] + Without(b, f) && Distinct(dom.children)
    ensures forall x | x != f && x !in a && x !in y :: x in dom.disturbed <==> x in old(dom.disturbed)
  {
    hide Distinct, Without;
    PutBehind(dom, f, e, a + [s] + y, b);
    WithoutAround(a, s, y, f);
    ghost var a', y', b' := Without(a, f), Without(y, f), Without(b, f);
    assert dom.children == a' + [s] + (y' + ([e] + ([f] + b')));
    TrimBetween(dom, s, e, a', y', [f] + b');
    Associates(a', [s], [e] + ([f] + b'));
    DropBefore(dom, s, a', [e] + ([f] + b'));
    assert [s] + ([e] + ([f] + b')) == [s, e] + [f] + b';
  }

  /** drawTopFold_. `rest` becomes the nodes below the top fold. */
  method DrawTopFold(dom: RowNodes, sel: Selection, topRowIndex: int) returns (ghost rest: seq<Node>)
    requires Distinct(dom.children) && Rows(sel) && Holds(dom.children, sel)
    modifies dom
    ensures dom.children == AboveFold(sel, topRowIndex) + [TopFold] + rest && Distinct(dom.children)
    ensures HoldsFrom(rest, sel, topRowIndex) && forall x | x in rest :: x in old(dom.children) && x != TopFold
    ensures forall x | IsEnd(x, sel) :: x in dom.disturbed <==> x in old(dom.disturbed)
  {
    hide Distinct, Without, Ordered, Position, Holds, HoldsFrom, IsEnd, AboveFold;
    ghost var c := dom.children;
    FoldIsNoEnd(sel);
    if sel.NoSelection? || sel.start.index >= topRowIndex {
      rest := NoneAbove(c, sel, topRowIndex);
      PutFirst(dom, TopFold);
      assert [] + [TopFold] == [TopFold];
    } else if !Multiline(sel) || sel.end.index >= topRowIndex {
      ghost var a, b;
      rest, a, b := OneAbove(c, sel, topRowIndex);
      FoldBehindStart(dom, TopFold, sel.start, a, b);
    } else {
      ghost var a, y, b;
      rest, a, y, b := BothAbove(c, sel, topRowIndex);
      FoldBehindEnd(dom, TopFold, sel.start, sel.end, a, y, b);
    }
  }

  lemma FoldIsNoEnd(sel: Selection)
    requires Rows(sel)
    ensures !IsEnd(TopFold, sel) && !IsEnd(BottomFold, sel)
  {
  }

  lemma NoneAbove(c: seq<Node>, sel: Selection, top: int) returns (rest: seq<Node>)
    requires Distinct(c) && Rows(sel) && Holds(c, sel) && (sel.NoSelection? || sel.start.index >= top)
    ensures rest == Without(c, TopFold) && HoldsFrom(rest, sel, top) && forall x | x in rest :: x in c && x != TopFold
    ensures AboveFold(sel, top) == []
  {
    hide Distinct, Without, Ordered;
    rest := Without(c, TopFold);
    if sel.Selected? {
      WithoutKeepsOrder(c, TopFold, sel.start, sel.end);
    }
  }

  lemma OneAbove(c: seq<Node>, sel: Selection, top: int) returns (rest: seq<Node>, a: seq<Node>, b: seq<Node>)
    requires Distinct(c) && Rows(sel) && Holds(c, sel)
    requires sel.Selected? && sel.start.index < top && (!Multiline(sel) || sel.end.index >= top)
    ensures c == a + [sel.start] + b && rest == Without(b, TopFold)
    ensures HoldsFrom(rest, sel, top) && forall x | x in rest :: x in c && x != TopFold
    ensures forall x | x in a :: !IsEnd(x, sel)
    ensures AboveFold(sel, top) == [sel.start] && sel.start.Row?
  {
    hide Distinct, Without, Ordered, Position;
    Split(c, sel.start);
    var p := Position(c, sel.start);
    a, b := c[..p], c[p + 1..];
    StartAbove(a, b, sel);
    rest := Without(b, TopFold);
    NotBoth(rest, sel.start, sel.end);
  }

  lemma BothAbove(c: seq<Node>, sel: Selection, top: int) returns (rest: seq<Node>, a: seq<Node>, y: seq<Node>, b: seq<Node>)
    requires Distinct(c) && Rows(sel) && Holds(c, sel)
    requires sel.Selected? && sel.start.index < top && Multiline(sel) && sel.end.index < top
    ensures c == a + [sel.start] + y + [sel.end] + b && rest == Without(b, TopFold)
    ensures HoldsFrom(rest, sel, top) && forall x | x in rest :: x in c && x != TopFold
    ensures forall x | x in a || x in y :: !IsEnd(x, sel)
    ensures AboveFold(sel, top) == [sel.start, sel.end] && sel.start.Row? && sel.end.Row?
  {
    hide Distinct, Without, Ordered, Position;
    SplitPair(c, sel.start, sel.end);
    var p, q := Position(c, sel.start), Position(c, sel.end);
    a, y, b := c[..p], c[p + 1..q], c[q + 1..];
    PiecesOf(a, sel.start, y, sel.end, b);
    rest := Without(b, TopFold);
    NotBoth(rest, sel.start, sel.end);
  }

  /** With the start of the selection taken out of the list the end, if another node, is behind it. */
  lemma StartAbove(a: seq<Node>, b: seq<Node>, sel: Selection)
    requires sel.Selected? && Distinct(a + [sel.start] + b) && Holds(a + [sel.start] + b, sel)
    ensures sel.start !in a && sel.start !in b && sel.end !in a
    ensures sel.end in b <==> sel.end != sel.start
    ensures forall x | x in b :: x in a + [sel.start] + b
  {
    hide Distinct, Ordered;
    AroundNode(a, sel.start, b);
    if sel.end != sel.start {
      InOrder(a, sel.start, b, sel.start, sel.end);
    }
  }

  lemma PiecesOf(a: seq<Node>, s: Node, y: seq<Node>, e: Node, b: seq<Node>)
    requires Distinct(a + [s] + y + [e] + b)
    ensures s != e && s !in a && s !in y && s !in b && e !in a && e !in y && e !in b
    ensures forall x | x in a || x in y || x in b :: x in a + [s] + y + [e] + b
    ensures (forall x | x in a :: x !in b && x !in y) && forall x | x in b :: x !in y
  {
    hide Distinct;
    AroundNode(a + [s] + y, e, b);
    AroundNode(a, s, y);
    assert forall x | x in a || x == s || x in y :: x in a + [s] + y;
  }

  // ----- the bottom fold

  /** Makes the fold the last child, unless it is. */
  method PutLast(dom: RowNodes, f: Node)
    requires Distinct(dom.children)
    modifies dom
    ensures dom.children == Without(old(dom.children), f) + [f] && Distinct(dom.children)
    ensures forall x | x != f :: x in dom.disturbed <==> x in old(dom.disturbed)
  {
    hide Distinct, Without;
    ghost var c := dom.children;
    if dom.children == [] || dom.children[|dom.children| - 1] != f {
      WithoutStaysDistinct(c, f);
      DistinctAlone(f);
      DistinctJoin(Without(c, f), [f]);
      dom.AppendChild(f);
    } else {
      WithoutLast(c, f);
    }
  }

  /** Only `e` stands below the fold. */
  method FoldBeforeEnd(dom: RowNodes, f: Node, e: Node, ghost front: seq<Node>, ghost a: seq<Node>, ghost b: seq<Node>)
    requires dom.children == front + (a + [e] + b) && Distinct(dom.children) && f != e && f !in front
    modifies dom
    ensures dom.children == front + Without(a, f) + [f] + [e] && Distinct(dom.children)
    ensures forall x | x != f && x !in b :: x in dom.disturbed <==> x in old(dom.disturbed)
  {
    hide Distinct, Without;
    AssociatesInner(front, a, [e], b);
    WithoutConcat(front, a, f);
    WithoutAbsent(front, f);
    PutBefore(dom, f, e, front + a, b);
    Associates(front + Without(a, f) + [f], [e], Without(b, f));
    DropAfter(dom, e, front + Without(a, f) + [f], Without(b, f));
  }

  lemma AssociatesInner(front: seq<Node>, a: seq<Node>, b: seq<Node>, c: seq<Node>)
    ensures front + (a + b + c) == (front + a) + b + c
  {
  }

  /** Both ends stand below the fold. */
  method FoldBeforeStart(dom: RowNodes, f: Node, s: Node, e: Node, ghost front: seq<Node>, ghost a: seq<Node>, ghost y: seq<Node>, ghost b: seq<Node>)
    requires dom.children == front + (a + [s] + y + [e] + b) && Distinct(dom.children) && f != s && f != e && f !in front
    modifies dom
    ensures dom.children == front + Without(a, f) + [f] + [s, e] && Distinct(dom.children)
    ensures forall x | x != f && x !in y && x !in b :: x in dom.disturbed <==> x in old(dom.disturbed)
  {
    hide Distinct, Without;
    ghost var a', y', b' := front + Without(a, f), Without(y, f), Without(b, f);
    assert front + (a + [s] + y + [e] + b) == (front + a) + [s] + (y + [e] + b) by {
      AssociatesInner(a + [s], y, [e], b);
      AssociatesInner(front, a, [s], y + [e] + b);
    }
    WithoutConcat(front, a, f);
    WithoutAbsent(front, f);
    PutBefore(dom, f, s, front + a, y + [e] + b);
    WithoutAround(y, e, b, f);
    Associates(a' + [f], [s], y' + [e] + b');
    Associates(y', [e], b');
    TrimBetween(dom, s, e, a' + [f], y', b');
    Associates(a' + [f] + [s], [e], b');
    DropAfter(dom, e, a' + [f] + [s], b');
    Associates(a' + [f], [s], [e]);
    assert [s] + [e] == [s, e];
  }

  /** The ends of the selection from row `top` up to row `bottom` are in the list, and only those. */
  predicate HoldsWithin(nodes: seq<Node>, sel: Selection, top: int, bottom: int)
    requires Rows(sel)
  {
    sel.Selected? ==>
      && (sel.start in nodes <==> top <= sel.start.index <= bottom)
      && (sel.end in nodes <==> top <= sel.end.index <= bottom)
      && Ordered(nodes, sel.start, sel.end)
  }

  /** drawBottomFold_. `rest` becomes the nodes between the folds. */
  method DrawBottomFold(dom: RowNodes, sel: Selection, bottomRowIndex: int, ghost topRowIndex: int, ghost low: seq<Node>)
    returns (ghost rest: seq<Node>)
    requires Rows(sel) && topRowIndex <= bottomRowIndex + 1
    requires dom.children == AboveFold(sel, topRowIndex) + [TopFold] + low && Distinct(dom.children)
    requires HoldsFrom(low, sel, topRowIndex)
    modifies dom
    ensures dom.children == AboveFold(sel, topRowIndex) + [TopFold] + rest + [BottomFold] + BelowFold(sel, bottomRowIndex)
    ensures Distinct(dom.children)
    ensures HoldsWithin(rest, sel, topRowIndex, bottomRowIndex) && forall x | x in rest :: x in low && x != BottomFold
    ensures forall x | IsEnd(x, sel) :: x in dom.disturbed <==> x in old(dom.disturbed)
  {
    hide Distinct, Without, Ordered, Position, AboveFold, HoldsFrom, HoldsWithin, IsEnd, BelowFold;
    ghost var front := AboveFold(sel, topRowIndex) + [TopFold];
    NoFoldAbove(sel, topRowIndex);
    DistinctParts(front, low);
    if sel.NoSelection? || sel.end.index <= bottomRowIndex {
      PutLast(dom, BottomFold);
      WithoutConcat(front, low, BottomFold);
      WithoutAbsent(front, BottomFold);
      rest := NoneBelow(low, sel, topRowIndex, bottomRowIndex);
      assert front + rest + [BottomFold] + [] == front + rest + [BottomFold];
    } else if !Multiline(sel) || sel.start.index <= bottomRowIndex {
      ghost var a, b;
      rest, a, b := OneBelow(low, sel, topRowIndex, bottomRowIndex);
      FoldBeforeEnd(dom, BottomFold, sel.end, front, a, b);
    } else {
      ghost var a, y, b;
      rest, a, y, b := BothBelow(low, sel, topRowIndex, bottomRowIndex);
      FoldBeforeStart(dom, BottomFold, sel.start, sel.end, front, a, y, b);
    }
  }

  lemma NoneBelow(low: seq<Node>, sel: Selection, top: int, bottom: int) returns (rest: seq<Node>)
    requires Distinct(low) && Rows(sel) && HoldsFrom(low, sel, top) && (sel.NoSelection? || sel.end.index <= bottom)
    ensures rest == Without(low, BottomFold) && HoldsWithin(rest, sel, top, bottom) && forall x | x in rest :: x in low && x != BottomFold
    ensures BelowFold(sel, bottom) == []
  {
    hide Distinct, Without, Ordered;
    rest := Without(low, BottomFold);
    if sel.Selected? {
      WithoutKeepsOrder(low, BottomFold, sel.start, sel.end);
    }
  }

  lemma OneBelow(low: seq<Node>, sel: Selection, top: int, bottom: int) returns (rest: seq<Node>, a: seq<Node>, b: seq<Node>)
    requires Distinct(low) && Rows(sel) && HoldsFrom(low, sel, top) && top <= bottom + 1
    requires sel.Selected? && sel.end.index > bottom && (!Multiline(sel) || sel.start.index <= bottom)
    ensures low == a + [sel.end] + b && rest == Without(a, BottomFold)
    ensures HoldsWithin(rest, sel, top, bottom) && forall x | x in rest :: x in low && x != BottomFold
    ensures forall x | x in b :: !IsEnd(x, sel)
    ensures BelowFold(sel, bottom) == [sel.end] && sel.end.Row?
  {
    hide Distinct, Without, Ordered, Position;
    Split(low, sel.end);
    var p := Position(low, sel.end);
    a, b := low[..p], low[p + 1..];
    EndBelow(a, b, sel);
    rest := Without(a, BottomFold);
    NotBoth(rest, sel.start, sel.end);
  }

  lemma BothBelow(low: seq<Node>, sel: Selection, top: int, bottom: int) returns (rest: seq<Node>, a: seq<Node>, y: seq<Node>, b: seq<Node>)
    requires Distinct(low) && Rows(sel) && HoldsFrom(low, sel, top) && top <= bottom + 1
    requires sel.Selected? && sel.end.index > bottom && Multiline(sel) && sel.start.index > bottom
    ensures low == a + [sel.start] + y + [sel.end] + b && rest == Without(a, BottomFold)
    ensures HoldsWithin(rest, sel, top, bottom) && forall x | x in rest :: x in low && x != BottomFold
    ensures forall x | x in y || x in b :: !IsEnd(x, sel)
    ensures BelowFold(sel, bottom) == [sel.start, sel.end] && sel.start.Row? && sel.end.Row?
  {
    hide Distinct, Without, Ordered, Position;
    SplitPair(low, sel.start, sel.end);
    var p, q := Position(low, sel.start), Position(low, sel.end);
    a, y, b := low[..p], low[p + 1..q], low[q + 1..];
    PiecesOf(a, sel.start, y, sel.end, b);
    rest := Without(a, BottomFold);
    NotBoth(rest, sel.start, sel.end);
  }

  lemma NoFoldAbove(sel: Selection, top: int)
    requires Rows(sel)
    ensures BottomFold !in AboveFold(sel, top) + [TopFold] && !IsEnd(BottomFold, sel)
  {
  }

  /** With the end of the selection taken out of a list its start is before it, or not in the list. */
  lemma EndBelow(a: seq<Node>, b: seq<Node>, sel: Selection)
    requires sel.Selected? && Distinct(a + [sel.end] + b) && Ordered(a + [sel.end] + b, sel.start, sel.end)
    ensures sel.end !in a && sel.end !in b && sel.start !in b
    ensures sel.start in a <==> sel.start in a + [sel.end] + b && sel.start != sel.end
    ensures forall x | x in a || x in b :: x in a + [sel.end] + b
  {
    hide Distinct, Ordered;
    AroundNode(a, sel.end, b);
    if sel.end != sel.start && sel.start in a + [sel.end] + b {
      InOrder(a, sel.end, b, sel.start, sel.end);
    }
  }

  // ----- what a redraw shows

  /** The list shows the rows from `top` on: the folds stand at `t` and `b`, and between them as many
      rows as are visible or as there are, each the provider's. Outside of the folds are ends of the
      selection alone, from rows that are out of sight, and no end is missing. All rows stand in the
      order of their indices, each once. */
  ghost predicate Displays(c: seq<Node>, rows: int -> Option<Node>, sel: Selection, top: int, visible: nat, rowCount: nat, t: nat, b: nat) {
    && t < b < |c| && c[t] == TopFold && c[b] == BottomFold
    && b - t - 1 <= visible && b - t - 1 <= rowCount && (b - t - 1 == visible || b - t - 1 == rowCount)
    && (forall i | t < i < b :: rows(top + (i - t - 1)) == Some(c[i]))
    && (forall i | 0 <= i < t :: IsEnd(c[i], sel) && c[i].Row? && c[i].index < top)
    && (forall i | b < i < |c| :: IsEnd(c[i], sel) && c[i].Row? && c[i].index >= top + visible)
    && (forall i, j | 0 <= i < j < |c| && c[i].Row? && c[j].Row? :: c[i].index < c[j].index)
    && (sel.Selected? ==> sel.start in c && sel.end in c)
  }

  lemma RedrawDisplays(c0: seq<Node>, c: seq<Node>, rows: int -> Option<Node>, sel: Selection, top: nat, visible: nat, rowCount: nat)
    requires Rows(sel) && Indexed(rows) && Holds(c0, sel) && (sel.Selected? ==> sel.end.index < rowCount)
    requires var n := Min(visible, rowCount);
             && Coherent(c0, rows, top, top + n) && Available(rows, top, n) == n
             && c == AboveFold(sel, top) + [TopFold] + Wanted(rows, top, n) + [BottomFold] + BelowFold(sel, top + visible - 1)
    ensures exists t, b :: Displays(c, rows, sel, top, visible, rowCount, t, b)
  {
    hide *;
    var n := Min(visible, rowCount);
    var above, below := AboveFold(sel, top), BelowFold(sel, top + visible - 1);
    var t, b := |above|, |above| + 1 + n;
    MinIsOne(visible, rowCount);
    DrawnAre(rows, sel, top, visible, n, c);
    InRowOrder(c, t, b, top, visible);
    if sel.Selected? {
      EndsAreThere(c0, sel);
      EndIsShown(c0, c, rows, sel, sel.start, top, visible, rowCount);
      EndIsShown(c0, c, rows, sel, sel.end, top, visible, rowCount);
    }
    DisplaysIf(c, rows, sel, top, visible, rowCount, t, b);
  }

  lemma DrawnAre(rows: int -> Option<Node>, sel: Selection, top: nat, visible: nat, n: nat, c: seq<Node>)
    requires Rows(sel) && Indexed(rows) && Available(rows, top, n) == n
    requires c == AboveFold(sel, top) + [TopFold] + Wanted(rows, top, n) + [BottomFold] + BelowFold(sel, top + visible - 1)
    ensures var t, b := |AboveFold(sel, top)|, |AboveFold(sel, top)| + 1 + n;
            && t < b < |c| && c[t] == TopFold && c[b] == BottomFold
            && (forall i | 0 <= i < t :: IsEnd(c[i], sel) && c[i].Row? && c[i].index < top)
            && (forall i | t < i < b :: rows(top + (i - t - 1)) == Some(c[i]) && c[i].Row? && c[i].index == top + (i - t - 1))
            && (forall i | b < i < |c| :: IsEnd(c[i], sel) && c[i].Row? && c[i].index >= top + visible)
            && Increasing(c[..t]) && Increasing(c[b + 1..])
  {
    hide *;
    FoldsHoldEnds(sel, top, top + visible - 1);
    WantedAre(rows, top, n);
    PiecesLie(AboveFold(sel, top), Wanted(rows, top, n), BelowFold(sel, top + visible - 1), c);
  }

  lemma MinIsOne(a: nat, b: nat)
    ensures Min(a, b) <= a && Min(a, b) <= b && (Min(a, b) == a || Min(a, b) == b)
  {
  }

  /** Outside of the folds stand ends of the selection that are out of sight, in order. */
  lemma FoldsHoldEnds(sel: Selection, top: int, bottom: int)
    requires Rows(sel)
    ensures forall i | 0 <= i < |AboveFold(sel, top)| ::
              var x := AboveFold(sel, top)[i]; IsEnd(x, sel) && x.Row? && x.index < top
    ensures forall i | 0 <= i < |BelowFold(sel, bottom)| ::
              var x := BelowFold(sel, bottom)[i]; IsEnd(x, sel) && x.Row? && x.index > bottom
    ensures Increasing(AboveFold(sel, top)) && Increasing(BelowFold(sel, bottom))
  {
  }

  ghost predicate Increasing(nodes: seq<Node>) {
    forall i, j | 0 <= i < j < |nodes| :: nodes[i].Row? && nodes[j].Row? && nodes[i].index < nodes[j].index
  }

  lemma PiecesLie(above: seq<Node>, shown: seq<Node>, below: seq<Node>, c: seq<Node>)
    requires c == above + [TopFold] + shown + [BottomFold] + below
    ensures var t, b := |above|, |above| + 1 + |shown|;
            && |c| == b + 1 + |below| && c[t] == TopFold && c[b] == BottomFold
            && (forall i | 0 <= i < t :: c[i] == above[i])
            && (forall i | t < i < b :: c[i] == shown[i - t - 1])
            && (forall i | b < i < |c| :: c[i] == below[i - b - 1])
            && (Increasing(above) ==> Increasing(c[..t])) && (Increasing(below) ==> Increasing(c[b + 1..]))
  {
    hide Increasing;
    var t, b := |above|, |above| + 1 + |shown|;
    assert c[..t] == above && c[b + 1..] == below;
  }

  lemma WantedAre(rows: int -> Option<Node>, top: int, n: nat)
    requires Indexed(rows) && Available(rows, top, n) == n
    ensures (forall i | top <= i < top + n :: rows(i).Some?) && |Wanted(rows, top, n)| == n
    ensures forall i | 0 <= i < n ::
              rows(top + i) == Some(Wanted(rows, top, n)[i]) && Wanted(rows, top, n)[i].Row? && Wanted(rows, top, n)[i].index == top + i
  {
    hide Available;
  }

  lemma InRowOrder(c: seq<Node>, t: nat, b: nat, top: int, visible: nat)
    requires t < b < |c| && b - t - 1 <= visible && c[t] == TopFold && c[b] == BottomFold
    requires Increasing(c[..t]) && Increasing(c[b + 1..])
    requires forall i | 0 <= i < t :: c[i].Row? && c[i].index < top
    requires forall i | t < i < b :: c[i].Row? && c[i].index == top + (i - t - 1)
    requires forall i | b < i < |c| :: c[i].Row? && c[i].index >= top + visible
    ensures forall i, j | 0 <= i < j < |c| && c[i].Row? && c[j].Row? :: c[i].index < c[j].index
  {
    forall i, j | 0 <= i < j < |c| && c[i].Row? && c[j].Row? ensures c[i].index < c[j].index {
      if j < t {
        assert c[i] == c[..t][i] && c[j] == c[..t][j];
      } else if i > b {
        assert c[i] == c[b + 1..][i - b - 1] && c[j] == c[b + 1..][j - b - 1];
      }
    }
  }

  lemma EndsAreThere(c0: seq<Node>, sel: Selection)
    requires Holds(c0, sel) && sel.Selected?
    ensures sel.start in c0 && sel.end in c0
  {
  }

  lemma DisplaysIf(c: seq<Node>, rows: int -> Option<Node>, sel: Selection, top: int, visible: nat, rowCount: nat, t: nat, b: nat)
    requires t < b < |c| && c[t] == TopFold && c[b] == BottomFold
    requires b - t - 1 <= visible && b - t - 1 <= rowCount && (b - t - 1 == visible || b - t - 1 == rowCount)
    requires forall i | t < i < b :: rows(top + (i - t - 1)) == Some(c[i])
    requires forall i | 0 <= i < t :: IsEnd(c[i], sel) && c[i].Row? && c[i].index < top
    requires forall i | b < i < |c| :: IsEnd(c[i], sel) && c[i].Row? && c[i].index >= top + visible
    requires forall i, j | 0 <= i < j < |c| && c[i].Row? && c[j].Row? :: c[i].index < c[j].index
    requires sel.Selected? ==> sel.start in c && sel.end in c
    ensures Displays(c, rows, sel, top, visible, rowCount, t, b)
  {
    hide IsEnd;
  }

  lemma EndIsShown(c0: seq<Node>, c: seq<Node>, rows: int -> Option<Node>, sel: Selection, end: Node, top: nat, visible: nat, rowCount: nat)
    requires Rows(sel) && sel.Selected? && (end == sel.start || end == sel.end) && end in c0 && sel.end.index < rowCount
    requires var n := Min(visible, rowCount);
             && Coherent(c0, rows, top, top + n) && Available(rows, top, n) == n
             && c == AboveFold(sel, top) + [TopFold] + Wanted(rows, top, n) + [BottomFold] + BelowFold(sel, top + visible - 1)
    ensures end in c
  {
    hide Available;
    var n := Min(visible, rowCount);
    if top <= end.index < top + visible {
      assert end.index < top + n;
      assert Wanted(rows, top, n)[end.index - top] == end;
    }
  }

  /** A row is missing exactly if fewer rows are available than wanted. */
  lemma {:induction false} MissingMeans(rows: int -> Option<Node>, top: int, n: nat)
    ensures Available(rows, top, n) < n <==> exists i :: top <= i < top + n && rows(i).None?
    decreases n
  {
  }

  // ----- the redraw

  /** redraw_: whatever the list was before, the folds then enclose exactly the rows from the top
      row on, in order, and the ends of the selection that are out of sight stand right outside of
      the folds. No end of the selection has been taken out of the list on the way. */
  method Redraw(dom: RowNodes, rows: int -> Option<Node>, sel: Selection, topRowIndex: nat, visibleRowCount: nat, rowCount: nat)
    returns (thrown: bool)
    requires Distinct(dom.children) && Rows(sel) && Holds(dom.children, sel) && Indexed(rows)
    requires sel.Selected? ==> sel.end.index < rowCount
    requires Coherent(dom.children, rows, topRowIndex, topRowIndex + Min(visibleRowCount, rowCount))
    modifies dom
    ensures !thrown ==> exists t, b :: Displays(dom.children, rows, sel, topRowIndex, visibleRowCount, rowCount, t, b)
    ensures thrown <==> exists i :: topRowIndex <= i < topRowIndex + Min(visibleRowCount, rowCount) && rows(i).None?
    ensures var n := Min(visibleRowCount, rowCount);
            !thrown ==>
              dom.children == AboveFold(sel, topRowIndex) + [TopFold] + Wanted(rows, topRowIndex, Available(rows, topRowIndex, n))
                              + [BottomFold] + BelowFold(sel, topRowIndex + visibleRowCount - 1)
    ensures forall x | IsEnd(x, sel) :: x in dom.disturbed <==> x in old(dom.disturbed)
  {
    hide Distinct, Rows, Holds, Coherent, Available, Wanted, Min, IsEnd, HoldsFrom, HoldsWithin, AboveFold, BelowFold, Under, Left, Tail, Displays;
    var n := Min(visibleRowCount, rowCount);
    var bottomRowIndex := topRowIndex + visibleRowCount - 1;
    ghost var c := dom.children;
    ghost var low := DrawTopFold(dom, sel, topRowIndex);
    ghost var rest := DrawBottomFold(dom, sel, bottomRowIndex, topRowIndex, low);
    ghost var above, below := AboveFold(sel, topRowIndex), BelowFold(sel, bottomRowIndex);
    MinIsLess(visibleRowCount, rowCount);
    OutOfSight(sel, topRowIndex, bottomRowIndex, topRowIndex + n);
    Prepared(dom, rows, topRowIndex, above, rest, below);
    ReadyToDraw(c, rest, rows, sel, topRowIndex, visibleRowCount, rowCount);
    thrown := DrawVisibleRows(dom, rows, sel, true, topRowIndex, visibleRowCount, rowCount, above, rest, below);
    AvailableBound(rows, topRowIndex, n);
    MissingMeans(rows, topRowIndex, n);
    if !thrown {
      RedrawDisplays(c, dom.children, rows, sel, topRowIndex, visibleRowCount, rowCount);
    }
  }

  lemma MinIsLess(a: nat, b: nat)
    ensures Min(a, b) <= a && Min(a, b) <= b
  {
  }

  lemma AvailableBound(rows: int -> Option<Node>, top: int, n: nat)
    ensures Available(rows, top, n) <= n
  {
  }

  lemma OutOfSight(sel: Selection, top: int, bottom: int, to: int)
    requires Rows(sel) && to <= bottom + 1
    ensures forall x | x in AboveFold(sel, top) || x in BelowFold(sel, bottom) :: x.Row? ==> !(top <= x.index < to)
  {
  }

  lemma ReadyToDraw(c: seq<Node>, rest: seq<Node>, rows: int -> Option<Node>, sel: Selection, top: nat, visibleRowCount: nat, rowCount: nat)
    requires Rows(sel) && HoldsWithin(rest, sel, top, top + visibleRowCount - 1) && Distinct(rest)
    requires sel.Selected? ==> sel.end.index < rowCount
    requires Coherent(c, rows, top, top + Min(visibleRowCount, rowCount))
    requires forall x | x in rest :: x in c && x != TopFold && x != BottomFold
    ensures Left(rest, sel, rows, top, top + Min(visibleRowCount, rowCount))
  {
    hide Distinct, Ordered;
  }

  lemma Prepared(dom: RowNodes, rows: int -> Option<Node>, top: int, above: seq<Node>, rest: seq<Node>, below: seq<Node>)
    requires dom.children == above + [TopFold] + rest + [BottomFold] + below && Distinct(dom.children)
    ensures Under(dom, rows, top, 0, above, rest, below, Tail(rest, below)[0]) && Distinct(rest)
  {
    hide Distinct;
    assert above + [TopFold] + rest + [BottomFold] + below == above + [TopFold] + [] + Tail(rest, below);
    AssociatesInner(above + [TopFold], rest, [BottomFold], below);
    DistinctParts(above + [TopFold], rest + [BottomFold] + below);
    Associates(rest, [BottomFold], below);
    DistinctParts(rest, [BottomFold] + below);
  }
}
