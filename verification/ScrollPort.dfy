/** hterm.ScrollPort's redraw: the list of visible nodes is brought up to date around the two
    rows where the selection starts and ends, which must not be touched. */
module ScrollPort {
  import opened JsText

  /** The children of the row container: the two folds and row elements. */
  datatype Node = TopFold | BottomFold | Row(index: int, id: nat)

  predicate Distinct(s: seq<Node>) {
    forall i, j | 0 <= i < j < |s| :: s[i] != s[j]
  }

  function Without(s: seq<Node>, n: Node): (r: seq<Node>)
    ensures n !in r && |r| <= |s|
    ensures forall x :: x in r <==> x in s && x != n
  {
    if s == [] then [] else (if s[0] == n then [] else [s[0]]) + Without(s[1..], n)
  }

  lemma {:induction false} WithoutAbsent(s: seq<Node>, n: Node)
    requires n !in s
    ensures Without(s, n) == s
  {
    if s != [] {
      WithoutAbsent(s[1..], n);
      assert s == [s[0]] + s[1..];
    }
  }

  lemma WithoutCons(x: Node, s: seq<Node>, n: Node)
    ensures Without([x] + s, n) == (if x == n then [] else [x]) + Without(s, n)
  {
    assert ([x] + s)[1..] == s;
  }

  lemma {:induction false} WithoutConcat(a: seq<Node>, b: seq<Node>, n: Node)
    ensures Without(a + b, n) == Without(a, n) + Without(b, n)
  {
    hide *;
    if a == [] {
      assert a + b == b && Without(a, n) + Without(b, n) == Without(b, n) by { WithoutAbsent([], n); }
    } else {
      assert a == [a[0]] + a[1..] && a + b == [a[0]] + (a[1..] + b);
      WithoutCons(a[0], a[1..], n);
      WithoutCons(a[0], a[1..] + b, n);
      WithoutConcat(a[1..], b, n);
      Associates(if a[0] == n then [] else [a[0]], Without(a[1..], n), Without(b, n));
    }
  }

  lemma {:induction false} WithoutStaysDistinct(s: seq<Node>, n: Node)
    requires Distinct(s)
    ensures Distinct(Without(s, n))
  {
    if s != [] {
      WithoutStaysDistinct(s[1..], n);
      DistinctParts([s[0]], s[1..]);
      assert s == [s[0]] + s[1..];
      if s[0] != n {
        DistinctJoin([s[0]], Without(s[1..], n));
      }
    }
  }

  lemma DistinctParts(a: seq<Node>, b: seq<Node>)
    requires Distinct(a + b)
    ensures Distinct(a) && Distinct(b)
    ensures forall x | x in a :: x !in b
  {
    assert forall i | 0 <= i < |a| :: (a + b)[i] == a[i];
    assert forall i | 0 <= i < |b| :: (a + b)[|a| + i] == b[i];
  }

  lemma DistinctJoin(a: seq<Node>, b: seq<Node>)
    requires Distinct(a) && Distinct(b) && forall x | x in a :: x !in b
    ensures Distinct(a + b)
  {
    var s := a + b;
    forall i, j | 0 <= i < j < |s| ensures s[i] != s[j] {
      assert s[i] == if i < |a| then a[i] else b[i - |a|];
      assert s[j] == if j < |a| then a[j] else b[j - |a|];
      assert i < |a| ==> a[i] in a;
      assert j >= |a| ==> b[j - |a|] in b;
    }
  }

  /** The position of a node in a list that holds it. */
  function Position(s: seq<Node>, n: Node): (i: nat)
    requires n in s
    ensures i < |s| && s[i] == n && n !in s[..i]
  {
    if s[0] == n then 0 else 1 + Position(s[1..], n)
  }

  lemma PositionAfter(front: seq<Node>, n: Node, tail: seq<Node>)
    requires Distinct(front + [n] + tail)
    ensures n in front + [n] + tail && Position(front + [n] + tail, n) == |front|
  {
    var s := front + [n] + tail;
    assert s[|front|] == n;
    assert s[Position(s, n)] == s[|front|];
  }

  // ----- the DOM

  /** The row container. `disturbed` records the nodes that have been taken out of the list,
      also on the way to another place in it; that is what ends a selection in them. */
  class RowNodes {
    var children: seq<Node>
    ghost var disturbed: set<Node>

    constructor (children: seq<Node>)
      ensures this.children == children && disturbed == {}
    {
      this.children := children;
      disturbed := {};
    }

    /** insertBefore: a node that is in the list already is moved. */
    method InsertBefore(n: Node, ref: Node)
      requires ref in children && n != ref
      modifies this
      ensures n !in old(children) ==> disturbed == old(disturbed)
      ensures n in old(children) ==> disturbed == old(disturbed) + {n}
      ensures var rest := Without(old(children), n);
              ref in rest && children == rest[..Position(rest, ref)] + [n] + rest[Position(rest, ref)..]
    {
      var rest := Without(children, n);
      if n in children {
        disturbed := disturbed + {n};
      } else {
        WithoutAbsent(children, n);
      }
      var i := Position(rest, ref);
      children := rest[..i] + [n] + rest[i..];
    }

    /** appendChild, and insertBefore without a reference node. */
    method AppendChild(n: Node)
      modifies this
      ensures disturbed == if n in old(children) then old(disturbed) + {n} else old(disturbed)
      ensures children == Without(old(children), n) + [n]
    {
      if n in children {
        disturbed := disturbed + {n};
      }
      children := Without(children, n) + [n];
    }

    method RemoveChild(n: Node)
      requires n in children
      modifies this
      ensures children == Without(old(children), n) && disturbed == old(disturbed) + {n}
    {
      disturbed := disturbed + {n};
      children := Without(children, n);
    }

    function NextSibling(n: Node): Option<Node>
      requires n in children
      reads this
    {
      var i := Position(children, n);
      if i + 1 < |children| then Some(children[i + 1]) else None
    }
  }

  // ----- list operations at a known place

  /** A node put in front of the first of `tail`, from wherever it may be. */
  lemma InsertAt(front: seq<Node>, tail: seq<Node>, n: Node)
    requires Distinct(front + tail) && tail != [] && n != tail[0]
    ensures var rest := Without(front + tail, n);
            && tail[0] in rest && rest[..Position(rest, tail[0])] + [n] + rest[Position(rest, tail[0])..] == Without(front, n) + [n] + Without(tail, n)
            && Distinct(Without(front, n) + [n] + Without(tail, n))
  {
    hide Without, Position, Distinct;
    WithoutConcat(front, tail, n);
    WithoutStaysDistinct(front + tail, n);
    assert tail == [tail[0]] + tail[1..];
    WithoutCons(tail[0], tail[1..], n);
    var before, later := Without(front, n), Without(tail[1..], n);
    var rest := Without(front + tail, n);
    Associates(before, [tail[0]], later);
    assert rest == before + [tail[0]] + later;
    PositionAfter(before, tail[0], later);
    var i := |before|;
    assert rest[..i] == before && rest[i..] == [tail[0]] + later;
    DistinctBetween(before, n, Without(tail, n));
  }

  lemma DistinctBetween(front: seq<Node>, n: Node, tail: seq<Node>)
    requires Distinct(front + tail) && n !in front && n !in tail
    ensures Distinct(front + [n] + tail)
  {
    hide Distinct;
    DistinctParts(front, tail);
    DistinctAlone(n);
    DistinctJoin(front, [n]);
    DistinctJoin(front + [n], tail);
  }

  lemma DistinctAlone(n: Node)
    ensures Distinct([n])
  {
  }

  /** The first of `tail` is removed. */
  lemma RemoveAt(front: seq<Node>, tail: seq<Node>)
    requires Distinct(front + tail) && tail != []
    ensures Without(front + tail, tail[0]) == front + tail[1..] && Distinct(front + tail[1..])
  {
    hide Without, Distinct;
    var n := tail[0];
    WithoutConcat(front, tail, n);
    assert tail == [n] + tail[1..];
    DistinctParts(front, tail);
    DistinctParts([n], tail[1..]);
    WithoutAbsent(front, n);
    WithoutCons(n, tail[1..], n);
    WithoutAbsent(tail[1..], n);
    WithoutStaysDistinct(front + tail, n);
    assert [] + tail[1..] == tail[1..];
  }

  // ----- the visible rows

  datatype Selection = NoSelection | Selected(start: Node, end: Node)

  /** The provider's rows from `top` on. */
  function Wanted(provider: int -> Option<Node>, top: int, n: nat): (r: seq<Node>)
    requires forall i | top <= i < top + n :: provider(i).Some?
    ensures |r| == n && forall i | 0 <= i < n :: r[i] == provider(top + i).value
  {
    seq(n, i requires 0 <= i < n => provider(top + i).value)
  }

  /** How many rows from `top` on the provider has, up to `n`. */
  function Available(provider: int -> Option<Node>, top: int, n: nat): (k: nat)
    ensures k <= n && (forall i | top <= i < top + k :: provider(i).Some?) && (k < n ==> provider(top + k).None?)
    decreases n
  {
    if n == 0 || provider(top).None? then 0 else 1 + Available(provider, top + 1, n - 1)
  }

  /** The provider's rows carry their index. */
  ghost predicate Indexed(provider: int -> Option<Node>) {
    forall i :: provider(i).Some? ==> provider(i).value.Row? && provider(i).value.index == i
  }

  /** Of the rows wanted, only the provider's own elements are in the list. */
  predicate Coherent(nodes: seq<Node>, provider: int -> Option<Node>, top: int, bottom: int) {
    forall x | x in nodes && x.Row? && top <= x.index < bottom :: provider(x.index) == Some(x)
  }

  /** `s` does not come after `e`. */
  predicate Ordered(nodes: seq<Node>, s: Node, e: Node) {
    forall i, j | 0 <= i < |nodes| && 0 <= j < |nodes| && nodes[i] == e && nodes[j] == s :: j <= i
  }

  predicate Rows(sel: Selection) {
    sel.Selected? ==>
      && sel.start.Row? && sel.end.Row? && sel.start.index <= sel.end.index
      && (sel.start.index == sel.end.index ==> sel.start == sel.end)
  }

  /** The ends of the selection are among the nodes exactly if their rows are still to come, and
      in their order. */
  predicate Ahead(nodes: seq<Node>, sel: Selection, from: int, to: int)
    requires Rows(sel)
  {
    sel.Selected? ==>
      && (sel.start in nodes <==> from <= sel.start.index < to)
      && (sel.end in nodes <==> from <= sel.end.index < to)
      && Ordered(nodes, sel.start, sel.end)
  }

  predicate IsEnd(n: Node, sel: Selection) {
    sel.Selected? && (n == sel.start || n == sel.end)
  }

  lemma {:induction false} WithoutKeepsOrder(nodes: seq<Node>, n: Node, s: Node, e: Node)
    requires Ordered(nodes, s, e) && Distinct(nodes)
    ensures Ordered(Without(nodes, n), s, e)
  {
    if nodes != [] {
      OrderedTail(nodes, s, e);
      DistinctTail(nodes);
      WithoutKeepsOrder(nodes[1..], n, s, e);
      var rest := Without(nodes[1..], n);
      if nodes[0] != n {
        assert Without(nodes, n) == [nodes[0]] + rest;
        if nodes[0] == e {
          assert forall j | 0 <= j < |nodes| && nodes[j] == s :: j <= 0;
          assert s != e ==> s !in nodes[1..];
        }
        OrderedCons(nodes[0], rest, s, e);
      }
    }
  }

  lemma DistinctTail(nodes: seq<Node>)
    requires Distinct(nodes) && nodes != []
    ensures Distinct(nodes[1..]) && nodes[0] !in nodes[1..]
  {
    assert nodes == [nodes[0]] + nodes[1..];
    DistinctParts([nodes[0]], nodes[1..]);
  }

  lemma OrderedTail(nodes: seq<Node>, s: Node, e: Node)
    requires Ordered(nodes, s, e) && nodes != []
    ensures Ordered(nodes[1..], s, e)
  {
    forall i, j | 0 <= i < |nodes| - 1 && 0 <= j < |nodes| - 1 && nodes[1..][i] == e && nodes[1..][j] == s ensures j <= i {
      assert nodes[i + 1] == e && nodes[j + 1] == s;
    }
  }

  lemma OrderedCons(x: Node, rest: seq<Node>, s: Node, e: Node)
    requires Ordered(rest, s, e) && x !in rest && (x == e ==> s == e || s !in rest)
    ensures Ordered([x] + rest, s, e)
  {
    var nodes := [x] + rest;
    forall i, j | 0 <= i < |nodes| && 0 <= j < |nodes| && nodes[i] == e && nodes[j] == s ensures j <= i {
      assert j > 0 ==> nodes[j] == rest[j - 1] && rest[j - 1] in rest;
      assert i > 0 ==> nodes[i] == rest[i - 1] && rest[i - 1] in rest;
    }
  }

  /** A suffix that starts after an end of the selection whose row it is, or after a node that is
      no end of it. */
  lemma AheadTail(nodes: seq<Node>, sel: Selection, from: int, to: int)
    requires Rows(sel) && Ahead(nodes, sel, from, to) && nodes != [] && Distinct(nodes)
    requires IsEnd(nodes[0], sel) ==> nodes[0].index == from
    requires sel.Selected? ==> (sel.start.index == from < to ==> nodes[0] == sel.start) && (sel.end.index == from < to ==> nodes[0] == sel.end)
    ensures Ahead(nodes[1..], sel, from + 1, to)
  {
    if sel.Selected? {
      DistinctTail(nodes);
      OrderedTail(nodes, sel.start, sel.end);
      assert nodes == [nodes[0]] + nodes[1..];
    }
  }

  lemma {:induction false} AheadSkip(nodes: seq<Node>, i: nat, sel: Selection, from: int, to: int)
    requires Rows(sel) && Ahead(nodes, sel, from, to) && i <= |nodes| && Distinct(nodes)
    requires forall k | 0 <= k < i :: !IsEnd(nodes[k], sel)
    ensures Ahead(nodes[i..], sel, from, to) && Distinct(nodes[i..])
    decreases i
  {
    hide Ahead, Distinct, IsEnd;
    if i == 0 {
      assert nodes[0..] == nodes;
    } else {
      AheadDrop(nodes, sel, from, to);
      AheadSkip(nodes[1..], i - 1, sel, from, to);
      assert nodes[1..][i - 1..] == nodes[i..];
    }
  }

  lemma AheadDrop(nodes: seq<Node>, sel: Selection, from: int, to: int)
    requires Rows(sel) && Ahead(nodes, sel, from, to) && nodes != [] && Distinct(nodes) && !IsEnd(nodes[0], sel)
    ensures Ahead(nodes[1..], sel, from, to) && Distinct(nodes[1..])
  {
    DistinctTail(nodes);
    assert nodes == [nodes[0]] + nodes[1..];
    if sel.Selected? {
      OrderedTail(nodes, sel.start, sel.end);
    }
  }

  lemma AheadWithout(nodes: seq<Node>, n: Node, sel: Selection, from: int, to: int)
    requires Rows(sel) && Ahead(nodes, sel, from, to) && Distinct(nodes) && !IsEnd(n, sel)
    ensures Ahead(Without(nodes, n), sel, from, to) && Distinct(Without(nodes, n))
  {
    hide Without;
    WithoutStaysDistinct(nodes, n);
    if sel.Selected? {
      WithoutKeepsOrder(nodes, n, sel.start, sel.end);
    }
  }

  lemma AheadNext(nodes: seq<Node>, sel: Selection, from: int, to: int)
    requires Rows(sel) && Ahead(nodes, sel, from, to)
    requires sel.Selected? ==> sel.start.index != from && sel.end.index != from
    ensures Ahead(nodes, sel, from + 1, to)
  {
  }

  /** Ends of the selection that are looked for come before any other end. */
  lemma EndsBefore(nodes: seq<Node>, sel: Selection, from: int, to: int, target: Node)
    requires Rows(sel) && Ahead(nodes, sel, from, to) && Distinct(nodes) && sel.Selected? && from < to
    requires target == sel.start || (target == sel.end && sel.start.index != from)
    requires target.index == from
    ensures target in nodes && forall k | 0 <= k < Position(nodes, target) :: !IsEnd(nodes[k], sel)
    ensures sel.start.index == from ==> target == sel.start
    ensures sel.end.index == from ==> target == sel.end
  {
    var p := Position(nodes, target);
    forall k | 0 <= k < p ensures !IsEnd(nodes[k], sel) {
      assert nodes[k] != nodes[p];
      assert nodes[k] in nodes;
    }
  }

  // ----- drawing

  /** What is left of the nodes between the folds when the row `index` has been drawn. */
  function NextRest(rest: seq<Node>, sel: Selection, row: Node, index: int): seq<Node>
    requires forall x | x in rest :: x.Row?
    requires Rows(sel) && (sel.Selected? ==> (sel.start.index == index ==> sel.start in rest) && (sel.end.index == index ==> sel.end in rest))
  {
    if rest == [] then []
    else if rest[0].index == index then rest[1..]
    else if sel.Selected? && sel.start.index == index then rest[Position(rest, sel.start) + 1..]
    else if sel.Selected? && sel.end.index == index then rest[Position(rest, sel.end) + 1..]
    else if IsEnd(rest[0], sel) then Without(rest, row)
    else Without(rest[1..], row)
  }

  /** What holds of the nodes between the folds that have still to be dealt with. */
  ghost predicate Left(rest: seq<Node>, sel: Selection, provider: int -> Option<Node>, from: int, to: int) {
    && (forall x | x in rest :: x.Row?) && Distinct(rest)
    && Rows(sel) && Ahead(rest, sel, from, to) && Coherent(rest, provider, from, to)
  }

  lemma LeftFacts(rest: seq<Node>, sel: Selection, provider: int -> Option<Node>, from: int, to: int)
    requires Left(rest, sel, provider, from, to) && from < to
    ensures sel.Selected? ==> (sel.start.index == from ==> sel.start in rest) && (sel.end.index == from ==> sel.end in rest)
    ensures forall x | x in rest && x.index == from :: provider(from) == Some(x)
  {
  }

  /** Drawing one row keeps all of that, one row further on. */
  lemma LeftNext(rest: seq<Node>, sel: Selection, provider: int -> Option<Node>, from: int, to: int)
    requires Left(rest, sel, provider, from, to) && from < to && provider(from).Some? && Indexed(provider)
    ensures sel.Selected? ==> (sel.start.index == from ==> sel.start in rest) && (sel.end.index == from ==> sel.end in rest)
    ensures Left(NextRest(rest, sel, provider(from).value, from), sel, provider, from + 1, to)
  {
    hide Distinct, Ahead, Without, Position;
    LeftFacts(rest, sel, provider, from, to);
    var row := provider(from).value;
    var next := NextRest(rest, sel, row, from);
    SelectionAhead(rest, sel, from, to);
    if rest == [] {
      AheadNext(rest, sel, from, to);
    } else if rest[0].index == from {
      InPlaceNext(rest, sel, from, to);
    } else if sel.Selected? && sel.start.index == from {
      AfterEnd(rest, sel, from, to, sel.start);
    } else if sel.Selected? && sel.end.index == from {
      AfterEnd(rest, sel, from, to, sel.end);
    } else if IsEnd(rest[0], sel) {
      AheadWithout(rest, row, sel, from, to);
      AheadNext(Without(rest, row), sel, from, to);
    } else {
      AheadDrop(rest, sel, from, to);
      AheadWithout(rest[1..], row, sel, from, to);
      AheadNext(Without(rest[1..], row), sel, from, to);
    }
  }

  lemma SelectionAhead(rest: seq<Node>, sel: Selection, from: int, to: int)
    requires Rows(sel) && Ahead(rest, sel, from, to) && from < to
    ensures sel.Selected? ==> (sel.start.index == from ==> sel.start in rest) && (sel.end.index == from ==> sel.end in rest)
  {
  }

  lemma InPlaceNext(rest: seq<Node>, sel: Selection, from: int, to: int)
    requires rest != [] && Distinct(rest) && Rows(sel) && Ahead(rest, sel, from, to) && from < to
    requires forall x | x in rest :: x.Row?
    requires forall x | x in rest && x.index == from :: x == rest[0]
    requires rest[0].index == from
    ensures Ahead(rest[1..], sel, from + 1, to) && Distinct(rest[1..])
  {
    AheadTail(rest, sel, from, to);
    DistinctTail(rest);
  }

  lemma AfterEnd(rest: seq<Node>, sel: Selection, from: int, to: int, target: Node)
    requires Rows(sel) && Ahead(rest, sel, from, to) && Distinct(rest) && sel.Selected? && from < to
    requires target == sel.start || (target == sel.end && sel.start.index != from)
    requires target.index == from
    ensures target in rest
    ensures Ahead(rest[Position(rest, target) + 1..], sel, from + 1, to) && Distinct(rest[Position(rest, target) + 1..])
    ensures forall x | x in rest[..Position(rest, target)] :: !IsEnd(x, sel)
  {
    hide Ahead, Distinct, IsEnd, Position;
    EndsBefore(rest, sel, from, to, target);
    var p := Position(rest, target);
    AheadSkip(rest, p, sel, from, to);
    var tail := rest[p..];
    assert tail[0] == target && tail[1..] == rest[p + 1..];
    AheadTail(tail, sel, from, to);
    DistinctTail(tail);
  }

  /** Puts `n` in front of `node`, the first of `tail`. */
  method InsertRow(dom: RowNodes, n: Node, node: Node, ghost front: seq<Node>, ghost tail: seq<Node>)
    requires dom.children == front + tail && Distinct(dom.children) && tail != [] && node == tail[0]
    requires n !in front && n != node
    modifies dom
    ensures dom.children == front + [n] + Without(tail, n) && Distinct(dom.children)
    ensures forall x | x != n :: x in dom.disturbed <==> x in old(dom.disturbed)
  {
    hide Without, Position, Distinct;
    assert node in dom.children;
    InsertAt(front, tail, n);
    WithoutAbsent(front, n);
    dom.InsertBefore(n, node);
  }

  /** removeUntilNode; true if it throws. */
  method RemoveUntilNode(dom: RowNodes, currentNode: Node, targetNode: Node, ghost front: seq<Node>, ghost tail: seq<Node>)
    returns (thrown: bool)
    requires dom.children == front + tail && Distinct(dom.children) && tail != [] && currentNode == tail[0]
    requires targetNode in tail && BottomFold !in tail[..Position(tail, targetNode)]
    modifies dom
    ensures !thrown && dom.children == front + tail[Position(tail, targetNode)..] && Distinct(dom.children)
    ensures forall x :: x in dom.disturbed <==> x in old(dom.disturbed) || x in tail[..Position(tail, targetNode)]
  {
    hide Without, Distinct, Position;
    var current := Some(currentNode);
    ghost var i, p := 0, Position(tail, targetNode);
    assert tail[0..] == tail;
    while current != Some(targetNode)
      invariant i <= p < |tail| && dom.children == front + tail[i..] && Distinct(dom.children) && current == Some(tail[i])
      invariant forall x :: x in dom.disturbed <==> x in old(dom.disturbed) || x in tail[..i]
      decreases p - i
    {
      assert i < p;
      if current.None? {
        return true;
      }
      assert tail[i] in tail[..p];
      if current.value == BottomFold {
        return true;
      }
      var deadNode := current.value;
      SiblingAt(dom, front, tail[i..]);
      current := dom.NextSibling(deadNode);
      RemoveAt(front, tail[i..]);
      dom.RemoveChild(deadNode);
      assert tail[i..][1..] == tail[i + 1..];
      i := i + 1;
    }
    NotEarlier(tail, i, targetNode);
    return false;
  }

  lemma NotEarlier(tail: seq<Node>, i: nat, n: Node)
    requires n in tail && i <= Position(tail, n) && tail[i] == n
    ensures i == Position(tail, n)
  {
  }

  lemma SiblingAt(dom: RowNodes, front: seq<Node>, tail: seq<Node>)
    requires dom.children == front + tail && Distinct(dom.children) && tail != []
    ensures tail[0] in dom.children
    ensures dom.NextSibling(tail[0]) == if |tail| > 1 then Some(tail[1]) else None
  {
    hide Distinct, Position;
    assert tail == [tail[0]] + tail[1..];
    Associates(front, [tail[0]], tail[1..]);
    PositionAfter(front, tail[0], tail[1..]);
  }

  // ----- one row

  /** The nodes from the first that has still to be dealt with. */
  function Tail(rest: seq<Node>, below: seq<Node>): (r: seq<Node>)
    ensures r != [] && |r| == |rest| + 1 + |below| && r[0] == if rest == [] then BottomFold else rest[0]
    ensures forall x :: x in r <==> x in rest || x == BottomFold || x in below
  {
    rest + [BottomFold] + below
  }

  lemma TailCons(n: Node, rest: seq<Node>, below: seq<Node>)
    ensures Tail([n] + rest, below) == [n] + Tail(rest, below)
  {
    Associates([n], rest, [BottomFold]);
    Associates([n], rest + [BottomFold], below);
  }

  lemma TailFrom(rest: seq<Node>, below: seq<Node>, i: nat)
    requires i <= |rest|
    ensures Tail(rest, below)[i..] == Tail(rest[i..], below) && Tail(rest, below)[..i] == rest[..i]
  {
  }

  lemma TailWithout(rest: seq<Node>, below: seq<Node>, n: Node)
    requires n !in below && n != BottomFold
    ensures Without(Tail(rest, below), n) == Tail(Without(rest, n), below)
  {
    hide Without;
    WithoutConcat(rest + [BottomFold], below, n);
    WithoutConcat(rest, [BottomFold], n);
    WithoutAbsent(below, n);
    WithoutAbsent([BottomFold], n);
  }

  lemma PositionInTail(rest: seq<Node>, below: seq<Node>, n: Node)
    requires n in rest
    ensures Position(Tail(rest, below), n) == Position(rest, n)
  {
    TailFrom(rest, below, Position(rest, n));
    FirstIs(Tail(rest, below), Position(rest, n), n);
  }

  lemma FirstIs(s: seq<Node>, p: nat, n: Node)
    requires p < |s| && s[p] == n && n !in s[..p]
    ensures Position(s, n) == p
  {
    assert forall q | 0 <= q < p :: s[..p][q] == s[q];
    NotEarlier(s, p, n);
  }

  /** `row` stands behind `front`, and `later` is still to be dealt with, from `next` on. */
  ghost predicate Stands(dom: RowNodes, front: seq<Node>, row: Node, later: seq<Node>, below: seq<Node>, next: Node)
    reads dom
  {
    dom.children == front + [row] + Tail(later, below) && Distinct(dom.children) && next == Tail(later, below)[0]
  }

  datatype Outcome = Drawn | LeftLoop | Threw

  /** fetchRowNode_. While a redraw is in progress the node is noted in the cache of current nodes,
      under its own row index, which a missing node does not have: that throws. */
  method FetchRowNode(rows: int -> Option<Node>, redrawing: bool, rowIndex: int) returns (node: Option<Node>, outcome: Outcome)
    ensures node == rows(rowIndex)
    ensures outcome == if node.Some? then Drawn else if redrawing then Threw else LeftLoop
  {
    node := rows(rowIndex);
    outcome := if node.Some? then Drawn else if redrawing then Threw else LeftLoop;
  }

  /** Moves on from `node`, which is the one wanted. */
  method StepOver(dom: RowNodes, node: Node, ghost front: seq<Node>, ghost rest: seq<Node>, ghost below: seq<Node>) returns (next: Node)
    requires dom.children == front + [node] + Tail(rest, below) && Distinct(dom.children)
    ensures next == Tail(rest, below)[0]
  {
    hide Distinct, Position, Tail;
    var tail := Tail(rest, below);
    Associates(front, [node], tail);
    assert ([node] + tail)[0] == node && ([node] + tail)[1] == tail[0];
    SiblingAt(dom, front, [node] + tail);
    next := dom.NextSibling(node).value;
  }

  /** Removes nodes until an end of the selection comes, which is the row wanted. */
  method RemoveUntilEnd(dom: RowNodes, node: Node, target: Node, ghost front: seq<Node>, ghost rest: seq<Node>, ghost below: seq<Node>)
    returns (next: Node, thrown: bool)
    requires dom.children == front + Tail(rest, below) && Distinct(dom.children) && node == Tail(rest, below)[0]
    requires target in rest && forall x | x in rest :: x.Row?
    modifies dom
    ensures !thrown && Stands(dom, front, target, rest[Position(rest, target) + 1..], below, next)
    ensures forall x :: x in dom.disturbed <==> x in old(dom.disturbed) || x in rest[..Position(rest, target)]
  {
    hide Distinct, Position, Tail;
    ghost var p := Position(rest, target);
    PositionInTail(rest, below, target);
    TailFrom(rest, below, p);
    assert forall i | 0 <= i < p :: rest[..p][i] == rest[i] && rest[i] in rest;
    assert BottomFold !in rest[..p] && rest[..p] == Tail(rest, below)[..p];
    thrown := RemoveUntilNode(dom, node, target, front, Tail(rest, below));
    ghost var later := rest[p + 1..];
    assert rest[p] == target && rest[p..] == [rest[p]] + later;
    TailCons(target, later, below);
    Associates(front, [target], Tail(later, below));
    next := StepOver(dom, target, front, later, below);
  }

  /** Puts the row wanted in front of `node`. */
  method InsertWanted(dom: RowNodes, row: Node, node: Node, ghost front: seq<Node>, ghost rest: seq<Node>, ghost below: seq<Node>)
    requires dom.children == front + Tail(rest, below) && Distinct(dom.children) && node == Tail(rest, below)[0]
    requires row.Row? && row != node && row !in front && row !in below
    modifies dom
    ensures dom.children == front + [row] + Tail(Without(rest, row), below) && Distinct(dom.children)
    ensures forall x | x != row :: x in dom.disturbed <==> x in old(dom.disturbed)
  {
    hide Distinct, Tail, Without;
    InsertRow(dom, row, node, front, Tail(rest, below));
    TailWithout(rest, below, row);
  }

  /** Replaces `node`, which is in the way, by the row wanted. */
  method Replace(dom: RowNodes, row: Node, node: Node, ghost front: seq<Node>, ghost rest: seq<Node>, ghost below: seq<Node>) returns (next: Node)
    requires dom.children == front + Tail(rest, below) && Distinct(dom.children) && rest != [] && node == rest[0]
    requires row.Row? && row != node && row !in front && row !in below
    modifies dom
    ensures Stands(dom, front, row, Without(rest[1..], row), below, next)
    ensures forall x | x != row && x != node :: x in dom.disturbed <==> x in old(dom.disturbed)
  {
    hide Distinct, Tail, Without;
    InsertWanted(dom, row, node, front, rest, below);
    ghost var later := Without(rest[1..], row);
    assert rest == [node] + rest[1..];
    WithoutCons(node, rest[1..], row);
    TailCons(node, later, below);
    ghost var tail := [node] + Tail(later, below);
    assert tail[0] == node && tail[1..] == Tail(later, below);
    RemoveAt(front + [row], tail);
    assert node in dom.children;
    dom.RemoveChild(node);
    next := StepOver(dom, row, front, later, below);
  }

  /** Draws the row wanted where `node` is: in front of it if it is the bottom fold or an end of
      the selection, and else in its place. */
  method FetchAndPut(dom: RowNodes, node: Node, rows: int -> Option<Node>, sel: Selection, redrawing: bool, rowIndex: int,
                     ghost front: seq<Node>, ghost rest: seq<Node>, ghost below: seq<Node>)
    returns (next: Node, outcome: Outcome)
    requires dom.children == front + Tail(rest, below) && Distinct(dom.children) && node == Tail(rest, below)[0]
    requires Indexed(rows) && forall x | x in front || x in below || x == node :: x.Row? ==> x.index != rowIndex
    requires forall x | x in rest :: x.Row?
    modifies dom
    ensures outcome == if rows(rowIndex).Some? then Drawn else if redrawing then Threw else LeftLoop
    ensures outcome.Drawn? ==>
              Stands(dom, front, rows(rowIndex).value,
                     Without(if rest == [] || IsEnd(rest[0], sel) then rest else rest[1..], rows(rowIndex).value), below, next)
    ensures !outcome.Drawn? ==> dom.children == old(dom.children) && next == node
    ensures forall x: Node | x.Row? && x.index != rowIndex && IsEnd(x, sel) :: x in dom.disturbed <==> x in old(dom.disturbed)
  {
    hide Distinct, Tail, Without;
    var newNode;
    newNode, outcome := FetchRowNode(rows, redrawing, rowIndex);
    if newNode.None? {
      return node, outcome;
    }
    if node == BottomFold || IsEnd(node, sel) {
      InsertWanted(dom, newNode.value, node, front, rest, below);
      WithoutFirst(rest, newNode.value);
      return node, outcome;
    }
    // The node that is in the way is never the one wanted: it has another index.
    next := Replace(dom, newNode.value, node, front, rest, below);
  }

  lemma WithoutFirst(rest: seq<Node>, n: Node)
    requires rest != [] ==> n != rest[0]
    ensures rest != [] ==> Without(rest, n) != [] && Without(rest, n)[0] == rest[0]
    ensures rest == [] ==> Without(rest, n) == []
  {
  }

  /** One turn of the loop of drawVisibleRows_: afterwards the row `rowIndex` stands behind
      `front`, or the row could not be had and nothing has changed. */
  method DrawRow(dom: RowNodes, node: Node, rows: int -> Option<Node>, sel: Selection, redrawing: bool, rowIndex: int,
                 ghost front: seq<Node>, ghost rest: seq<Node>, ghost below: seq<Node>, ghost to: int)
    returns (next: Node, outcome: Outcome)
    requires dom.children == front + Tail(rest, below) && Distinct(dom.children) && node == Tail(rest, below)[0]
    requires rowIndex < to && Indexed(rows) && Left(rest, sel, rows, rowIndex, to)
    requires forall x | x in front || x in below :: x.Row? ==> x.index != rowIndex
    modifies dom
    ensures outcome == if rows(rowIndex).Some? then Drawn else if redrawing then Threw else LeftLoop
    ensures outcome.Drawn? ==>
              && Left(NextRest(rest, sel, rows(rowIndex).value, rowIndex), sel, rows, rowIndex + 1, to)
              && Stands(dom, front, rows(rowIndex).value, NextRest(rest, sel, rows(rowIndex).value, rowIndex), below, next)
    ensures !outcome.Drawn? ==> dom.children == old(dom.children) && next == node
    ensures forall x | IsEnd(x, sel) :: x in dom.disturbed <==> x in old(dom.disturbed)
  {
    hide Distinct, Tail, Without, Left, Position, Ahead, Stands;
    LeftFacts(rest, sel, rows, rowIndex, to);
    LeftRows(rest, sel, rows, rowIndex, to);
    if rows(rowIndex).Some? {
      LeftNext(rest, sel, rows, rowIndex, to);
    }
    outcome := Drawn;
    if node != BottomFold && node.index == rowIndex {
      next := StepInPlace(dom, node, front, rest, below);
    } else if node != BottomFold && sel.Selected? && sel.start.index == rowIndex {
      var thrown;
      AfterEnd(rest, sel, rowIndex, to, sel.start);
      next, thrown := RemoveUntilEnd(dom, node, sel.start, front, rest, below);
    } else if node != BottomFold && sel.Selected? && sel.end.index == rowIndex {
      var thrown;
      AfterEnd(rest, sel, rowIndex, to, sel.end);
      next, thrown := RemoveUntilEnd(dom, node, sel.end, front, rest, below);
    } else {
      next, outcome := FetchAndPut(dom, node, rows, sel, redrawing, rowIndex, front, rest, below);
      if outcome.Drawn? {
        WithoutFirst([], rows(rowIndex).value);
      }
    }
  }

  /** Moves on from the row wanted, which is in place. */
  method StepInPlace(dom: RowNodes, node: Node, ghost front: seq<Node>, ghost rest: seq<Node>, ghost below: seq<Node>) returns (next: Node)
    requires dom.children == front + Tail(rest, below) && Distinct(dom.children) && rest != [] && node == rest[0]
    ensures Stands(dom, front, node, rest[1..], below, next)
  {
    hide Distinct, Tail;
    assert rest == [node] + rest[1..];
    TailCons(node, rest[1..], below);
    Associates(front, [node], Tail(rest[1..], below));
    next := StepOver(dom, node, front, rest[1..], below);
  }

  lemma LeftRows(rest: seq<Node>, sel: Selection, provider: int -> Option<Node>, from: int, to: int)
    requires Left(rest, sel, provider, from, to)
    ensures Rows(sel) && Ahead(rest, sel, from, to) && Distinct(rest) && forall x | x in rest :: x.Row?
  {
  }

  // ----- all rows

  function Min(a: nat, b: nat): (r: nat)
    ensures r <= a && r <= b && (r == a || r == b)
  {
    if a < b then a else b
  }

  lemma WantedGrows(rows: int -> Option<Node>, top: int, n: nat)
    requires forall i | top <= i < top + n + 1 :: rows(i).Some?
    ensures Wanted(rows, top, n + 1) == Wanted(rows, top, n) + [rows(top + n).value]
  {
  }

  lemma AvailableIs(rows: int -> Option<Node>, top: int, n: nat, k: nat)
    requires k <= n && (forall i | top <= i < top + k :: rows(i).Some?) && (k < n ==> rows(top + k).None?)
    ensures Available(rows, top, n) == k
  {
    var a := Available(rows, top, n);
    assert a < k ==> rows(top + a).Some?;
    assert k < a ==> rows(top + k).Some?;
  }

  /** The list has `count` of the wanted rows behind the top fold, and `rest` is still to be dealt with. */
  ghost predicate Under(dom: RowNodes, rows: int -> Option<Node>, top: int, count: nat, above: seq<Node>, rest: seq<Node>, below: seq<Node>, node: Node)
    reads dom
  {
    && (forall i | top <= i < top + count :: rows(i).Some?)
    && dom.children == above + [TopFold] + Wanted(rows, top, count) + Tail(rest, below)
    && Distinct(dom.children) && node == Tail(rest, below)[0]
  }

  /** Draws the next row. */
  method DrawNext(dom: RowNodes, node: Node, rows: int -> Option<Node>, sel: Selection, redrawing: bool, top: int, drawCount: nat,
                  ghost above: seq<Node>, ghost rest: seq<Node>, ghost below: seq<Node>, ghost to: int)
    returns (next: Node, outcome: Outcome, ghost later: seq<Node>)
    requires Under(dom, rows, top, drawCount, above, rest, below, node)
    requires top + drawCount < to && Indexed(rows) && Left(rest, sel, rows, top + drawCount, to)
    requires forall x | x in above || x in below :: x.Row? ==> !(top <= x.index < to)
    modifies dom
    ensures outcome == if rows(top + drawCount).Some? then Drawn else if redrawing then Threw else LeftLoop
    ensures outcome.Drawn? ==>
              Left(later, sel, rows, top + drawCount + 1, to) && Under(dom, rows, top, drawCount + 1, above, later, below, next)
    ensures !outcome.Drawn? ==> later == rest && next == node && Under(dom, rows, top, drawCount, above, rest, below, node)
    ensures forall x | IsEnd(x, sel) :: x in dom.disturbed <==> x in old(dom.disturbed)
  {
    hide Distinct, Tail, Left, NextRest, Rows, IsEnd;
    ghost var front := above + [TopFold] + Wanted(rows, top, drawCount);
    LeftRows(rest, sel, rows, top + drawCount, to);
    LeftFacts(rest, sel, rows, top + drawCount, to);
    next, outcome := DrawRow(dom, node, rows, sel, redrawing, top + drawCount, front, rest, below, to);
    later := rest;
    if outcome.Drawn? {
      later := NextRest(rest, sel, rows(top + drawCount).value, top + drawCount);
      WantedGrows(rows, top, drawCount);
      Associates(above + [TopFold], Wanted(rows, top, drawCount), [rows(top + drawCount).value]);
    }
  }

  method AfterTopFold(dom: RowNodes, ghost rows: int -> Option<Node>, ghost top: int, ghost above: seq<Node>, ghost rest: seq<Node>, ghost below: seq<Node>)
    returns (node: Node)
    requires Under(dom, rows, top, 0, above, rest, below, Tail(rest, below)[0])
    ensures node == Tail(rest, below)[0]
  {
    hide Distinct, Tail;
    assert above + [TopFold] + [] == above + [TopFold];
    node := StepOver(dom, TopFold, above, rest, below);
  }

  /** Removes what still stands in front of the bottom fold. */
  method RemoveRest(dom: RowNodes, node: Node, ghost front: seq<Node>, ghost rest: seq<Node>, ghost below: seq<Node>) returns (thrown: bool)
    requires dom.children == front + Tail(rest, below) && Distinct(dom.children) && node == Tail(rest, below)[0]
    requires forall x | x in rest :: x.Row?
    modifies dom
    ensures !thrown && dom.children == front + Tail([], below)
    ensures forall x :: x in dom.disturbed <==> x in old(dom.disturbed) || x in rest
  {
    hide Distinct, Tail, Position;
    ghost var tail := Tail(rest, below);
    TailFrom(rest, below, |rest|);
    assert rest[..|rest|] == rest && rest[|rest|..] == [];
    assert tail[|rest|] == tail[|rest|..][0];
    FirstIs(tail, |rest|, BottomFold);
    thrown := RemoveUntilNode(dom, node, BottomFold, front, tail);
  }

  /** What comes after the loop. */
  method Finish(dom: RowNodes, node: Node, ghost rows: int -> Option<Node>, ghost top: int, ghost count: nat,
                ghost above: seq<Node>, ghost left: seq<Node>, ghost below: seq<Node>)
    returns (thrown: bool)
    requires Under(dom, rows, top, count, above, left, below, node)
    requires forall x | x in left :: x.Row?
    modifies dom
    ensures !thrown && (forall i | top <= i < top + count :: rows(i).Some?)
    ensures dom.children == above + [TopFold] + Wanted(rows, top, count) + [BottomFold] + below
    ensures forall x :: x in dom.disturbed <==> x in old(dom.disturbed) || x in left
  {
    hide Distinct, Tail, Wanted;
    ghost var front := above + [TopFold] + Wanted(rows, top, count);
    TailOfNone(front, below);
    assert left != [] ==> left[0] in left;
    thrown := false;
    if node != BottomFold {
      thrown := RemoveRest(dom, node, front, left, below);
    } else {
      assert left == [];
    }
  }

  lemma UnderFacts(dom: RowNodes, rows: int -> Option<Node>, top: int, count: nat, above: seq<Node>, rest: seq<Node>, below: seq<Node>, node: Node)
    requires Under(dom, rows, top, count, above, rest, below, node)
    ensures forall i | top <= i < top + count :: rows(i).Some?
    ensures above + [TopFold] + Wanted(rows, top, count) <= dom.children
  {
    hide Distinct, Tail, Wanted;
    var drawn := above + [TopFold] + Wanted(rows, top, count);
    assert drawn <= drawn + Tail(rest, below);
  }

  lemma NoEndLeft(rest: seq<Node>, sel: Selection, rows: int -> Option<Node>, to: int)
    requires Left(rest, sel, rows, to, to)
    ensures forall x | IsEnd(x, sel) :: x !in rest
  {
  }

  /** drawVisibleRows_: between the folds stand afterwards exactly the wanted rows, in order, as
      far as the provider has them, and neither end of the selection has been touched. */
  method DrawVisibleRows(dom: RowNodes, rows: int -> Option<Node>, sel: Selection, redrawing: bool, topRowIndex: int,
                         visibleRowCount: nat, rowCount: nat, ghost above: seq<Node>, ghost rest: seq<Node>, ghost below: seq<Node>)
    returns (thrown: bool)
    requires Under(dom, rows, topRowIndex, 0, above, rest, below, Tail(rest, below)[0])
    requires Indexed(rows) && Left(rest, sel, rows, topRowIndex, topRowIndex + Min(visibleRowCount, rowCount))
    requires forall x | x in above || x in below :: x.Row? ==> !(topRowIndex <= x.index < topRowIndex + Min(visibleRowCount, rowCount))
    modifies dom
    ensures var n := Min(visibleRowCount, rowCount);
            thrown <==> redrawing && Available(rows, topRowIndex, n) < n
    ensures var n := Min(visibleRowCount, rowCount);
            !thrown ==> dom.children == above + [TopFold] + Wanted(rows, topRowIndex, Available(rows, topRowIndex, n)) + [BottomFold] + below
    ensures var n := Min(visibleRowCount, rowCount);
            thrown ==> above + [TopFold] + Wanted(rows, topRowIndex, Available(rows, topRowIndex, n)) <= dom.children
    ensures var n := Min(visibleRowCount, rowCount);
            Available(rows, topRowIndex, n) == n || thrown ==>
              forall x | IsEnd(x, sel) :: x in dom.disturbed <==> x in old(dom.disturbed)
  {
    hide Distinct, Tail, Left, IsEnd, Wanted, Position, Available, Under, Indexed;
    var n := Min(visibleRowCount, rowCount);
    var node := AfterTopFold(dom, rows, topRowIndex, above, rest, below);
    var drawCount := 0;
    var outcome := Drawn;
    ghost var left := rest;
    while drawCount < n
      invariant drawCount <= n && outcome.Drawn?
      invariant Under(dom, rows, topRowIndex, drawCount, above, left, below, node)
      invariant Left(left, sel, rows, topRowIndex + drawCount, topRowIndex + n)
      invariant forall x | IsEnd(x, sel) :: x in dom.disturbed <==> x in old(dom.disturbed)
    {
      node, outcome, left := DrawNext(dom, node, rows, sel, redrawing, topRowIndex, drawCount, above, left, below, topRowIndex + n);
      if outcome.Threw? {
        UnderFacts(dom, rows, topRowIndex, drawCount, above, left, below, node);
        AvailableIs(rows, topRowIndex, n, drawCount);
        return true;
      }
      if outcome.LeftLoop? {
        break;
      }
      drawCount := drawCount + 1;
    }
    UnderFacts(dom, rows, topRowIndex, drawCount, above, left, below, node);
    AvailableIs(rows, topRowIndex, n, drawCount);
    LeftRows(left, sel, rows, topRowIndex + drawCount, topRowIndex + n);
    if drawCount == n {
      NoEndLeft(left, sel, rows, topRowIndex + n);
    }
    thrown := Finish(dom, node, rows, topRowIndex, drawCount, above, left, below);
  }

  lemma TailOfNone(front: seq<Node>, below: seq<Node>)
    ensures front + Tail([], below) == front + [BottomFold] + below
  {
  }
}
