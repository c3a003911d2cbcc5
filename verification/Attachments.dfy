/** socket.io's binary attachments: buffers are taken out of a packet's data, leaving numbered
    placeholders, and put back on the other side. */
module Attachments {
  import opened JsText
  import opened JsValue

  /** The property names `_placeholder` and `num`. */
  const PLACEHOLDER: Text := [95, 112, 108, 97, 99, 101, 104, 111, 108, 100, 101, 114]
  const NUM: Text := [110, 117, 109]

  function Placeholder(n: nat): Value {
    Obj([Member(PLACEHOLDER, Bool(true)), Member(NUM, Num(n))])
  }

  datatype Stripped<T> = Stripped(value: T, buffers: seq<Text>)

  // ----- taking the buffers out

  /** The data with placeholders numbered from `n` on, and the buffers that they stand for. */
  function Strip(v: Value, n: nat): Stripped<Value>
    decreases v, 1
  {
    match v
    case Binary(b) => Stripped(Placeholder(n), [b])
    case Arr(es) =>
      var r := StripAll(es, n);
      Stripped(Arr(r.value), r.buffers)
    case Obj(ms) =>
      var r := StripMembers(ms, n);
      Stripped(Obj(Built(r.value, [])), r.buffers)
    case _ => Stripped(v, [])
  }

  function StripAll(es: seq<Value>, n: nat): (r: Stripped<seq<Value>>)
    ensures |r.value| == |es|
    decreases es, 0
  {
    if es == [] then Stripped([], [])
    else
      var head := Strip(es[0], n);
      var tail := StripAll(es[1..], n + |head.buffers|);
      Stripped([head.value] + tail.value, head.buffers + tail.buffers)
  }

  function StripMembers(ms: seq<Member>, n: nat): (r: Stripped<seq<Member>>)
    ensures |r.value| == |ms| && forall i | 0 <= i < |ms| :: r.value[i].key == ms[i].key
    decreases ms, 0
  {
    if ms == [] then Stripped([], [])
    else
      var head := Strip(ms[0].value, n);
      var tail := StripMembers(ms[1..], n + |head.buffers|);
      Stripped([Member(ms[0].key, head.value)] + tail.value, head.buffers + tail.buffers)
  }

  /** The closure of deconstructPacket: buffers are pushed as the traversal meets them. */
  class Deconstruction {
    var buffers: seq<Text>

    constructor ()
      ensures buffers == []
    {
      buffers := [];
    }

    method Deconstruct(data: Value) returns (r: Value)
      modifies this
      ensures r == Strip(data, |old(buffers)|).value
      ensures buffers == old(buffers) + Strip(data, |old(buffers)|).buffers
      decreases data
    {
      hide StripAll, StripMembers, Built;
      match data
      case Binary(b) =>
        r := Placeholder(|buffers|);
        buffers := buffers + [b];
      case Arr(es) =>
        var newData: seq<Value> := [];
        var i := 0;
        assert es[0..] == es;
        ghost var goal := StripAll(es, |buffers|);
        while i < |es|
          invariant 0 <= i <= |es|
          invariant goal.value == newData + StripAll(es[i..], |buffers|).value
          invariant old(buffers) + goal.buffers == buffers + StripAll(es[i..], |buffers|).buffers
        {
          StripAllCons(es[i..], |buffers|);
          assert es[i..][1..] == es[i + 1..];
          var v := Deconstruct(es[i]);
          newData := newData + [v];
          i := i + 1;
        }
        StripAllCons(es[i..], |buffers|);
        r := Arr(newData);
      case Obj(ms) =>
        var newData: seq<Member> := [];
        var i := 0;
        assert ms[0..] == ms;
        ghost var goal := StripMembers(ms, |buffers|);
        while i < |ms|
          invariant 0 <= i <= |ms|
          invariant Built(goal.value, []) == Built(StripMembers(ms[i..], |buffers|).value, newData)
          invariant old(buffers) + goal.buffers == buffers + StripMembers(ms[i..], |buffers|).buffers
        {
          StripMembersCons(ms[i..], |buffers|);
          assert ms[i..][1..] == ms[i + 1..];
          ghost var pending := StripMembers(ms[i..], |buffers|).value;
          var v := Deconstruct(ms[i].value);
          BuiltCons(pending, newData);
          assert pending[1..] == StripMembers(ms[i + 1..], |buffers|).value;
          newData := Assign(newData, ms[i].key, v);
          i := i + 1;
        }
        StripMembersCons(ms[i..], |buffers|);
        BuiltCons([], newData);
        r := Obj(newData);
      case _ =>
        r := data;
        assert buffers + [] == buffers;
    }
  }

  lemma StripAllCons(es: seq<Value>, n: nat)
    ensures StripAll(es, n) ==
            if es == [] then Stripped([], [])
            else
              var head := Strip(es[0], n);
              var tail := StripAll(es[1..], n + |head.buffers|);
              Stripped([head.value] + tail.value, head.buffers + tail.buffers)
  {
  }

  lemma StripMembersCons(ms: seq<Member>, n: nat)
    ensures StripMembers(ms, n) ==
            if ms == [] then Stripped([], [])
            else
              var head := Strip(ms[0].value, n);
              var tail := StripMembers(ms[1..], n + |head.buffers|);
              Stripped([Member(ms[0].key, head.value)] + tail.value, head.buffers + tail.buffers)
  {
  }

  lemma BuiltCons(ms: seq<Member>, acc: seq<Member>)
    ensures Built(ms, acc) == if ms == [] then acc else Built(ms[1..], Assign(acc, ms[0].key, ms[0].value))
  {
  }

  // ----- putting them back

  /** `buffers[num]`: undefined unless `num` is an index. */
  function BufferAt(buffers: seq<Text>, num: Value): Value {
    if num.Num? && 0 <= num.n < |buffers| then Binary(buffers[num.n]) else Undefined
  }

  predicate IsPlaceholder(ms: seq<Member>) {
    Truthy(Lookup(ms, PLACEHOLDER))
  }

  function Restore(v: Value, buffers: seq<Text>): Value
    decreases v, 1
  {
    match v
    case Arr(es) => Arr(RestoreAll(es, buffers))
    case Obj(ms) =>
      if IsPlaceholder(ms) then BufferAt(buffers, Lookup(ms, NUM)) else Obj(RestoreMembers(ms, buffers))
    case _ => v
  }

  function RestoreAll(es: seq<Value>, buffers: seq<Text>): (r: seq<Value>)
    ensures |r| == |es|
    decreases es, 0
  {
    if es == [] then [] else [Restore(es[0], buffers)] + RestoreAll(es[1..], buffers)
  }

  function RestoreMembers(ms: seq<Member>, buffers: seq<Text>): (r: seq<Member>)
    ensures |r| == |ms|
    decreases ms, 0
  {
    if ms == [] then []
    else [Member(ms[0].key, Restore(ms[0].value, buffers))] + RestoreMembers(ms[1..], buffers)
  }

  /** The closure of reconstructPacket. */
  method Reconstruct(data: Value, buffers: seq<Text>) returns (r: Value)
    ensures r == Restore(data, buffers)
    decreases data, 1
  {
    hide RestoreAll, RestoreMembers, Lookup, Truthy;
    match data
    case Arr(es) =>
      var elems := ReconstructElements(es, buffers);
      r := Arr(elems);
    case Obj(ms) =>
      if IsPlaceholder(ms) {
        r := BufferAt(buffers, Lookup(ms, NUM));
      } else {
        var members := ReconstructProperties(ms, buffers);
        r := Obj(members);
      }
    case _ => r := data;
  }

  /** Its loop over an array: `data[i] = _reconstructPacket(data[i])`. */
  method ReconstructElements(es: seq<Value>, buffers: seq<Text>) returns (data: seq<Value>)
    ensures data == RestoreAll(es, buffers)
    decreases es, 0
  {
    hide *;
    data := es;
    var i := 0;
    assert es[0..] == es && data[..0] == [];
    while i < |es|
      invariant 0 <= i <= |es| == |data|
      invariant data[i..] == es[i..]
      invariant data[..i] + RestoreAll(es[i..], buffers) == RestoreAll(es, buffers)
    {
      RestoreAllCons(es[i..], buffers);
      assert es[i..][1..] == es[i + 1..];
      assert data[i] == es[i] by { assert data[i..][0] == es[i..][0]; }
      var v := Reconstruct(es[i], buffers);
      data := data[i := v];
      assert data[..i + 1] == data[..i] + [v];
      i := i + 1;
    }
    RestoreAllCons(es[i..], buffers);
    assert data[..i] == data;
  }

  /** Its loop over an object: `data[key] = _reconstructPacket(data[key])`. */
  method ReconstructProperties(ms: seq<Member>, buffers: seq<Text>) returns (data: seq<Member>)
    ensures data == RestoreMembers(ms, buffers)
    decreases ms, 0
  {
    hide *;
    data := ms;
    var i := 0;
    assert ms[0..] == ms && data[..0] == [];
    while i < |ms|
      invariant 0 <= i <= |ms| == |data|
      invariant data[i..] == ms[i..]
      invariant data[..i] + RestoreMembers(ms[i..], buffers) == RestoreMembers(ms, buffers)
    {
      RestoreMembersCons(ms[i..], buffers);
      assert ms[i..][1..] == ms[i + 1..];
      assert data[i] == ms[i] by { assert data[i..][0] == ms[i..][0]; }
      var v := Reconstruct(ms[i].value, buffers);
      data := data[i := data[i].(value := v)];
      assert data[..i + 1] == data[..i] + [Member(ms[i].key, v)];
      i := i + 1;
    }
    RestoreMembersCons(ms[i..], buffers);
    assert data[..i] == data;
  }

  lemma RestoreAllCons(es: seq<Value>, buffers: seq<Text>)
    ensures RestoreAll(es, buffers) == if es == [] then [] else [Restore(es[0], buffers)] + RestoreAll(es[1..], buffers)
  {
  }

  lemma RestoreMembersCons(ms: seq<Member>, buffers: seq<Text>)
    ensures RestoreMembers(ms, buffers)
            == if ms == [] then []
               else [Member(ms[0].key, Restore(ms[0].value, buffers))] + RestoreMembers(ms[1..], buffers)
  {
  }

  // ----- the law

  /** JavaScript objects: keys are distinct, all the way down. */
  predicate Proper(v: Value) {
    match v
    case Arr(es) => forall e | e in es :: Proper(e)
    case Obj(ms) => DistinctKeys(ms) && forall m | m in ms :: Proper(m.value)
    case _ => true
  }

  /** No object has a truthy `_placeholder` property or one called `__proto__`. */
  predicate Clean(v: Value) {
    match v
    case Arr(es) => forall e | e in es :: Clean(e)
    case Obj(ms) => !IsPlaceholder(ms) && !HasKey(ms, PROTO) && forall m | m in ms :: Clean(m.value)
    case _ => true
  }

  /** `taken` are the buffers number `n` and up. */
  predicate Holds(buffers: seq<Text>, n: nat, taken: seq<Text>) {
    n + |taken| <= |buffers| && buffers[n..n + |taken|] == taken
  }

  lemma HoldsParts(buffers: seq<Text>, n: nat, a: seq<Text>, b: seq<Text>)
    requires Holds(buffers, n, a + b)
    ensures Holds(buffers, n, a) && Holds(buffers, n + |a|, b)
  {
    var whole := buffers[n..n + |a| + |b|];
    assert whole[..|a|] == buffers[n..n + |a|] && whole[|a|..] == buffers[n + |a|..n + |a| + |b|];
    assert (a + b)[..|a|] == a && (a + b)[|a|..] == b;
  }

  lemma {:induction false} LookupStripped(ms: seq<Member>, n: nat, k: Text)
    ensures Truthy(Lookup(StripMembers(ms, n).value, k)) == Truthy(Lookup(ms, k))
    decreases |ms|
  {
    hide *;
    StripMembersCons(ms, n);
    LookupCons(ms, k);
    LookupCons(StripMembers(ms, n).value, k);
    if ms != [] {
      var head := Strip(ms[0].value, n);
      StripKeepsTruth(ms[0].value, n);
      LookupStripped(ms[1..], n + |head.buffers|, k);
      assert StripMembers(ms, n).value[1..] == StripMembers(ms[1..], n + |head.buffers|).value;
    }
  }

  lemma LookupCons(ms: seq<Member>, k: Text)
    ensures Lookup(ms, k) == if ms == [] then Undefined
                             else if ms[0].key == k then ms[0].value else Lookup(ms[1..], k)
  {
  }

  lemma StripKeepsTruth(v: Value, n: nat)
    ensures Truthy(Strip(v, n).value) == Truthy(v)
  {
  }

  lemma {:induction false} LookupWithoutProto(ms: seq<Member>, k: Text)
    requires k != PROTO
    ensures Lookup(WithoutProto(ms), k) == Lookup(ms, k)
  {
    if ms != [] {
      LookupWithoutProto(ms[1..], k);
      if ms[0].key != PROTO {
        assert WithoutProto(ms)[1..] == WithoutProto(ms[1..]);
      }
    }
  }

  lemma NamesDiffer()
    ensures PLACEHOLDER != PROTO && NUM != PROTO && NUM != PLACEHOLDER
  {
    assert PLACEHOLDER[1] != PROTO[1] && NUM[0] != PROTO[0];
  }

  lemma PlaceholderIsOne(n: nat)
    ensures Placeholder(n).Obj? && IsPlaceholder(Placeholder(n).members)
    ensures Lookup(Placeholder(n).members, NUM) == Num(n)
  {
    NamesDiffer();
    var ms := Placeholder(n).members;
    assert ms[1..] == [Member(NUM, Num(n))];
  }

  /** Putting back what was taken out restores the data, exactly if the data is clean. */
  lemma {:induction false} RestoreStrip(v: Value, n: nat, buffers: seq<Text>)
    requires Proper(v) && Holds(buffers, n, Strip(v, n).buffers)
    ensures Restore(Strip(v, n).value, buffers) == v <==> Clean(v)
    decreases v, 1
  {
    match v {
      case Binary(b) =>
        PlaceholderIsOne(n);
        assert buffers[n..n + 1][0] == buffers[n];
      case Arr(es) =>
        assert forall e | e in es :: Proper(e);
        RestoreStripAll(es, n, buffers);
      case Obj(ms) =>
        RestoreStripObject(ms, n, buffers);
      case _ =>
    }
  }

  lemma {:induction false} RestoreStripObject(ms: seq<Member>, n: nat, buffers: seq<Text>)
    requires Proper(Obj(ms)) && Holds(buffers, n, StripMembers(ms, n).buffers)
    ensures Restore(Strip(Obj(ms), n).value, buffers) == Obj(ms) <==> Clean(Obj(ms))
    decreases ms, 1
  {
    hide StripMembers, RestoreMembers, WithoutProto, HasKey, DistinctKeys, Proper, IsPlaceholder, Strip, Holds;
    var stripped := StripMembers(ms, n).value;
    var kept := WithoutProto(stripped);
    ProperMembers(ms);
    StripObject(ms, n);
    SameKeys(stripped, ms);
    RestoreStripMembers(ms, n, buffers);
    if HasKey(ms, PROTO) {
      assert |RestoreMembers(kept, buffers)| < |ms|;
    } else {
      WithoutProtoKeepsAll(stripped);
    }
  }

  lemma ProperMembers(ms: seq<Member>)
    requires Proper(Obj(ms))
    ensures DistinctKeys(ms) && forall m | m in ms :: Proper(m.value)
  {
  }

  lemma StripObject(ms: seq<Member>, n: nat)
    requires DistinctKeys(ms)
    ensures Strip(Obj(ms), n).value == Obj(WithoutProto(StripMembers(ms, n).value))
    ensures IsPlaceholder(WithoutProto(StripMembers(ms, n).value)) == IsPlaceholder(ms)
  {
    var stripped := StripMembers(ms, n).value;
    hide StripMembers, WithoutProto, Built, Lookup, Truthy;
    BuiltFromDistinct(stripped, []);
    NamesDiffer();
    LookupWithoutProto(stripped, PLACEHOLDER);
    LookupStripped(ms, n, PLACEHOLDER);
  }

  lemma SameKeys(ms: seq<Member>, ns: seq<Member>)
    requires |ms| == |ns| && forall i | 0 <= i < |ms| :: ms[i].key == ns[i].key
    ensures HasKey(ms, PROTO) == HasKey(ns, PROTO)
  {
    if HasKey(ms, PROTO) {
      var i :| 0 <= i < |ms| && ms[i].key == PROTO;
      assert ns[i].key == PROTO;
    }
  }

  predicate AllClean(es: seq<Value>) {
    forall e | e in es :: Clean(e)
  }

  lemma AllCleanCons(es: seq<Value>)
    requires es != []
    ensures AllClean(es) <==> Clean(es[0]) && AllClean(es[1..])
  {
    hide Clean;
    assert es == [es[0]] + es[1..];
  }

  predicate MembersClean(ms: seq<Member>) {
    forall m | m in ms :: Clean(m.value)
  }

  lemma MembersCleanCons(ms: seq<Member>)
    requires ms != []
    ensures MembersClean(ms) <==> Clean(ms[0].value) && MembersClean(ms[1..])
  {
    hide Clean;
    assert ms == [ms[0]] + ms[1..];
  }

  lemma RestoreMembersOf(m: Member, ms: seq<Member>, buffers: seq<Text>)
    ensures RestoreMembers([m] + ms, buffers)
            == [Member(m.key, Restore(m.value, buffers))] + RestoreMembers(ms, buffers)
  {
    hide *;
    assert ([m] + ms)[1..] == ms;
    RestoreMembersCons([m] + ms, buffers);
  }

  lemma RestoreAllOf(e: Value, es: seq<Value>, buffers: seq<Text>)
    ensures RestoreAll([e] + es, buffers) == [Restore(e, buffers)] + RestoreAll(es, buffers)
  {
    hide *;
    assert ([e] + es)[1..] == es;
    RestoreAllCons([e] + es, buffers);
  }

  lemma AllCleanNothing()
    ensures AllClean([]) && MembersClean([])
  {
  }

  lemma {:induction false} RestoreStripAll(es: seq<Value>, n: nat, buffers: seq<Text>)
    requires (forall e | e in es :: Proper(e)) && Holds(buffers, n, StripAll(es, n).buffers)
    ensures RestoreAll(StripAll(es, n).value, buffers) == es <==> AllClean(es)
    decreases es, 0
  {
    hide *;
    StripAllCons(es, n);
    if es == [] {
      RestoreAllCons([], buffers);
      AllCleanNothing();
    } else {
      var head := Strip(es[0], n);
      var tail := StripAll(es[1..], n + |head.buffers|);
      HoldsParts(buffers, n, head.buffers, tail.buffers);
      RestoreStrip(es[0], n, buffers);
      RestoreStripAll(es[1..], n + |head.buffers|, buffers);
      AllCleanCons(es);
      RestoreAllOf(head.value, tail.value, buffers);
      ConsIsSame(Restore(head.value, buffers), RestoreAll(tail.value, buffers), es);
    }
  }

  lemma {:induction false} RestoreStripMembers(ms: seq<Member>, n: nat, buffers: seq<Text>)
    requires (forall m | m in ms :: Proper(m.value)) && Holds(buffers, n, StripMembers(ms, n).buffers)
    ensures RestoreMembers(StripMembers(ms, n).value, buffers) == ms <==> MembersClean(ms)
    decreases ms, 0
  {
    hide *;
    StripMembersCons(ms, n);
    if ms == [] {
      RestoreMembersCons([], buffers);
      AllCleanNothing();
    } else {
      var head := Strip(ms[0].value, n);
      var tail := StripMembers(ms[1..], n + |head.buffers|);
      HoldsParts(buffers, n, head.buffers, tail.buffers);
      RestoreStrip(ms[0].value, n, buffers);
      RestoreStripMembers(ms[1..], n + |head.buffers|, buffers);
      assert StripMembers(ms, n).value == [Member(ms[0].key, head.value)] + tail.value;
      RestoreStripStep(ms, head.value, tail.value, buffers);
    }
  }

  /** One step of the induction: head and tail are restored exactly if they are clean. */
  lemma RestoreStripStep(ms: seq<Member>, head: Value, tail: seq<Member>, buffers: seq<Text>)
    requires ms != []
    requires Restore(head, buffers) == ms[0].value <==> Clean(ms[0].value)
    requires RestoreMembers(tail, buffers) == ms[1..] <==> MembersClean(ms[1..])
    ensures RestoreMembers([Member(ms[0].key, head)] + tail, buffers) == ms <==> MembersClean(ms)
  {
    hide *;
    MembersCleanCons(ms);
    RestoreMembersOf(Member(ms[0].key, head), tail, buffers);
    ConsIsSame(Member(ms[0].key, Restore(head, buffers)), RestoreMembers(tail, buffers), ms);
  }

  // ----- numbering

  /** The numbers of the placeholders, in the order in which reconstruction meets them. */
  function Numbers(v: Value): seq<Value>
    decreases v, 1
  {
    match v
    case Arr(es) => NumbersAll(es)
    case Obj(ms) => if IsPlaceholder(ms) then [Lookup(ms, NUM)] else NumbersMembers(ms)
    case _ => []
  }

  function NumbersAll(es: seq<Value>): seq<Value>
    decreases es, 0
  {
    if es == [] then [] else Numbers(es[0]) + NumbersAll(es[1..])
  }

  function NumbersMembers(ms: seq<Member>): seq<Value>
    decreases ms, 0
  {
    if ms == [] then [] else Numbers(ms[0].value) + NumbersMembers(ms[1..])
  }

  /** `k` consecutive numbers. */
  function Count(n: nat, k: nat): (r: seq<Value>)
    ensures |r| == k && forall i | 0 <= i < k :: r[i] == Num(n + i)
  {
    seq(k, i requires 0 <= i => Num(n + i))
  }

  lemma CountSplit(n: nat, j: nat, k: nat)
    ensures Count(n, j + k) == Count(n, j) + Count(n + j, k)
  {
  }

  /** In clean data the placeholders are numbered consecutively, each once, in traversal order. */
  lemma {:induction false} NumberedInOrder(v: Value, n: nat)
    requires Proper(v) && Clean(v)
    ensures Numbers(Strip(v, n).value) == Count(n, |Strip(v, n).buffers|)
    decreases v, 1
  {
    match v {
      case Binary(b) =>
        PlaceholderIsOne(n);
        assert Count(n, 1) == [Num(n)];
      case Arr(es) =>
        assert forall e | e in es :: Proper(e) && Clean(e);
        NumberedInOrderAll(es, n);
      case Obj(ms) =>
        hide StripMembers, WithoutProto, HasKey, DistinctKeys, IsPlaceholder, NumbersMembers, Built;
        ProperMembers(ms);
        StripObject(ms, n);
        SameKeys(StripMembers(ms, n).value, ms);
        WithoutProtoKeepsAll(StripMembers(ms, n).value);
        NumberedInOrderMembers(ms, n);
      case _ =>
    }
  }

  lemma {:induction false} NumberedInOrderAll(es: seq<Value>, n: nat)
    requires forall e | e in es :: Proper(e) && Clean(e)
    ensures NumbersAll(StripAll(es, n).value) == Count(n, |StripAll(es, n).buffers|)
    decreases es, 0
  {
    StripAllCons(es, n);
    hide StripAll, Clean, Proper, Strip, Numbers;
    if es != [] {
      var head := Strip(es[0], n);
      var tail := StripAll(es[1..], n + |head.buffers|);
      NumberedInOrder(es[0], n);
      NumberedInOrderAll(es[1..], n + |head.buffers|);
      CountSplit(n, |head.buffers|, |tail.buffers|);
      assert StripAll(es, n).value[1..] == tail.value;
    }
  }

  lemma {:induction false} NumberedInOrderMembers(ms: seq<Member>, n: nat)
    requires forall m | m in ms :: Proper(m.value) && Clean(m.value)
    ensures NumbersMembers(StripMembers(ms, n).value) == Count(n, |StripMembers(ms, n).buffers|)
    decreases ms, 0
  {
    StripMembersCons(ms, n);
    hide StripMembers, Clean, Proper, Strip, Numbers;
    if ms != [] {
      var head := Strip(ms[0].value, n);
      var tail := StripMembers(ms[1..], n + |head.buffers|);
      NumberedInOrder(ms[0].value, n);
      NumberedInOrderMembers(ms[1..], n + |head.buffers|);
      CountSplit(n, |head.buffers|, |tail.buffers|);
      assert StripMembers(ms, n).value[1..] == tail.value;
    }
  }
}
