/** JavaScript values as the packet codecs handle them: finite trees without sharing. */
module JsValue {
  import opened JsText

  /** `Num` is an integer that a double holds exactly; `Real` is any other number, kept as
      the literal it was read from. `Binary` is an ArrayBuffer. */
  datatype Value =
    | Undefined
    | Null
    | Bool(b: bool)
    | Num(n: int)
    | Real(lexeme: Text)
    | Str(s: Text)
    | Arr(elems: seq<Value>)
    | Obj(members: seq<Member>)
    | Binary(bytes: Text)

  /** An own property, in enumeration order. */
  datatype Member = Member(key: Text, value: Value)

  /** The key `__proto__`: assigning to it sets the prototype and makes no own property. */
  const PROTO: Text := [95, 95, 112, 114, 111, 116, 111, 95, 95]

  predicate HasKey(ms: seq<Member>, k: Text) {
    exists i | 0 <= i < |ms| :: ms[i].key == k
  }

  predicate DistinctKeys(ms: seq<Member>) {
    forall i, j | 0 <= i < j < |ms| :: ms[i].key != ms[j].key
  }

  /** `object[k] = v` on an object that the parser or the deconstruction has just created. */
  function Assign(ms: seq<Member>, k: Text, v: Value): seq<Member> {
    if k == PROTO then ms
    else if ms == [] then [Member(k, v)]
    else if ms[0].key == k then [Member(k, v)] + ms[1..]
    else [ms[0]] + Assign(ms[1..], k, v)
  }

  /** The object built by assigning the given members one after the other. */
  function Built(ms: seq<Member>, onto: seq<Member>): seq<Member>
    decreases |ms|
  {
    if ms == [] then onto else Built(ms[1..], Assign(onto, ms[0].key, ms[0].value))
  }

  /** The members that survive being assigned. */
  function WithoutProto(ms: seq<Member>): (r: seq<Member>)
    ensures |r| <= |ms|
    ensures |r| == |ms| <==> !HasKey(ms, PROTO)
  {
    if ms == [] then []
    else
      var rest := WithoutProto(ms[1..]);
      assert HasKey(ms, PROTO) <==> ms[0].key == PROTO || HasKey(ms[1..], PROTO) by { HasKeyCons(ms, PROTO); }
      if ms[0].key == PROTO then rest else [ms[0]] + rest
  }

  lemma HasKeyCons(ms: seq<Member>, k: Text)
    requires ms != []
    ensures HasKey(ms, k) <==> ms[0].key == k || HasKey(ms[1..], k)
  {
    if HasKey(ms, k) && ms[0].key != k {
      var i :| 0 <= i < |ms| && ms[i].key == k;
      assert ms[1..][i - 1].key == k;
    } else if HasKey(ms[1..], k) {
      var i :| 0 <= i < |ms[1..]| && ms[1..][i].key == k;
      assert ms[i + 1].key == k;
    }
  }

  lemma {:induction false} AssignNew(ms: seq<Member>, k: Text, v: Value)
    requires !HasKey(ms, k) && k != PROTO
    ensures Assign(ms, k, v) == ms + [Member(k, v)]
  {
    if ms != [] {
      HasKeyCons(ms, k);
      AssignNew(ms[1..], k, v);
      assert ms == [ms[0]] + ms[1..];
    }
  }

  lemma {:induction false} WithoutProtoKeepsAll(ms: seq<Member>)
    ensures !HasKey(ms, PROTO) ==> WithoutProto(ms) == ms
  {
    if ms != [] {
      HasKeyCons(ms, PROTO);
      WithoutProtoKeepsAll(ms[1..]);
      assert ms == [ms[0]] + ms[1..];
    }
  }

  predicate NoCommonKey(ms: seq<Member>, onto: seq<Member>) {
    forall m | m in ms :: !HasKey(onto, m.key)
  }

  lemma NoCommonKeyStep(ms: seq<Member>, onto: seq<Member>)
    requires ms != [] && DistinctKeys(ms) && NoCommonKey(ms, onto)
    ensures DistinctKeys(ms[1..]) && NoCommonKey(ms[1..], onto) && NoCommonKey(ms[1..], onto + [ms[0]])
  {
    forall m | m in ms[1..] ensures !HasKey(onto + [ms[0]], m.key) {
      var i :| 1 <= i < |ms| && ms[i] == m;
      assert ms[0].key != ms[i].key;
      assert m in ms;
      assert forall j | 0 <= j < |onto| :: onto[j].key != m.key;
    }
  }

  /** Assigning members with distinct keys, none of them present yet, appends all but `__proto__`. */
  lemma {:induction false} BuiltFromDistinct(ms: seq<Member>, onto: seq<Member>)
    requires DistinctKeys(ms) && NoCommonKey(ms, onto)
    ensures Built(ms, onto) == onto + WithoutProto(ms)
    decreases |ms|
  {
    if ms != [] {
      NoCommonKeyStep(ms, onto);
      assert ms[0] in ms;
      assert !HasKey(onto, ms[0].key);
      hide HasKey, DistinctKeys, NoCommonKey, Assign;
      if ms[0].key == PROTO {
        AssignProto(onto, ms[0].value);
        BuiltFromDistinct(ms[1..], onto);
      } else {
        AssignNew(onto, ms[0].key, ms[0].value);
        BuiltFromDistinct(ms[1..], onto + [ms[0]]);
        assert onto + [ms[0]] + WithoutProto(ms[1..]) == onto + ([ms[0]] + WithoutProto(ms[1..]));
      }
    }
  }

  lemma AssignProto(ms: seq<Member>, v: Value)
    ensures Assign(ms, PROTO, v) == ms
  {
  }

  /** Property lookup. */
  function Lookup(ms: seq<Member>, k: Text): (v: Value)
    ensures !HasKey(ms, k) ==> v == Undefined
  {
    if ms == [] then Undefined
    else
      HasKeyCons(ms, k);
      if ms[0].key == k then ms[0].value else Lookup(ms[1..], k)
  }

  lemma {:induction false} LookupFinds(ms: seq<Member>, i: nat)
    requires DistinctKeys(ms) && i < |ms|
    ensures Lookup(ms, ms[i].key) == ms[i].value
  {
    if i > 0 {
      LookupFinds(ms[1..], i - 1);
    }
  }

  /** JavaScript's truth value. */
  predicate Truthy(v: Value) {
    match v
    case Undefined => false
    case Null => false
    case Bool(b) => b
    case Num(n) => n != 0
    case Real(_) => true
    case Str(s) => s != []
    case Arr(_) => true
    case Obj(_) => true
    case Binary(_) => true
  }
}
