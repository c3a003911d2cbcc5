/** JSON.stringify as JSON 3 implements it (the copy bundled with socket.io). */
module Json3Printer {
  import opened JsText
  import opened JsNumbers
  import opened JsValue

  // Code units of JSON's syntax.
  const LF: CodeUnit := 10
  const SPACE: CodeUnit := 32
  const QUOTE: CodeUnit := 34
  const COMMA: CodeUnit := 44
  const MINUS: CodeUnit := 45
  const COLON: CodeUnit := 58
  const LBRACKET: CodeUnit := 91
  const BACKSLASH: CodeUnit := 92
  const RBRACKET: CodeUnit := 93
  const LBRACE: CodeUnit := 123
  const RBRACE: CodeUnit := 125
  const NULL: Text := [110, 117, 108, 108]
  const TRUE: Text := [116, 114, 117, 101]
  const FALSE: Text := [102, 97, 108, 115, 101]

  /** The trees of JSON values, except that numbers are limited to exact integers. */
  predicate JsonTree(v: Value) {
    match v
    case Null => true
    case Bool(_) => true
    case Num(n) => -MAX_SAFE <= n <= MAX_SAFE
    case Str(_) => true
    case Arr(es) => forall e | e in es :: JsonTree(e)
    case Obj(ms) => DistinctKeys(ms) && forall m | m in ms :: JsonTree(m.value)
    case _ => false
  }

  // ----- the order of members

  /** The key `constructor`, which forEach visits last. */
  const CONSTRUCTOR: Text := [99, 111, 110, 115, 116, 114, 117, 99, 116, 111, 114]

  /** The members in the order in which forEach visits them. */
  function Visited(ms: seq<Member>): seq<Member> {
    Others(ms) + Constructors(ms)
  }

  function Others(ms: seq<Member>): (r: seq<Member>)
    ensures |r| <= |ms|
  {
    if ms == [] then [] else (if ms[0].key == CONSTRUCTOR then [] else [ms[0]]) + Others(ms[1..])
  }

  function Constructors(ms: seq<Member>): (r: seq<Member>)
    ensures |r| <= |ms|
  {
    if ms == [] then [] else (if ms[0].key == CONSTRUCTOR then [ms[0]] else []) + Constructors(ms[1..])
  }

  /** The tree with the members of all its objects in that order. */
  function Ordered(v: Value): Value {
    match v
    case Arr(es) => Arr(OrderedAll(es))
    case Obj(ms) => Obj(Visited(OrderedMembers(ms)))
    case _ => v
  }

  function OrderedAll(es: seq<Value>): (r: seq<Value>)
    ensures |r| == |es|
  {
    if es == [] then [] else [Ordered(es[0])] + OrderedAll(es[1..])
  }

  function OrderedMembers(ms: seq<Member>): (r: seq<Member>)
    ensures |r| == |ms| && forall i | 0 <= i < |ms| :: r[i].key == ms[i].key
  {
    if ms == [] then [] else [Member(ms[0].key, Ordered(ms[0].value))] + OrderedMembers(ms[1..])
  }

  /** Visiting an object leaves no member out and none twice. */
  lemma {:induction false} VisitedPermutes(ms: seq<Member>)
    ensures multiset(Visited(ms)) == multiset(ms)
  {
    hide *;
    VisitedParts(ms);
    if ms == [] {
      OthersCons(ms);
    } else {
      VisitedPermutes(ms[1..]);
      VisitedParts(ms[1..]);
      OneMore(ms[0], ms[1..], Others(ms[1..]), Constructors(ms[1..]));
      FirstVisited(ms);
      assert ms == [ms[0]] + ms[1..];
    }
  }

  lemma FirstVisited(ms: seq<Member>)
    requires ms != []
    ensures || (Others(ms) == [ms[0]] + Others(ms[1..]) && Constructors(ms) == Constructors(ms[1..]))
            || (Others(ms) == Others(ms[1..]) && Constructors(ms) == [ms[0]] + Constructors(ms[1..]))
  {
    hide Others, Constructors;
    OthersCons(ms);
    assert [] + Others(ms[1..]) == Others(ms[1..]) && [] + Constructors(ms[1..]) == Constructors(ms[1..]);
  }

  lemma OneMore(m: Member, ms: seq<Member>, a: seq<Member>, b: seq<Member>)
    requires multiset(a) + multiset(b) == multiset(ms)
    ensures multiset([m] + a) + multiset(b) == multiset([m] + ms)
    ensures multiset(a) + multiset([m] + b) == multiset([m] + ms)
  {
    assert multiset([m] + a) == multiset{m} + multiset(a);
    assert multiset([m] + b) == multiset{m} + multiset(b);
    assert multiset([m] + ms) == multiset{m} + multiset(ms);
  }

  lemma VisitedParts(ms: seq<Member>)
    ensures multiset(Visited(ms)) == multiset(Others(ms)) + multiset(Constructors(ms))
  {
    hide Others, Constructors;
  }

  lemma OthersCons(ms: seq<Member>)
    ensures Others(ms) == if ms == [] then [] else (if ms[0].key == CONSTRUCTOR then [] else [ms[0]]) + Others(ms[1..])
    ensures Constructors(ms) == if ms == [] then [] else (if ms[0].key == CONSTRUCTOR then [ms[0]] else []) + Constructors(ms[1..])
  {
  }

  lemma {:induction false} VisitedMembers(ms: seq<Member>)
    ensures forall m | m in Visited(ms) :: m in ms
    ensures forall m | m in Others(ms) :: m in ms && m.key != CONSTRUCTOR
    ensures forall m | m in Constructors(ms) :: m in ms && m.key == CONSTRUCTOR
  {
    if ms != [] {
      VisitedMembers(ms[1..]);
      assert ms == [ms[0]] + ms[1..];
    }
  }

  lemma {:induction false} VisitedDistinct(ms: seq<Member>)
    requires DistinctKeys(ms)
    ensures DistinctKeys(Visited(ms)) && DistinctKeys(Others(ms)) && DistinctKeys(Constructors(ms))
  {
    hide Others, Constructors;
    OthersCons(ms);
    if ms != [] {
      assert DistinctKeys(ms[1..]) && forall m | m in ms[1..] :: m.key != ms[0].key;
      VisitedDistinct(ms[1..]);
      VisitedMembers(ms[1..]);
      VisitedMembers(ms);
      if ms[0].key == CONSTRUCTOR {
        FirstDistinct(ms[0], Constructors(ms[1..]));
      } else {
        FirstDistinct(ms[0], Others(ms[1..]));
      }
    }
    VisitedMembers(ms);
    PartsDistinct(Others(ms), Constructors(ms));
  }

  lemma FirstDistinct(m: Member, ms: seq<Member>)
    requires DistinctKeys(ms) && forall o | o in ms :: o.key != m.key
    ensures DistinctKeys([m] + ms)
  {
  }

  lemma PartsDistinct(a: seq<Member>, b: seq<Member>)
    requires DistinctKeys(a) && DistinctKeys(b) && forall m, o | m in a && o in b :: m.key != o.key
    ensures DistinctKeys(a + b)
  {
    var s := a + b;
    forall i, j | 0 <= i < j < |s| ensures s[i].key != s[j].key {
      if i < |a| <= j {
        assert a[i] in a && b[j - |a|] in b;
      }
    }
  }

  lemma {:induction false} OrderedIsTree(v: Value)
    requires JsonTree(v)
    ensures JsonTree(Ordered(v))
    decreases v, 1
  {
    match v {
      case Arr(es) =>
        OrderedAllAreTrees(es);
      case Obj(ms) =>
        hide Visited, DistinctKeys;
        OrderedMembersAreTrees(ms);
        SameDistinctKeys(OrderedMembers(ms), ms);
        VisitedDistinct(OrderedMembers(ms));
        VisitedMembers(OrderedMembers(ms));
      case _ =>
    }
  }

  lemma SameDistinctKeys(ms: seq<Member>, ns: seq<Member>)
    requires |ms| == |ns| && (forall i | 0 <= i < |ms| :: ms[i].key == ns[i].key) && DistinctKeys(ns)
    ensures DistinctKeys(ms)
  {
  }

  lemma {:induction false} OrderedAllAreTrees(es: seq<Value>)
    requires forall e | e in es :: JsonTree(e)
    ensures forall e | e in OrderedAll(es) :: JsonTree(e)
    decreases es, 0
  {
    hide JsonTree, Ordered;
    if es != [] {
      OrderedIsTree(es[0]);
      OrderedAllAreTrees(es[1..]);
    }
  }

  lemma {:induction false} OrderedMembersAreTrees(ms: seq<Member>)
    requires forall m | m in ms :: JsonTree(m.value)
    ensures forall m | m in OrderedMembers(ms) :: JsonTree(m.value)
    decreases ms, 0
  {
    hide JsonTree, Ordered;
    if ms != [] {
      OrderedIsTree(ms[0].value);
      OrderedMembersAreTrees(ms[1..]);
    }
  }

  /** `constructor` comes last, if it is there at all. */
  predicate KeysLast(ms: seq<Member>) {
    forall i | 0 <= i < |ms| - 1 :: ms[i].key != CONSTRUCTOR
  }

  /** No object of the tree has a property behind `constructor`. */
  predicate ConstructorLast(v: Value) {
    match v
    case Arr(es) => AllLast(es)
    case Obj(ms) => KeysLast(ms) && MembersLast(ms)
    case _ => true
  }

  predicate AllLast(es: seq<Value>) {
    es == [] || (ConstructorLast(es[0]) && AllLast(es[1..]))
  }

  predicate MembersLast(ms: seq<Member>) {
    ms == [] || (ConstructorLast(ms[0].value) && MembersLast(ms[1..]))
  }

  lemma VisitedIsLast(ms: seq<Member>)
    requires DistinctKeys(ms)
    ensures KeysLast(Visited(ms))
  {
    hide Others, Constructors, DistinctKeys;
    VisitedMembers(ms);
    var k := FirstConstructor(ms);
    ConstructorIs(ms, k);
    forall i | 0 <= i < |Visited(ms)| - 1 ensures Visited(ms)[i].key != CONSTRUCTOR {
      assert Visited(ms)[i] == Others(ms)[i];
    }
  }

  lemma {:induction false} FirstConstructor(ms: seq<Member>) returns (k: nat)
    ensures k <= |ms|
    ensures if k < |ms| then ms[k].key == CONSTRUCTOR else forall i | 0 <= i < |ms| :: ms[i].key != CONSTRUCTOR
  {
    if ms == [] || ms[0].key == CONSTRUCTOR {
      k := 0;
    } else {
      k := FirstConstructor(ms[1..]);
      k := k + 1;
      assert forall i | 0 < i < |ms| :: ms[i] == ms[1..][i - 1];
    }
  }

  /** Visiting changes the order exactly if `constructor` is not last. */
  lemma {:induction false} VisitedIsSame(ms: seq<Member>)
    requires DistinctKeys(ms)
    ensures Visited(ms) == ms <==> KeysLast(ms)
  {
    hide Visited, DistinctKeys;
    VisitedIsLast(ms);
    if KeysLast(ms) {
      LastIsSame(ms);
    }
  }

  lemma {:induction false} LastIsSame(ms: seq<Member>)
    requires KeysLast(ms)
    ensures Visited(ms) == ms
  {
    hide Visited;
    if |ms| <= 1 {
      VisitedOne(ms);
    } else {
      assert ms[0].key != CONSTRUCTOR;
      assert forall i | 0 <= i < |ms[1..]| :: ms[1..][i] == ms[i + 1];
      LastIsSame(ms[1..]);
      VisitedCons(ms);
      assert ms == [ms[0]] + ms[1..];
    }
  }

  lemma VisitedOne(ms: seq<Member>)
    requires |ms| <= 1
    ensures Visited(ms) == ms
  {
  }

  lemma VisitedCons(ms: seq<Member>)
    requires ms != [] && ms[0].key != CONSTRUCTOR
    ensures Visited(ms) == [ms[0]] + Visited(ms[1..])
  {
    hide Others, Constructors;
    OthersCons(ms);
    assert [] + Constructors(ms[1..]) == Constructors(ms[1..]);
  }

  lemma SameKeysLast(ms: seq<Member>, ns: seq<Member>)
    requires |ms| == |ns| && forall i | 0 <= i < |ms| :: ms[i].key == ns[i].key
    ensures KeysLast(ms) == KeysLast(ns)
  {
  }

  /** Printing keeps the order of a tree's members exactly if `constructor` is always last. */
  lemma {:induction false} OrderedIsSame(v: Value)
    requires JsonTree(v)
    ensures Ordered(v) == v <==> ConstructorLast(v)
    decreases v, 1
  {
    match v {
      case Arr(es) =>
        hide OrderedAll, AllLast;
        OrderedAllIsSame(es);
      case Obj(ms) =>
        hide Visited, DistinctKeys, KeysLast, MembersLast, OrderedMembers;
        var os := OrderedMembers(ms);
        OrderedMembersIsSame(ms);
        SameDistinctKeys(os, ms);
        SameKeysLast(os, ms);
        VisitedIsSame(os);
        VisitedIsLast(os);
      case _ =>
    }
  }

  lemma {:induction false} OrderedAllIsSame(es: seq<Value>)
    requires forall e | e in es :: JsonTree(e)
    ensures OrderedAll(es) == es <==> AllLast(es)
    decreases es, 0
  {
    hide JsonTree, Ordered, ConstructorLast, OrderedAll;
    OrderedAllCons(es);
    if es != [] {
      OrderedIsSame(es[0]);
      OrderedAllIsSame(es[1..]);
      ConsIsSame(Ordered(es[0]), OrderedAll(es[1..]), es);
    }
  }

  lemma {:induction false} OrderedMembersIsSame(ms: seq<Member>)
    requires forall m | m in ms :: JsonTree(m.value)
    ensures OrderedMembers(ms) == ms <==> MembersLast(ms)
    decreases ms, 0
  {
    hide JsonTree, Ordered, ConstructorLast, OrderedMembers;
    OrderedMembersCons(ms);
    if ms != [] {
      OrderedIsSame(ms[0].value);
      OrderedMembersIsSame(ms[1..]);
      ConsIsSame(Member(ms[0].key, Ordered(ms[0].value)), OrderedMembers(ms[1..]), ms);
    }
  }

  /** Whatever its order was, a tree is printed with `constructor` last. */
  lemma {:induction false} OrderedIsLast(v: Value)
    requires JsonTree(v)
    ensures ConstructorLast(Ordered(v))
    decreases v, 1
  {
    match v {
      case Arr(es) =>
        hide OrderedAll, AllLast;
        OrderedAllIsLast(es);
      case Obj(ms) =>
        hide Visited, DistinctKeys, KeysLast, MembersLast, OrderedMembers;
        var os := OrderedMembers(ms);
        OrderedMembersIsLast(ms);
        SameDistinctKeys(os, ms);
        VisitedIsLast(os);
        VisitedMembersLast(os);
      case _ =>
    }
  }

  lemma {:induction false} OrderedAllIsLast(es: seq<Value>)
    requires forall e | e in es :: JsonTree(e)
    ensures AllLast(OrderedAll(es))
    decreases es, 0
  {
    hide JsonTree, Ordered, ConstructorLast, OrderedAll;
    OrderedAllCons(es);
    if es != [] {
      OrderedIsLast(es[0]);
      OrderedAllIsLast(es[1..]);
    }
  }

  lemma {:induction false} OrderedMembersIsLast(ms: seq<Member>)
    requires forall m | m in ms :: JsonTree(m.value)
    ensures MembersLast(OrderedMembers(ms))
    decreases ms, 0
  {
    hide JsonTree, Ordered, ConstructorLast, OrderedMembers;
    OrderedMembersCons(ms);
    if ms != [] {
      OrderedIsLast(ms[0].value);
      OrderedMembersIsLast(ms[1..]);
    }
  }

  lemma {:induction false} MembersLastMeans(ms: seq<Member>)
    ensures MembersLast(ms) <==> forall m | m in ms :: ConstructorLast(m.value)
  {
    hide ConstructorLast;
    if ms != [] {
      MembersLastMeans(ms[1..]);
      assert ms == [ms[0]] + ms[1..];
    }
  }

  lemma VisitedMembersLast(ms: seq<Member>)
    requires MembersLast(ms)
    ensures MembersLast(Visited(ms))
  {
    hide ConstructorLast, Visited, MembersLast;
    VisitedMembers(ms);
    MembersLastMeans(ms);
    MembersLastMeans(Visited(ms));
  }

  // ----- strings

  /** The escape sequence for one code unit, or the code unit itself. */
  function Escaped(c: CodeUnit): Text {
    match c
    case 92 => [92, 92]
    case 34 => [92, 34]
    case 8 => [92, 98]
    case 12 => [92, 102]
    case 10 => [92, 110]
    case 13 => [92, 114]
    case 9 => [92, 116]
    case _ => if c < 32 then [92, 117, 48, 48, HexDigit(c / 16), HexDigit(c % 16)] else [c]
  }

  function HexDigit(d: nat): CodeUnit
    requires d < 16
  {
    if d < 10 then 48 + d else 87 + d
  }

  function EscapedAll(s: Text): Text {
    if s == [] then [] else Escaped(s[0]) + EscapedAll(s[1..])
  }

  function Quoted(s: Text): Text {
    [QUOTE] + EscapedAll(s) + [QUOTE]
  }

  /** quote(). */
  method Quote(value: Text) returns (result: Text)
    ensures result == Quoted(value)
  {
    hide EscapedAll, Escaped;
    result := [QUOTE];
    var index := 0;
    assert value[0..] == value;
    while index < |value|
      invariant 0 <= index <= |value|
      invariant [QUOTE] + EscapedAll(value) == result + EscapedAll(value[index..])
    {
      EscapedAllCons(value[index..]);
      assert value[index..][1..] == value[index + 1..];
      var charCode := value[index];
      var piece := EscapeUnit(charCode);
      assert result + (piece + EscapedAll(value[index + 1..])) == result + piece + EscapedAll(value[index + 1..]);
      result := result + piece;
      index := index + 1;
    }
    EscapedAllCons(value[index..]);
    result := result + [QUOTE];
  }

  /** The switch inside quote(): shorthand escapes, \u00XX for other control characters. */
  method EscapeUnit(charCode: CodeUnit) returns (piece: Text)
    ensures piece == Escaped(charCode)
  {
    if charCode == 8 { piece := [92, 98]; }
    else if charCode == 9 { piece := [92, 116]; }
    else if charCode == 10 { piece := [92, 110]; }
    else if charCode == 12 { piece := [92, 102]; }
    else if charCode == 13 { piece := [92, 114]; }
    else if charCode == 34 { piece := [92, 34]; }
    else if charCode == 92 { piece := [92, 92]; }
    else if charCode < 32 {
      // the two-digit slice of a zero-padded hexadecimal number
      var hex := if charCode < 16 then [HexDigit(charCode)] else [HexDigit(charCode / 16), HexDigit(charCode % 16)];
      var padded := [48, 48, 48, 48, 48, 48] + hex;
      assert charCode < 16 ==> charCode / 16 == 0 && charCode % 16 == charCode;
      piece := [92, 117, 48, 48] + padded[|padded| - 2..];
    } else {
      piece := [charCode];
    }
  }

  lemma EscapedAllCons(s: Text)
    ensures EscapedAll(s) == if s == [] then [] else Escaped(s[0]) + EscapedAll(s[1..])
  {
  }

  // ----- numbers

  function Decimal(n: int): Text {
    if n < 0 then [MINUS] + Digits(-n) else Digits(n)
  }

  // ----- layout

  /** What separates the elements from the brackets and from each other: nothing without a
      gap, otherwise a line break and the indentation. */
  function NewLine(gap: Text, indent: Text): Text {
    if gap == [] then [] else [LF] + indent
  }

  function Join(texts: seq<Text>, sep: Text): Text {
    if texts == [] then []
    else if |texts| == 1 then texts[0]
    else texts[0] + sep + Join(texts[1..], sep)
  }

  function Enclosed(open: CodeUnit, texts: seq<Text>, close: CodeUnit, gap: Text, indent: Text): Text {
    if texts == [] then [open, close]
    else
      var inner := NewLine(gap, indent + gap);
      [open] + inner + Join(texts, [COMMA] + inner) + NewLine(gap, indent) + [close]
  }

  function Print(v: Value, gap: Text, indent: Text): Text
    requires JsonTree(v)
    decreases v, 1
  {
    match v
    case Null => NULL
    case Bool(b) => if b then TRUE else FALSE
    case Num(n) => Decimal(n)
    case Str(s) => Quoted(s)
    case Arr(es) => Enclosed(LBRACKET, PrintAll(es, gap, indent + gap), RBRACKET, gap, indent)
    case Obj(ms) => Enclosed(LBRACE, PrintMembers(ms, gap, indent + gap), RBRACE, gap, indent)
  }

  function PrintAll(es: seq<Value>, gap: Text, indent: Text): (r: seq<Text>)
    requires forall e | e in es :: JsonTree(e)
    ensures |r| == |es|
    decreases es, 0
  {
    if es == [] then [] else [Print(es[0], gap, indent)] + PrintAll(es[1..], gap, indent)
  }

  function MemberText(key: Text, gap: Text, value: Text): Text {
    Quoted(key) + [COLON] + (if gap == [] then [] else [SPACE]) + value
  }

  function PrintMembers(ms: seq<Member>, gap: Text, indent: Text): (r: seq<Text>)
    requires forall m | m in ms :: JsonTree(m.value)
    ensures |r| == |ms|
    decreases ms, 0
  {
    if ms == [] then []
    else [MemberText(ms[0].key, gap, Print(ms[0].value, gap, indent))] + PrintMembers(ms[1..], gap, indent)
  }

  /** What stringify makes of a tree, with the indentation `gap`. */
  function Stringified(v: Value, gap: Text): Text
    requires JsonTree(v)
  {
    OrderedIsTree(v);
    Print(Ordered(v), gap, [])
  }

  lemma StringifiedIs(v: Value, gap: Text)
    requires JsonTree(v)
    ensures JsonTree(Ordered(v)) && Stringified(v, gap) == Print(Ordered(v), gap, [])
  {
    hide JsonTree, Ordered, Print;
    OrderedIsTree(v);
  }

  /** serialize(), on trees without undefined, functions, dates and cycles. */
  method Serialize(value: Value, whitespace: Text, indentation: Text) returns (result: Text)
    requires JsonTree(value)
    ensures JsonTree(Ordered(value)) && result == Print(Ordered(value), whitespace, indentation)
    decreases value, 1
  {
    hide Enclosed, PrintAll, PrintMembers, Quoted, Decimal, OrderedAll, OrderedMembers, Visited;
    OrderedIsTree(value);
    match value
    case Null => result := NULL;
    case Bool(b) => result := if b then TRUE else FALSE;
    case Num(n) => result := Decimal(n);
    case Str(s) => result := Quote(s);
    case Arr(es) =>
      var results := SerializeElements(es, whitespace, indentation + whitespace);
      result := Enclose(LBRACKET, results, RBRACKET, whitespace, indentation);
    case Obj(ms) =>
      var results := SerializeProperties(ms, whitespace, indentation + whitespace);
      result := Enclose(LBRACE, results, RBRACE, whitespace, indentation);
  }

  /** Its loop over an array. */
  method SerializeElements(es: seq<Value>, whitespace: Text, indentation: Text) returns (results: seq<Text>)
    requires forall e | e in es :: JsonTree(e)
    ensures (forall e | e in OrderedAll(es) :: JsonTree(e)) && results == PrintAll(OrderedAll(es), whitespace, indentation)
    decreases es, 0
  {
    hide *;
    OrderedAllAreTrees(es);
    results := [];
    var index := 0;
    assert es[0..] == es;
    while index < |es|
      invariant 0 <= index <= |es| && forall e | e in OrderedAll(es[index..]) :: JsonTree(e)
      invariant PrintAll(OrderedAll(es), whitespace, indentation) == results + PrintAll(OrderedAll(es[index..]), whitespace, indentation)
    {
      OrderedAllCons(es[index..]);
      PrintAllCons(OrderedAll(es[index..]), whitespace, indentation);
      assert es[index..][1..] == es[index + 1..];
      OrderedAllAreTrees(es[index + 1..]);
      var element := Serialize(es[index], whitespace, indentation);
      results := results + [element];
      index := index + 1;
    }
    OrderedAllCons(es[index..]);
    PrintAllCons(OrderedAll(es[index..]), whitespace, indentation);
  }

  lemma OrderedAllCons(es: seq<Value>)
    ensures OrderedAll(es) == if es == [] then [] else [Ordered(es[0])] + OrderedAll(es[1..])
    ensures es != [] ==> OrderedAll(es)[0] == Ordered(es[0]) && OrderedAll(es)[1..] == OrderedAll(es[1..])
  {
    hide Ordered;
  }

  lemma OrderedMembersCons(ms: seq<Member>)
    ensures OrderedMembers(ms) == if ms == [] then [] else [Member(ms[0].key, Ordered(ms[0].value))] + OrderedMembers(ms[1..])
    ensures ms != [] ==> OrderedMembers(ms)[0] == Member(ms[0].key, Ordered(ms[0].value)) && OrderedMembers(ms)[1..] == OrderedMembers(ms[1..])
  {
    hide Ordered;
  }

  lemma {:induction false} OthersAreTrees(ms: seq<Member>)
    requires forall m | m in ms :: JsonTree(m.value)
    ensures forall m | m in Others(OrderedMembers(ms)) :: JsonTree(m.value)
    ensures forall m | m in Constructors(OrderedMembers(ms)) :: JsonTree(m.value)
    ensures forall m | m in Visited(OrderedMembers(ms)) :: JsonTree(m.value)
  {
    hide *;
    OrderedMembersAreTrees(ms);
    VisitedMembers(OrderedMembers(ms));
  }

  /** The texts of the members other than `constructor`. */
  function OtherTexts(ms: seq<Member>, gap: Text, indent: Text): seq<Text>
    requires forall m | m in ms :: JsonTree(m.value)
  {
    OthersAreTrees(ms);
    PrintMembers(Others(OrderedMembers(ms)), gap, indent)
  }

  lemma OtherTextsCons(ms: seq<Member>, gap: Text, indent: Text)
    requires ms != [] && forall m | m in ms :: JsonTree(m.value)
    ensures JsonTree(Ordered(ms[0].value))
    ensures OtherTexts(ms, gap, indent)
            == (if ms[0].key == CONSTRUCTOR then [] else [MemberText(ms[0].key, gap, Print(Ordered(ms[0].value), gap, indent))])
               + OtherTexts(ms[1..], gap, indent)
  {
    hide Others, Constructors, Ordered, OrderedMembers, PrintMembers, Print, MemberText, JsonTree;
    var head := Member(ms[0].key, Ordered(ms[0].value));
    OrderedIsTree(ms[0].value);
    OrderedMembersCons(ms);
    OthersCons(OrderedMembers(ms));
    OthersAreTrees(ms);
    OthersAreTrees(ms[1..]);
    var rest := Others(OrderedMembers(ms[1..]));
    if ms[0].key == CONSTRUCTOR {
      assert [] + rest == rest;
    } else {
      PrintMembersCons([head] + rest, gap, indent);
      assert ([head] + rest)[1..] == rest;
    }
  }

  lemma {:induction false} ConstructorIs(ms: seq<Member>, k: nat)
    requires DistinctKeys(ms) && k <= |ms|
    requires if k < |ms| then ms[k].key == CONSTRUCTOR else forall i | 0 <= i < |ms| :: ms[i].key != CONSTRUCTOR
    ensures Constructors(ms) == if k < |ms| then [ms[k]] else []
  {
    hide Constructors;
    OthersCons(ms);
    if ms != [] {
      if k == 0 {
        assert forall i | 0 <= i < |ms[1..]| :: ms[1..][i] == ms[i + 1];
        ConstructorIs(ms[1..], |ms| - 1);
      } else {
        ConstructorIs(ms[1..], k - 1);
      }
    }
  }

  lemma {:induction false} PrintMembersConcat(a: seq<Member>, b: seq<Member>, gap: Text, indent: Text)
    requires forall m | m in a + b :: JsonTree(m.value)
    ensures (forall m | m in a :: JsonTree(m.value)) && forall m | m in b :: JsonTree(m.value)
    ensures PrintMembers(a + b, gap, indent) == PrintMembers(a, gap, indent) + PrintMembers(b, gap, indent)
  {
    hide *;
    assert forall m | m in a :: m in a + b;
    assert forall m | m in b :: m in a + b;
    PrintMembersCons(a, gap, indent);
    PrintMembersCons(a + b, gap, indent);
    if a == [] {
      assert a + b == b;
    } else {
      assert (a + b)[1..] == a[1..] + b;
      PrintMembersConcat(a[1..], b, gap, indent);
    }
  }

  /** The results of the object's loop, once `constructor` has been found at `k` or not at all. */
  lemma AllTexts(ms: seq<Member>, k: nat, gap: Text, indent: Text)
    requires DistinctKeys(ms) && k <= |ms| && forall m | m in ms :: JsonTree(m.value)
    requires if k < |ms| then ms[k].key == CONSTRUCTOR else forall i | 0 <= i < |ms| :: ms[i].key != CONSTRUCTOR
    ensures k < |ms| ==> JsonTree(Ordered(ms[k].value))
    ensures forall m | m in Visited(OrderedMembers(ms)) :: JsonTree(m.value)
    ensures PrintMembers(Visited(OrderedMembers(ms)), gap, indent)
            == OtherTexts(ms, gap, indent)
               + if k < |ms| then [MemberText(CONSTRUCTOR, gap, Print(Ordered(ms[k].value), gap, indent))] else []
  {
    hide Others, Constructors, Ordered, OrderedMembers, PrintMembers, Print, MemberText, JsonTree, DistinctKeys;
    var os := OrderedMembers(ms);
    OthersAreTrees(ms);
    SameDistinctKeys(os, ms);
    ConstructorIs(os, k);
    PrintMembersConcat(Others(os), Constructors(os), gap, indent);
    PrintMembersCons(Constructors(os), gap, indent);
    if k < |ms| {
      OrderedIsTree(ms[k].value);
      OrderedAt(ms, k);
      assert Constructors(os)[1..] == [];
      PrintMembersCons([], gap, indent);
    }
  }

  lemma {:induction false} OrderedAt(ms: seq<Member>, k: nat)
    requires k < |ms|
    ensures OrderedMembers(ms)[k] == Member(ms[k].key, Ordered(ms[k].value))
  {
    hide Ordered;
    if k > 0 {
      OrderedAt(ms[1..], k - 1);
    }
  }

  /** Its loop over the properties of an object: forEach passes over `constructor` and comes to
      it at the end. */
  method SerializeProperties(ms: seq<Member>, whitespace: Text, indentation: Text) returns (results: seq<Text>)
    requires DistinctKeys(ms) && forall m | m in ms :: JsonTree(m.value)
    ensures forall m | m in Visited(OrderedMembers(ms)) :: JsonTree(m.value)
    ensures results == PrintMembers(Visited(OrderedMembers(ms)), whitespace, indentation)
    decreases ms, 1
  {
    hide *;
    results := [];
    var own: nat := |ms|;
    var index := 0;
    assert ms[0..] == ms;
    while index < |ms|
      invariant 0 <= index <= |ms| && own <= |ms|
      invariant if own < |ms| then ms[own].key == CONSTRUCTOR else forall i | 0 <= i < index :: ms[i].key != CONSTRUCTOR
      invariant OtherTexts(ms, whitespace, indentation) == results + OtherTexts(ms[index..], whitespace, indentation)
    {
      OtherTextsCons(ms[index..], whitespace, indentation);
      assert ms[index..][1..] == ms[index + 1..];
      if ms[index].key == CONSTRUCTOR {
        own := index;
      } else {
        var text := SerializeProperty(ms[index], whitespace, indentation);
        results := results + [text];
      }
      index := index + 1;
    }
    assert ms[index..] == [];
    NoOtherTexts(whitespace, indentation);
    AllTexts(ms, own, whitespace, indentation);
    if own < |ms| {
      var text := SerializeProperty(ms[own], whitespace, indentation);
      results := results + [text];
    }
  }

  lemma NoOtherTexts(gap: Text, indent: Text)
    ensures OtherTexts([], gap, indent) == []
  {
  }

  /** The callback for one property. */
  method SerializeProperty(m: Member, whitespace: Text, indentation: Text) returns (text: Text)
    requires JsonTree(m.value)
    ensures JsonTree(Ordered(m.value))
    ensures text == MemberText(m.key, whitespace, Print(Ordered(m.value), whitespace, indentation))
    decreases m, 0
  {
    hide *;
    var element := Serialize(m.value, whitespace, indentation);
    var property := Quote(m.key);
    text := property + [COLON] + (if whitespace == [] then [] else [SPACE]) + element;
    MemberTextIs(m.key, whitespace, element);
  }

  lemma MemberTextIs(key: Text, gap: Text, value: Text)
    ensures MemberText(key, gap, value) == Quoted(key) + [COLON] + (if gap == [] then [] else [SPACE]) + value
  {
    hide Quoted;
    var space: Text := if gap == [] then [] else [SPACE];
    assert MemberText(key, gap, value) == Quoted(key) + [COLON] + space + value;
  }

  lemma PrintAllCons(es: seq<Value>, gap: Text, indent: Text)
    requires forall e | e in es :: JsonTree(e)
    ensures PrintAll(es, gap, indent)
            == if es == [] then [] else [Print(es[0], gap, indent)] + PrintAll(es[1..], gap, indent)
  {
  }

  lemma PrintMembersCons(ms: seq<Member>, gap: Text, indent: Text)
    requires forall m | m in ms :: JsonTree(m.value)
    ensures PrintMembers(ms, gap, indent)
            == if ms == [] then []
               else [MemberText(ms[0].key, gap, Print(ms[0].value, gap, indent))] + PrintMembers(ms[1..], gap, indent)
  {
  }

  /** The two expressions that put brackets around the collected results. */
  method Enclose(open: CodeUnit, results: seq<Text>, close: CodeUnit, whitespace: Text, prefix: Text) returns (r: Text)
    ensures r == Enclosed(open, results, close, whitespace, prefix)
  {
    hide Join;
    var indentation := prefix + whitespace;
    if |results| == 0 {
      r := [open, close];
    } else if whitespace != [] {
      var sep := [COMMA, LF] + indentation;
      assert sep == [COMMA] + ([LF] + indentation);
      r := [open, LF] + indentation + Join(results, sep) + [LF] + prefix + [close];
      assert r == [open] + ([LF] + indentation) + Join(results, sep) + ([LF] + prefix) + [close];
    } else {
      assert [COMMA] + [] == [COMMA];
      r := [open] + Join(results, [COMMA]) + [close];
      assert r == [open] + [] + Join(results, [COMMA]) + [] + [close];
    }
  }

  /** The third argument of stringify. */
  datatype Width = NoWidth | Spaces(n: int) | Custom(s: Text)

  function Gap(width: Width): (gap: Text)
    ensures |gap| <= 10
  {
    match width
    case NoWidth => []
    case Spaces(n) => if n <= 0 then [] else seq(if n < 10 then n else 10, _ => SPACE)
    case Custom(s) => if |s| <= 10 then s else s[..10]
  }

  /** exports.stringify, without a filter. */
  method Stringify(source: Value, width: Width) returns (r: Text)
    requires JsonTree(source)
    ensures r == Stringified(source, Gap(width))
  {
    hide Print, Ordered, JsonTree;
    StringifiedIs(source, Gap(width));
    var whitespace: Text := [];
    match width {
      case NoWidth =>
      case Spaces(n) =>
        if n > 0 {
          var w := if n > 10 then 10 else n;
          while |whitespace| < w
            invariant |whitespace| <= w
            invariant forall i | 0 <= i < |whitespace| :: whitespace[i] == SPACE
          {
            whitespace := whitespace + [SPACE];
          }
        }
      case Custom(s) =>
        whitespace := if |s| <= 10 then s else s[..10];
    }
    assert whitespace == Gap(width);
    r := Serialize(source, whitespace, []);
  }
}
