/** What stringify writes, piece by piece: each element and each closing bracket on a line of its own
    that is indented by the gap as often as it is nested deep, or no white space at all. */
module Json3Layout {
  import opened JsText
  import opened JsNumbers
  import opened JsValue
  import opened Json3Printer
  import opened Json3Parser
  import opened Json3RoundTrip
  import opened Json3Literals
  import opened Json3Grammar

  /** The gap, `depth` times. */
  function Times(gap: Text, depth: nat): Text {
    if depth == 0 then [] else Times(gap, depth - 1) + gap
  }

  /** The start of a line at a depth; without a gap there are no lines. */
  function Line(gap: Text, depth: nat): Text {
    if gap == [] then [] else [LF] + Times(gap, depth)
  }

  /** The shortest spelling of a code unit. */
  function Shortest(c: CodeUnit): Spelling {
    if c >= 32 && c != 34 && c != 92 then Plain(c)
    else if c == 34 || c == 92 then Shorthand(c, c)
    else if c == 8 then Shorthand(c, 98)
    else if c == 9 then Shorthand(c, 116)
    else if c == 10 then Shorthand(c, 110)
    else if c == 12 then Shorthand(c, 102)
    else if c == 13 then Shorthand(c, 114)
    else Hex(c, (false, false, false, false))
  }

  function ShortestAll(s: Text): seq<Spelling> {
    if s == [] then [] else [Shortest(s[0])] + ShortestAll(s[1..])
  }

  function Integer(n: int): NumberText {
    NumberText(n < 0, Digits(if n < 0 then -n else n), None, None)
  }

  /** The value as a document, with its white space, at a depth. */
  function LaidOut(v: Value, gap: Text, depth: nat): Doc
    requires JsonTree(v)
  {
    match v
    case Null => Word(v)
    case Bool(_) => Word(v)
    case Num(n) => Number(Integer(n))
    case Str(s) => String(ShortestAll(s))
    case Arr(es) => Array(LaidItems(es, gap, depth), [])
    case Obj(ms) => Object(LaidEntries(ms, gap, depth), [])
  }

  /** Elements stand one deeper; the bracket behind the last one does not. */
  function LaidItems(es: seq<Value>, gap: Text, depth: nat): seq<Padded>
    requires forall e | e in es :: JsonTree(e)
  {
    if es == [] then []
    else
      [Padded(Line(gap, depth + 1), LaidOut(es[0], gap, depth + 1), if |es| == 1 then Line(gap, depth) else [])]
      + LaidItems(es[1..], gap, depth)
  }

  function LaidEntries(ms: seq<Member>, gap: Text, depth: nat): seq<Entry>
    requires forall m | m in ms :: JsonTree(m.value)
  {
    if ms == [] then []
    else
      var space: Text := if gap == [] then [] else [SPACE];
      var value := Padded(space, LaidOut(ms[0].value, gap, depth + 1), if |ms| == 1 then Line(gap, depth) else []);
      [Entry(Line(gap, depth + 1), ShortestAll(ms[0].key), [], value)] + LaidEntries(ms[1..], gap, depth)
  }

  // ----- strings and numbers

  lemma ShortestIs(c: CodeUnit)
    ensures Spells(Shortest(c)) && Shortest(c).c == c && Written(Shortest(c)) == Escaped(c)
  {
    if c < 32 && c != 8 && c != 9 && c != 10 && c != 12 && c != 13 {
      assert c / 4096 == 0 && c / 256 == 0 && c / 16 < 2;
      assert Digit16(c / 16, false) == HexDigit(c / 16) && Digit16(c % 16, false) == HexDigit(c % 16);
    }
  }

  lemma {:induction false} ShortestAllIs(s: Text)
    ensures AllSpelled(ShortestAll(s)) && Spelled(ShortestAll(s)) == s && WrittenAll(ShortestAll(s)) == EscapedAll(s)
  {
    hide Shortest, Written, Escaped, Spells;
    if s != [] {
      ShortestIs(s[0]);
      ShortestAllIs(s[1..]);
      assert ShortestAll(s)[1..] == ShortestAll(s[1..]) && s == [s[0]] + s[1..];
    }
  }

  lemma QuotedIs(s: Text)
    ensures Quoted(s) == WriteString(ShortestAll(s))
  {
    hide ShortestAll, EscapedAll, WrittenAll;
    ShortestAllIs(s);
  }

  lemma IntegerIs(n: int)
    ensures WriteNumber(Integer(n)) == Decimal(n)
  {
    hide Digits;
    var digits := Digits(if n < 0 then -n else n);
    assert [] + digits + [] + [] == digits && [45] + digits + [] + [] == [45] + digits;
  }

  // ----- layout

  lemma LineIs(gap: Text, depth: nat)
    ensures NewLine(gap, Times(gap, depth)) == Line(gap, depth) && Times(gap, depth) + gap == Times(gap, depth + 1)
  {
  }

  lemma ItemsCons(es: seq<Value>, gap: Text, depth: nat)
    requires es != [] && forall e | e in es :: JsonTree(e)
    ensures JsonTree(es[0]) && forall e | e in es[1..] :: JsonTree(e)
    ensures LaidItems(es, gap, depth)
            == [Padded(Line(gap, depth + 1), LaidOut(es[0], gap, depth + 1), if |es| == 1 then Line(gap, depth) else [])]
               + LaidItems(es[1..], gap, depth)
  {
    hide JsonTree, LaidOut, Line;
  }

  lemma EntriesCons(ms: seq<Member>, gap: Text, depth: nat)
    requires ms != [] && forall m | m in ms :: JsonTree(m.value)
    ensures JsonTree(ms[0].value) && forall m | m in ms[1..] :: JsonTree(m.value)
    ensures var space: Text := if gap == [] then [] else [SPACE];
            LaidEntries(ms, gap, depth)
            == [Entry(Line(gap, depth + 1), ShortestAll(ms[0].key), [],
                      Padded(space, LaidOut(ms[0].value, gap, depth + 1), if |ms| == 1 then Line(gap, depth) else []))]
               + LaidEntries(ms[1..], gap, depth)
  {
    hide JsonTree, LaidOut, Line, ShortestAll;
  }

  /** What is printed at a depth is the document laid out at that depth. */
  lemma {:induction false} PrintIsLaidOut(v: Value, gap: Text, depth: nat)
    requires JsonTree(v)
    ensures Print(v, gap, Times(gap, depth)) == Write(LaidOut(v, gap, depth))
    decreases v, 1
  {
    match v
    case Null =>
    case Bool(b) =>
    case Num(n) => IntegerIs(n);
    case Str(s) => QuotedIs(s);
    case Arr(es) => ArrayIsLaidOut(es, gap, depth);
    case Obj(ms) => ObjectIsLaidOut(ms, gap, depth);
  }

  lemma PrintParts(gap: Text, depth: nat)
    ensures forall es | JsonTree(Arr(es)) ::
              Print(Arr(es), gap, Times(gap, depth)) == Enclosed(LBRACKET, PrintAll(es, gap, Times(gap, depth) + gap), RBRACKET, gap, Times(gap, depth))
  {
    hide Enclosed, PrintAll, Times;
  }

  lemma {:induction false} ArrayIsLaidOut(es: seq<Value>, gap: Text, depth: nat)
    requires JsonTree(Arr(es))
    ensures Print(Arr(es), gap, Times(gap, depth)) == Write(LaidOut(Arr(es), gap, depth))
    decreases es, 2
  {
    ArrayLayout(es, gap, depth);
    hide *;
    var indent := Times(gap, depth);
    LineIs(gap, depth);
    LineIs(gap, depth + 1);
    if es == [] {
      EnclosedNothing(LBRACKET, PrintAll(es, gap, indent + gap), RBRACKET, gap, indent);
    } else {
      var texts := PrintAll(es, gap, indent + gap);
      PrintAllCons(es, gap, indent + gap);
      EnclosedIsRest(LBRACKET, texts, RBRACKET, gap, indent);
      ItemsCons(es, gap, depth);
      PrintIsLaidOut(es[0], gap, depth + 1);
      var items := LaidItems(es[1..], gap, depth);
      assert texts[1..] == PrintAll(es[1..], gap, indent + gap);
      RestIsMore(es[1..], gap, depth, if |es| == 1 then Line(gap, depth) else []);
      WriteItemsCons(Padded(Line(gap, depth + 1), LaidOut(es[0], gap, depth + 1), if |es| == 1 then Line(gap, depth) else []), items);
      FirstJoined([LBRACKET], Line(gap, depth + 1), texts[0], if |es| == 1 then Line(gap, depth) else [], WriteMore(items), [RBRACKET]);
    }
  }

  lemma FirstJoined(open: Text, line: Text, text: Text, behind: Text, more: Text, close: Text)
    ensures open + (line + text + behind + more) + close == open + line + (text + (behind + (more + close)))
  {
    Associates(line + text, behind, more);
    Associates(line, text, behind + more);
    Associates(open, line, text + (behind + more));
    Associates(open + line, text + (behind + more), close);
    Associates(text, behind + more, close);
    Associates(behind, more, close);
  }

  lemma ArrayLayout(es: seq<Value>, gap: Text, depth: nat)
    requires JsonTree(Arr(es))
    ensures forall e | e in es :: JsonTree(e)
    ensures Print(Arr(es), gap, Times(gap, depth))
            == Enclosed(LBRACKET, PrintAll(es, gap, Times(gap, depth) + gap), RBRACKET, gap, Times(gap, depth))
    ensures Write(LaidOut(Arr(es), gap, depth)) == [LBRACKET] + WriteItems(LaidItems(es, gap, depth), []) + [RBRACKET]
    ensures es == [] ==> WriteItems(LaidItems(es, gap, depth), []) == [] && Write(LaidOut(Arr(es), gap, depth)) == [LBRACKET, RBRACKET]
  {
    hide Enclosed, PrintAll, Times;
    assert [LBRACKET] + [] + [RBRACKET] == [LBRACKET, RBRACKET];
  }

  lemma WriteItemsCons(p: Padded, items: seq<Padded>)
    ensures WriteItems([p] + items, []) == p.before + Write(p.doc) + p.behind + WriteMore(items)
    ensures WriteMore([p] + items) == [COMMA] + (p.before + Write(p.doc) + p.behind) + WriteMore(items)
  {
    hide Write;
    assert ([p] + items)[1..] == items;
  }

  /** The elements behind the first one. */
  lemma {:induction false} RestIsMore(es: seq<Value>, gap: Text, depth: nat, behind: Text)
    requires forall e | e in es :: JsonTree(e)
    requires behind == if es == [] then Line(gap, depth) else []
    ensures Rest(PrintAll(es, gap, Times(gap, depth + 1)), Line(gap, depth + 1), Line(gap, depth), RBRACKET)
            == behind + (WriteMore(LaidItems(es, gap, depth)) + [RBRACKET])
    decreases es, 1
  {
    hide *;
    var inner, outer := Line(gap, depth + 1), Line(gap, depth);
    var texts := PrintAll(es, gap, Times(gap, depth + 1));
    PrintAllCons(es, gap, Times(gap, depth + 1));
    if es == [] {
      NoItemsLaid(gap, depth);
      RestOfNothing(inner, outer, RBRACKET);
      assert [] + [RBRACKET] == [RBRACKET];
    } else {
      ItemsCons(es, gap, depth);
      PrintIsLaidOut(es[0], gap, depth + 1);
      var last := if |es| == 1 then outer else [];
      RestIsMore(es[1..], gap, depth, last);
      assert texts[1..] == PrintAll(es[1..], gap, Times(gap, depth + 1));
      RestCons(texts, inner, outer, RBRACKET);
      var more := WriteMore(LaidItems(es[1..], gap, depth));
      WriteItemsCons(Padded(inner, LaidOut(es[0], gap, depth + 1), last), LaidItems(es[1..], gap, depth));
      MoreJoined(inner, texts[0], last, more, [RBRACKET]);
    }
  }

  lemma MoreJoined(inner: Text, text: Text, last: Text, more: Text, close: Text)
    ensures [COMMA] + inner + text + (last + (more + close)) == [] + ([COMMA] + (inner + text + last) + more + close)
  {
    Associates([COMMA], inner, text);
    Associates([COMMA], inner + text, last);
    Associates([COMMA] + (inner + text + last), more, close);
    Associates([COMMA] + inner + text, last, more + close);
  }

  lemma RestCons(texts: seq<Text>, inner: Text, outer: Text, close: CodeUnit)
    requires texts != []
    ensures Rest(texts, inner, outer, close) == [COMMA] + inner + texts[0] + Rest(texts[1..], inner, outer, close)
  {
  }

  lemma NoItemsLaid(gap: Text, depth: nat)
    ensures WriteMore(LaidItems([], gap, depth)) == [] && WriteMoreEntries(LaidEntries([], gap, depth)) == []
  {
  }

  // ----- objects

  lemma ObjectLayout(ms: seq<Member>, gap: Text, depth: nat)
    requires JsonTree(Obj(ms))
    ensures forall m | m in ms :: JsonTree(m.value)
    ensures Print(Obj(ms), gap, Times(gap, depth))
            == Enclosed(LBRACE, PrintMembers(ms, gap, Times(gap, depth) + gap), RBRACE, gap, Times(gap, depth))
    ensures Write(LaidOut(Obj(ms), gap, depth)) == [LBRACE] + WriteEntries(LaidEntries(ms, gap, depth), []) + [RBRACE]
    ensures ms == [] ==> WriteEntries(LaidEntries(ms, gap, depth), []) == [] && Write(LaidOut(Obj(ms), gap, depth)) == [LBRACE, RBRACE]
  {
    hide Enclosed, PrintMembers, Times;
    assert [LBRACE] + [] + [RBRACE] == [LBRACE, RBRACE];
  }

  lemma {:induction false} ObjectIsLaidOut(ms: seq<Member>, gap: Text, depth: nat)
    requires JsonTree(Obj(ms))
    ensures Print(Obj(ms), gap, Times(gap, depth)) == Write(LaidOut(Obj(ms), gap, depth))
    decreases ms, 2
  {
    ObjectLayout(ms, gap, depth);
    hide *;
    var indent := Times(gap, depth);
    LineIs(gap, depth);
    LineIs(gap, depth + 1);
    if ms == [] {
      EnclosedNothing(LBRACE, PrintMembers(ms, gap, indent + gap), RBRACE, gap, indent);
    } else {
      var texts := PrintMembers(ms, gap, indent + gap);
      PrintMembersCons(ms, gap, indent + gap);
      EnclosedIsRest(LBRACE, texts, RBRACE, gap, indent);
      EntriesCons(ms, gap, depth);
      var last := if |ms| == 1 then Line(gap, depth) else [];
      MemberIsLaidOut(ms[0], gap, depth, last);
      var entries := LaidEntries(ms[1..], gap, depth);
      assert texts[1..] == PrintMembers(ms[1..], gap, indent + gap);
      RestIsMoreEntries(ms[1..], gap, depth, last);
      WriteEntriesCons(LaidEntry(ms[0], gap, depth, last), entries);
      FirstJoined([LBRACE], Line(gap, depth + 1), texts[0], last, WriteMoreEntries(entries), [RBRACE]);
    }
  }

  function LaidEntry(m: Member, gap: Text, depth: nat, last: Text): Entry
    requires JsonTree(m.value)
  {
    var space: Text := if gap == [] then [] else [SPACE];
    Entry(Line(gap, depth + 1), ShortestAll(m.key), [], Padded(space, LaidOut(m.value, gap, depth + 1), last))
  }

  lemma {:induction false} MemberIsLaidOut(m: Member, gap: Text, depth: nat, last: Text)
    requires JsonTree(m.value)
    ensures var space: Text := if gap == [] then [] else [SPACE];
            LaidEntry(m, gap, depth, last) == Entry(Line(gap, depth + 1), ShortestAll(m.key), [], Padded(space, LaidOut(m.value, gap, depth + 1), last))
    ensures WriteEntry(LaidEntry(m, gap, depth, last))
            == Line(gap, depth + 1) + MemberText(m.key, gap, Print(m.value, gap, Times(gap, depth + 1))) + last
    decreases m.value, 3
  {
    hide JsonTree, Print, LaidOut, Line, Times, ShortestAll, Quoted, Write, WriteString;
    PrintIsLaidOut(m.value, gap, depth + 1);
    QuotedIs(m.key);
    var space: Text := if gap == [] then [] else [SPACE];
    EntryJoined(Line(gap, depth + 1), Quoted(m.key), space, Write(LaidOut(m.value, gap, depth + 1)), last);
  }

  lemma EntryJoined(line: Text, key: Text, space: Text, text: Text, last: Text)
    ensures line + key + [] + [COLON] + (space + text + last) == line + (key + [COLON] + space + text) + last
  {
    assert line + key + [] == line + key;
    Associates(line, key, [COLON]);
    Associates(line + (key + [COLON]), space + text, last);
    Associates(line + (key + [COLON]), space, text);
    Associates(line, key + [COLON], space);
    Associates(line, key + [COLON] + space, text);
  }

  lemma WriteEntriesCons(e: Entry, entries: seq<Entry>)
    ensures WriteEntries([e] + entries, []) == WriteEntry(e) + WriteMoreEntries(entries)
    ensures WriteMoreEntries([e] + entries) == [COMMA] + WriteEntry(e) + WriteMoreEntries(entries)
  {
    hide WriteEntry;
    assert ([e] + entries)[1..] == entries;
  }

  lemma {:induction false} RestIsMoreEntries(ms: seq<Member>, gap: Text, depth: nat, behind: Text)
    requires forall m | m in ms :: JsonTree(m.value)
    requires behind == if ms == [] then Line(gap, depth) else []
    ensures Rest(PrintMembers(ms, gap, Times(gap, depth + 1)), Line(gap, depth + 1), Line(gap, depth), RBRACE)
            == behind + (WriteMoreEntries(LaidEntries(ms, gap, depth)) + [RBRACE])
    decreases ms, 1
  {
    hide *;
    var inner, outer := Line(gap, depth + 1), Line(gap, depth);
    var texts := PrintMembers(ms, gap, Times(gap, depth + 1));
    PrintMembersCons(ms, gap, Times(gap, depth + 1));
    if ms == [] {
      NoItemsLaid(gap, depth);
      RestOfNothing(inner, outer, RBRACE);
      assert [] + [RBRACE] == [RBRACE];
    } else {
      EntriesCons(ms, gap, depth);
      var last := if |ms| == 1 then outer else [];
      MemberIsLaidOut(ms[0], gap, depth, last);
      RestIsMoreEntries(ms[1..], gap, depth, last);
      assert texts[1..] == PrintMembers(ms[1..], gap, Times(gap, depth + 1));
      RestCons(texts, inner, outer, RBRACE);
      var more := WriteMoreEntries(LaidEntries(ms[1..], gap, depth));
      WriteEntriesCons(LaidEntry(ms[0], gap, depth, last), LaidEntries(ms[1..], gap, depth));
      MoreJoined(inner, texts[0], last, more, [RBRACE]);
    }
  }

  /** What stringify makes of a tree: the tree in the order of its visit, laid out from the left margin. */
  lemma StringifiedIsLaidOut(v: Value, gap: Text)
    requires JsonTree(v)
    ensures JsonTree(Ordered(v)) && Stringified(v, gap) == Write(LaidOut(Ordered(v), gap, 0))
  {
    hide Stringified, Print, Ordered, LaidOut, Write, JsonTree;
    StringifiedIs(v, gap);
    PrintIsLaidOut(Ordered(v), gap, 0);
  }
}
