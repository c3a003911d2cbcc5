/** JSON as RFC 8259 defines it: the parser accepts exactly its texts, and reads each as the value
    that it denotes. */
module Json3Grammar {
  import opened JsText
  import opened JsNumbers
  import opened JsValue
  import opened Json3Printer
  import opened Json3Parser
  import opened Json3RoundTrip
  import opened Json3Literals

  /** A JSON text, with the white space and the spelling that it is written in; `space` is what an
      empty array or object holds. */
  datatype Doc =
    | Word(v: Value)
    | Number(n: NumberText)
    | String(ss: seq<Spelling>)
    | Array(items: seq<Padded>, space: Text)
    | Object(entries: seq<Entry>, space: Text)

  datatype Padded = Padded(before: Text, doc: Doc, behind: Text)

  datatype Entry = Entry(before: Text, key: seq<Spelling>, behind: Text, value: Padded)

  datatype NumberText = NumberText(negative: bool, whole: Text, fraction: Option<Text>, exponent: Option<Exponent>)

  datatype Exponent = Exponent(mark: CodeUnit, sign: Text, digits: Text)

  // ----- the grammar

  predicate SomeDigits(s: Text) { s != [] && AllDigits(s) }

  predicate ValidNumber(n: NumberText) {
    && SomeDigits(n.whole) && (n.whole[0] == 48 ==> |n.whole| == 1)
    && (n.fraction.Some? ==> SomeDigits(n.fraction.value))
    && (n.exponent.Some? ==> ValidExponent(n.exponent.value))
  }

  predicate ValidExponent(e: Exponent) {
    (e.mark == 101 || e.mark == 69) && (e.sign == [] || e.sign == [43] || e.sign == [45]) && SomeDigits(e.digits)
  }

  predicate AllSpelled(ss: seq<Spelling>) { forall s | s in ss :: Spells(s) }

  predicate Valid(d: Doc) {
    match d
    case Word(v) => v == Null || v == Bool(true) || v == Bool(false)
    case Number(n) => ValidNumber(n)
    case String(ss) => AllSpelled(ss)
    case Array(items, space) => AllSpace(space) && ValidItems(items)
    case Object(entries, space) => AllSpace(space) && ValidEntries(entries)
  }

  predicate ValidPadded(p: Padded) { AllSpace(p.before) && Valid(p.doc) && AllSpace(p.behind) }

  predicate ValidItems(items: seq<Padded>) { items == [] || (ValidPadded(items[0]) && ValidItems(items[1..])) }

  predicate ValidEntry(e: Entry) { AllSpace(e.before) && AllSpelled(e.key) && AllSpace(e.behind) && ValidPadded(e.value) }

  predicate ValidEntries(entries: seq<Entry>) { entries == [] || (ValidEntry(entries[0]) && ValidEntries(entries[1..])) }

  function WriteNumber(n: NumberText): Text {
    (if n.negative then [45] else []) + n.whole
    + (if n.fraction.Some? then [46] + n.fraction.value else [])
    + (if n.exponent.Some? then [n.exponent.value.mark] + n.exponent.value.sign + n.exponent.value.digits else [])
  }

  function WriteWord(v: Value): Text {
    if v == Null then NULL else if v == Bool(true) then TRUE else FALSE
  }

  function WriteString(ss: seq<Spelling>): Text { [QUOTE] + WrittenAll(ss) + [QUOTE] }

  function Write(d: Doc): Text {
    match d
    case Word(v) => WriteWord(v)
    case Number(n) => WriteNumber(n)
    case String(ss) => WriteString(ss)
    case Array(items, space) => [LBRACKET] + WriteItems(items, space) + [RBRACKET]
    case Object(entries, space) => [LBRACE] + WriteEntries(entries, space) + [RBRACE]
  }

  function WritePadded(p: Padded): Text { p.before + Write(p.doc) + p.behind }

  function WriteItems(items: seq<Padded>, space: Text): Text {
    if items == [] then space else WritePadded(items[0]) + WriteMore(items[1..])
  }

  function WriteMore(items: seq<Padded>): Text {
    if items == [] then [] else [COMMA] + WritePadded(items[0]) + WriteMore(items[1..])
  }

  function WriteEntry(e: Entry): Text { e.before + WriteString(e.key) + e.behind + [COLON] + WritePadded(e.value) }

  function WriteEntries(entries: seq<Entry>, space: Text): Text {
    if entries == [] then space else WriteEntry(entries[0]) + WriteMoreEntries(entries[1..])
  }

  function WriteMoreEntries(entries: seq<Entry>): Text {
    if entries == [] then [] else [COMMA] + WriteEntry(entries[0]) + WriteMoreEntries(entries[1..])
  }

  /** The value: of an object's members with the same name the last one counts, in the place of the
      first, and `__proto__` makes none. */
  function Denoted(d: Doc): Value {
    match d
    case Word(v) => v
    case Number(n) => ToNumber(WriteNumber(n))
    case String(ss) => Str(Spelled(ss))
    case Array(items, _) => Arr(DenotedAll(items))
    case Object(entries, _) => Obj(Built(DenotedMembers(entries), []))
  }

  function DenotedAll(items: seq<Padded>): seq<Value> {
    if items == [] then [] else [Denoted(items[0].doc)] + DenotedAll(items[1..])
  }

  function DenotedMembers(entries: seq<Entry>): seq<Member> {
    if entries == [] then [] else [Member(Spelled(entries[0].key), Denoted(entries[0].value.doc))] + DenotedMembers(entries[1..])
  }

  // ----- numbers are read

  lemma DigitsOccur(src: Text, i: nat, s: Text)
    requires SomeDigits(s) && Occurs(src, i, s) && !IsDigit(At(src, i + |s|))
    ensures i + |s| <= |src| && SkipDigits(src, i) == i + |s| && At(src, i) == s[0] && IsDigit(At(src, i))
  {
    OccursAt(src, i, s);
    SkipAllDigits(src, i, s);
    assert IsDigit(s[0]);
  }

  lemma MarkOccurs(src: Text, i: nat, c: CodeUnit, s: Text)
    requires Occurs(src, i, [c] + s)
    ensures At(src, i) == c && Occurs(src, i + 1, s)
  {
    OccursConcat(src, i, [c], s);
    OccursAt(src, i, [c]);
  }

  /** The text of an exponent, and of nothing. */
  function ExponentText(e: Option<Exponent>): Text {
    if e.Some? then [e.value.mark] + e.value.sign + e.value.digits else []
  }

  function FractionText(f: Option<Text>): Text {
    if f.Some? then [46] + f.value else []
  }

  lemma ExponentIsRead(src: Text, i: nat, e: Exponent)
    requires ValidExponent(e) && Occurs(src, i, ExponentText(Some(e))) && Delimited(src, i + |ExponentText(Some(e))|)
    ensures i + |ExponentText(Some(e))| <= |src| && At(src, i) == e.mark
    ensures var digits := if At(src, i + 1) == 43 || At(src, i + 1) == 45 then i + 2 else i + 1;
            digits <= |src| && SkipDigits(src, digits) == i + |ExponentText(Some(e))| && SkipDigits(src, digits) != digits
  {
    hide SkipDigits, Occurs, AllDigits;
    assert ExponentText(Some(e)) == [e.mark] + (e.sign + e.digits);
    MarkOccurs(src, i, e.mark, e.sign + e.digits);
    OccursConcat(src, i + 1, e.sign, e.digits);
    if e.sign != [] {
      OccursAt(src, i + 1, e.sign);
    }
    DigitsOccur(src, i + 1 + |e.sign|, e.digits);
  }

  lemma NumberEndIs(src: Text, i: nat, n: NumberText)
    requires ValidNumber(n) && Occurs(src, i, n.whole + (FractionText(n.fraction) + ExponentText(n.exponent)))
    requires Delimited(src, i + |n.whole| + |FractionText(n.fraction)| + |ExponentText(n.exponent)|)
    ensures i < |src| && IsDigit(At(src, i))
    ensures NumberEnd(src, i) == Some(i + |n.whole| + |FractionText(n.fraction)| + |ExponentText(n.exponent)|)
  {
    hide SkipDigits, Occurs, AllDigits, ValidExponent;
    var f, x := FractionText(n.fraction), ExponentText(n.exponent);
    OccursConcat(src, i, n.whole, f + x);
    OccursConcat(src, i + |n.whole|, f, x);
    var j := i + |n.whole|;
    var k := j + |f|;
    if n.exponent.Some? {
      ExponentIsRead(src, k, n.exponent.value);
      assert n.exponent.value.mark == 101 || n.exponent.value.mark == 69 by { MarkIs(n.exponent.value); }
    }
    if n.fraction.Some? {
      MarkOccurs(src, j, 46, n.fraction.value);
      DigitsOccur(src, j + 1, n.fraction.value);
    }
    DigitsOccur(src, i, n.whole);
    if |n.whole| == 1 {
      assert At(src, i + 1) == At(src, j);
    }
  }

  lemma MarkIs(e: Exponent)
    requires ValidExponent(e)
    ensures e.mark == 101 || e.mark == 69
  {
  }

  lemma NumberIsRead(src: Text, i: nat, n: NumberText)
    requires ValidNumber(n) && Occurs(src, i, WriteNumber(n)) && Delimited(src, i + |WriteNumber(n)|)
    ensures i + |WriteNumber(n)| <= |src|
    ensures LexAt(src, i) == Some((Literal(ToNumber(WriteNumber(n))), i + |WriteNumber(n)|))
  {
    hide *;
    var sign: Text := if n.negative then [45] else [];
    var rest := n.whole + (FractionText(n.fraction) + ExponentText(n.exponent));
    WriteNumberIs(n, sign, rest);
    OccursConcat(src, i, sign, rest);
    OccursFits(src, i, WriteNumber(n));
    SignIs(src, i, n.negative, sign);
    NumberEndIs(src, i + |sign|, n);
    NumberIsLexed(src, i, n.negative, i + |WriteNumber(n)|);
    OccursMeans(src, i, WriteNumber(n));
  }

  lemma SignIs(src: Text, i: nat, negative: bool, sign: Text)
    requires sign == (if negative then [45] else []) && Occurs(src, i, sign)
    ensures negative ==> i < |src| && At(src, i) == 45
  {
    hide Occurs;
    if negative {
      OccursAt(src, i, sign);
    }
  }

  lemma OccursMeans(src: Text, i: nat, t: Text)
    requires Occurs(src, i, t)
    ensures i + |t| <= |src| && src[i..i + |t|] == t
  {
  }

  lemma NumberIsLexed(src: Text, i: nat, negative: bool, end: nat)
    requires i <= end <= |src| && (negative ==> i < |src| && At(src, i) == 45)
    requires var j := if negative then i + 1 else i; j < |src| && IsDigit(At(src, j)) && NumberEnd(src, j) == Some(end)
    ensures LexAt(src, i) == Some((Literal(ToNumber(src[i..end])), end))
  {
    hide NumberEnd, ToNumber;
  }

  lemma WriteNumberIs(n: NumberText, sign: Text, rest: Text)
    requires sign == (if n.negative then [45] else []) && rest == n.whole + (FractionText(n.fraction) + ExponentText(n.exponent))
    ensures WriteNumber(n) == sign + rest && |rest| == |n.whole| + |FractionText(n.fraction)| + |ExponentText(n.exponent)|
  {
    var f, x := FractionText(n.fraction), ExponentText(n.exponent);
    assert WriteNumber(n) == sign + n.whole + f + x;
    Associates(n.whole, f, x);
    Associates(sign, n.whole, f);
    Associates(sign, n.whole + f, x);
  }

  // ----- everything is read

  lemma SpaceDelimits(src: Text, i: nat, ws: Text, rest: Text)
    requires AllSpace(ws) && Occurs(src, i, ws + rest) && (rest == [] ==> i + |ws| == |src|)
    requires rest != [] ==> rest[0] == COMMA || rest[0] == RBRACKET || rest[0] == RBRACE
    ensures Delimited(src, i)
  {
    if ws + rest != [] {
      OccursAt(src, i, ws + rest);
    }
  }

  lemma ElementsAfterSpace(src: Text, i: nat, ws: Text, acc: seq<Value>, hasMembers: bool)
    requires AllSpace(ws) && Occurs(src, i, ws)
    ensures i + |ws| <= |src| && ElementsAt(src, i, acc, hasMembers) == ElementsAt(src, i + |ws|, acc, hasMembers)
  {
    hide LexAt, GetAt, ElementsAt;
    SpaceIsSkipped(src, i, ws);
    ElementsStep(src, i, acc, hasMembers);
    ElementsStep(src, i + |ws|, acc, hasMembers);
  }

  lemma MembersAfterSpace(src: Text, i: nat, ws: Text, acc: seq<Member>, hasMembers: bool)
    requires AllSpace(ws) && Occurs(src, i, ws)
    ensures i + |ws| <= |src| && MembersAt(src, i, acc, hasMembers) == MembersAt(src, i + |ws|, acc, hasMembers)
  {
    hide LexAt, GetAt, MembersAt;
    SpaceIsSkipped(src, i, ws);
    MembersStep(src, i, acc, hasMembers);
    MembersStep(src, i + |ws|, acc, hasMembers);
  }

  /** The closing bracket at once. */
  lemma NoElements(src: Text, i: nat)
    requires Occurs(src, i, [RBRACKET])
    ensures i < |src| && ElementsAt(src, i, [], false) == Some(([], i + 1))
  {
    hide LexAt, GetAt, ElementsAt;
    LexPunct(src, i, RBRACKET);
    ElementsStep(src, i, [], false);
  }

  lemma NoMembers(src: Text, i: nat)
    requires Occurs(src, i, [RBRACE])
    ensures i < |src| && MembersAt(src, i, [], false) == Some(([], i + 1))
  {
    hide LexAt, GetAt, MembersAt;
    LexPunct(src, i, RBRACE);
    MembersStep(src, i, [], false);
  }

  lemma MoreStarts(items: seq<Padded>)
    ensures (WriteMore(items) + [RBRACKET])[0] == if items == [] then RBRACKET else COMMA
  {
  }

  lemma MoreEntriesStart(entries: seq<Entry>)
    ensures (WriteMoreEntries(entries) + [RBRACE])[0] == if entries == [] then RBRACE else COMMA
  {
  }

  lemma WordIsRead(src: Text, i: nat, v: Value)
    requires Valid(Word(v)) && Occurs(src, i, WriteWord(v))
    ensures ReadsValue(src, i, v, i + |WriteWord(v)|)
  {
    hide LexString, LexWord;
    LexKeyword(src, i, WriteWord(v), v);
  }

  lemma StringIsRead(src: Text, i: nat, ss: seq<Spelling>)
    requires AllSpelled(ss) && Occurs(src, i, WriteString(ss))
    ensures ReadsValue(src, i, Str(Spelled(ss)), i + |WriteString(ss)|)
    ensures LexAt(src, i) == Some((StrToken(Spelled(ss)), i + |WriteString(ss)|))
  {
    hide LexString, LexWord, Occurs;
    LexLiteral(src, i, ss);
  }

  lemma LiteralIsRead(src: Text, i: nat, v: Value, end: nat)
    requires i <= end <= |src| && LexAt(src, i) == Some((Literal(v), end))
    ensures ReadsValue(src, i, v, end)
  {
    hide LexAt;
  }

  /** A document is read wherever it stands, if nothing behind it continues a number. */
  lemma {:induction false} DocIsRead(d: Doc, src: Text, i: nat)
    requires Valid(d) && Occurs(src, i, Write(d)) && Delimited(src, i + |Write(d)|)
    ensures ReadsValue(src, i, Denoted(d), i + |Write(d)|)
    decreases d, 1
  {
    hide *;
    WriteIs(d);
    match d
    case Word(v) => WordIsRead(src, i, v);
    case Number(n) =>
      NumberIsRead(src, i, n);
      LiteralIsRead(src, i, ToNumber(WriteNumber(n)), i + |WriteNumber(n)|);
    case String(ss) => StringIsRead(src, i, ss);
    case Array(items, space) => ArrayIsReadAt(items, space, src, i);
    case Object(entries, space) => ObjectIsReadAt(entries, space, src, i);
  }

  lemma WriteIs(d: Doc)
    ensures d.Word? ==> Write(d) == WriteWord(d.v) && Denoted(d) == d.v
    ensures d.Number? ==> Write(d) == WriteNumber(d.n) && Denoted(d) == ToNumber(WriteNumber(d.n)) && (Valid(d) ==> ValidNumber(d.n))
    ensures d.String? ==> Write(d) == WriteString(d.ss) && Denoted(d) == Str(Spelled(d.ss)) && (Valid(d) ==> AllSpelled(d.ss))
    ensures d.Array? ==> Denoted(d) == Arr(DenotedAll(d.items)) && (Valid(d) ==> AllSpace(d.space) && ValidItems(d.items))
    ensures d.Object? ==> Denoted(d) == Obj(Built(DenotedMembers(d.entries), [])) && (Valid(d) ==> AllSpace(d.space) && ValidEntries(d.entries))
  {
    hide WriteNumber, WriteString, ToNumber, ValidNumber, AllSpelled, ValidItems, ValidEntries, DenotedAll, DenotedMembers, Built, AllSpace;
  }

  lemma {:induction false} ArrayIsReadAt(items: seq<Padded>, space: Text, src: Text, i: nat)
    requires AllSpace(space) && ValidItems(items) && Occurs(src, i, Write(Array(items, space)))
    ensures ReadsValue(src, i, Arr(DenotedAll(items)), i + |Write(Array(items, space))|)
    decreases items, 2
  {
    hide *;
    ArrayParts(items, space);
    var inner := WriteItems(items, space);
    assert [LBRACKET] + inner + [RBRACKET] == [LBRACKET] + (inner + [RBRACKET]);
    OccursConcat(src, i, [LBRACKET], inner + [RBRACKET]);
    OccursFits(src, i, [LBRACKET] + (inner + [RBRACKET]));
    PunctCodes();
    LexPunct(src, i, LBRACKET);
    if items == [] {
      OccursConcat(src, i + 1, space, [RBRACKET]);
      ElementsAfterSpace(src, i + 1, space, [], false);
      NoElements(src, i + 1 + |space|);
    } else {
      var p, more := items[0], WriteMore(items[1..]) + [RBRACKET];
      assert WritePadded(p) + WriteMore(items[1..]) + [RBRACKET] == WritePadded(p) + more;
      OccursConcat(src, i + 1, WritePadded(p), more);
      MoreStarts(items[1..]);
      var end := PaddedIsRead(p, src, i + 1, more);
      FirstElement(src, i + 1, Denoted(p.doc), end);
      ElementsAfterSpace(src, end, p.behind, [Denoted(p.doc)], true);
      MoreIsRead(items[1..], src, i + 1 + |WritePadded(p)|, [Denoted(p.doc)]);
    }
    ArrayIsRead(src, i, DenotedAll(items), i + 1 + |inner| + 1);
  }

  lemma ArrayParts(items: seq<Padded>, space: Text)
    requires ValidItems(items)
    ensures Write(Array(items, space)) == [LBRACKET] + WriteItems(items, space) + [RBRACKET]
    ensures items == [] ==> WriteItems(items, space) == space && DenotedAll(items) == []
    ensures items != [] ==>
              && WriteItems(items, space) == WritePadded(items[0]) + WriteMore(items[1..])
              && DenotedAll(items) == [Denoted(items[0].doc)] + DenotedAll(items[1..])
              && ValidPadded(items[0]) && ValidItems(items[1..])
  {
    hide WritePadded, Denoted, ValidPadded;
  }

  lemma MoreParts(items: seq<Padded>)
    requires items != [] && ValidItems(items)
    ensures WriteMore(items) == [COMMA] + WritePadded(items[0]) + WriteMore(items[1..])
    ensures DenotedAll(items) == [Denoted(items[0].doc)] + DenotedAll(items[1..])
    ensures ValidPadded(items[0]) && ValidItems(items[1..])
  {
    hide WritePadded, Denoted, ValidPadded;
  }

  lemma NothingMore()
    ensures WriteMore([]) == [] && DenotedAll([]) == [] && WriteMoreEntries([]) == [] && DenotedMembers([]) == []
  {
  }

  /** A document and the white space around it, up to a comma, a bracket or the end; `end` is where
      the document ends. */
  lemma {:induction false} PaddedIsRead(p: Padded, src: Text, i: nat, following: Text) returns (end: nat)
    requires ValidPadded(p) && Occurs(src, i, WritePadded(p)) && Occurs(src, i + |WritePadded(p)|, following)
    requires following == [] ==> i + |WritePadded(p)| == |src|
    requires following != [] ==> following[0] == COMMA || following[0] == RBRACKET || following[0] == RBRACE
    ensures ReadsValue(src, i, Denoted(p.doc), end)
    ensures end + |p.behind| == i + |WritePadded(p)| && Occurs(src, end, p.behind) && AllSpace(p.behind)
    decreases p, 2
  {
    hide *;
    PaddedParts(p);
    OccursConcat(src, i, p.before, Write(p.doc) + p.behind);
    OccursConcat(src, i + |p.before|, Write(p.doc), p.behind);
    end := i + |p.before| + |Write(p.doc)|;
    OccursConcat(src, end, p.behind, following);
    SpaceDelimits(src, end, p.behind, following);
    DocIsRead(p.doc, src, i + |p.before|);
    ReadsAfterSpace(src, i, p.before, Denoted(p.doc), end);
  }

  lemma PaddedParts(p: Padded)
    ensures WritePadded(p) == p.before + (Write(p.doc) + p.behind)
    ensures ValidPadded(p) ==> AllSpace(p.before) && Valid(p.doc) && AllSpace(p.behind)
  {
    hide Write, Valid, AllSpace;
    Associates(p.before, Write(p.doc), p.behind);
  }

  lemma {:induction false} MoreIsRead(items: seq<Padded>, src: Text, i: nat, acc: seq<Value>)
    requires ValidItems(items) && Occurs(src, i, WriteMore(items) + [RBRACKET])
    ensures i + |WriteMore(items)| + 1 <= |src|
    ensures ElementsAt(src, i, acc, true) == Some((acc + DenotedAll(items), i + |WriteMore(items)| + 1))
    decreases items, 1
  {
    hide *;
    if items == [] {
      NothingMore();
      assert acc + [] == acc;
      NoSpace();
      assert [] + [RBRACKET] == [RBRACKET];
      LastElement(src, i, acc, []);
    } else {
      MoreParts(items);
      var p, more := items[0], WriteMore(items[1..]) + [RBRACKET];
      Associates([COMMA] + WritePadded(p), WriteMore(items[1..]), [RBRACKET]);
      Associates([COMMA], WritePadded(p), more);
      OccursConcat(src, i, [COMMA], WritePadded(p) + more);
      OccursConcat(src, i + 1, WritePadded(p), more);
      MoreStarts(items[1..]);
      var end := PaddedIsRead(p, src, i + 1, more);
      NextElement(src, i, acc, Denoted(p.doc), end);
      ElementsAfterSpace(src, end, p.behind, acc + [Denoted(p.doc)], true);
      MoreIsRead(items[1..], src, i + 1 + |WritePadded(p)|, acc + [Denoted(p.doc)]);
      Associates(acc, [Denoted(p.doc)], DenotedAll(items[1..]));
    }
  }

  lemma NoSpace()
    ensures AllSpace([])
  {
  }

  // ----- objects

  lemma {:induction false} ObjectIsReadAt(entries: seq<Entry>, space: Text, src: Text, i: nat)
    requires AllSpace(space) && ValidEntries(entries) && Occurs(src, i, Write(Object(entries, space)))
    ensures ReadsValue(src, i, Obj(Built(DenotedMembers(entries), [])), i + |Write(Object(entries, space))|)
    decreases entries, 2
  {
    hide *;
    ObjectParts(entries, space);
    var inner := WriteEntries(entries, space);
    assert [LBRACE] + inner + [RBRACE] == [LBRACE] + (inner + [RBRACE]);
    OccursConcat(src, i, [LBRACE], inner + [RBRACE]);
    OccursFits(src, i, [LBRACE] + (inner + [RBRACE]));
    PunctCodes();
    LexPunct(src, i, LBRACE);
    BuiltCons(DenotedMembers(entries), []);
    if entries == [] {
      OccursConcat(src, i + 1, space, [RBRACE]);
      MembersAfterSpace(src, i + 1, space, [], false);
      NoMembers(src, i + 1 + |space|);
    } else {
      var e, more := entries[0], WriteMoreEntries(entries[1..]) + [RBRACE];
      assert WriteEntry(e) + WriteMoreEntries(entries[1..]) + [RBRACE] == WriteEntry(e) + more;
      OccursConcat(src, i + 1, WriteEntry(e), more);
      MoreEntriesStart(entries[1..]);
      var end := EntryIsRead(e, src, i + 1, more);
      FirstMember(src, i + 1, Spelled(e.key), Denoted(e.value.doc), end);
      var acc := Assign([], Spelled(e.key), Denoted(e.value.doc));
      MembersAfterSpace(src, end, e.value.behind, acc, true);
      MoreEntriesAreRead(entries[1..], src, i + 1 + |WriteEntry(e)|, acc);
      TailOfMembers(entries);
    }
    ObjectIsRead(src, i, Built(DenotedMembers(entries), []), i + 1 + |inner| + 1);
  }

  lemma TailOfMembers(entries: seq<Entry>)
    requires entries != []
    ensures DenotedMembers(entries) != [] && DenotedMembers(entries)[1..] == DenotedMembers(entries[1..])
    ensures DenotedMembers(entries)[0] == Member(Spelled(entries[0].key), Denoted(entries[0].value.doc))
  {
    hide Denoted, Spelled;
  }

  lemma ObjectParts(entries: seq<Entry>, space: Text)
    requires ValidEntries(entries)
    ensures Write(Object(entries, space)) == [LBRACE] + WriteEntries(entries, space) + [RBRACE]
    ensures entries == [] ==> WriteEntries(entries, space) == space && DenotedMembers(entries) == []
    ensures entries != [] ==>
              && WriteEntries(entries, space) == WriteEntry(entries[0]) + WriteMoreEntries(entries[1..])
              && ValidEntry(entries[0]) && ValidEntries(entries[1..])
  {
    hide WriteEntry, Denoted, ValidEntry, Spelled;
  }

  lemma EntryParts(e: Entry)
    ensures WriteEntry(e) == e.before + (WriteString(e.key) + (e.behind + ([COLON] + WritePadded(e.value))))
    ensures ValidEntry(e) ==> AllSpace(e.before) && AllSpelled(e.key) && AllSpace(e.behind) && ValidPadded(e.value)
  {
    hide WriteString, WritePadded, AllSpace, AllSpelled, ValidPadded;
    var k, v := WriteString(e.key), WritePadded(e.value);
    Associates(e.behind, [COLON], v);
    Associates(k, e.behind, [COLON] + v);
    Associates(k + e.behind, [COLON], v);
    Associates(e.before, k, e.behind);
    Associates(e.before, k + e.behind, [COLON]);
    Associates(e.before, k + e.behind + [COLON], v);
  }

  lemma ReadsMemberIs(src: Text, i: nat, key: Text, j: nat, ws: Text, v: Value, end: nat)
    requires i <= j <= |src| && LexAt(src, i) == Some((StrToken(key), j)) && AllSpace(ws) && Occurs(src, j, ws)
    requires j + |ws| < |src| && LexAt(src, j + |ws|) == Some((Punct(COLON), j + |ws| + 1)) && ReadsValue(src, j + |ws| + 1, v, end)
    ensures ReadsMember(src, i, key, v, end)
  {
    hide LexAt, ReadsValue;
    SpaceIsSkipped(src, j, ws);
  }

  lemma {:induction false} EntryIsRead(e: Entry, src: Text, i: nat, following: Text) returns (end: nat)
    requires ValidEntry(e) && Occurs(src, i, WriteEntry(e)) && Occurs(src, i + |WriteEntry(e)|, following)
    requires following != [] && (following[0] == COMMA || following[0] == RBRACKET || following[0] == RBRACE)
    ensures ReadsMember(src, i, Spelled(e.key), Denoted(e.value.doc), end)
    ensures end + |e.value.behind| == i + |WriteEntry(e)| && Occurs(src, end, e.value.behind) && AllSpace(e.value.behind)
    decreases e, 3
  {
    hide *;
    EntryParts(e);
    PaddedParts(e.value);
    var k, v := WriteString(e.key), WritePadded(e.value);
    OccursConcat(src, i, e.before, k + (e.behind + ([COLON] + v)));
    var a := i + |e.before|;
    OccursConcat(src, a, k, e.behind + ([COLON] + v));
    var b := a + |k|;
    OccursConcat(src, b, e.behind, [COLON] + v);
    var c := b + |e.behind|;
    OccursConcat(src, c, [COLON], v);
    PunctCodes();
    LexPunct(src, c, COLON);
    StringIsRead(src, a, e.key);
    OccursFits(src, a, k);
    end := PaddedIsRead(e.value, src, c + 1, following);
    ReadsMemberIs(src, a, Spelled(e.key), b, e.behind, Denoted(e.value.doc), end);
    ReadsMemberAfterSpace(src, i, e.before, Spelled(e.key), Denoted(e.value.doc), end);
  }

  lemma MoreEntriesParts(entries: seq<Entry>)
    requires entries != [] && ValidEntries(entries)
    ensures WriteMoreEntries(entries) == [COMMA] + WriteEntry(entries[0]) + WriteMoreEntries(entries[1..])
    ensures ValidEntry(entries[0]) && ValidEntries(entries[1..])
  {
    hide WriteEntry, ValidEntry;
  }

  lemma {:induction false} MoreEntriesAreRead(entries: seq<Entry>, src: Text, i: nat, acc: seq<Member>)
    requires ValidEntries(entries) && Occurs(src, i, WriteMoreEntries(entries) + [RBRACE])
    ensures i + |WriteMoreEntries(entries)| + 1 <= |src|
    ensures MembersAt(src, i, acc, true) == Some((Built(DenotedMembers(entries), acc), i + |WriteMoreEntries(entries)| + 1))
    decreases entries, 1
  {
    hide *;
    BuiltCons(DenotedMembers(entries), acc);
    if entries == [] {
      NothingMore();
      NoSpace();
      assert [] + [RBRACE] == [RBRACE];
      LastMember(src, i, acc, []);
    } else {
      MoreEntriesParts(entries);
      var e, more := entries[0], WriteMoreEntries(entries[1..]) + [RBRACE];
      Associates([COMMA] + WriteEntry(e), WriteMoreEntries(entries[1..]), [RBRACE]);
      Associates([COMMA], WriteEntry(e), more);
      OccursConcat(src, i, [COMMA], WriteEntry(e) + more);
      OccursConcat(src, i + 1, WriteEntry(e), more);
      MoreEntriesStart(entries[1..]);
      var end := EntryIsRead(e, src, i + 1, more);
      NextMember(src, i, acc, Spelled(e.key), Denoted(e.value.doc), end);
      var acc' := Assign(acc, Spelled(e.key), Denoted(e.value.doc));
      MembersAfterSpace(src, end, e.value.behind, acc', true);
      MoreEntriesAreRead(entries[1..], src, i + 1 + |WriteEntry(e)|, acc');
      TailOfMembers(entries);
    }
  }

  /** Every JSON text is parsed, as the value that it denotes. */
  lemma JsonIsParsed(p: Padded)
    requires ValidPadded(p)
    ensures ParseText(WritePadded(p)) == Some(Denoted(p.doc))
  {
    hide *;
    var src := WritePadded(p);
    WholeOccurs(src);
    NothingOccurs(src, |src|);
    var end := PaddedIsRead(p, src, 0, []);
    PaddedParts(p);
    SpaceIsSkipped(src, end, p.behind);
    LexEnd(src);
    ParsesWhole(src, Denoted(p.doc), end);
  }

  lemma WholeOccurs(src: Text)
    ensures Occurs(src, 0, src)
  {
    assert src[0..|src|] == src;
  }

  lemma NothingOccurs(src: Text, i: nat)
    requires i <= |src|
    ensures Occurs(src, i, [])
  {
  }

  lemma ParsesWhole(src: Text, v: Value, end: nat)
    requires ReadsValue(src, 0, v, end) && LexAt(src, end) == Some((EndToken, |src|))
    ensures ParseText(src) == Some(v)
  {
    hide LexAt, GetAt;
  }
}
