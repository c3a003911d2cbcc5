/** JSON 3's parser undoes its printer. */
module Json3RoundTrip {
  import opened JsText
  import opened JsNumbers
  import opened JsValue
  import opened Json3Printer
  import opened Json3Parser

  // ----- positions

  lemma OccursConcat(src: Text, i: nat, a: Text, b: Text)
    ensures Occurs(src, i, a + b) <==> Occurs(src, i, a) && Occurs(src, i + |a|, b)
  {
    if i + |a| + |b| <= |src| {
      var whole := src[i..i + |a| + |b|];
      assert whole[..|a|] == src[i..i + |a|] && whole[|a|..] == src[i + |a|..i + |a| + |b|];
      assert whole == whole[..|a|] + whole[|a|..];
      assert (a + b)[..|a|] == a && (a + b)[|a|..] == b;
    }
  }

  lemma OccursAt(src: Text, i: nat, p: Text)
    requires Occurs(src, i, p) && p != []
    ensures i < |src| && At(src, i) == src[i] == p[0]
  {
    assert src[i..i + |p|][0] == src[i];
  }

  /** White space as JSON defines it. */
  predicate AllSpace(s: Text) {
    forall i | 0 <= i < |s| :: IsSpace(s[i])
  }

  /** White space before a token is skipped. */
  lemma {:induction false} SpaceIsSkipped(src: Text, i: nat, ws: Text)
    requires AllSpace(ws) && Occurs(src, i, ws)
    ensures i + |ws| <= |src| && SkipSpace(src, i) == SkipSpace(src, i + |ws|)
    ensures LexAt(src, i) == LexAt(src, i + |ws|)
    decreases |ws|
  {
    hide LexString, LexWord, Occurs;
    if ws != [] {
      assert ws == ws[..1] + ws[1..];
      OccursConcat(src, i, ws[..1], ws[1..]);
      OccursAt(src, i, ws);
      assert IsSpace(ws[0]);
      SpaceIsSkipped(src, i + 1, ws[1..]);
    } else {
      OccursFits(src, i, ws);
    }
  }

  /** What may follow a number: anything that cannot continue it. */
  predicate Delimited(src: Text, i: nat) {
    !IsDigit(At(src, i)) && At(src, i) != 46 && At(src, i) != 101 && At(src, i) != 69
  }

  // ----- strings

  lemma OccursUnits(src: Text, i: nat, p: Text)
    requires Occurs(src, i, p)
    ensures i + |p| <= |src| && forall k | i <= k < i + |p| :: src[k] == p[k - i]
  {
    forall k | i <= k < i + |p| ensures src[k] == p[k - i] {
      assert src[i..i + |p|][k - i] == src[k];
    }
  }

  lemma LexPlain(src: Text, i: nat, c: CodeUnit, acc: Text)
    requires i < |src| && src[i] == c && 32 <= c != 34 && c != 92
    ensures LexString(src, i, acc) == LexString(src, i + 1, acc + [c])
  {
    LexStringStep(src, i, acc);
  }

  lemma LexShorthand(src: Text, i: nat, e: CodeUnit, acc: Text)
    requires i + 1 < |src| && src[i] == 92 && src[i + 1] == e && Unescaped(e) >= 0
    ensures LexString(src, i, acc) == LexString(src, i + 2, acc + [Unescaped(e)])
  {
    LexStringStep(src, i, acc);
    hide LexString;
  }

  lemma LexHex(src: Text, i: nat, c: CodeUnit, acc: Text)
    requires i + 5 < |src| && c < 32
    requires src[i] == 92 && src[i + 1] == 117 && src[i + 2] == 48 && src[i + 3] == 48
    requires src[i + 4] == HexDigit(c / 16) && src[i + 5] == HexDigit(c % 16)
    ensures LexString(src, i, acc) == LexString(src, i + 6, acc + [c])
  {
    HexUnitOfDigits(c);
    LexStringStep(src, i, acc);
    hide LexString, HexUnit, HexDigit;
  }

  /** Lexing a printed code unit gives it back. */
  lemma LexEscaped(src: Text, i: nat, c: CodeUnit, acc: Text)
    requires Occurs(src, i, Escaped(c))
    ensures i + |Escaped(c)| <= |src|
    ensures LexString(src, i, acc) == LexString(src, i + |Escaped(c)|, acc + [c])
  {
    hide LexString, HexDigit, Occurs;
    var p := Escaped(c);
    OccursUnits(src, i, p);
    if |p| == 6 {
      LexHex(src, i, c, acc);
    } else if |p| == 2 {
      LexShorthand(src, i, p[1], acc);
    } else {
      LexPlain(src, i, c, acc);
    }
  }

  lemma HexUnitOfDigits(c: nat)
    requires c < 32
    ensures IsHex(HexDigit(c / 16)) && IsHex(HexDigit(c % 16))
    ensures HexUnit(48, 48, HexDigit(c / 16), HexDigit(c % 16)) == c
  {
  }

  lemma {:induction false} LexEscapedAll(src: Text, i: nat, s: Text, acc: Text)
    requires Occurs(src, i, EscapedAll(s))
    ensures i + |EscapedAll(s)| <= |src|
    ensures LexString(src, i, acc) == LexString(src, i + |EscapedAll(s)|, acc + s)
    decreases |s|
  {
    hide LexString, Escaped, Occurs;
    if s == [] {
      assert acc + s == acc;
      OccursFits(src, i, EscapedAll(s));
    } else {
      OccursConcat(src, i, Escaped(s[0]), EscapedAll(s[1..]));
      LexEscaped(src, i, s[0], acc);
      LexEscapedAll(src, i + |Escaped(s[0])|, s[1..], acc + [s[0]]);
      assert acc + [s[0]] + s[1..] == acc + s;
    }
  }

  lemma OccursFits(src: Text, i: nat, p: Text)
    requires Occurs(src, i, p)
    ensures i + |p| <= |src|
  {
  }

  lemma LexQuoted(src: Text, i: nat, s: Text)
    requires Occurs(src, i, Quoted(s))
    ensures i + |Quoted(s)| <= |src|
    ensures LexAt(src, i) == Some((StrToken(s), i + |Quoted(s)|))
  {
    hide EscapedAll;
    assert Quoted(s) == [QUOTE] + (EscapedAll(s) + [QUOTE]);
    OccursConcat(src, i, [QUOTE], EscapedAll(s) + [QUOTE]);
    OccursConcat(src, i + 1, EscapedAll(s), [QUOTE]);
    OccursAt(src, i, [QUOTE]);
    LexEscapedAll(src, i + 1, s, []);
    var j := i + 1 + |EscapedAll(s)|;
    OccursAt(src, j, [QUOTE]);
    assert [] + s == s;
    LexStringStep(src, j, s);
    assert SkipSpace(src, i) == i;
  }

  // ----- numbers

  lemma {:induction false} SkipAllDigits(src: Text, i: nat, p: Text)
    requires Occurs(src, i, p) && forall k | 0 <= k < |p| :: IsDigit(p[k])
    requires !IsDigit(At(src, i + |p|))
    ensures i + |p| <= |src| && SkipDigits(src, i) == i + |p|
    decreases |p|
  {
    if p != [] {
      assert p == p[..1] + p[1..];
      OccursConcat(src, i, p[..1], p[1..]);
      OccursAt(src, i, p);
      assert IsDigit(p[0]);
      SkipAllDigits(src, i + 1, p[1..]);
    }
  }

  lemma NumberEndOfDigits(src: Text, i: nat, n: nat)
    requires Occurs(src, i, Digits(n)) && Delimited(src, i + |Digits(n)|)
    ensures i + |Digits(n)| <= |src| && NumberEnd(src, i) == Some(i + |Digits(n)|)
    ensures IsDigit(At(src, i))
  {
    hide Digits;
    OccursAt(src, i, Digits(n));
    SkipAllDigits(src, i, Digits(n));
    OneDigitZero(n);
  }

  lemma OneDigitZero(n: nat)
    ensures Digits(n)[0] == 48 ==> n == 0 && Digits(n) == [48]
  {
  }

  lemma LexDecimal(src: Text, i: nat, n: int)
    requires -MAX_SAFE <= n <= MAX_SAFE
    requires Occurs(src, i, Decimal(n)) && Delimited(src, i + |Decimal(n)|)
    ensures i + |Decimal(n)| <= |src|
    ensures LexAt(src, i) == Some((Literal(Num(n)), i + |Decimal(n)|))
  {
    hide Digits, DigitsValue, NumberEnd;
    var m := if n < 0 then -n else n;
    OccursAt(src, i, Decimal(n));
    if n < 0 {
      OccursConcat(src, i, [MINUS], Digits(m));
      NumberEndOfDigits(src, i + 1, m);
    } else {
      NumberEndOfDigits(src, i, m);
    }
    ToNumberOfDecimal(n);
    assert SkipSpace(src, i) == i;
  }

  lemma ToNumberOfDecimal(n: int)
    requires -MAX_SAFE <= n <= MAX_SAFE
    ensures ToNumber(Decimal(n)) == Num(n)
  {
    hide Digits, DigitsValue;
    var m := if n < 0 then -n else n;
    DigitsValueOfDigits(m);
    var lexeme := Decimal(n);
    var digits := if lexeme[0] == 45 then lexeme[1..] else lexeme;
    assert lexeme[0] == 45 <==> n < 0;
    assert digits == Digits(m);
    assert AllDigits(digits);
  }

  // ----- values

  /** The tree that parsing gives back: members called `__proto__` are lost. */
  function Revived(v: Value): Value {
    match v
    case Arr(es) => Arr(RevivedAll(es))
    case Obj(ms) => Obj(WithoutProto(RevivedMembers(ms)))
    case _ => v
  }

  function RevivedAll(es: seq<Value>): (r: seq<Value>)
    ensures |r| == |es|
  {
    if es == [] then [] else [Revived(es[0])] + RevivedAll(es[1..])
  }

  function RevivedMembers(ms: seq<Member>): (r: seq<Member>)
    ensures |r| == |ms| && forall i | 0 <= i < |ms| :: r[i].key == ms[i].key
  {
    if ms == [] then [] else [Member(ms[0].key, Revived(ms[0].value))] + RevivedMembers(ms[1..])
  }

  /** Reading at `i` yields `v` and ends at `end`; the first token is none of the punctuation
      that ends or separates elements. */
  ghost predicate ReadsValue(src: Text, i: nat, v: Value, end: nat) {
    && i <= end <= |src|
    && LexAt(src, i).Some?
    && var (tok, j) := LexAt(src, i).value;
    && GetAt(src, tok, j) == Some((v, end))
    && !tok.EndToken? && tok != Punct(COMMA) && tok != Punct(RBRACKET) && tok != Punct(RBRACE)
  }

  /** The text after an element: further elements, each after a comma, then the bracket. */
  function Rest(texts: seq<Text>, inner: Text, outer: Text, close: CodeUnit): Text {
    if texts == [] then outer + [close]
    else [COMMA] + inner + texts[0] + Rest(texts[1..], inner, outer, close)
  }

  lemma {:induction false} JoinIsRest(texts: seq<Text>, inner: Text, outer: Text, close: CodeUnit)
    requires texts != []
    ensures Join(texts, [COMMA] + inner) + outer + [close] == texts[0] + Rest(texts[1..], inner, outer, close)
    decreases |texts|
  {
    if |texts| > 1 {
      var sep := [COMMA] + inner;
      JoinIsRest(texts[1..], inner, outer, close);
      var tail := Join(texts[1..], sep);
      assert texts[1..][0] == texts[1] && texts[1..][1..] == texts[2..];
      assert texts[0] + sep + tail + outer + [close] == texts[0] + (sep + (tail + outer + [close]));
      assert Rest(texts[1..], inner, outer, close) == sep + texts[1] + Rest(texts[2..], inner, outer, close);
      assert sep + (texts[1] + Rest(texts[2..], inner, outer, close)) == sep + texts[1] + Rest(texts[2..], inner, outer, close);
    }
  }

  lemma EnclosedIsRest(open: CodeUnit, texts: seq<Text>, close: CodeUnit, gap: Text, indent: Text)
    requires texts != []
    ensures Enclosed(open, texts, close, gap, indent)
            == [open] + NewLine(gap, indent + gap)
               + (texts[0] + Rest(texts[1..], NewLine(gap, indent + gap), NewLine(gap, indent), close))
  {
    hide Rest, Join, NewLine;
    JoinIsRest(texts, NewLine(gap, indent + gap), NewLine(gap, indent), close);
  }

  lemma NewLineIsSpace(gap: Text, indent: Text)
    requires AllSpace(indent)
    ensures AllSpace(NewLine(gap, indent))
    ensures NewLine(gap, indent) != [] ==> NewLine(gap, indent)[0] == LF
  {
  }

  /** The text after an element starts with a comma, a line break or a bracket. */
  lemma RestDelimits(src: Text, i: nat, texts: seq<Text>, inner: Text, outer: Text, close: CodeUnit)
    requires Occurs(src, i, Rest(texts, inner, outer, close))
    requires (outer != [] ==> outer[0] == LF) && (close == RBRACKET || close == RBRACE)
    ensures Delimited(src, i)
  {
    OccursAt(src, i, Rest(texts, inner, outer, close));
  }

  lemma LexPunct(src: Text, i: nat, c: CodeUnit)
    requires Occurs(src, i, [c]) && IsPunct(c)
    ensures i < |src| && LexAt(src, i) == Some((Punct(c), i + 1))
  {
    OccursAt(src, i, [c]);
  }

  lemma ReadsAfterSpace(src: Text, i: nat, ws: Text, v: Value, end: nat)
    requires AllSpace(ws) && Occurs(src, i, ws) && ReadsValue(src, i + |ws|, v, end)
    ensures ReadsValue(src, i, v, end)
  {
    hide LexAt, GetAt;
    SpaceIsSkipped(src, i, ws);
  }

  lemma ReadScalar(v: Value, gap: Text, indent: Text, src: Text, i: nat)
    requires JsonTree(v) && !v.Arr? && !v.Obj?
    requires Occurs(src, i, Print(v, gap, indent)) && Delimited(src, i + |Print(v, gap, indent)|)
    ensures ReadsValue(src, i, Revived(v), i + |Print(v, gap, indent)|)
  {
    hide Quoted, Decimal, LexString;
    match v
    case Str(s) => LexQuoted(src, i, s);
    case Num(n) => LexDecimal(src, i, n);
    case Null => LexKeyword(src, i, NULL, Null);
    case Bool(b) => LexKeyword(src, i, if b then TRUE else FALSE, v);
  }

  lemma LexKeyword(src: Text, i: nat, word: Text, v: Value)
    requires (word == NULL && v == Null) || (word == TRUE && v == Bool(true)) || (word == FALSE && v == Bool(false))
    requires Occurs(src, i, word)
    ensures i + |word| <= |src| && LexAt(src, i) == Some((Literal(v), i + |word|))
  {
    hide LexString, NumberEnd;
    OccursAt(src, i, word);
    if Occurs(src, i, TRUE) {
      OccursAt(src, i, TRUE);
    }
    if Occurs(src, i, FALSE) {
      OccursAt(src, i, FALSE);
    }
    if Occurs(src, i, NULL) {
      OccursAt(src, i, NULL);
    }
  }

  lemma ReadEmpty(src: Text, i: nat, open: CodeUnit, close: CodeUnit)
    requires Occurs(src, i, [open, close])
    requires (open == LBRACKET && close == RBRACKET) || (open == LBRACE && close == RBRACE)
    ensures ReadsValue(src, i, if open == LBRACKET then Arr([]) else Obj([]), i + 2)
  {
    hide LexAt;
    assert [open, close] == [open] + [close];
    OccursConcat(src, i, [open], [close]);
    LexPunct(src, i, open);
    LexPunct(src, i + 1, close);
    ElementsStep(src, i + 1, [], false);
    MembersStep(src, i + 1, [], false);
  }

  lemma ReadEmptyObject(src: Text, i: nat)
    requires Occurs(src, i, [LBRACE, RBRACE])
    ensures ReadsValue(src, i, Obj([]), i + 2)
  {
    hide Occurs, ReadsValue;
    ReadEmpty(src, i, LBRACE, RBRACE);
  }

  /** The main induction: printed at position `i` of any text, followed by nothing that
      continues a number, a tree is read back and the cursor ends up right behind it. */
  lemma {:induction false} ReadPrinted(v: Value, gap: Text, indent: Text, src: Text, i: nat)
    requires JsonTree(v) && AllSpace(gap) && AllSpace(indent)
    requires Occurs(src, i, Print(v, gap, indent)) && Delimited(src, i + |Print(v, gap, indent)|)
    ensures ReadsValue(src, i, Revived(v), i + |Print(v, gap, indent)|)
    decreases v, 2
  {
    hide Enclosed, PrintAll, PrintMembers, Occurs, ReadsValue, AllSpace, Delimited, RevivedAll, RevivedMembers;
    hide WithoutProto, DistinctKeys, Decimal, Quoted, LexAt, GetAt;
    match v {
      case Arr(es) =>
        assert forall e | e in es :: JsonTree(e);
        ReadArray(es, gap, indent, src, i);
      case Obj(ms) =>
        assert forall m | m in ms :: JsonTree(m.value);
        ReadObject(ms, gap, indent, src, i);
      case _ => ReadScalar(v, gap, indent, src, i);
    }
  }

  /** Where the pieces of a bracketed text stand. */
  lemma BracketedAt(src: Text, i: nat, open: CodeUnit, inner: Text, first: Text, rest: Text)
    requires Occurs(src, i, [open] + inner + (first + rest))
    ensures Occurs(src, i, [open]) && Occurs(src, i + 1, inner)
    ensures Occurs(src, i + 1 + |inner|, first) && Occurs(src, i + 1 + |inner| + |first|, rest)
  {
    OccursConcat(src, i, [open] + inner, first + rest);
    OccursConcat(src, i, [open], inner);
    OccursConcat(src, i + 1 + |inner|, first, rest);
  }

  lemma SpaceConcat(a: Text, b: Text)
    requires AllSpace(a) && AllSpace(b)
    ensures AllSpace(a + b)
  {
    forall i | 0 <= i < |a + b| ensures IsSpace((a + b)[i]) {
      assert (a + b)[i] == if i < |a| then a[i] else b[i - |a|];
    }
  }

  lemma {:induction false} ReadArray(es: seq<Value>, gap: Text, indent: Text, src: Text, i: nat)
    requires (forall e | e in es :: JsonTree(e)) && AllSpace(gap) && AllSpace(indent)
    requires Occurs(src, i, Enclosed(LBRACKET, PrintAll(es, gap, indent + gap), RBRACKET, gap, indent))
    ensures ReadsValue(src, i, Arr(RevivedAll(es)),
                       i + |Enclosed(LBRACKET, PrintAll(es, gap, indent + gap), RBRACKET, gap, indent)|)
    decreases es, 1
  {
    hide *;
    if es == [] {
      EnclosedNothing(LBRACKET, PrintAll(es, gap, indent + gap), RBRACKET, gap, indent);
      RevivedAllCons(es);
      ReadEmpty(src, i, LBRACKET, RBRACKET);
    } else {
      var inner, outer := NewLine(gap, indent + gap), NewLine(gap, indent);
      var texts := PrintAll(es, gap, indent + gap);
      PrintAllCons(es, gap, indent + gap);
      EnclosedIsRest(LBRACKET, texts, RBRACKET, gap, indent);
      var rest := Rest(texts[1..], inner, outer, RBRACKET);
      BracketedAt(src, i, LBRACKET, inner, texts[0], rest);
      PunctCodes();
      LexPunct(src, i, LBRACKET);
      SpaceConcat(indent, gap);
      NewLineIsSpace(gap, indent + gap);
      NewLineIsSpace(gap, indent);
      var k := i + 1 + |inner|;
      RestDelimits(src, k + |texts[0]|, texts[1..], inner, outer, RBRACKET);
      ReadPrinted(es[0], gap, indent + gap, src, k);
      ReadsAfterSpace(src, i + 1, inner, Revived(es[0]), k + |texts[0]|);
      FirstElement(src, i + 1, Revived(es[0]), k + |texts[0]|);
      assert texts[1..] == PrintAll(es[1..], gap, indent + gap);
      ReadElements(es[1..], gap, indent, src, k + |texts[0]|, [Revived(es[0])]);
      RevivedAllCons(es);
      ArrayIsRead(src, i, RevivedAll(es), k + |texts[0]| + |rest|);
    }
  }

  lemma EnclosedNothing(open: CodeUnit, texts: seq<Text>, close: CodeUnit, gap: Text, indent: Text)
    requires texts == []
    ensures Enclosed(open, texts, close, gap, indent) == [open, close]
  {
  }

  lemma PunctCodes()
    ensures IsPunct(LBRACKET) && IsPunct(LBRACE) && IsPunct(COMMA) && IsPunct(COLON)
    ensures IsPunct(RBRACKET) && IsPunct(RBRACE)
  {
  }

  lemma RevivedAllCons(es: seq<Value>)
    ensures RevivedAll(es) == if es == [] then [] else [Revived(es[0])] + RevivedAll(es[1..])
  {
  }

  lemma RevivedMembersCons(ms: seq<Member>)
    ensures RevivedMembers(ms)
            == if ms == [] then [] else [Member(ms[0].key, Revived(ms[0].value))] + RevivedMembers(ms[1..])
  {
  }

  lemma ArrayIsRead(src: Text, i: nat, es: seq<Value>, end: nat)
    requires i < end <= |src| && LexAt(src, i) == Some((Punct(LBRACKET), i + 1))
    requires ElementsAt(src, i + 1, [], false) == Some((es, end))
    ensures ReadsValue(src, i, Arr(es), end)
  {
    hide LexAt, ElementsAt;
  }

  lemma FirstElement(src: Text, i: nat, v: Value, end: nat)
    requires ReadsValue(src, i, v, end)
    ensures ElementsAt(src, i, [], false) == ElementsAt(src, end, [v], true)
  {
    hide LexAt, GetAt, ElementsAt;
    ElementsStep(src, i, [], false);
    assert [] + [v] == [v];
  }

  lemma NextElement(src: Text, i: nat, acc: seq<Value>, v: Value, end: nat)
    requires Occurs(src, i, [COMMA]) && ReadsValue(src, i + 1, v, end)
    ensures ElementsAt(src, i, acc, true) == ElementsAt(src, end, acc + [v], true)
  {
    hide LexAt, GetAt, ElementsAt;
    LexPunct(src, i, COMMA);
    ElementsStep(src, i, acc, true);
  }

  lemma LastElement(src: Text, i: nat, acc: seq<Value>, outer: Text)
    requires AllSpace(outer) && Occurs(src, i, outer + [RBRACKET])
    ensures i + |outer| + 1 <= |src| && ElementsAt(src, i, acc, true) == Some((acc, i + |outer| + 1))
  {
    hide LexAt, GetAt, ElementsAt;
    OccursConcat(src, i, outer, [RBRACKET]);
    LexPunct(src, i + |outer|, RBRACKET);
    SpaceIsSkipped(src, i, outer);
    ElementsStep(src, i, acc, true);
  }

  /** Where the pieces of `Rest` stand. */
  lemma RestAt(src: Text, i: nat, texts: seq<Text>, inner: Text, outer: Text, close: CodeUnit)
    requires texts != [] && Occurs(src, i, Rest(texts, inner, outer, close))
    ensures Occurs(src, i, [COMMA]) && Occurs(src, i + 1, inner) && Occurs(src, i + 1 + |inner|, texts[0])
    ensures Occurs(src, i + 1 + |inner| + |texts[0]|, Rest(texts[1..], inner, outer, close))
    ensures |Rest(texts, inner, outer, close)| == 1 + |inner| + |texts[0]| + |Rest(texts[1..], inner, outer, close)|
  {
    hide Occurs;
    var rest := Rest(texts[1..], inner, outer, close);
    OccursConcat(src, i, [COMMA] + inner + texts[0], rest);
    OccursConcat(src, i, [COMMA] + inner, texts[0]);
    OccursConcat(src, i, [COMMA], inner);
  }

  lemma {:induction false} ReadElements(es: seq<Value>, gap: Text, indent: Text, src: Text, i: nat, acc: seq<Value>)
    requires (forall e | e in es :: JsonTree(e)) && AllSpace(gap) && AllSpace(indent)
    requires Occurs(src, i, Rest(PrintAll(es, gap, indent + gap), NewLine(gap, indent + gap), NewLine(gap, indent), RBRACKET))
    ensures var rest := Rest(PrintAll(es, gap, indent + gap), NewLine(gap, indent + gap), NewLine(gap, indent), RBRACKET);
            i + |rest| <= |src| && ElementsAt(src, i, acc, true) == Some((acc + RevivedAll(es), i + |rest|))
    decreases es, 0
  {
    hide *;
    var inner, outer := NewLine(gap, indent + gap), NewLine(gap, indent);
    var texts := PrintAll(es, gap, indent + gap);
    PrintAllCons(es, gap, indent + gap);
    RevivedAllCons(es);
    SpaceConcat(indent, gap);
    NewLineIsSpace(gap, indent + gap);
    NewLineIsSpace(gap, indent);
    if es == [] {
      assert acc + RevivedAll(es) == acc;
      RestOfNothing(inner, outer, RBRACKET);
      LastElement(src, i, acc, outer);
    } else {
      RestAt(src, i, texts, inner, outer, RBRACKET);
      var k := i + 1 + |inner|;
      assert texts[1..] == PrintAll(es[1..], gap, indent + gap);
      RestDelimits(src, k + |texts[0]|, texts[1..], inner, outer, RBRACKET);
      ReadPrinted(es[0], gap, indent + gap, src, k);
      ReadsAfterSpace(src, i + 1, inner, Revived(es[0]), k + |texts[0]|);
      NextElement(src, i, acc, Revived(es[0]), k + |texts[0]|);
      ReadElements(es[1..], gap, indent, src, k + |texts[0]|, acc + [Revived(es[0])]);
      assert acc + [Revived(es[0])] + RevivedAll(es[1..]) == acc + RevivedAll(es);
    }
  }

  lemma RestOfNothing(inner: Text, outer: Text, close: CodeUnit)
    ensures Rest([], inner, outer, close) == outer + [close]
  {
  }

  // ----- objects

  /** A member is read at `i`: its key, a colon and its value. */
  ghost predicate ReadsMember(src: Text, i: nat, key: Text, v: Value, end: nat) {
    && i <= |src|
    && var key' := LexAt(src, i);
    && key'.Some? && key'.value.0 == StrToken(key)
    && var colon := LexAt(src, key'.value.1);
    && colon.Some? && colon.value.0 == Punct(COLON)
    && ReadsValue(src, colon.value.1, v, end)
  }

  lemma MemberAt(src: Text, i: nat, key: Text, gap: Text, t: Text)
    requires Occurs(src, i, MemberText(key, gap, t))
    ensures var k := i + |Quoted(key)|;
            var space: Text := if gap == [] then [] else [SPACE];
            && Occurs(src, i, Quoted(key)) && Occurs(src, k, [COLON]) && Occurs(src, k + 1, space)
            && Occurs(src, k + 1 + |space|, t) && |MemberText(key, gap, t)| == |Quoted(key)| + 1 + |space| + |t|
  {
    hide Occurs, Quoted;
    var space: Text := if gap == [] then [] else [SPACE];
    OccursConcat(src, i, Quoted(key) + [COLON] + space, t);
    OccursConcat(src, i, Quoted(key) + [COLON], space);
    OccursConcat(src, i, Quoted(key), [COLON]);
  }

  lemma {:induction false} ReadMember(m: Member, gap: Text, indent: Text, src: Text, i: nat)
    requires JsonTree(m.value) && AllSpace(gap) && AllSpace(indent)
    requires var text := MemberText(m.key, gap, Print(m.value, gap, indent));
             Occurs(src, i, text) && Delimited(src, i + |text|)
    ensures ReadsMember(src, i, m.key, Revived(m.value), i + |MemberText(m.key, gap, Print(m.value, gap, indent))|)
    decreases m.value, 3
  {
    hide LexAt, GetAt, Occurs, Delimited, Print, Quoted;
    var t := Print(m.value, gap, indent);
    var space: Text := if gap == [] then [] else [SPACE];
    MemberAt(src, i, m.key, gap, t);
    LexQuoted(src, i, m.key);
    var k := i + |Quoted(m.key)|;
    LexPunct(src, k, COLON);
    ReadPrinted(m.value, gap, indent, src, k + 1 + |space|);
    assert AllSpace(space);
    ReadsAfterSpace(src, k + 1, space, Revived(m.value), i + |MemberText(m.key, gap, t)|);
  }

  lemma ReadsMemberAfterSpace(src: Text, i: nat, ws: Text, key: Text, v: Value, end: nat)
    requires AllSpace(ws) && Occurs(src, i, ws) && ReadsMember(src, i + |ws|, key, v, end)
    ensures ReadsMember(src, i, key, v, end)
  {
    hide LexAt, ReadsValue;
    SpaceIsSkipped(src, i, ws);
  }

  lemma FirstMember(src: Text, i: nat, key: Text, v: Value, end: nat)
    requires ReadsMember(src, i, key, v, end)
    ensures MembersAt(src, i, [], false) == MembersAt(src, end, Assign([], key, v), true)
  {
    hide LexAt, GetAt, MembersAt, Assign;
    MembersStep(src, i, [], false);
  }

  lemma NextMember(src: Text, i: nat, acc: seq<Member>, key: Text, v: Value, end: nat)
    requires Occurs(src, i, [COMMA]) && ReadsMember(src, i + 1, key, v, end)
    ensures MembersAt(src, i, acc, true) == MembersAt(src, end, Assign(acc, key, v), true)
  {
    hide LexAt, GetAt, MembersAt, Assign;
    LexPunct(src, i, COMMA);
    MembersStep(src, i, acc, true);
  }

  lemma LastMember(src: Text, i: nat, acc: seq<Member>, outer: Text)
    requires AllSpace(outer) && Occurs(src, i, outer + [RBRACE])
    ensures i + |outer| + 1 <= |src| && MembersAt(src, i, acc, true) == Some((acc, i + |outer| + 1))
  {
    hide LexAt, GetAt, MembersAt;
    OccursConcat(src, i, outer, [RBRACE]);
    LexPunct(src, i + |outer|, RBRACE);
    SpaceIsSkipped(src, i, outer);
    MembersStep(src, i, acc, true);
  }

  lemma {:induction false} ReadMembers(ms: seq<Member>, gap: Text, indent: Text, src: Text, i: nat, acc: seq<Member>)
    requires (forall m | m in ms :: JsonTree(m.value)) && AllSpace(gap) && AllSpace(indent)
    requires Occurs(src, i, Rest(PrintMembers(ms, gap, indent + gap), NewLine(gap, indent + gap), NewLine(gap, indent), RBRACE))
    ensures var rest := Rest(PrintMembers(ms, gap, indent + gap), NewLine(gap, indent + gap), NewLine(gap, indent), RBRACE);
            i + |rest| <= |src| && MembersAt(src, i, acc, true) == Some((Built(RevivedMembers(ms), acc), i + |rest|))
    decreases ms, 0
  {
    hide *;
    var inner, outer := NewLine(gap, indent + gap), NewLine(gap, indent);
    var texts := PrintMembers(ms, gap, indent + gap);
    PrintMembersCons(ms, gap, indent + gap);
    RevivedMembersCons(ms);
    BuiltCons(RevivedMembers(ms), acc);
    SpaceConcat(indent, gap);
    NewLineIsSpace(gap, indent + gap);
    NewLineIsSpace(gap, indent);
    if ms == [] {
      RestOfNothing(inner, outer, RBRACE);
      LastMember(src, i, acc, outer);
    } else {
      RestAt(src, i, texts, inner, outer, RBRACE);
      var k := i + 1 + |inner|;
      var v := Revived(ms[0].value);
      assert texts[1..] == PrintMembers(ms[1..], gap, indent + gap);
      RestDelimits(src, k + |texts[0]|, texts[1..], inner, outer, RBRACE);
      ReadMember(ms[0], gap, indent + gap, src, k);
      ReadsMemberAfterSpace(src, i + 1, inner, ms[0].key, v, k + |texts[0]|);
      NextMember(src, i, acc, ms[0].key, v, k + |texts[0]|);
      ReadMembers(ms[1..], gap, indent, src, k + |texts[0]|, Assign(acc, ms[0].key, v));
      assert RevivedMembers(ms)[1..] == RevivedMembers(ms[1..]);
    }
  }

  lemma BuiltCons(ms: seq<Member>, acc: seq<Member>)
    ensures Built(ms, acc) == if ms == [] then acc else Built(ms[1..], Assign(acc, ms[0].key, ms[0].value))
  {
  }

  lemma ObjectIsRead(src: Text, i: nat, ms: seq<Member>, end: nat)
    requires i < end <= |src| && LexAt(src, i) == Some((Punct(LBRACE), i + 1))
    requires MembersAt(src, i + 1, [], false) == Some((ms, end))
    ensures ReadsValue(src, i, Obj(ms), end)
  {
    hide LexAt, MembersAt;
  }

  lemma BuiltRevived(ms: seq<Member>)
    requires DistinctKeys(ms)
    ensures Built(RevivedMembers(ms), []) == WithoutProto(RevivedMembers(ms))
  {
    BuiltFromDistinct(RevivedMembers(ms), []);
  }

  lemma {:induction false} ReadObject(ms: seq<Member>, gap: Text, indent: Text, src: Text, i: nat)
    requires DistinctKeys(ms) && (forall m | m in ms :: JsonTree(m.value)) && AllSpace(gap) && AllSpace(indent)
    requires Occurs(src, i, Enclosed(LBRACE, PrintMembers(ms, gap, indent + gap), RBRACE, gap, indent))
    ensures ReadsValue(src, i, Obj(WithoutProto(RevivedMembers(ms))),
                       i + |Enclosed(LBRACE, PrintMembers(ms, gap, indent + gap), RBRACE, gap, indent)|)
    decreases ms, 1
  {
    hide *;
    if ms == [] {
      EnclosedNothing(LBRACE, PrintMembers(ms, gap, indent + gap), RBRACE, gap, indent);
      RevivedMembersCons(ms);
      assert |WithoutProto(RevivedMembers(ms))| == 0;
      ReadEmptyObject(src, i);
    } else {
      var inner, outer := NewLine(gap, indent + gap), NewLine(gap, indent);
      var texts := PrintMembers(ms, gap, indent + gap);
      PrintMembersCons(ms, gap, indent + gap);
      EnclosedIsRest(LBRACE, texts, RBRACE, gap, indent);
      var rest := Rest(texts[1..], inner, outer, RBRACE);
      BracketedAt(src, i, LBRACE, inner, texts[0], rest);
      PunctCodes();
      LexPunct(src, i, LBRACE);
      SpaceConcat(indent, gap);
      NewLineIsSpace(gap, indent + gap);
      NewLineIsSpace(gap, indent);
      var k := i + 1 + |inner|;
      var v := Revived(ms[0].value);
      RestDelimits(src, k + |texts[0]|, texts[1..], inner, outer, RBRACE);
      ReadMember(ms[0], gap, indent + gap, src, k);
      ReadsMemberAfterSpace(src, i + 1, inner, ms[0].key, v, k + |texts[0]|);
      FirstMember(src, i + 1, ms[0].key, v, k + |texts[0]|);
      assert texts[1..] == PrintMembers(ms[1..], gap, indent + gap);
      ReadMembers(ms[1..], gap, indent, src, k + |texts[0]|, Assign([], ms[0].key, v));
      RevivedMembersCons(ms);
      BuiltCons(RevivedMembers(ms), []);
      assert RevivedMembers(ms)[1..] == RevivedMembers(ms[1..]);
      BuiltRevived(ms);
      ObjectIsRead(src, i, Built(RevivedMembers(ms), []), k + |texts[0]| + |rest|);
    }
  }

  // ----- the law

  /** Parsing what was printed gives the tree back, except for members called `__proto__`. */
  lemma ParsePrint(v: Value, gap: Text)
    requires JsonTree(v) && AllSpace(gap)
    ensures ParseText(Print(v, gap, [])) == Some(Revived(v))
  {
    hide Print, LexAt, GetAt, JsonTree, Revived;
    var src := Print(v, gap, []);
    WholeText(src);
    LexEnd(src);
    ReadPrinted(v, gap, [], src, 0);
  }

  lemma WholeText(src: Text)
    ensures Occurs(src, 0, src) && Delimited(src, |src|)
  {
    assert src[0..|src|] == src;
  }

  lemma LexEnd(src: Text)
    ensures LexAt(src, |src|) == Some((EndToken, |src|))
  {
  }

  /** No object of the tree has an own property called `__proto__`. */
  predicate ProtoFree(v: Value) {
    match v
    case Arr(es) => forall e | e in es :: ProtoFree(e)
    case Obj(ms) => !HasKey(ms, PROTO) && forall m | m in ms :: ProtoFree(m.value)
    case _ => true
  }

  lemma {:induction false} RevivedIsSame(v: Value)
    ensures Revived(v) == v <==> ProtoFree(v)
    decreases v, 1
  {
    match v {
      case Arr(es) =>
        RevivedAllIsSame(es);
      case Obj(ms) =>
        RevivedMembersIsSame(ms);
        SameKeys(RevivedMembers(ms), ms);
        WithoutProtoKeepsAll(RevivedMembers(ms));
      case _ =>
    }
  }

  lemma SameKeys(ms: seq<Member>, ns: seq<Member>)
    requires |ms| == |ns| && forall i | 0 <= i < |ms| :: ms[i].key == ns[i].key
    ensures HasKey(ms, PROTO) == HasKey(ns, PROTO)
  {
    if HasKey(ms, PROTO) {
      var i :| 0 <= i < |ms| && ms[i].key == PROTO;
      assert ns[i].key == PROTO;
    }
  }

  predicate AllProtoFree(es: seq<Value>) {
    forall e | e in es :: ProtoFree(e)
  }

  predicate MembersProtoFree(ms: seq<Member>) {
    forall m | m in ms :: ProtoFree(m.value)
  }

  lemma AllProtoFreeCons(es: seq<Value>)
    ensures AllProtoFree(es) <==> es == [] || (ProtoFree(es[0]) && AllProtoFree(es[1..]))
  {
    hide ProtoFree;
    if es != [] {
      assert es == [es[0]] + es[1..];
    }
  }

  lemma MembersProtoFreeCons(ms: seq<Member>)
    ensures MembersProtoFree(ms) <==> ms == [] || (ProtoFree(ms[0].value) && MembersProtoFree(ms[1..]))
  {
    hide ProtoFree;
    if ms != [] {
      assert ms == [ms[0]] + ms[1..];
    }
  }

  lemma {:induction false} RevivedAllIsSame(es: seq<Value>)
    ensures RevivedAll(es) == es <==> AllProtoFree(es)
    decreases es, 0
  {
    hide *;
    RevivedAllCons(es);
    AllProtoFreeCons(es);
    if es != [] {
      RevivedIsSame(es[0]);
      RevivedAllIsSame(es[1..]);
      ConsIsSame(Revived(es[0]), RevivedAll(es[1..]), es);
    }
  }

  lemma {:induction false} RevivedMembersIsSame(ms: seq<Member>)
    ensures RevivedMembers(ms) == ms <==> MembersProtoFree(ms)
    decreases ms, 0
  {
    hide *;
    RevivedMembersCons(ms);
    MembersProtoFreeCons(ms);
    if ms != [] {
      RevivedIsSame(ms[0].value);
      RevivedMembersIsSame(ms[1..]);
      ConsIsSame(Member(ms[0].key, Revived(ms[0].value)), RevivedMembers(ms[1..]), ms);
    }
  }

  // ----- the order of members and the law of stringify

  lemma HasKeyIn(ms: seq<Member>, k: Text)
    ensures HasKey(ms, k) <==> exists m | m in ms :: m.key == k
  {
    if m :| m in ms && m.key == k {
      var i :| 0 <= i < |ms| && ms[i] == m;
    }
  }

  lemma VisitedHasKey(ms: seq<Member>, k: Text)
    ensures HasKey(Visited(ms), k) <==> HasKey(ms, k)
    ensures MembersProtoFree(Visited(ms)) <==> MembersProtoFree(ms)
  {
    hide HasKey, Visited, ProtoFree;
    VisitedPermutes(ms);
    assert forall m :: m in Visited(ms) <==> m in multiset(Visited(ms));
    assert forall m :: m in ms <==> m in multiset(ms);
    HasKeyIn(ms, k);
    HasKeyIn(Visited(ms), k);
  }

  lemma FreeParts(v: Value)
    ensures v.Arr? ==> (ProtoFree(v) <==> AllProtoFree(v.elems))
    ensures v.Obj? ==> (ProtoFree(v) <==> !HasKey(v.members, PROTO) && MembersProtoFree(v.members))
  {
    hide HasKey;
  }

  lemma {:induction false} OrderedIsFree(v: Value)
    requires JsonTree(v)
    ensures ProtoFree(Ordered(v)) <==> ProtoFree(v)
    decreases v, 1
  {
    match v {
      case Arr(es) =>
        hide OrderedAll, AllProtoFree, ProtoFree;
        OrderedAllIsFree(es);
        FreeParts(v);
        FreeParts(Ordered(v));
      case Obj(ms) =>
        hide Visited, HasKey, DistinctKeys, OrderedMembers, MembersProtoFree, ProtoFree;
        OrderedMembersIsFree(ms);
        SameKeys(OrderedMembers(ms), ms);
        VisitedHasKey(OrderedMembers(ms), PROTO);
        FreeParts(v);
        FreeParts(Ordered(v));
      case _ =>
    }
  }

  lemma {:induction false} OrderedAllIsFree(es: seq<Value>)
    requires forall e | e in es :: JsonTree(e)
    ensures AllProtoFree(OrderedAll(es)) <==> AllProtoFree(es)
    decreases es, 0
  {
    hide *;
    OrderedAllCons(es);
    AllProtoFreeCons(es);
    AllProtoFreeCons(OrderedAll(es));
    if es != [] {
      OrderedIsFree(es[0]);
      OrderedAllIsFree(es[1..]);
    }
  }

  lemma {:induction false} OrderedMembersIsFree(ms: seq<Member>)
    requires forall m | m in ms :: JsonTree(m.value)
    ensures MembersProtoFree(OrderedMembers(ms)) <==> MembersProtoFree(ms)
    decreases ms, 0
  {
    hide *;
    OrderedMembersCons(ms);
    MembersProtoFreeCons(ms);
    MembersProtoFreeCons(OrderedMembers(ms));
    if ms != [] {
      OrderedIsFree(ms[0].value);
      OrderedMembersIsFree(ms[1..]);
    }
  }

  lemma {:induction false} WithoutProtoHas(ms: seq<Member>)
    ensures forall m | m in WithoutProto(ms) :: m in ms && m.key != PROTO
  {
    if ms != [] {
      WithoutProtoHas(ms[1..]);
    }
  }

  /** What the parser makes of a tree owns no `__proto__`. */
  lemma {:induction false} RevivedIsFree(v: Value)
    ensures ProtoFree(Revived(v))
    decreases v, 1
  {
    match v {
      case Arr(es) =>
        hide RevivedAll;
        RevivedAllIsFree(es);
      case Obj(ms) =>
        hide RevivedMembers, WithoutProto, HasKey;
        RevivedMembersIsFree(ms);
        WithoutProtoHas(RevivedMembers(ms));
        HasKeyIn(WithoutProto(RevivedMembers(ms)), PROTO);
      case _ =>
    }
  }

  lemma {:induction false} RevivedAllIsFree(es: seq<Value>)
    ensures AllProtoFree(RevivedAll(es))
    decreases es, 0
  {
    hide *;
    RevivedAllCons(es);
    AllProtoFreeCons(RevivedAll(es));
    if es != [] {
      RevivedIsFree(es[0]);
      RevivedAllIsFree(es[1..]);
    }
  }

  lemma {:induction false} RevivedMembersIsFree(ms: seq<Member>)
    ensures MembersProtoFree(RevivedMembers(ms))
    decreases ms, 0
  {
    hide *;
    RevivedMembersCons(ms);
    MembersProtoFreeCons(RevivedMembers(ms));
    if ms != [] {
      RevivedIsFree(ms[0].value);
      RevivedMembersIsFree(ms[1..]);
    }
  }

  /** Dropping `__proto__` leaves `constructor` last. */
  lemma {:induction false} WithoutProtoKeepsLast(ms: seq<Member>)
    requires KeysLast(ms)
    ensures KeysLast(WithoutProto(ms))
  {
    if |ms| > 1 {
      assert forall i | 0 <= i < |ms[1..]| :: ms[1..][i] == ms[i + 1];
      WithoutProtoKeepsLast(ms[1..]);
    }
  }

  lemma {:induction false} WithoutProtoKeepsMembersLast(ms: seq<Member>)
    requires MembersLast(ms)
    ensures MembersLast(WithoutProto(ms))
  {
    hide ConstructorLast;
    if ms != [] {
      WithoutProtoKeepsMembersLast(ms[1..]);
    }
  }

  lemma {:induction false} RevivedKeepsOrder(v: Value)
    requires ConstructorLast(v)
    ensures ConstructorLast(Revived(v))
    decreases v, 1
  {
    match v {
      case Arr(es) =>
        hide RevivedAll, AllLast;
        RevivedAllKeepsOrder(es);
      case Obj(ms) =>
        hide RevivedMembers, WithoutProto, KeysLast, MembersLast;
        RevivedMembersKeepsOrder(ms);
        SameKeysLast(RevivedMembers(ms), ms);
        WithoutProtoKeepsLast(RevivedMembers(ms));
        WithoutProtoKeepsMembersLast(RevivedMembers(ms));
      case _ =>
    }
  }

  lemma {:induction false} RevivedAllKeepsOrder(es: seq<Value>)
    requires AllLast(es)
    ensures AllLast(RevivedAll(es))
    decreases es, 0
  {
    hide ConstructorLast, Revived, RevivedAll;
    RevivedAllCons(es);
    if es != [] {
      RevivedKeepsOrder(es[0]);
      RevivedAllKeepsOrder(es[1..]);
    }
  }

  lemma {:induction false} RevivedMembersKeepsOrder(ms: seq<Member>)
    requires MembersLast(ms)
    ensures MembersLast(RevivedMembers(ms))
    decreases ms, 0
  {
    hide ConstructorLast, Revived, RevivedMembers;
    RevivedMembersCons(ms);
    if ms != [] {
      RevivedKeepsOrder(ms[0].value);
      RevivedMembersKeepsOrder(ms[1..]);
    }
  }

  /** Parsing what stringify wrote gives back the tree in the order in which it was written, up
      to members called `__proto__`, and the very tree exactly if that was its own order. */
  lemma StringifiedIsRead(v: Value, gap: Text)
    requires JsonTree(v) && AllSpace(gap)
    ensures ParseText(Stringified(v, gap)) == Some(Revived(Ordered(v)))
    ensures ConstructorLast(Revived(Ordered(v)))
    ensures Revived(Ordered(v)) == Ordered(v) <==> ProtoFree(v)
    ensures Revived(Ordered(v)) == v <==> ProtoFree(v) && ConstructorLast(v)
  {
    hide *;
    StringifiedIs(v, gap);
    ParsePrint(Ordered(v), gap);
    OrderedIsLast(v);
    RevivedKeepsOrder(Ordered(v));
    RevivedIsSame(Ordered(v));
    OrderedIsFree(v);
    RevivedIsFree(Ordered(v));
    OrderedIsSame(v);
  }

  /** The round trip gives back the same members in the order in which JSON 3 visits them
      precisely on trees without a `__proto__` member, and the same tree precisely if moreover
      no property stands behind one called `constructor`, at every numeric indentation width. */
  lemma ParseUndoesStringify(v: Value, width: Width)
    requires JsonTree(v) && !width.Custom?
    ensures ParseText(Stringified(v, Gap(width))) == Some(Ordered(v)) <==> ProtoFree(v)
    ensures ParseText(Stringified(v, Gap(width))) == Some(v) <==> ProtoFree(v) && ConstructorLast(v)
  {
    hide Stringified, ParseText, Revived, Ordered, ProtoFree, ConstructorLast, JsonTree;
    StringifiedIsRead(v, Gap(width));
  }

  // ----- indentation by a string of the caller's choice

  lemma {:induction false} ElementsExtend(src: Text, i: nat, acc: seq<Value>, hasMembers: bool)
    requires i <= |src| && ElementsAt(src, i, acc, hasMembers).Some?
    ensures acc <= ElementsAt(src, i, acc, hasMembers).value.0
    decreases |src| - i
  {
    hide LexAt, GetAt, ElementsAt, NextStart;
    ElementsStep(src, i, acc, hasMembers);
    var (tok, j) := NextStart(src, i, hasMembers, RBRACKET).value;
    if tok != Punct(RBRACKET) {
      var item := GetAt(src, tok, j).value;
      ElementsExtend(src, item.1, acc + [item.0], true);
      assert acc <= acc + [item.0];
    }
  }

  /** A value that nothing starting with `c` can be taken for. */
  function Unlike(c: int): Value {
    if c == 110 then Bool(true) else Null
  }

  lemma TokenIsUnlike(src: Text, i: nat)
    requires i < |src| && !IsSpace(src[i]) && LexAt(src, i).Some?
    ensures LexAt(src, i).value.0 != Literal(Unlike(src[i])) && !LexAt(src, i).value.0.EndToken?
  {
    hide LexString, NumberEnd, DigitsValue, Occurs;
    if Occurs(src, i, TRUE) {
      OccursAt(src, i, TRUE);
    }
    if Occurs(src, i, FALSE) {
      OccursAt(src, i, FALSE);
    }
    if Occurs(src, i, NULL) {
      OccursAt(src, i, NULL);
    }
  }

  lemma ValueIsUnlike(src: Text, tok: Token, i: nat, x: Value)
    requires i <= |src| && tok != Literal(x) && (x == Null || x == Bool(true)) && GetAt(src, tok, i).Some?
    ensures GetAt(src, tok, i).value.0 != x
  {
    hide ElementsAt, MembersAt;
  }

  /** An array whose first token is not its intended first element is not read back. */
  lemma ArrayIsSpoiled(src: Text, x: Value)
    requires 1 < |src| && src[0] == LBRACKET && (x == Null || x == Bool(true))
    requires LexAt(src, 1).Some? ==> LexAt(src, 1).value.0 != Literal(x)
    ensures ParseText(src) != Some(Arr([x]))
  {
    assert LexAt(src, 0) == Some((Punct(LBRACKET), 1)) by { hide LexString, LexWord; }
    hide LexAt, ElementsAt, MembersAt, NextStart;
    if ElementsAt(src, 1, [], false).Some? {
      FirstIsNot(src, x);
    }
  }

  lemma FirstIsNot(src: Text, x: Value)
    requires 1 < |src| && (x == Null || x == Bool(true)) && ElementsAt(src, 1, [], false).Some?
    requires LexAt(src, 1).Some? ==> LexAt(src, 1).value.0 != Literal(x)
    ensures ElementsAt(src, 1, [], false).value.0 != [x]
  {
    hide LexAt, ElementsAt, GetAt;
    ElementsStep(src, 1, [], false);
    var (tok, j) := NextStart(src, 1, false, RBRACKET).value;
    if tok != Punct(RBRACKET) {
      var item := GetAt(src, tok, j).value;
      ValueIsUnlike(src, tok, j, x);
      assert [] + [item.0] == [item.0];
      ElementsExtend(src, item.1, [item.0], true);
      assert ElementsAt(src, 1, [], false).value.0[0] == item.0;
    }
  }

  /** A gap that is not white space spoils some tree. */
  lemma BadGap(gap: Text, p: nat)
    requires p < |gap| && AllSpace(gap[..p]) && !IsSpace(gap[p])
    ensures var v := Arr([Unlike(gap[p])]);
            JsonTree(v) && ProtoFree(v) && ParseText(Stringified(v, gap)) != Some(Ordered(v))
  {
    hide Print, ParseText, AllSpace, IsSpace;
    var x := Unlike(gap[p]);
    var tail := PrintedSingleton(x, gap, p);
    var ws := [LF] + gap[..p];
    LineFeedIsSpace(gap[..p]);
    var src := Print(Arr([x]), gap, []);
    assert Stringified(Arr([x]), gap) == src && Ordered(Arr([x])) == Arr([x]) by {
      SingletonOrder(x);
      StringifiedIs(Arr([x]), gap);
    }
    GapIsLexed(src, ws, tail);
    ArrayIsSpoiled(src, x);
  }

  lemma SingletonOrder(x: Value)
    requires x == Null || x == Bool(true)
    ensures JsonTree(Arr([x])) && Ordered(Arr([x])) == Arr([x])
  {
    var es := [x];
    assert ConstructorLast(es[0]) && AllLast(es[1..]);
    assert AllLast(es);
    OrderedIsSame(Arr(es));
  }

  lemma LineFeedIsSpace(ws: Text)
    requires AllSpace(ws)
    ensures AllSpace([LF] + ws)
  {
  }

  lemma PrintedSingleton(x: Value, gap: Text, p: nat) returns (tail: Text)
    requires p < |gap| && (x == Null || x == Bool(true))
    ensures tail != [] && tail[0] == gap[p]
    ensures Print(Arr([x]), gap, []) == [LBRACKET] + ([LF] + gap[..p]) + tail
  {
    assert JsonTree(Arr([x]));
    hide *;
    PrintOfArray([x], gap);
    PrintAllCons([x], gap, gap);
    tail := SingletonShape(PrintAll([x], gap, gap), gap, p);
  }

  lemma SingletonShape(texts: seq<Text>, gap: Text, p: nat) returns (tail: Text)
    requires p < |gap| && |texts| == 1
    ensures tail != [] && tail[0] == gap[p]
    ensures Enclosed(LBRACKET, texts, RBRACKET, gap, []) == [LBRACKET] + ([LF] + gap[..p]) + tail
  {
    hide *;
    assert [] + gap == gap;
    NewLineOf(gap);
    EnclosedIsRest(LBRACKET, texts, RBRACKET, gap, []);
    var rest := texts[0] + Rest(texts[1..], NewLine(gap, gap), NewLine(gap, []), RBRACKET);
    tail := gap[p..] + rest;
    assert gap == gap[..p] + gap[p..];
    Regroup([LBRACKET], gap[..p], gap[p..], rest);
  }

  lemma NewLineOf(gap: Text)
    requires gap != []
    ensures NewLine(gap, gap) == [LF] + gap
  {
  }

  lemma Regroup(open: Text, a: Text, b: Text, rest: Text)
    ensures open + ([LF] + (a + b)) + rest == open + ([LF] + a) + (b + rest)
  {
    assert [LF] + (a + b) == [LF] + a + b;
    var front := open + ([LF] + a);
    assert open + ([LF] + a + b) == front + b;
    assert front + b + rest == front + (b + rest);
  }

  lemma PrintOfArray(es: seq<Value>, gap: Text)
    requires JsonTree(Arr(es))
    ensures Print(Arr(es), gap, []) == Enclosed(LBRACKET, PrintAll(es, gap, gap), RBRACKET, gap, [])
  {
    hide Enclosed, PrintAll;
    assert [] + gap == gap;
  }

  lemma GapIsLexed(src: Text, ws: Text, tail: Text)
    requires src == [LBRACKET] + ws + tail && AllSpace(ws) && tail != [] && !IsSpace(tail[0])
    ensures LexAt(src, 1).Some? ==> LexAt(src, 1).value.0 != Literal(Unlike(tail[0]))
  {
    hide LexAt;
    assert src[1..1 + |ws|] == ws;
    SpaceIsSkipped(src, 1, ws);
    var q := 1 + |ws|;
    assert src[q] == tail[0];
    if LexAt(src, q).Some? {
      TokenIsUnlike(src, q);
    }
  }

  lemma {:induction false} FirstNonSpace(gap: Text) returns (p: nat)
    requires !AllSpace(gap)
    ensures p < |gap| && AllSpace(gap[..p]) && !IsSpace(gap[p])
    decreases |gap|
  {
    if !IsSpace(gap[0]) {
      p := 0;
    } else {
      assert gap == [gap[0]] + gap[1..];
      var q := FirstNonSpace(gap[1..]);
      p := q + 1;
      assert gap[..p] == [gap[0]] + gap[1..][..q];
    }
  }

  /** With an indentation string, parse gives back what stringify wrote, on all trees without
      `__proto__` members, exactly if the string is white space. */
  lemma GapMustBeSpace(gap: Text)
    ensures (forall v | JsonTree(v) && ProtoFree(v) :: ParseText(Stringified(v, gap)) == Some(Ordered(v))) <==> AllSpace(gap)
  {
    hide Stringified, Ordered, ParseText;
    if AllSpace(gap) {
      forall v | JsonTree(v) && ProtoFree(v) ensures ParseText(Stringified(v, gap)) == Some(Ordered(v)) {
        StringifiedIsRead(v, gap);
      }
    } else {
      var p := FirstNonSpace(gap);
      BadGap(gap, p);
    }
  }
}
