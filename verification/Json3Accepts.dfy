/** The other direction: whatever JSON 3's parser accepts is a JSON text, and it denotes the value
    that was read. */
module Json3Accepts {
  import opened JsText
  import opened JsNumbers
  import opened JsValue
  import opened Json3Printer
  import opened Json3Parser
  import opened Json3RoundTrip
  import opened Json3Literals
  import opened Json3Grammar

  // ----- tokens

  lemma {:induction false} SkippedIsSpace(src: Text, p: nat)
    requires p <= |src|
    ensures AllSpace(src[p..SkipSpace(src, p)])
    decreases |src| - p
  {
    if IsSpace(At(src, p)) {
      SkippedIsSpace(src, p + 1);
      assert src[p..SkipSpace(src, p)] == [src[p]] + src[p + 1..SkipSpace(src, p + 1)];
    }
  }

  lemma {:induction false} SkippedIsDigits(src: Text, p: nat)
    requires p <= |src|
    ensures AllDigits(src[p..SkipDigits(src, p)])
    decreases |src| - p
  {
    if IsDigit(At(src, p)) {
      SkippedIsDigits(src, p + 1);
      assert src[p..SkipDigits(src, p)] == [src[p]] + src[p + 1..SkipDigits(src, p + 1)];
    }
  }

  predicate IsUpper(c: int) { 65 <= c <= 70 }

  lemma DigitOf(c: int)
    requires IsHex(c)
    ensures HexValue(c) < 16 && Digit16(HexValue(c), IsUpper(c)) == c
  {
  }

  lemma HexUnitParts(a: int, b: int, c: int, d: int)
    requires IsHex(a) && IsHex(b) && IsHex(c) && IsHex(d)
    ensures var u := HexUnit(a, b, c, d);
            u / 4096 == HexValue(a) && u / 256 % 16 == HexValue(b) && u / 16 % 16 == HexValue(c) && u % 16 == HexValue(d)
  {
    hide HexValue;
    DigitOf(a);
    DigitOf(b);
    DigitOf(c);
    DigitOf(d);
    Nibbles(HexValue(a), HexValue(b), HexValue(c), HexValue(d));
  }

  lemma Nibbles(a: nat, b: nat, c: nat, d: nat)
    requires a < 16 && b < 16 && c < 16 && d < 16
    ensures var u := a * 4096 + b * 256 + c * 16 + d;
            u / 4096 == a && u / 256 % 16 == b && u / 16 % 16 == c && u % 16 == d
  {
    var u := a * 4096 + b * 256 + c * 16 + d;
    assert u / 16 == a * 256 + b * 16 + c;
    assert u / 256 == a * 16 + b;
  }

  /** What one turn of the string lexer takes. */
  lemma UnitOf(src: Text, i: nat, acc: Text) returns (s: Spelling)
    requires i <= |src| && LexString(src, i, acc).Some? && At(src, i) != 34
    ensures Spells(s) && Occurs(src, i, Written(s)) && i + |Written(s)| <= |src|
    ensures LexString(src, i, acc) == LexString(src, i + |Written(s)|, acc + [s.c])
  {
    hide LexString, HexUnit, Digit16, HexValue;
    LexStringStep(src, i, acc);
    var c, e := At(src, i), At(src, i + 1);
    if c != 92 {
      s := Plain(c);
      assert src[i..i + 1] == [c];
    } else if Unescaped(e) >= 0 {
      s := Shorthand(Unescaped(e), e);
      assert src[i..i + 2] == [92, e];
    } else {
      var a, b, d, f := src[i + 2], src[i + 3], src[i + 4], src[i + 5];
      HexUnitParts(a, b, d, f);
      DigitOf(a);
      DigitOf(b);
      DigitOf(d);
      DigitOf(f);
      s := Hex(HexUnit(a, b, d, f), (IsUpper(a), IsUpper(b), IsUpper(d), IsUpper(f)));
      assert src[i..i + 6] == [92, 117, a, b, d, f];
    }
  }

  lemma {:induction false} StringOf(src: Text, i: nat, acc: Text, s: Text, j: nat) returns (ss: seq<Spelling>)
    requires i <= |src| && LexString(src, i, acc) == Some((StrToken(s), j))
    ensures AllSpelled(ss) && s == acc + Spelled(ss)
    ensures j == i + |WrittenAll(ss)| + 1 && Occurs(src, i, WrittenAll(ss) + [QUOTE])
    decreases |src| - i
  {
    hide LexString, Written, Spells, Occurs;
    if At(src, i) == 34 {
      LexStringStep(src, i, acc);
      ss := [];
      assert acc + Spelled(ss) == acc && [] + [QUOTE] == [QUOTE];
      QuoteOccurs(src, i);
    } else {
      var first := UnitOf(src, i, acc);
      WrittenIsSome(first);
      var rest := StringOf(src, i + |Written(first)|, acc + [first.c], s, j);
      ss := [first] + rest;
      assert ss[1..] == rest;
      Associates(Written(first), WrittenAll(rest), [QUOTE]);
      OccursConcat(src, i, Written(first), WrittenAll(rest) + [QUOTE]);
      assert acc + [first.c] + Spelled(rest) == acc + Spelled(ss);
    }
  }

  lemma WrittenIsSome(s: Spelling)
    ensures |Written(s)| > 0
  {
  }

  lemma QuoteOccurs(src: Text, i: nat)
    requires At(src, i) == 34
    ensures Occurs(src, i, [QUOTE])
  {
    assert src[i..i + 1] == [QUOTE];
  }

  lemma SliceOccurs(src: Text, i: nat, j: nat)
    requires i <= j <= |src|
    ensures Occurs(src, i, src[i..j])
  {
  }

  lemma DigitsOf(src: Text, i: nat)
    requires i <= |src| && SkipDigits(src, i) != i
    ensures SomeDigits(src[i..SkipDigits(src, i)])
  {
    SkippedIsDigits(src, i);
  }

  /** Where the fraction of a number ends whose whole part ends at `j`. */
  lemma FractionOf(src: Text, j: nat) returns (k: nat, fraction: Option<Text>)
    requires j <= |src| && (At(src, j) == 46 ==> SkipDigits(src, j + 1) != j + 1)
    ensures k == (if At(src, j) == 46 then SkipDigits(src, j + 1) else j) && j <= k <= |src|
    ensures (fraction.Some? ==> SomeDigits(fraction.value)) && src[j..k] == FractionText(fraction)
  {
    hide SkipDigits, AllDigits;
    if At(src, j) == 46 {
      k := SkipDigits(src, j + 1);
      DigitsOf(src, j + 1);
      fraction := Some(src[j + 1..k]);
      assert src[j..k] == [46] + src[j + 1..k];
    } else {
      k, fraction := j, None;
      assert src[j..k] == [];
    }
  }

  lemma ExponentOf(src: Text, k: nat, end: nat) returns (exponent: Exponent)
    requires k < |src| && (src[k] == 101 || src[k] == 69)
    requires var digits := if At(src, k + 1) == 43 || At(src, k + 1) == 45 then k + 2 else k + 1;
             SkipDigits(src, digits) == end != digits
    ensures ValidExponent(exponent) && k <= end <= |src| && src[k..end] == ExponentText(Some(exponent))
  {
    hide SkipDigits, AllDigits;
    var digits := if At(src, k + 1) == 43 || At(src, k + 1) == 45 then k + 2 else k + 1;
    DigitsOf(src, digits);
    exponent := Exponent(src[k], src[k + 1..digits], src[digits..end]);
    if digits == k + 2 {
      OneSlice(src, k + 1);
    } else {
      assert src[k + 1..digits] == [];
    }
    OneSlice(src, k);
    ThreeSlices(src, k, k + 1, digits, end);
  }

  lemma OneSlice(s: Text, a: nat)
    requires a < |s|
    ensures s[a..a + 1] == [s[a]]
  {
  }

  lemma ThreeSlices(s: Text, a: nat, b: nat, c: nat, d: nat)
    requires a <= b <= c <= d <= |s|
    ensures s[a..d] == s[a..b] + s[b..c] + s[c..d]
  {
  }

  lemma NumberEndParts(src: Text, i: nat, end: nat)
    requires i <= |src| && NumberEnd(src, i) == Some(end)
    ensures IsDigit(At(src, i)) && !(At(src, i) == 48 && IsDigit(At(src, i + 1)))
    ensures var j := SkipDigits(src, i);
            var k := if At(src, j) == 46 then SkipDigits(src, j + 1) else j;
            && j > i && (At(src, j) == 46 ==> k != j + 1)
            && (if At(src, k) == 101 || At(src, k) == 69 then
                  var digits := if At(src, k + 1) == 43 || At(src, k + 1) == 45 then k + 2 else k + 1;
                  SkipDigits(src, digits) == end != digits
                else end == k)
  {
    StartsDigits(src, i);
    hide SkipDigits;
  }

  /** The parts of a number that was read. */
  lemma NumberOf(src: Text, i: nat, end: nat) returns (n: NumberText)
    requires i <= |src| && NumberEnd(src, i) == Some(end)
    ensures ValidNumber(n) && !n.negative && i <= end <= |src| && src[i..end] == n.whole + (FractionText(n.fraction) + ExponentText(n.exponent))
  {
    hide SkipDigits, AllDigits, NumberEnd, ValidExponent, FractionText, ExponentText;
    NumberEndParts(src, i, end);
    var j := SkipDigits(src, i);
    DigitsOf(src, i);
    var k, fraction := FractionOf(src, j);
    var exponent := None;
    if At(src, k) == 101 || At(src, k) == 69 {
      var x := ExponentOf(src, k, end);
      exponent := Some(x);
    } else {
      NoExponentText();
      assert src[k..end] == [];
    }
    n := NumberText(false, src[i..j], fraction, exponent);
    ThreeSlices(src, i, j, k, end);
    Associates(src[i..j], src[j..k], src[k..end]);
    assert n.whole[0] == At(src, i);
    if |n.whole| > 1 {
      SecondDigit(n.whole);
      assert At(src, i + 1) == n.whole[1];
    }
  }

  lemma NoExponentText()
    ensures ExponentText(None) == []
  {
  }

  lemma StartsDigits(src: Text, i: nat)
    requires i <= |src| && IsDigit(At(src, i))
    ensures SkipDigits(src, i) > i
  {
  }

  lemma SecondDigit(s: Text)
    requires SomeDigits(s) && |s| > 1
    ensures IsDigit(s[1])
  {
  }

  /** The literal that a word token stands for. */
  lemma WordOf(src: Text, q: nat, v: Value, i: nat) returns (d: Doc)
    requires q < |src| && LexWord(src, q) == Some((Literal(v), i))
    ensures Valid(d) && Denoted(d) == v && Occurs(src, q, Write(d)) && i == q + |Write(d)|
  {
    hide NumberEnd, ToNumber, Write, Denoted, Valid;
    var first := if src[q] == 45 then q + 1 else q;
    if IsDigit(At(src, first)) {
      d := SignedNumber(src, q, first, i);
    } else {
      d := Word(v);
      KeywordIs(v);
    }
  }

  lemma KeywordIs(v: Value)
    requires v == Null || v == Bool(true) || v == Bool(false)
    ensures Valid(Word(v)) && Denoted(Word(v)) == v && Write(Word(v)) == if v == Null then NULL else if v == Bool(true) then TRUE else FALSE
  {
  }

  lemma SignedNumber(src: Text, q: nat, first: nat, end: nat) returns (d: Doc)
    requires q < |src| && first == (if src[q] == 45 then q + 1 else q) && NumberEnd(src, first) == Some(end)
    ensures q <= end <= |src| && Valid(d) && Denoted(d) == ToNumber(src[q..end]) && Occurs(src, q, Write(d)) && end == q + |Write(d)|
  {
    hide NumberEnd, ToNumber, ValidNumber, WriteNumber, FractionText, ExponentText, Occurs;
    var n := NumberOf(src, first, end);
    d := Number(n.(negative := src[q] == 45));
    SignedIsValid(n, src[q] == 45);
    var sign: Text := if src[q] == 45 then [45] else [];
    WriteNumberIs(d.n, sign, src[first..end]);
    assert src[q..first] == sign;
    assert src[q..end] == src[q..first] + src[first..end];
    SliceOccurs(src, q, end);
  }

  lemma SignedIsValid(n: NumberText, negative: bool)
    requires ValidNumber(n)
    ensures ValidNumber(n.(negative := negative))
  {
  }

  /** What a token stands for, and where it starts. */
  lemma TokenOf(src: Text, p: nat, tok: Token, i: nat)
    requires p <= |src| && LexAt(src, p) == Some((tok, i))
    ensures var q := SkipSpace(src, p);
            && AllSpace(src[p..q])
            && (tok.EndToken? ==> q == |src|)
            && (tok.Punct? ==> Occurs(src, q, [tok.c]) && i == q + 1)
            && (tok.StrToken? ==> LexString(src, q + 1, []) == Some((tok, i)) && Occurs(src, q, [QUOTE]))
            && (tok.Literal? ==> q < |src| && LexWord(src, q) == Some((tok, i)))
  {
    hide LexString, LexWord, AllSpace;
    SkippedIsSpace(src, p);
    var q := SkipSpace(src, p);
    if q < |src| {
      assert src[q..q + 1] == [src[q]];
    }
  }

  lemma StringToken(src: Text, p: nat, s: Text, i: nat) returns (ss: seq<Spelling>)
    requires p <= |src| && LexAt(src, p) == Some((StrToken(s), i))
    ensures AllSpelled(ss) && s == Spelled(ss)
    ensures var q := SkipSpace(src, p);
            AllSpace(src[p..q]) && Occurs(src, q, WriteString(ss)) && i == q + |WriteString(ss)|
  {
    hide *;
    TokenOf(src, p, StrToken(s), i);
    var q := SkipSpace(src, p);
    OccursFits(src, q, [QUOTE]);
    ss := StringOf(src, q + 1, [], s, i);
    assert [] + Spelled(ss) == Spelled(ss);
    WriteStringIs(ss);
    OccursConcat(src, q, [QUOTE], WrittenAll(ss) + [QUOTE]);
  }

  lemma WriteStringIs(ss: seq<Spelling>)
    ensures WriteString(ss) == [QUOTE] + (WrittenAll(ss) + [QUOTE])
  {
    hide WrittenAll;
    Associates([QUOTE], WrittenAll(ss), [QUOTE]);
  }

  // ----- values

  /** A value that was read stands there as a document. */
  lemma {:induction false} DocOf(src: Text, p: nat, tok: Token, i: nat, v: Value, end: nat) returns (d: Doc)
    requires p <= |src| && LexAt(src, p) == Some((tok, i)) && i <= |src| && GetAt(src, tok, i) == Some((v, end))
    ensures Valid(d) && Denoted(d) == v
    ensures var q := SkipSpace(src, p);
            AllSpace(src[p..q]) && Occurs(src, q, Write(d)) && end == q + |Write(d)|
    decreases |src| - i + (if tok.Punct? then 1 else 0), 1
  {
    hide *;
    TokenOf(src, p, tok, i);
    GetIs(src, tok, i);
    var q := SkipSpace(src, p);
    match tok
    case EndToken =>
    case StrToken(s) =>
      var ss := StringToken(src, p, s, i);
      d := String(ss);
      MakeString(ss);
    case Literal(w) =>
      d := WordOf(src, q, w, i);
    case Punct(c) =>
      if c == LBRACKET {
        var es := ElementsAt(src, i, [], false).value.0;
        var items, space := ItemsOf(src, i, es, end);
        d := MakeArray(items, space);
        Associates([LBRACKET], WriteItems(items, space), [RBRACKET]);
        OccursConcat(src, q, [LBRACKET], WriteItems(items, space) + [RBRACKET]);
      } else {
        var ms := MembersAt(src, i, [], false).value.0;
        var entries, space := EntriesOf(src, i, ms, end);
        d := MakeObject(entries, space);
        Associates([LBRACE], WriteEntries(entries, space), [RBRACE]);
        OccursConcat(src, q, [LBRACE], WriteEntries(entries, space) + [RBRACE]);
      }
  }

  lemma GetIs(src: Text, tok: Token, i: nat)
    requires i <= |src| && GetAt(src, tok, i).Some?
    ensures !tok.EndToken?
    ensures tok.StrToken? ==> GetAt(src, tok, i) == Some((Str(tok.s), i))
    ensures tok.Literal? ==> GetAt(src, tok, i) == Some((tok.v, i))
    ensures tok.Punct? ==>
              && (tok.c == LBRACKET || tok.c == LBRACE)
              && (tok.c == LBRACKET ==>
                    var r := ElementsAt(src, i, [], false); r.Some? && GetAt(src, tok, i) == Some((Arr(r.value.0), r.value.1)))
              && (tok.c == LBRACE ==>
                    var r := MembersAt(src, i, [], false); r.Some? && GetAt(src, tok, i) == Some((Obj(r.value.0), r.value.1)))
  {
    hide ElementsAt, MembersAt;
  }

  lemma MakeString(ss: seq<Spelling>)
    requires AllSpelled(ss)
    ensures Valid(String(ss)) && Denoted(String(ss)) == Str(Spelled(ss)) && Write(String(ss)) == WriteString(ss)
  {
  }

  lemma MakeArray(items: seq<Padded>, space: Text) returns (d: Doc)
    requires ValidItems(items) && AllSpace(space)
    ensures Valid(d) && Denoted(d) == Arr(DenotedAll(items)) && Write(d) == [LBRACKET] + WriteItems(items, space) + [RBRACKET]
  {
    hide WriteItems, DenotedAll, ValidItems, AllSpace;
    d := Array(items, space);
  }

  lemma MakeObject(entries: seq<Entry>, space: Text) returns (d: Doc)
    requires ValidEntries(entries) && AllSpace(space)
    ensures Valid(d) && Denoted(d) == Obj(Built(DenotedMembers(entries), [])) && Write(d) == [LBRACE] + WriteEntries(entries, space) + [RBRACE]
  {
    hide WriteEntries, DenotedMembers, ValidEntries, AllSpace, Built;
    d := Object(entries, space);
  }

  // ----- arrays

  /** The head of the loop: the bracket, or an element behind white space and, if it is not the
      first one, a comma. */
  lemma StartOf(src: Text, i: nat, hasMembers: bool, close: CodeUnit) returns (p: nat)
    requires i <= |src| && NextStart(src, i, hasMembers, close).Some? && (close == RBRACKET || close == RBRACE)
    ensures var (tok, j) := NextStart(src, i, hasMembers, close).value;
            var q := SkipSpace(src, i);
            && AllSpace(src[i..q])
            && (tok == Punct(close) ==> Occurs(src, q, [close]) && j == q + 1)
            && (tok != Punct(close) ==>
                  && p <= |src| && LexAt(src, p) == Some((tok, j))
                  && (if hasMembers then Occurs(src, q, [COMMA]) && p == q + 1 else p == i))
  {
    hide LexAt, AllSpace, SkipSpace, Occurs;
    var (first, j) := LexAt(src, i).value;
    TokenOf(src, i, first, j);
    p := if hasMembers then j else i;
  }

  lemma {:induction false} ItemsOf(src: Text, i: nat, es: seq<Value>, end: nat) returns (items: seq<Padded>, space: Text)
    requires i <= |src| && ElementsAt(src, i, [], false) == Some((es, end))
    ensures ValidItems(items) && AllSpace(space) && DenotedAll(items) == es
    ensures Occurs(src, i, WriteItems(items, space) + [RBRACKET]) && end == i + |WriteItems(items, space)| + 1
    decreases |src| - i, 2
  {
    hide *;
    ElementsStep(src, i, [], false);
    var p := StartOf(src, i, false, RBRACKET);
    var (tok, j) := NextStart(src, i, false, RBRACKET).value;
    var q := SkipSpace(src, i);
    SliceOccurs(src, i, q);
    items, space := [], src[i..q];
    if tok == Punct(RBRACKET) {
      NoItems(space);
      OccursConcat(src, i, space, [RBRACKET]);
    } else {
      var (v, e) := GetAt(src, tok, j).value;
      var d := DocOf(src, i, tok, j, v, e);
      assert [] + [v] == [v];
      var behind, more := MoreOf(src, e, [v], es, end);
      var item := Padded(src[i..q], d, behind);
      items := [item] + more;
      FirstItem(item, more, space);
      assert DenotedAll(items) == es;
      PaddedParts(item);
      OccursConcat(src, i, src[i..q], Write(d));
      JoinedItem(src[i..q], Write(d), behind, WriteMore(more), [RBRACKET]);
      OccursConcat(src, i, src[i..q] + Write(d), behind + (WriteMore(more) + [RBRACKET]));
    }
  }

  lemma NoItems(space: Text)
    ensures ValidItems([]) && DenotedAll([]) == [] && WriteItems([], space) == space
    ensures ValidEntries([]) && DenotedMembers([]) == [] && WriteEntries([], space) == space
  {
  }

  lemma FirstItem(item: Padded, more: seq<Padded>, space: Text)
    requires AllSpace(item.before) && Valid(item.doc) && AllSpace(item.behind) && ValidItems(more)
    ensures ValidItems([item] + more) && DenotedAll([item] + more) == [Denoted(item.doc)] + DenotedAll(more)
    ensures WriteItems([item] + more, space) == WritePadded(item) + WriteMore(more)
    ensures WriteMore([item] + more) == [COMMA] + WritePadded(item) + WriteMore(more)
  {
    hide WritePadded, Denoted, Valid, AllSpace;
    assert ([item] + more)[1..] == more;
  }

  lemma JoinedItem(a: Text, b: Text, c: Text, more: Text, close: Text)
    ensures a + (b + c) + more + close == a + b + (c + (more + close))
  {
    Associates(a, b, c);
    Associates(a + b + c, more, close);
    Associates(a + b, c, more + close);
  }

  /** Behind an element: white space, and then the bracket or further elements. */
  lemma {:induction false} MoreOf(src: Text, i: nat, acc: seq<Value>, es: seq<Value>, end: nat) returns (behind: Text, more: seq<Padded>)
    requires i <= |src| && ElementsAt(src, i, acc, true) == Some((es, end))
    ensures ValidItems(more) && AllSpace(behind) && es == acc + DenotedAll(more)
    ensures Occurs(src, i, behind + (WriteMore(more) + [RBRACKET])) && end == i + |behind| + |WriteMore(more)| + 1
    decreases |src| - i, 2
  {
    hide *;
    ElementsStep(src, i, acc, true);
    var p := StartOf(src, i, true, RBRACKET);
    var (tok, j) := NextStart(src, i, true, RBRACKET).value;
    var q := SkipSpace(src, i);
    SliceOccurs(src, i, q);
    behind, more := src[i..q], [];
    if tok == Punct(RBRACKET) {
      NothingMore();
      NoItems([]);
      assert acc + [] == acc && [] + [RBRACKET] == [RBRACKET];
      OccursConcat(src, i, behind, [RBRACKET]);
    } else {
      var (v, e) := GetAt(src, tok, j).value;
      var d := DocOf(src, p, tok, j, v, e);
      var before := src[p..SkipSpace(src, p)];
      SliceOccurs(src, p, SkipSpace(src, p));
      var behind', more' := MoreOf(src, e, acc + [v], es, end);
      var item := Padded(before, d, behind');
      more := [item] + more';
      FirstItem(item, more', []);
      Associates(acc, [v], DenotedAll(more'));
      PaddedParts(item);
      OccursConcat(src, p, before, Write(d));
      JoinedItem(before, Write(d), behind', WriteMore(more'), [RBRACKET]);
      OccursConcat(src, p, before + Write(d), behind' + (WriteMore(more') + [RBRACKET]));
      CommaJoined(WritePadded(item), WriteMore(more'), [RBRACKET]);
      OccursConcat(src, q, [COMMA], WritePadded(item) + WriteMore(more') + [RBRACKET]);
      OccursConcat(src, i, behind, WriteMore(more) + [RBRACKET]);
    }
  }

  lemma CommaJoined(item: Text, more: Text, close: Text)
    ensures [COMMA] + item + more + close == [COMMA] + (item + more + close)
  {
    Associates([COMMA], item, more);
    Associates([COMMA], item + more, close);
  }

  // ----- objects

  /** A member: its name, the colon, and the value with what is in front of it. */
  lemma {:induction false} EntryOf(src: Text, p: nat, key: Text, j: nat, colonEnd: nat, tok: Token, k: nat, v: Value, e: nat) returns (name: seq<Spelling>, between: Text, before: Text, d: Doc)
    requires p <= |src| && LexAt(src, p) == Some((StrToken(key), j)) && j <= |src| && LexAt(src, j) == Some((Punct(COLON), colonEnd))
    requires colonEnd <= |src| && LexAt(src, colonEnd) == Some((tok, k)) && k <= |src| && GetAt(src, tok, k) == Some((v, e))
    ensures AllSpelled(name) && Spelled(name) == key && AllSpace(between) && AllSpace(before) && Valid(d) && Denoted(d) == v
    ensures var q := SkipSpace(src, p);
            var text := WriteString(name) + (between + ([COLON] + (before + Write(d))));
            AllSpace(src[p..q]) && Occurs(src, q, text) && e == q + |text|
    decreases |src| - k + (if tok.Punct? then 1 else 0), 2
  {
    hide *;
    name := StringToken(src, p, key, j);
    TokenOf(src, j, Punct(COLON), colonEnd);
    d := DocOf(src, colonEnd, tok, k, v, e);
    var c, b := SkipSpace(src, j), SkipSpace(src, colonEnd);
    between, before := src[j..c], src[colonEnd..b];
    SliceOccurs(src, j, c);
    SliceOccurs(src, colonEnd, b);
    OccursConcat(src, colonEnd, before, Write(d));
    OccursConcat(src, c, [COLON], before + Write(d));
    OccursConcat(src, j, between, [COLON] + (before + Write(d)));
    OccursConcat(src, SkipSpace(src, p), WriteString(name), between + ([COLON] + (before + Write(d))));
  }

  lemma JoinedEntry(space: Text, key: Text, between: Text, before: Text, doc: Text, behind: Text, more: Text, close: Text)
    ensures space + (key + (between + ([COLON] + (before + (doc + behind))))) + more + close
            == space + (key + (between + ([COLON] + (before + doc)))) + (behind + (more + close))
  {
    Associates(before, doc, behind);
    Associates([COLON], before + doc, behind);
    Associates(between, [COLON] + (before + doc), behind);
    Associates(key, between + ([COLON] + (before + doc)), behind);
    Associates(space, key + (between + ([COLON] + (before + doc))), behind);
    Associates(space + (key + (between + ([COLON] + (before + doc)))) + behind, more, close);
    Associates(space + (key + (between + ([COLON] + (before + doc)))), behind, more + close);
  }

  lemma FirstEntry(e: Entry, more: seq<Entry>, space: Text)
    requires AllSpace(e.before) && AllSpelled(e.key) && AllSpace(e.behind)
    requires AllSpace(e.value.before) && Valid(e.value.doc) && AllSpace(e.value.behind) && ValidEntries(more)
    ensures ValidEntries([e] + more)
    ensures DenotedMembers([e] + more) == [Member(Spelled(e.key), Denoted(e.value.doc))] + DenotedMembers(more)
    ensures WriteEntries([e] + more, space) == WriteEntry(e) + WriteMoreEntries(more)
    ensures WriteMoreEntries([e] + more) == [COMMA] + WriteEntry(e) + WriteMoreEntries(more)
  {
    hide WriteEntry, Denoted, Valid, AllSpace, AllSpelled, Spelled;
    assert ([e] + more)[1..] == more;
    assert ValidEntry(e);
  }

  lemma MembersParts(src: Text, i: nat, acc: seq<Member>, hasMembers: bool) returns (j: nat, colonEnd: nat, tok: Token, k: nat, v: Value, e: nat)
    requires i <= |src| && MembersAt(src, i, acc, hasMembers).Some?
    ensures NextStart(src, i, hasMembers, RBRACE).Some?
    ensures var (first, f) := NextStart(src, i, hasMembers, RBRACE).value;
            && f == j
            && (first == Punct(RBRACE) ==> MembersAt(src, i, acc, hasMembers) == Some((acc, j)))
            && (first != Punct(RBRACE) ==>
                  && first.StrToken? && j <= |src| && LexAt(src, j) == Some((Punct(COLON), colonEnd))
                  && colonEnd <= |src| && LexAt(src, colonEnd) == Some((tok, k)) && k <= |src| && GetAt(src, tok, k) == Some((v, e))
                  && i < k <= e <= |src| && j < k
                  && MembersAt(src, i, acc, hasMembers) == MembersAt(src, e, Assign(acc, first.s, v), true))
  {
    hide LexAt, GetAt, NextStart, Assign, MembersAt;
    MembersStep(src, i, acc, hasMembers);
    var (first, f) := NextStart(src, i, hasMembers, RBRACE).value;
    j := f;
    if first != Punct(RBRACE) {
      colonEnd := LexAt(src, j).value.1;
      tok, k := LexAt(src, colonEnd).value.0, LexAt(src, colonEnd).value.1;
      v, e := GetAt(src, tok, k).value.0, GetAt(src, tok, k).value.1;
      assert !tok.EndToken? by { GetIs(src, tok, k); }
    } else {
      colonEnd, tok, k, v, e := 0, EndToken, 0, Null, 0;
    }
  }

  lemma {:induction false} EntriesOf(src: Text, i: nat, ms: seq<Member>, end: nat) returns (entries: seq<Entry>, space: Text)
    requires i <= |src| && MembersAt(src, i, [], false) == Some((ms, end))
    ensures ValidEntries(entries) && AllSpace(space) && Built(DenotedMembers(entries), []) == ms
    ensures Occurs(src, i, WriteEntries(entries, space) + [RBRACE]) && end == i + |WriteEntries(entries, space)| + 1
    decreases |src| - i, 3
  {
    hide *;
    var j, colonEnd, tok, k, v, e := MembersParts(src, i, [], false);
    var p := StartOf(src, i, false, RBRACE);
    var first := NextStart(src, i, false, RBRACE).value.0;
    var q := SkipSpace(src, i);
    SliceOccurs(src, i, q);
    entries, space := [], src[i..q];
    BuiltCons([], []);
    if first == Punct(RBRACE) {
      NoItems(space);
      OccursConcat(src, i, space, [RBRACE]);
    } else {
      var name, between, before, d := EntryOf(src, i, first.s, j, colonEnd, tok, k, v, e);
      var behind, more := MoreEntriesOf(src, e, Assign([], first.s, v), ms, end);
      var entry := Entry(src[i..q], name, between, Padded(before, d, behind));
      entries := [entry] + more;
      FirstEntry(entry, more, space);
      MembersBuilt(entry, more, []);
      EntryParts(entry);
      PaddedParts(entry.value);
      var text := WriteString(name) + (between + ([COLON] + (before + Write(d))));
      JoinedEntry(src[i..q], WriteString(name), between, before, Write(d), behind, WriteMoreEntries(more), [RBRACE]);
      OccursConcat(src, i, src[i..q], text);
      OccursConcat(src, i, src[i..q] + text, behind + (WriteMoreEntries(more) + [RBRACE]));
    }
  }

  lemma MembersBuilt(entry: Entry, more: seq<Entry>, acc: seq<Member>)
    requires DenotedMembers([entry] + more) == [Member(Spelled(entry.key), Denoted(entry.value.doc))] + DenotedMembers(more)
    ensures Built(DenotedMembers([entry] + more), acc)
            == Built(DenotedMembers(more), Assign(acc, Spelled(entry.key), Denoted(entry.value.doc)))
  {
    hide *;
    BuiltCons(DenotedMembers([entry] + more), acc);
    assert DenotedMembers([entry] + more)[1..] == DenotedMembers(more);
  }

  lemma {:induction false} MoreEntriesOf(src: Text, i: nat, acc: seq<Member>, ms: seq<Member>, end: nat) returns (behind: Text, more: seq<Entry>)
    requires i <= |src| && MembersAt(src, i, acc, true) == Some((ms, end))
    ensures ValidEntries(more) && AllSpace(behind) && ms == Built(DenotedMembers(more), acc)
    ensures Occurs(src, i, behind + (WriteMoreEntries(more) + [RBRACE])) && end == i + |behind| + |WriteMoreEntries(more)| + 1
    decreases |src| - i, 3
  {
    hide *;
    var j, colonEnd, tok, k, v, e := MembersParts(src, i, acc, true);
    var p := StartOf(src, i, true, RBRACE);
    var first := NextStart(src, i, true, RBRACE).value.0;
    var q := SkipSpace(src, i);
    SliceOccurs(src, i, q);
    behind, more := src[i..q], [];
    BuiltCons([], acc);
    if first == Punct(RBRACE) {
      NothingMore();
      NoItems([]);
      assert [] + [RBRACE] == [RBRACE];
      OccursConcat(src, i, behind, [RBRACE]);
    } else {
      var name, between, before, d := EntryOf(src, p, first.s, j, colonEnd, tok, k, v, e);
      var r := SkipSpace(src, p);
      SliceOccurs(src, p, r);
      var behind', more' := MoreEntriesOf(src, e, Assign(acc, first.s, v), ms, end);
      var entry := Entry(src[p..r], name, between, Padded(before, d, behind'));
      more := [entry] + more';
      FirstEntry(entry, more', []);
      MembersBuilt(entry, more', acc);
      EntryParts(entry);
      PaddedParts(entry.value);
      var text := WriteString(name) + (between + ([COLON] + (before + Write(d))));
      JoinedEntry(src[p..r], WriteString(name), between, before, Write(d), behind', WriteMoreEntries(more'), [RBRACE]);
      OccursConcat(src, p, src[p..r], text);
      OccursConcat(src, p, src[p..r] + text, behind' + (WriteMoreEntries(more') + [RBRACE]));
      CommaJoined(WriteEntry(entry), WriteMoreEntries(more'), [RBRACE]);
      OccursConcat(src, q, [COMMA], WriteEntry(entry) + WriteMoreEntries(more') + [RBRACE]);
      OccursConcat(src, i, behind, WriteMoreEntries(more) + [RBRACE]);
    }
  }

  // ----- whole texts

  /** What is parsed is a JSON text. */
  lemma ParsedIsJson(src: Text) returns (p: Padded)
    requires ParseText(src).Some?
    ensures ValidPadded(p) && WritePadded(p) == src
  {
    hide *;
    var tok, i, v, j := ParseParts(src);
    var d := DocOf(src, 0, tok, i, v, j);
    TokenOf(src, j, EndToken, LexAt(src, j).value.1);
    var q := SkipSpace(src, 0);
    p := Padded(src[0..q], d, src[j..|src|]);
    PaddedIsValid(p);
    PaddedParts(p);
    WholeIs(src, q, Write(d), j);
  }

  lemma PaddedIsValid(p: Padded)
    requires AllSpace(p.before) && Valid(p.doc) && AllSpace(p.behind)
    ensures ValidPadded(p)
  {
  }

  lemma WholeIs(src: Text, q: nat, text: Text, j: nat)
    requires Occurs(src, q, text) && j == q + |text|
    ensures j <= |src| && src[0..q] + (text + src[j..|src|]) == src
  {
  }

  lemma ParseParts(src: Text) returns (tok: Token, i: nat, v: Value, j: nat)
    requires ParseText(src).Some?
    ensures i <= |src| && LexAt(src, 0) == Some((tok, i)) && GetAt(src, tok, i) == Some((v, j)) && ParseText(src) == Some(v)
    ensures j <= |src| && LexAt(src, j).Some? && LexAt(src, j).value.0.EndToken?
  {
    hide LexAt, GetAt;
    tok, i := LexAt(src, 0).value.0, LexAt(src, 0).value.1;
    v, j := GetAt(src, tok, i).value.0, GetAt(src, tok, i).value.1;
  }

  /** The parser accepts exactly the JSON texts, and reads each as the value that it denotes. */
  lemma AcceptsExactlyJson(src: Text)
    ensures ParseText(src).Some? <==> exists p :: ValidPadded(p) && WritePadded(p) == src
    ensures forall p | ValidPadded(p) && WritePadded(p) == src :: ParseText(src) == Some(Denoted(p.doc))
  {
    hide ParseText, ValidPadded, WritePadded, Denoted;
    if ParseText(src).Some? {
      var p := ParsedIsJson(src);
    }
    forall p | ValidPadded(p) && WritePadded(p) == src ensures ParseText(src) == Some(Denoted(p.doc)) {
      JsonIsParsed(p);
    }
  }
}
