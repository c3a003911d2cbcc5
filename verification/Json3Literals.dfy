/** String literals however they are spelled: any character may be written out, with a shorthand or
    with four hexadecimal digits of either case. */
module Json3Literals {
  import opened JsText
  import opened Json3Printer
  import opened Json3Parser
  import opened Json3RoundTrip

  /** One way to write one code unit; `upper` tells for each hexadecimal digit whether it is an
      upper-case letter, if it is a letter. */
  datatype Spelling = Plain(c: CodeUnit) | Shorthand(c: CodeUnit, letter: CodeUnit) | Hex(c: CodeUnit, upper: (bool, bool, bool, bool))

  /** The shorthands of RFC 8259, section 7. */
  predicate IsShorthand(c: CodeUnit, letter: CodeUnit) {
    (c, letter) in {(34, 34), (92, 92), (47, 47), (8, 98), (12, 102), (10, 110), (13, 114), (9, 116)}
  }

  predicate Spells(s: Spelling) {
    match s
    case Plain(c) => c >= 32 && c != 34 && c != 92
    case Shorthand(c, letter) => IsShorthand(c, letter)
    case Hex(_, _) => true
  }

  /** The hexadecimal digit of a number below 16. */
  function Digit16(v: nat, upper: bool): CodeUnit
    requires v < 16
  {
    if v < 10 then 48 + v else if upper then 65 + (v - 10) else 97 + (v - 10)
  }

  function Written(s: Spelling): Text {
    match s
    case Plain(c) => [c]
    case Shorthand(_, letter) => [92, letter]
    case Hex(c, upper) =>
      [92, 117, Digit16(c / 4096, upper.0), Digit16(c / 256 % 16, upper.1), Digit16(c / 16 % 16, upper.2), Digit16(c % 16, upper.3)]
  }

  function WrittenAll(ss: seq<Spelling>): Text {
    if ss == [] then [] else Written(ss[0]) + WrittenAll(ss[1..])
  }

  function Spelled(ss: seq<Spelling>): (r: Text)
    ensures |r| == |ss|
  {
    if ss == [] then [] else [ss[0].c] + Spelled(ss[1..])
  }

  lemma DigitIsRead(v: nat, upper: bool)
    requires v < 16
    ensures IsHex(Digit16(v, upper)) && HexValue(Digit16(v, upper)) == v
  {
  }

  lemma FourDigits(u: CodeUnit)
    ensures u / 4096 < 16 && u == u / 4096 * 4096 + u / 256 % 16 * 256 + u / 16 % 16 * 16 + u % 16
  {
    var a, b, c := u / 16, u / 256, u / 4096;
    assert b == a / 16 && c == b / 16;
  }

  /** Four hexadecimal digits of a code unit, in either case, are read as that code unit. */
  lemma HexUnitReads(u: CodeUnit, upper: (bool, bool, bool, bool))
    ensures u / 4096 < 16
    ensures var a, b, c, d := Digit16(u / 4096, upper.0), Digit16(u / 256 % 16, upper.1), Digit16(u / 16 % 16, upper.2), Digit16(u % 16, upper.3);
            IsHex(a) && IsHex(b) && IsHex(c) && IsHex(d) && HexUnit(a, b, c, d) == u
  {
    hide Digit16, HexValue;
    FourDigits(u);
    DigitIsRead(u / 4096, upper.0);
    DigitIsRead(u / 256 % 16, upper.1);
    DigitIsRead(u / 16 % 16, upper.2);
    DigitIsRead(u % 16, upper.3);
  }

  lemma LexSpelling(src: Text, i: nat, s: Spelling, acc: Text)
    requires Spells(s) && Occurs(src, i, Written(s))
    ensures i + |Written(s)| <= |src|
    ensures LexString(src, i, acc) == LexString(src, i + |Written(s)|, acc + [s.c])
  {
    hide LexString, Digit16, HexUnit, Occurs;
    OccursUnits(src, i, Written(s));
    match s
    case Plain(c) => LexPlain(src, i, c, acc);
    case Shorthand(c, letter) => LexShorthand(src, i, letter, acc);
    case Hex(c, upper) =>
      HexUnitReads(c, upper);
      assert Unescaped(117) == -1;
      LexStringStep(src, i, acc);
  }

  lemma {:induction false} LexSpellings(src: Text, i: nat, ss: seq<Spelling>, acc: Text)
    requires (forall s | s in ss :: Spells(s)) && Occurs(src, i, WrittenAll(ss))
    ensures i + |WrittenAll(ss)| <= |src|
    ensures LexString(src, i, acc) == LexString(src, i + |WrittenAll(ss)|, acc + Spelled(ss))
    decreases |ss|
  {
    hide LexString, Written, Occurs, Spells;
    if ss == [] {
      assert acc + Spelled(ss) == acc;
      OccursFits(src, i, WrittenAll(ss));
    } else {
      OccursConcat(src, i, Written(ss[0]), WrittenAll(ss[1..]));
      LexSpelling(src, i, ss[0], acc);
      LexSpellings(src, i + |Written(ss[0])|, ss[1..], acc + [ss[0].c]);
      assert acc + [ss[0].c] + Spelled(ss[1..]) == acc + Spelled(ss);
    }
  }

  /** A string literal is read as the text that it spells, wherever it stands. */
  lemma LexLiteral(src: Text, i: nat, ss: seq<Spelling>)
    requires (forall s | s in ss :: Spells(s)) && Occurs(src, i, [QUOTE] + WrittenAll(ss) + [QUOTE])
    ensures i + |WrittenAll(ss)| + 2 <= |src|
    ensures LexAt(src, i) == Some((StrToken(Spelled(ss)), i + |WrittenAll(ss)| + 2))
  {
    hide WrittenAll, LexString, Spelled, Occurs;
    assert [QUOTE] + WrittenAll(ss) + [QUOTE] == [QUOTE] + (WrittenAll(ss) + [QUOTE]);
    OccursConcat(src, i, [QUOTE], WrittenAll(ss) + [QUOTE]);
    OccursConcat(src, i + 1, WrittenAll(ss), [QUOTE]);
    OccursAt(src, i, [QUOTE]);
    LexSpellings(src, i + 1, ss, []);
    var j := i + 1 + |WrittenAll(ss)|;
    OccursAt(src, j, [QUOTE]);
    assert [] + Spelled(ss) == Spelled(ss);
    LexStringStep(src, j, Spelled(ss));
    assert SkipSpace(src, i) == i;
  }

  /** What quote() makes of a text is a literal that spells it, with nothing spelled out that
      need not be: control characters, the quotation mark and the backslash. */
  lemma {:induction false} QuotedSpells(s: Text) returns (ss: seq<Spelling>)
    ensures (forall i | 0 <= i < |ss| :: Spells(ss[i]) && (ss[i].Plain? <==> ss[i].c >= 32 && ss[i].c != 34 && ss[i].c != 92))
    ensures Spelled(ss) == s && Quoted(s) == [QUOTE] + WrittenAll(ss) + [QUOTE]
  {
    ss := EscapedSpells(s);
  }

  lemma {:induction false} EscapedSpells(s: Text) returns (ss: seq<Spelling>)
    ensures (forall i | 0 <= i < |ss| :: Spells(ss[i]) && (ss[i].Plain? <==> ss[i].c >= 32 && ss[i].c != 34 && ss[i].c != 92))
    ensures Spelled(ss) == s && EscapedAll(s) == WrittenAll(ss)
  {
    hide Escaped, Written, Spells;
    if s == [] {
      ss := [];
    } else {
      var first := UnitSpells(s[0]);
      var rest := EscapedSpells(s[1..]);
      ss := [first] + rest;
      assert ss[1..] == rest && s == [s[0]] + s[1..];
    }
  }

  lemma UnitSpells(c: CodeUnit) returns (s: Spelling)
    ensures Spells(s) && s.c == c && Written(s) == Escaped(c) && (s.Plain? <==> c >= 32 && c != 34 && c != 92)
  {
    if c >= 32 && c != 34 && c != 92 {
      s := Plain(c);
    } else if c == 34 || c == 92 {
      s := Shorthand(c, c);
    } else if c == 8 {
      s := Shorthand(c, 98);
    } else if c == 9 {
      s := Shorthand(c, 116);
    } else if c == 10 {
      s := Shorthand(c, 110);
    } else if c == 12 {
      s := Shorthand(c, 102);
    } else if c == 13 {
      s := Shorthand(c, 114);
    } else {
      s := Hex(c, (false, false, false, false));
      assert c / 4096 == 0 && c / 256 == 0 && c / 16 < 2;
      assert Digit16(c / 16, false) == HexDigit(c / 16) && Digit16(c % 16, false) == HexDigit(c % 16);
    }
  }
}
