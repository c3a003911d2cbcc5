/** JSON.parse as JSON 3 implements it: a lexer and a recursive parser that share a cursor. */
module Json3Parser {
  import opened JsText
  import opened JsNumbers
  import opened JsValue
  import opened Json3Printer

  /** A token; strings, literals and the end of the input are told apart by sentinels in the
      original. */
  datatype Token = Punct(c: CodeUnit) | StrToken(s: Text) | Literal(v: Value) | EndToken

  /** charCodeAt: past the end every comparison with it fails. */
  function At(src: Text, i: nat): int {
    if i < |src| then src[i] else -1
  }

  predicate IsSpace(c: int) { c == 9 || c == 10 || c == 13 || c == 32 }

  predicate IsPunct(c: int) { c == 123 || c == 125 || c == 91 || c == 93 || c == 58 || c == 44 }

  predicate IsHex(c: int) { 48 <= c <= 57 || 97 <= c <= 102 || 65 <= c <= 70 }

  function SkipSpace(src: Text, i: nat): (j: nat)
    requires i <= |src|
    ensures i <= j <= |src| && !IsSpace(At(src, j))
    decreases |src| - i
  {
    if IsSpace(At(src, i)) then SkipSpace(src, i + 1) else i
  }

  function SkipDigits(src: Text, i: nat): (j: nat)
    requires i <= |src|
    ensures i <= j <= |src| && !IsDigit(At(src, j))
    decreases |src| - i
  {
    if IsDigit(At(src, i)) then SkipDigits(src, i + 1) else i
  }

  // ----- strings

  /** The value of a shorthand escape; -1 if there is none. */
  function Unescaped(c: int): int {
    match c
    case 92 => 92
    case 34 => 34
    case 47 => 47
    case 98 => 8
    case 116 => 9
    case 110 => 10
    case 102 => 12
    case 114 => 13
    case _ => -1
  }

  function HexValue(c: int): nat
    requires IsHex(c)
  {
    if c <= 57 then c - 48 else if c >= 97 then c - 87 else c - 55
  }

  /** The code unit written as four hexadecimal digits. */
  function HexUnit(a: int, b: int, c: int, d: int): (u: CodeUnit)
    requires IsHex(a) && IsHex(b) && IsHex(c) && IsHex(d)
  {
    HexValue(a) * 4096 + HexValue(b) * 256 + HexValue(c) * 16 + HexValue(d)
  }

  /** The rest of a string literal, from position `i` on. */
  function LexString(src: Text, i: nat, acc: Text): (r: Option<(Token, nat)>)
    requires i <= |src|
    ensures r.Some? ==> r.value.0.StrToken? && i < r.value.1 <= |src|
    decreases |src| - i
  {
    var c := At(src, i);
    if c < 32 then None
    else if c == 34 then Some((StrToken(acc), i + 1))
    else if c != 92 then LexString(src, i + 1, acc + [src[i]])
    else
      var e := At(src, i + 1);
      if Unescaped(e) >= 0 then LexString(src, i + 2, acc + [Unescaped(e)])
      else if e == 117 && IsHex(At(src, i + 2)) && IsHex(At(src, i + 3)) && IsHex(At(src, i + 4)) && IsHex(At(src, i + 5)) then
        LexString(src, i + 6, acc + [HexUnit(src[i + 2], src[i + 3], src[i + 4], src[i + 5])])
      else None
  }

  // ----- numbers

  predicate AllDigits(s: Text) {
    forall i | 0 <= i < |s| :: IsDigit(s[i])
  }

  /** `+lexeme`: `Num` where the literal denotes an integer that a double holds exactly, or rounds
      to zero; any other number is kept as its literal. */
  function ToNumber(lexeme: Text): Value {
    var negative := lexeme != [] && lexeme[0] == 45;
    var digits := if negative then lexeme[1..] else lexeme;
    if AllDigits(digits) && DigitsValue(digits) <= MAX_SAFE then
      var n: int := DigitsValue(digits);
      Num(if negative then -n else n)
    else Scientific(lexeme, negative)
  }

  /** A literal with a fraction or an exponent, or with too many digits. */
  function Scientific(lexeme: Text, negative: bool): Value {
    var e := ExponentStart(lexeme);
    var digits := DigitsValue(DigitsIn(lexeme[..e]));
    var scale: int := ExponentIn(lexeme[e..]) - FractionLength(lexeme[..e]);
    if RoundsToZero(digits, scale) then Num(0)
    else
      var integer := Integral(digits, scale);
      if integer.None? then Real(lexeme)
      else
        var n: int := integer.value;
        Num(if negative then -n else n)
  }

  /** Where `e` or `E` stands, or the end. */
  function ExponentStart(s: Text): (e: nat)
    ensures e <= |s|
  {
    if s == [] || s[0] == 101 || s[0] == 69 then 0 else 1 + ExponentStart(s[1..])
  }

  function DigitsIn(s: Text): (r: Text)
    ensures forall i | 0 <= i < |r| :: IsDigit(r[i])
  {
    if s == [] then [] else (if IsDigit(s[0]) then [s[0]] else []) + DigitsIn(s[1..])
  }

  /** The number of digits behind the decimal point. */
  function FractionLength(s: Text): nat {
    if s == [] then 0 else if s[0] == 46 then |s| - 1 else FractionLength(s[1..])
  }

  /** The exponent, from its `e` on; 0 if there is none. */
  function ExponentIn(s: Text): int {
    var n: int := DigitsValue(DigitsIn(s));
    if |s| > 1 && s[1] == 45 then -n else n
  }

  /** A literal that rounds to zero is read as zero, and so is false. */
  lemma ZeroIsFalsy(lexeme: Text)
    requires lexeme != [] && (forall i | 0 <= i < ExponentStart(lexeme) :: lexeme[i] in {45, 46, 48})
    ensures !Truthy(ToNumber(lexeme))
  {
    hide Integral, ExponentIn, FractionLength, ExponentStart, DigitsIn, DigitsValue, Power2, Power10;
    var mantissa := lexeme[..ExponentStart(lexeme)];
    ZeroDigits(mantissa);
    ZeroValue(DigitsIn(mantissa));
    var negative := lexeme[0] == 45;
    var digits := if negative then lexeme[1..] else lexeme;
    ScientificZero(lexeme, negative);
    if AllDigits(digits) {
      NoExponent(lexeme);
      assert forall i | 0 <= i < |digits| :: digits[i] == lexeme[i + |lexeme| - |digits|];
      ZeroValue(digits);
      assert ToNumber(lexeme) == Num(0);
    }
  }

  lemma ScientificZero(lexeme: Text, negative: bool)
    requires DigitsValue(DigitsIn(lexeme[..ExponentStart(lexeme)])) == 0
    ensures Scientific(lexeme, negative) == Num(0)
  {
  }

  lemma {:induction false} NoExponent(s: Text)
    requires s != [] && forall i | 1 <= i < |s| :: IsDigit(s[i])
    requires IsDigit(s[0]) || s[0] == 45
    ensures ExponentStart(s) == |s|
  {
    if |s| > 1 {
      NoExponent(s[1..]);
    } else {
      assert s[1..] == [];
    }
  }

  lemma {:induction false} ZeroDigits(s: Text)
    requires forall i | 0 <= i < |s| :: s[i] in {45, 46, 48}
    ensures forall i | 0 <= i < |DigitsIn(s)| :: DigitsIn(s)[i] == 48
  {
    if s != [] {
      ZeroDigits(s[1..]);
    }
  }

  lemma {:induction false} ZeroValue(s: Text)
    requires forall i | 0 <= i < |s| :: s[i] == 48
    ensures DigitsValue(s) == 0
  {
    if s != [] {
      ZeroValue(s[..|s| - 1]);
    }
  }

  /** The end of the number whose first digit is at `i`. */
  function NumberEnd(src: Text, i: nat): (r: Option<nat>)
    requires i <= |src|
    ensures r.Some? ==> i < r.value <= |src|
  {
    if !IsDigit(At(src, i)) || (At(src, i) == 48 && IsDigit(At(src, i + 1))) then None
    else
      var intEnd := SkipDigits(src, i);
      assert intEnd > i;
      var fracEnd := if At(src, intEnd) == 46 then SkipDigits(src, intEnd + 1) else intEnd;
      if At(src, intEnd) == 46 && fracEnd == intEnd + 1 then None
      else if At(src, fracEnd) != 101 && At(src, fracEnd) != 69 then Some(fracEnd)
      else
        var digits := if At(src, fracEnd + 1) == 43 || At(src, fracEnd + 1) == 45 then fracEnd + 2 else fracEnd + 1;
        var expEnd := SkipDigits(src, digits);
        if expEnd == digits then None else Some(expEnd)
  }

  /** Numbers and the literals true, false and null, at position `i`. */
  function LexWord(src: Text, i: nat): (r: Option<(Token, nat)>)
    requires i < |src|
    ensures r.Some? ==> r.value.0.Literal? && i < r.value.1 <= |src|
  {
    var first := if src[i] == 45 then i + 1 else i;
    if IsDigit(At(src, first)) then
      match NumberEnd(src, first)
      case None => None
      case Some(end) => Some((Literal(ToNumber(src[i..end])), end))
    else if src[i] == 45 then None
    else if Occurs(src, i, TRUE) then Some((Literal(Bool(true)), i + 4))
    else if Occurs(src, i, FALSE) then Some((Literal(Bool(false)), i + 5))
    else if Occurs(src, i, NULL) then Some((Literal(Null), i + 4))
    else None
  }

  /** `p` stands at position `i` of `src`. */
  predicate Occurs(src: Text, i: nat, p: Text) {
    i + |p| <= |src| && src[i..i + |p|] == p
  }

  /** lex(): the next token and the position after it; None where the original throws. */
  function LexAt(src: Text, i: nat): (r: Option<(Token, nat)>)
    requires i <= |src|
    ensures r.Some? ==> i <= r.value.1 <= |src|
    ensures r.Some? && !r.value.0.EndToken? ==> i < r.value.1
  {
    var j := SkipSpace(src, i);
    if j == |src| then Some((EndToken, j))
    else if IsPunct(src[j]) then Some((Punct(src[j]), j + 1))
    else if src[j] == 34 then LexString(src, j + 1, [])
    else LexWord(src, j)
  }

  // ----- values

  /** get(): the value that starts with token `tok`, the cursor standing at `i`. */
  function GetAt(src: Text, tok: Token, i: nat): (r: Option<(Value, nat)>)
    requires i <= |src|
    ensures r.Some? ==> i <= r.value.1 <= |src|
    decreases |src| - i + (if tok.Punct? then 1 else 0), 0
  {
    match tok
    case EndToken => None
    case StrToken(s) => Some((Str(s), i))
    case Literal(v) => Some((v, i))
    case Punct(c) =>
      if c == LBRACKET then
        match ElementsAt(src, i, [], false)
        case None => None
        case Some((es, j)) => Some((Arr(es), j))
      else if c == LBRACE then
        match MembersAt(src, i, [], false)
        case None => None
        case Some((ms, j)) => Some((Obj(ms), j))
      else None
  }

  /** The first token of the next element or member: after the first one a comma is required,
      and a closing bracket may not follow it. */
  function NextStart(src: Text, i: nat, hasMembers: bool, close: CodeUnit): (r: Option<(Token, nat)>)
    requires i <= |src|
    ensures r.Some? ==> i <= r.value.1 <= |src|
    ensures r.Some? && !r.value.0.EndToken? ==> i < r.value.1
    ensures r.Some? && hasMembers ==> i < r.value.1
  {
    match LexAt(src, i)
    case None => None
    case Some((tok, j)) =>
      if tok == Punct(close) then Some((tok, j))
      else if !hasMembers then (if tok == Punct(COMMA) then None else Some((tok, j)))
      else if tok != Punct(COMMA) then None
      else
        match LexAt(src, j)
        case None => None
        case Some((tok2, j2)) =>
          if tok2 == Punct(close) || tok2 == Punct(COMMA) then None else Some((tok2, j2))
  }

  function ElementsAt(src: Text, i: nat, acc: seq<Value>, hasMembers: bool): (r: Option<(seq<Value>, nat)>)
    requires i <= |src|
    ensures r.Some? ==> i <= r.value.1 <= |src|
    decreases |src| - i, 1
  {
    var start := NextStart(src, i, hasMembers, RBRACKET);
    if start.None? then None
    else
      var (tok, j) := start.value;
      if tok == Punct(RBRACKET) then Some((acc, j))
      else if tok.EndToken? then None
      else
        var item := GetAt(src, tok, j);
        if item.None? then None else ElementsAt(src, item.value.1, acc + [item.value.0], true)
  }

  function MembersAt(src: Text, i: nat, acc: seq<Member>, hasMembers: bool): (r: Option<(seq<Member>, nat)>)
    requires i <= |src|
    ensures r.Some? ==> i <= r.value.1 <= |src|
    decreases |src| - i, 1
  {
    var start := NextStart(src, i, hasMembers, RBRACE);
    if start.None? then None
    else
      var (tok, j) := start.value;
      if tok == Punct(RBRACE) then Some((acc, j))
      else if !tok.StrToken? then None
      else
        var colon := LexAt(src, j);
        if colon.None? || colon.value.0 != Punct(COLON) then None
        else
          var first := LexAt(src, colon.value.1);
          if first.None? then None
          else
            var item := GetAt(src, first.value.0, first.value.1);
            if item.None? then None
            else MembersAt(src, item.value.1, Assign(acc, tok.s, item.value.0), true)
  }

  /** exports.parse: one value and nothing but white space after it. */
  function ParseText(src: Text): Option<Value> {
    match LexAt(src, 0)
    case None => None
    case Some((tok, i)) =>
      match GetAt(src, tok, i)
      case None => None
      case Some((v, j)) =>
        match LexAt(src, j)
        case None => None
        case Some((end, _)) => if end.EndToken? then Some(v) else None
  }

  // ----- the methods

  class Parser {
    const source: Text
    var index: nat

    constructor (source: Text)
      ensures this.source == source && index == 0
    {
      this.source := source;
      index := 0;
    }

    /** lex(). */
    method Lex() returns (r: Option<Token>)
      requires index <= |source|
      modifies this
      ensures r.Some? == LexAt(source, old(index)).Some?
      ensures r.Some? ==> LexAt(source, old(index)) == Some((r.value, index))
      ensures r.Some? ==> old(index) <= index <= |source| && (!r.value.EndToken? ==> old(index) < index)
    {
      hide LexString, LexWord, SkipSpace;
      assert SkipSpace(source, |source|) == |source| by { SkipSpaceEnd(source); }
      while index < |source|
        invariant index <= |source|
        invariant SkipSpace(source, index) == SkipSpace(source, old(index))
      {
        SkipSpaceStep(source, index);
        var charCode := source[index];
        if charCode == 9 || charCode == 10 || charCode == 13 || charCode == 32 {
          index := index + 1;
        } else if IsPunct(charCode) {
          index := index + 1;
          return Some(Punct(charCode));
        } else if charCode == 34 {
          index := index + 1;
          r := ReadString();
          return;
        } else {
          r := ReadWord();
          return;
        }
      }
      return Some(EndToken);
    }

    /** The string case of lex(), after the opening quote. */
    method ReadString() returns (r: Option<Token>)
      requires index <= |source|
      modifies this
      ensures r.Some? == LexString(source, old(index), []).Some?
      ensures r.Some? ==> LexString(source, old(index), []) == Some((r.value, index))
    {
      hide LexString, HexUnit;
      var value: Text := [];
      while index < |source|
        invariant index <= |source|
        invariant LexString(source, index, value) == LexString(source, old(index), [])
      {
        LexStringStep(source, index, value);
        var charCode := source[index];
        if charCode < 32 {
          return None;
        } else if charCode == 92 {
          var escape := At(source, index + 1);
          if Unescaped(escape) >= 0 {
            value := value + [Unescaped(escape)];
            index := index + 2;
          } else if escape == 117 {
            var ok := AreHexDigits(index + 2);
            if !ok {
              return None;
            }
            value := value + [HexUnit(source[index + 2], source[index + 3], source[index + 4], source[index + 5])];
            index := index + 6;
          } else {
            return None;
          }
        } else if charCode == 34 {
          index := index + 1;
          return Some(StrToken(value));
        } else {
          // the common case: a stretch of plain characters
          var begin := index;
          assert value + source[begin..begin] == value;
          while 32 <= At(source, index) && At(source, index) != 92 && At(source, index) != 34
            invariant begin <= index <= |source|
            invariant index > begin || At(source, index) >= 32
            invariant LexString(source, index, value + source[begin..index]) == LexString(source, old(index), [])
            invariant index == begin ==> charCode == source[index] && 32 <= charCode != 92 && charCode != 34
            decreases |source| - index
          {
            LexStringStep(source, index, value + source[begin..index]);
            assert value + source[begin..index] + [source[index]] == value + source[begin..index + 1];
            index := index + 1;
          }
          value := value + source[begin..index];
        }
      }
      LexStringStep(source, index, value);
      return None;
    }

    /** The loop over the four digits of a \u escape. */
    method AreHexDigits(begin: nat) returns (ok: bool)
      ensures ok <==> IsHex(At(source, begin)) && IsHex(At(source, begin + 1))
                      && IsHex(At(source, begin + 2)) && IsHex(At(source, begin + 3))
    {
      var position := begin;
      while position < begin + 4
        invariant begin <= position <= begin + 4
        invariant position > begin ==> IsHex(At(source, begin))
        invariant position > begin + 1 ==> IsHex(At(source, begin + 1))
        invariant position > begin + 2 ==> IsHex(At(source, begin + 2))
        invariant position > begin + 3 ==> IsHex(At(source, begin + 3))
      {
        if !IsHex(At(source, position)) {
          return false;
        }
        position := position + 1;
      }
      return true;
    }

    method ReadDigits(from: nat) returns (position: nat)
      requires from <= |source|
      ensures position == SkipDigits(source, from)
    {
      position := from;
      while position < |source| && 48 <= source[position] <= 57
        invariant from <= position <= |source|
        invariant SkipDigits(source, position) == SkipDigits(source, from)
      {
        position := position + 1;
      }
    }

    /** The default case of lex(): numbers and literals. */
    method ReadWord() returns (r: Option<Token>)
      requires index < |source|
      modifies this
      ensures r.Some? == LexWord(source, old(index)).Some?
      ensures r.Some? ==> LexWord(source, old(index)) == Some((r.value, index))
    {
      hide ToNumber, NumberEnd;
      var begin := index;
      var isSigned := source[index] == 45;
      if isSigned {
        index := index + 1;
      }
      if 48 <= At(source, index) <= 57 {
        var end := ReadNumber(index);
        if end.None? {
          return None;
        }
        index := end.value;
        return Some(Literal(ToNumber(source[begin..index])));
      }
      if isSigned {
        return None;
      }
      if Occurs(source, index, TRUE) {
        index := index + 4;
        return Some(Literal(Bool(true)));
      } else if Occurs(source, index, FALSE) {
        index := index + 5;
        return Some(Literal(Bool(false)));
      } else if Occurs(source, index, NULL) {
        index := index + 4;
        return Some(Literal(Null));
      }
      return None;
    }

    /** The integer, fraction and exponent parts of a number. */
    method ReadNumber(start: nat) returns (end: Option<nat>)
      requires start < |source| && IsDigit(source[start])
      ensures end == NumberEnd(source, start)
    {
      hide SkipDigits;
      if source[start] == 48 && 48 <= At(source, start + 1) <= 57 {
        return None;
      }
      var i := ReadDigits(start);
      assert i > start;
      if At(source, i) == 46 {
        i := i + 1;
        var position := ReadDigits(i);
        if position == i {
          return None;
        }
        i := position;
      }
      if At(source, i) == 101 || At(source, i) == 69 {
        i := i + 1;
        if At(source, i) == 43 || At(source, i) == 45 {
          i := i + 1;
        }
        var position := ReadDigits(i);
        if position == i {
          return None;
        }
        i := position;
      }
      return Some(i);
    }

    /** get(). */
    method Get(tok: Token) returns (r: Option<Value>)
      requires index <= |source|
      modifies this
      ensures r.Some? == GetAt(source, tok, old(index)).Some?
      ensures r.Some? ==> GetAt(source, tok, old(index)) == Some((r.value, index)) && old(index) <= index <= |source|
      decreases |source| - index + (if tok.Punct? then 1 else 0), 0
    {
      hide ElementsAt, MembersAt;
      match tok
      case EndToken => return None;
      case StrToken(s) => return Some(Str(s));
      case Literal(v) => return Some(v);
      case Punct(c) =>
        if c == LBRACKET {
          var es := GetElements();
          return if es.None? then None else Some(Arr(es.value));
        } else if c == LBRACE {
          var ms := GetMembers();
          return if ms.None? then None else Some(Obj(ms.value));
        } else {
          return None;
        }
    }

    /** The head of the loops in get(): a comma where one is due, and the next token. */
    method NextToken(hasMembers: bool, close: CodeUnit) returns (r: Option<Token>)
      requires index <= |source|
      modifies this
      ensures r.Some? == NextStart(source, old(index), hasMembers, close).Some?
      ensures r.Some? ==> NextStart(source, old(index), hasMembers, close) == Some((r.value, index))
      ensures r.Some? ==> index <= |source|
    {
      hide LexAt;
      r := Lex();
      if r.None? || r.value == Punct(close) {
        return;
      }
      if hasMembers {
        if r.value == Punct(COMMA) {
          r := Lex();
          if r.None? || r.value == Punct(close) {
            return None;
          }
        } else {
          return None;
        }
      }
      if r.value == Punct(COMMA) {
        return None;
      }
    }

    /** The array case of get(). */
    method GetElements() returns (r: Option<seq<Value>>)
      requires index <= |source|
      modifies this
      ensures r.Some? == ElementsAt(source, old(index), [], false).Some?
      ensures r.Some? ==> ElementsAt(source, old(index), [], false) == Some((r.value, index))
      ensures r.Some? ==> old(index) <= index <= |source|
      decreases |source| - index, 1
    {
      hide GetAt, NextStart, ElementsAt;
      var results: seq<Value> := [];
      var hasMembers := false;
      while true
        invariant old(index) <= index <= |source|
        invariant ElementsAt(source, index, results, hasMembers) == ElementsAt(source, old(index), [], false)
        decreases |source| - index
      {
        ElementsStep(source, index, results, hasMembers);
        var value := NextToken(hasMembers, RBRACKET);
        if value.None? {
          return None;
        }
        if value.value == Punct(RBRACKET) {
          return Some(results);
        }
        if value.value.EndToken? {
          return None;
        }
        var element := Get(value.value);
        if element.None? {
          return None;
        }
        results := results + [element.value];
        hasMembers := true;
      }
    }

    /** The object case of get(). */
    method GetMembers() returns (r: Option<seq<Member>>)
      requires index <= |source|
      modifies this
      ensures r.Some? == MembersAt(source, old(index), [], false).Some?
      ensures r.Some? ==> MembersAt(source, old(index), [], false) == Some((r.value, index))
      ensures r.Some? ==> old(index) <= index <= |source|
      decreases |source| - index, 1
    {
      hide GetAt, NextStart, MembersAt, LexAt;
      var results: seq<Member> := [];
      var hasMembers := false;
      while true
        invariant old(index) <= index <= |source|
        invariant MembersAt(source, index, results, hasMembers) == MembersAt(source, old(index), [], false)
        decreases |source| - index
      {
        MembersStep(source, index, results, hasMembers);
        var value := NextToken(hasMembers, RBRACE);
        if value.None? {
          return None;
        }
        if value.value == Punct(RBRACE) {
          return Some(results);
        }
        if !value.value.StrToken? {
          return None;
        }
        var colon := Lex();
        if colon != Some(Punct(COLON)) {
          return None;
        }
        var first := Lex();
        if first.None? {
          return None;
        }
        var v := Get(first.value);
        if v.None? {
          return None;
        }
        results := Assign(results, value.value.s, v.value);
        hasMembers := true;
      }
    }
  }

  lemma SkipSpaceEnd(src: Text)
    ensures SkipSpace(src, |src|) == |src|
  {
  }

  lemma SkipSpaceStep(src: Text, i: nat)
    requires i < |src|
    ensures SkipSpace(src, i) == if IsSpace(src[i]) then SkipSpace(src, i + 1) else i
  {
  }

  lemma LexStringStep(src: Text, i: nat, acc: Text)
    requires i <= |src|
    ensures LexString(src, i, acc) ==
            var c := At(src, i);
            if c < 32 then None
            else if c == 34 then Some((StrToken(acc), i + 1))
            else if c != 92 then LexString(src, i + 1, acc + [src[i]])
            else
              var e := At(src, i + 1);
              if Unescaped(e) >= 0 then LexString(src, i + 2, acc + [Unescaped(e)])
              else if e == 117 && IsHex(At(src, i + 2)) && IsHex(At(src, i + 3)) && IsHex(At(src, i + 4)) && IsHex(At(src, i + 5)) then
                LexString(src, i + 6, acc + [HexUnit(src[i + 2], src[i + 3], src[i + 4], src[i + 5])])
              else None
  {
  }

  lemma ElementsStep(src: Text, i: nat, acc: seq<Value>, hasMembers: bool)
    requires i <= |src|
    ensures ElementsAt(src, i, acc, hasMembers) ==
            var start := NextStart(src, i, hasMembers, RBRACKET);
            if start.None? then None
            else
              var (tok, j) := start.value;
              if tok == Punct(RBRACKET) then Some((acc, j))
              else if tok.EndToken? then None
              else
                var item := GetAt(src, tok, j);
                if item.None? then None else ElementsAt(src, item.value.1, acc + [item.value.0], true)
  {
  }

  lemma MembersStep(src: Text, i: nat, acc: seq<Member>, hasMembers: bool)
    requires i <= |src|
    ensures MembersAt(src, i, acc, hasMembers) ==
            var start := NextStart(src, i, hasMembers, RBRACE);
            if start.None? then None
            else
              var (tok, j) := start.value;
              if tok == Punct(RBRACE) then Some((acc, j))
              else if !tok.StrToken? then None
              else
                var colon := LexAt(src, j);
                if colon.None? || colon.value.0 != Punct(COLON) then None
                else
                  var first := LexAt(src, colon.value.1);
                  if first.None? then None
                  else
                    var item := GetAt(src, first.value.0, first.value.1);
                    if item.None? then None
                    else MembersAt(src, item.value.1, Assign(acc, tok.s, item.value.0), true)
  {
  }

  /** exports.parse, without a reviver; None where the original throws. */
  method Parse(source: Text) returns (r: Option<Value>)
    ensures r == ParseText(source)
  {
    hide LexAt, GetAt;
    var p := new Parser(source);
    var first := p.Lex();
    if first.None? {
      return None;
    }
    var result := p.Get(first.value);
    if result.None? {
      return None;
    }
    var end := p.Lex();
    return if end.Some? && end.value.EndToken? then result else None;
  }
}
