/** socket.io's packet codec: a packet becomes a header string and its binary attachments,
    and the decoder puts it together again as the pieces arrive. */
module PacketCodec {
  import opened JsText
  import opened JsNumbers
  import opened JsValue
  import Json3Printer
  import Json3Parser
  import Json3RoundTrip
  import A = Attachments

  const BINARY_EVENT := 5
  const BINARY_ACK := 6
  const DASH: CodeUnit := 45
  const SLASH: CodeUnit := 47
  const COMMA: CodeUnit := 44

  /** A packet; `Undefined` data and `None` fields are absent properties. */
  datatype Packet = Packet(kind: nat, nsp: Text, id: Option<JsNumber>, data: Value, attachments: Option<JsNumber>)

  predicate IsBinaryKind(kind: nat) { kind == BINARY_EVENT || kind == BINARY_ACK }

  // ----- the header string

  function NumberText(n: Option<JsNumber>): Text {
    match n
    case Some(Natural(k)) => Digits(k)
    case _ => []
  }

  /** A namespace other than `/` is written, followed by a comma if anything follows it. */
  predicate WritesNsp(p: Packet) { p.nsp != [] && p.nsp != [SLASH] }

  predicate WritesData(p: Packet) { p.data != Undefined && p.data != Null }

  function Header(p: Packet): Text
    requires p.kind <= 6 && (WritesData(p) ==> Json3Printer.JsonTree(p.data))
  {
    [48 + p.kind]
    + (if IsBinaryKind(p.kind) then NumberText(p.attachments) + [DASH] else [])
    + (if WritesNsp(p) then p.nsp + (if p.id.Some? || WritesData(p) then [COMMA] else []) else [])
    + NumberText(p.id)
    + (if WritesData(p) then Json3Printer.Stringified(p.data, []) else [])
  }

  /** encodeAsString. */
  method EncodeAsString(p: Packet) returns (str: Text)
    requires p.kind <= 6 && (WritesData(p) ==> Json3Printer.JsonTree(p.data))
    requires p.id.Some? ==> p.id.value.Natural?
    requires IsBinaryKind(p.kind) ==> p.attachments.Some? && p.attachments.value.Natural?
    ensures str == Header(p)
  {
    hide Json3Printer.Stringified, Json3Printer.JsonTree, Digits;
    var nsp := false;
    str := [48 + p.kind];
    if IsBinaryKind(p.kind) {
      str := str + Digits(p.attachments.value.n);
      str := str + [DASH];
    }
    assert str == [48 + p.kind] + (if IsBinaryKind(p.kind) then NumberText(p.attachments) + [DASH] else []);
    ghost var front := str;
    if p.nsp != [] && p.nsp != [SLASH] {
      nsp := true;
      str := str + p.nsp;
    }
    if p.id.Some? {
      if nsp {
        str := str + [COMMA];
        nsp := false;
      }
      str := str + Digits(p.id.value.n);
    }
    ghost var middle := (if WritesNsp(p) then p.nsp + (if p.id.Some? || WritesData(p) then [COMMA] else []) else []);
    if p.data != Undefined && p.data != Null {
      if nsp {
        str := str + [COMMA];
      }
      var json := Json3Printer.Stringify(p.data, Json3Printer.NoWidth);
      assert str == front + middle + NumberText(p.id);
      str := str + json;
    } else {
      assert str == front + middle + NumberText(p.id) + [];
    }
  }

  /** Characters that `Number(c) == c` accepts: digits and white space. */
  predicate IsNumeric(c: int) {
    48 <= c <= 57 || 9 <= c <= 13 || c == 32 || c == 0xA0 || c == 0x1680 || 0x2000 <= c <= 0x200A
    || c == 0x2028 || c == 0x2029 || c == 0x202F || c == 0x205F || c == 0x3000 || c == 0xFEFF
  }

  function NumericEnd(str: Text, i: nat): (j: nat)
    requires i <= |str|
    ensures i <= j <= |str|
    decreases |str| - i
  {
    if i == |str| || !IsNumeric(str[i]) then i else NumericEnd(str, i + 1)
  }

  datatype Decoded = Read(packet: Packet) | ParserError | Throws

  /** The packet type that the first character denotes. */
  function KindOf(str: Text): Option<nat> {
    if str == [] then Some(0)
    else if 48 <= str[0] <= 54 then Some(str[0] - 48)
    else if IsNumeric(str[0]) && !(48 <= str[0] <= 57) then Some(0)
    else None
  }

  /** decodeString, from the namespace on; `i` is the position after what was read. */
  function DecodeRest(str: Text, i: nat, kind: nat, attachments: Option<JsNumber>, number: Text -> JsNumber): Decoded
    requires i <= |str|
  {
    var hasNsp := i < |str| && str[i] == SLASH;
    var nspEnd := if hasNsp then Find(str, i, COMMA) else i;
    var nsp := if hasNsp then str[i..nspEnd] else [SLASH];
    var j := if hasNsp && nspEnd < |str| then nspEnd + 1 else nspEnd;
    var idEnd := NumericEnd(str, j);
    var id := if idEnd > j then Some(number(str[j..idEnd])) else None;
    if idEnd == |str| then Read(Packet(kind, nsp, id, Undefined, attachments))
    else
      match Json3Parser.ParseText(str[idEnd..])
      case None => ParserError
      case Some(data) => Read(Packet(kind, nsp, id, data, attachments))
  }

  function DecodeHeader(str: Text, number: Text -> JsNumber): Decoded {
    match KindOf(str)
    case None => ParserError
    case Some(kind) =>
      if str == [] then DecodeRest(str, 0, kind, None, number)
      else if !IsBinaryKind(kind) then DecodeRest(str, 1, kind, None, number)
      else
        var dash := Find(str, 1, DASH);
        var attachments := number(str[1..dash]);
        if attachments == NotANumber || dash == |str| then Throws
        else DecodeRest(str, dash + 1, kind, Some(attachments), number)
  }

  /** decodeString. */
  method DecodeString(str: Text, number: Text -> JsNumber) returns (r: Decoded)
    ensures r == DecodeHeader(str, number)
  {
    hide *;
    HeaderIs(str, number);
    var kind := KindOf(str);
    if kind.None? {
      return ParserError;
    }
    var i := if str == [] then 0 else 1;
    var attachments := None;
    if str != [] && IsBinaryKind(kind.value) {
      var dash := Scan(str, 1, DASH);
      var count := number(str[1..dash]);
      if count == NotANumber || dash == |str| {
        return Throws;
      }
      attachments := Some(count);
      i := dash + 1;
    }
    RestIs(str, i, kind.value, attachments, number);
    var nsp: Text := [SLASH];
    if i < |str| && str[i] == SLASH {
      var end := Scan(str, i, COMMA);
      nsp := str[i..end];
      i := if end < |str| then end + 1 else end;
    }
    var id := None;
    var idEnd := ScanNumeric(str, i);
    if idEnd > i {
      id := Some(number(str[i..idEnd]));
      i := idEnd;
    }
    if i == |str| {
      return Read(Packet(kind.value, nsp, id, Undefined, attachments));
    }
    var data := Json3Parser.Parse(str[i..]);
    return if data.None? then ParserError else Read(Packet(kind.value, nsp, id, data.value, attachments));
  }

  lemma HeaderIs(str: Text, number: Text -> JsNumber)
    ensures var kind := KindOf(str);
            DecodeHeader(str, number) ==
            if kind.None? then ParserError
            else if str == [] then DecodeRest(str, 0, kind.value, None, number)
            else if !IsBinaryKind(kind.value) then DecodeRest(str, 1, kind.value, None, number)
            else
              var dash := Find(str, 1, DASH);
              var attachments := number(str[1..dash]);
              if attachments == NotANumber || dash == |str| then Throws
              else DecodeRest(str, dash + 1, kind.value, Some(attachments), number)
  {
    hide KindOf, DecodeRest, Find, IsBinaryKind;
  }

  lemma RestIs(str: Text, i: nat, kind: nat, attachments: Option<JsNumber>, number: Text -> JsNumber)
    requires i <= |str|
    ensures var hasNsp := i < |str| && str[i] == SLASH;
            var nspEnd := if hasNsp then Find(str, i, COMMA) else i;
            var nsp := if hasNsp then str[i..nspEnd] else [SLASH];
            var j := if hasNsp && nspEnd < |str| then nspEnd + 1 else nspEnd;
            var idEnd := NumericEnd(str, j);
            var id := if idEnd > j then Some(number(str[j..idEnd])) else None;
            var data := if idEnd == |str| then Some(Undefined) else Json3Parser.ParseText(str[idEnd..]);
            DecodeRest(str, i, kind, attachments, number)
            == if data.None? then ParserError else Read(Packet(kind, nsp, id, data.value, attachments))
  {
    hide Json3Parser.ParseText, NumericEnd, Find;
  }

  method Scan(str: Text, start: nat, c: CodeUnit) returns (i: nat)
    requires start <= |str|
    ensures i == Find(str, start, c)
  {
    i := start;
    while i < |str| && str[i] != c
      invariant start <= i <= |str| && Find(str, i, c) == Find(str, start, c)
    {
      i := i + 1;
    }
  }

  method ScanNumeric(str: Text, start: nat) returns (i: nat)
    requires start <= |str|
    ensures i == NumericEnd(str, start)
  {
    i := start;
    while i < |str| && IsNumeric(str[i])
      invariant start <= i <= |str| && NumericEnd(str, i) == NumericEnd(str, start)
    {
      i := i + 1;
    }
  }

  // ----- when the header can be read back

  /** What encodeAsString is given: a known kind, a natural id, JSON data, and an attachment
      count exactly for the binary kinds. */
  predicate WellTyped(p: Packet) {
    && p.kind <= 6
    && (p.id.Some? ==> p.id.value.Natural? && p.id.value.n <= MAX_SAFE)
    && (p.data == Undefined || Json3Printer.JsonTree(p.data))
    && (if IsBinaryKind(p.kind) then p.attachments.Some? && p.attachments.value.Natural? && p.attachments.value.n <= MAX_SAFE
        else p.attachments == None)
  }

  predicate NspReadable(p: Packet) {
    p.nsp != [] && p.nsp[0] == SLASH && COMMA !in p.nsp
  }

  /** The packets that survive: the namespace starts with a slash and has no comma, and the
      data is neither null nor a non-negative number, has no `__proto__` member and no property
      behind one called `constructor`. */
  predicate Readable(p: Packet) {
    && NspReadable(p)
    && p.data != Null && !(p.data.Num? && p.data.n >= 0) && Exact(p.data)
  }

  /** The trees that stringify and parse give back as they are. */
  predicate Exact(v: Value) {
    Json3RoundTrip.ProtoFree(v) && Json3Printer.ConstructorLast(v)
  }

  /** What follows the namespace. */
  function Tail(p: Packet): Text
    requires WellTyped(p)
  {
    NumberText(p.id) + (if WritesData(p) then Json3Printer.Stringified(p.data, []) else [])
  }

  function Middle(p: Packet): Text
    requires WellTyped(p)
  {
    if WritesNsp(p) then p.nsp + (if p.id.Some? || WritesData(p) then [COMMA] else []) else []
  }

  lemma HeaderParts(p: Packet)
    requires WellTyped(p)
    ensures Header(p) == [48 + p.kind] + (if IsBinaryKind(p.kind) then NumberText(p.attachments) + [DASH] else [])
                         + (Middle(p) + Tail(p))
  {
    hide Json3Printer.Stringified, NumberText;
  }

  lemma {:induction false} NumericSkips(str: Text, i: nat, j: nat)
    requires i <= j <= |str| && (forall k | i <= k < j :: IsNumeric(str[k]))
    ensures NumericEnd(str, i) == NumericEnd(str, j)
    decreases j - i
  {
    if i < j {
      NumericSkips(str, i + 1, j);
    }
  }

  /** JSON text starts with a digit exactly for non-negative numbers, and never with a slash
      or white space. */
  lemma JsonStart(v: Value)
    requires Json3Printer.JsonTree(v)
    ensures var t := Json3Printer.Stringified(v, []);
            && t != [] && t[0] != SLASH
            && (IsNumeric(t[0]) <==> v.Num? && v.n >= 0)
            && (v.Num? && v.n >= 0 ==> forall k | 0 <= k < |t| :: IsNumeric(t[k]))
  {
    hide Json3Printer.Stringified, Json3Printer.Print, Json3Printer.JsonTree, IsNumeric;
    Json3Printer.StringifiedIs(v, []);
    PrintStart(Json3Printer.Ordered(v));
  }

  lemma PrintStart(v: Value)
    requires Json3Printer.JsonTree(v)
    ensures var t := Json3Printer.Print(v, [], []);
            && t != [] && t[0] != SLASH
            && (IsNumeric(t[0]) <==> v.Num? && v.n >= 0)
            && (v.Num? && v.n >= 0 ==> forall k | 0 <= k < |t| :: IsNumeric(t[k]))
  {
    hide Digits, Json3Printer.EscapedAll, Json3Printer.PrintAll, Json3Printer.PrintMembers, Json3Printer.Join;
  }

  lemma NumberTextIsNumeric(n: Option<JsNumber>)
    ensures forall k | 0 <= k < |NumberText(n)| :: 48 <= NumberText(n)[k] <= 57
    ensures n.Some? && n.value.Natural? ==> NumberText(n) != []
    ensures n.None? ==> NumberText(n) == []
  {
  }

  /** The id and the data, standing at position `j`. */
  lemma TailIsRead(str: Text, j: nat, p: Packet, number: Text -> JsNumber)
    requires WellTyped(p) && ReadsDecimal(number) && j <= |str| && str[j..] == Tail(p)
    ensures var idEnd := NumericEnd(str, j);
            var id := if idEnd > j then Some(number(str[j..idEnd])) else None;
            var data := if idEnd == |str| then Some(Undefined) else Json3Parser.ParseText(str[idEnd..]);
            ((id == p.id && data == Some(p.data))
             <==> p.data != Null && !(p.data.Num? && p.data.n >= 0) && Exact(p.data))
            && (data.Some? ==> Json3Printer.ConstructorLast(data.value))
  {
    hide *;
    var idText := NumberText(p.id);
    var json := DataText(p);
    TailParts(p);
    NumberTextIsNumeric(p.id);
    NumericPart(str, j, idText, json);
    IdIsRead(p, number);
    DataIsRead(p);
    UndefinedIsLast();
  }

  lemma UndefinedIsLast()
    ensures Json3Printer.ConstructorLast(Undefined)
  {
  }

  /** The JSON text of the data, if it is written. */
  function DataText(p: Packet): Text
    requires WellTyped(p)
  {
    if WritesData(p) then Json3Printer.Stringified(p.data, []) else []
  }

  lemma TailParts(p: Packet)
    requires WellTyped(p)
    ensures Tail(p) == NumberText(p.id) + DataText(p)
    ensures p.id.Some? ==> NumberText(p.id) != []
    ensures p.data.Num? && p.data.n >= 0 ==> DataText(p) != [] && forall k | 0 <= k < |DataText(p)| :: IsNumeric(DataText(p)[k])
    ensures !(p.data.Num? && p.data.n >= 0) ==> DataText(p) == [] || !IsNumeric(DataText(p)[0])
  {
    hide Json3Printer.Stringified, NumberText, Json3Printer.JsonTree, IsNumeric;
    NumberTextIsNumeric(p.id);
    if WritesData(p) {
      JsonStart(p.data);
    }
  }

  lemma IdIsRead(p: Packet, number: Text -> JsNumber)
    requires WellTyped(p) && ReadsDecimal(number)
    ensures p.id.Some? ==> number(NumberText(p.id)) == p.id.value
  {
  }

  lemma DataIsRead(p: Packet)
    requires WellTyped(p)
    ensures var data := if DataText(p) == [] then Some(Undefined) else Json3Parser.ParseText(DataText(p));
            (data == Some(p.data) <==> p.data != Null && Exact(p.data))
            && data.Some? && Json3Printer.ConstructorLast(data.value)
  {
    if WritesData(p) {
      hide Json3Parser.ParseText, Json3Printer.Stringified, Json3Printer.JsonTree, Json3Printer.Ordered;
      hide Json3RoundTrip.ProtoFree, Json3RoundTrip.Revived, Json3Printer.ConstructorLast;
      JsonStart(p.data);
      Json3RoundTrip.StringifiedIsRead(p.data, []);
    }
  }

  lemma DigitsAreNumeric()
    ensures forall c | 48 <= c <= 57 :: IsNumeric(c)
  {
  }

  /** Digits end where something else begins. */
  lemma NumericPart(str: Text, j: nat, a: Text, b: Text)
    requires j <= |str| && str[j..] == a + b && (forall k | 0 <= k < |a| :: 48 <= a[k] <= 57)
    ensures |str| == j + |a| + |b| && str[j..j + |a|] == a && str[j + |a|..] == b
    ensures b == [] || !IsNumeric(b[0]) ==> NumericEnd(str, j) == j + |a|
    ensures (forall k | 0 <= k < |b| :: IsNumeric(b[k])) ==> NumericEnd(str, j) == |str|
  {
    hide NumericEnd, IsNumeric;
    DigitsAreNumeric();
    PartsLie(str, j, a, b);
    var e := j + |a|;
    NumericSkips(str, j, e);
    if b == [] || !IsNumeric(b[0]) {
      NumericStops(str, e);
    } else if forall k | 0 <= k < |b| :: IsNumeric(b[k]) {
      NumericSkips(str, e, |str|);
      NumericStops(str, |str|);
    }
  }

  lemma NumericStops(str: Text, i: nat)
    requires i <= |str| && (i == |str| || !IsNumeric(str[i]))
    ensures NumericEnd(str, i) == i
  {
  }

  /** The first character of what follows the namespace is no slash. */
  lemma TailStart(p: Packet)
    requires WellTyped(p)
    ensures Tail(p) != [] ==> Tail(p)[0] != SLASH
    ensures Tail(p) == [] <==> p.id.None? && !WritesData(p)
  {
    hide Json3Printer.Stringified, NumberText, Json3Printer.JsonTree;
    NumberTextIsNumeric(p.id);
    if WritesData(p) {
      JsonStart(p.data);
    }
  }

  /** The namespace, standing at position `i`: what is read, and where reading goes on. */
  lemma NamespaceIsRead(str: Text, i: nat, p: Packet) returns (j: nat)
    requires WellTyped(p) && i <= |str| && str[i..] == Middle(p) + Tail(p)
    ensures var hasNsp := i < |str| && str[i] == SLASH;
            var nspEnd := if hasNsp then Find(str, i, COMMA) else i;
            var nsp := if hasNsp then str[i..nspEnd] else [SLASH];
            && (nsp == p.nsp <==> NspReadable(p))
            && j == (if hasNsp && nspEnd < |str| then nspEnd + 1 else nspEnd)
            && (nsp == p.nsp ==> str[j..] == Tail(p))
  {
    hide Tail, Find;
    TailStart(p);
    var hasNsp := i < |str| && str[i] == SLASH;
    var nspEnd := if hasNsp then Find(str, i, COMMA) else i;
    j := if hasNsp && nspEnd < |str| then nspEnd + 1 else nspEnd;
    if !WritesNsp(p) {
      assert Middle(p) + Tail(p) == Tail(p);
      assert i < |str| ==> str[i] == str[i..][0];
      assert !hasNsp;
      assert p.nsp == [SLASH] ==> COMMA !in p.nsp;
    } else {
      assert str[i] == str[i..][0] == p.nsp[0];
      if p.nsp[0] == SLASH {
        FindAvoids(str, i, COMMA);
        if COMMA !in p.nsp {
          CommaEndsNamespace(str, i, p);
        }
      }
    }
  }

  lemma CommaEndsNamespace(str: Text, i: nat, p: Packet)
    requires WellTyped(p) && i <= |str| && str[i..] == Middle(p) + Tail(p)
    requires WritesNsp(p) && COMMA !in p.nsp
    ensures var nspEnd := Find(str, i, COMMA);
            && nspEnd == i + |p.nsp| <= |str| && str[i..nspEnd] == p.nsp
            && str[if nspEnd < |str| then nspEnd + 1 else nspEnd..] == Tail(p)
  {
    hide Tail, Find;
    TailStart(p);
    var comma := if p.id.Some? || WritesData(p) then [COMMA] else [];
    assert p.nsp + comma + Tail(p) == p.nsp + (comma + Tail(p));
    FindPart(str, i, p.nsp, comma + Tail(p), COMMA);
    var e := i + |p.nsp|;
    assert str[e..] == comma + Tail(p);
    if Tail(p) != [] {
      assert str[e + 1..] == str[e..][1..];
    }
  }

  /** Whatever was read has the packet's kind and count, and its namespace only if that is
      readable; then no property of the data stands behind one called `constructor`. */
  predicate ReadsOnly(decoded: Decoded, p: Packet) {
    decoded.Read? ==>
      && decoded.packet.kind == p.kind && decoded.packet.attachments == p.attachments
      && (decoded.packet.nsp == p.nsp <==> NspReadable(p))
      && (NspReadable(p) ==> Json3Printer.ConstructorLast(decoded.packet.data))
  }

  lemma RestIsRead(str: Text, i: nat, p: Packet, number: Text -> JsNumber)
    requires WellTyped(p) && ReadsDecimal(number) && i <= |str| && str[i..] == Middle(p) + Tail(p)
    ensures DecodeRest(str, i, p.kind, p.attachments, number) == Read(p) <==> Readable(p)
    ensures ReadsOnly(DecodeRest(str, i, p.kind, p.attachments, number), p)
  {
    hide Tail, Middle, Find, NumericEnd, Json3Parser.ParseText;
    var j := NamespaceIsRead(str, i, p);
    if NspReadable(p) {
      TailIsRead(str, j, p, number);
    }
  }

  /** The header string is read back to the same packet exactly if the packet is readable. */
  lemma HeaderRoundTrip(p: Packet, number: Text -> JsNumber)
    requires WellTyped(p) && ReadsDecimal(number)
    ensures DecodeHeader(Header(p), number) == Read(p) <==> Readable(p)
    ensures ReadsOnly(DecodeHeader(Header(p), number), p)
  {
    hide Middle, Tail, Find, DecodeRest, Readable, NumberText, ReadsOnly;
    HeaderParts(p);
    var str := Header(p);
    if IsBinaryKind(p.kind) {
      var digits := NumberText(p.attachments);
      AttachmentsAreRead(str, digits, Middle(p) + Tail(p), p, number);
      RestIsRead(str, 1 + |digits| + 1, p, number);
    } else {
      assert [48 + p.kind] + [] + (Middle(p) + Tail(p)) == [48 + p.kind] + (Middle(p) + Tail(p));
      assert str[1..] == Middle(p) + Tail(p);
      RestIsRead(str, 1, p, number);
    }
  }

  lemma AttachmentsAreRead(str: Text, digits: Text, rest: Text, p: Packet, number: Text -> JsNumber)
    requires WellTyped(p) && ReadsDecimal(number) && IsBinaryKind(p.kind)
    requires str == [48 + p.kind] + (digits + [DASH]) + rest && digits == NumberText(p.attachments)
    ensures var dash := 1 + |digits|;
            && dash < |str| && Find(str, 1, DASH) == dash && str[dash + 1..] == rest
            && number(str[1..dash]) == p.attachments.value && p.attachments.value != NotANumber
  {
    NumberTextIsNumeric(p.attachments);
    var dash := 1 + |digits|;
    assert str[1..dash] == digits;
    assert forall k | 1 <= k < dash :: str[k] == digits[k - 1];
    FindSkips(str, 1, dash, DASH);
    FindStops(str, dash, DASH);
  }
}
