/** engine.io packets and the messages that carry them. */
module EnginePacket {
  import opened JsText
  import H = HtermUtf8
  import Utf8 = SocketUtf8

  type Byte = b: int | 0 <= b <= 0xFF

  datatype Data = Absent | TextData(text: Text) | BinaryData(bytes: seq<Byte>)

  /** `kind` is the index in the packet list: open, close, ping, pong, message, upgrade, noop;
      `None` is an undefined type. */
  datatype Packet = Packet(kind: Option<nat>, data: Data)

  datatype Message = TextMessage(text: Text) | BinaryMessage(bytes: seq<Byte>)

  /** What base 64 is taken to be: an encoder and a decoder that undoes it. */
  datatype Base64 = Base64(encode: seq<Byte> -> Text, decode: Text -> seq<Byte>)

  ghost predicate Inverse(base64: Base64) {
    forall b :: base64.decode(base64.encode(b)) == b
  }

  const BASE64_MARK: CodeUnit := 98

  predicate KnownKind(p: Packet) { p.kind.Some? && p.kind.value <= 6 }

  // ----- encoding

  /** The text message of a packet; None is the exception of utf8.encode. */
  function TextOf(p: Packet, base64: Base64): Option<Text>
    requires KnownKind(p)
  {
    match p.data
    case Absent => Some([48 + p.kind.value])
    case TextData(s) => if WellFormed(s) then Some([48 + p.kind.value] + H.Encode(s)) else None
    case BinaryData(b) => Some([BASE64_MARK, 48 + p.kind.value] + base64.encode(b))
  }

  function MessageOf(p: Packet, supportsBinary: bool, base64: Base64): Option<Message>
    requires KnownKind(p)
  {
    if supportsBinary && p.data.BinaryData? then Some(BinaryMessage([p.kind.value] + p.data.bytes))
    else
      var text := TextOf(p, base64);
      if text.None? then None else Some(TextMessage(text.value))
  }

  /** encodePacket with utf8encode, and its helpers encodeArrayBuffer and encodeBase64Packet. */
  method EncodePacket(packet: Packet, supportsBinary: bool, base64: Base64) returns (r: Option<Message>)
    requires KnownKind(packet)
    ensures r == MessageOf(packet, supportsBinary, base64)
  {
    var kind := packet.kind.value;
    match packet.data
    case BinaryData(b) =>
      if !supportsBinary {
        var message: Text := [BASE64_MARK] + [48 + kind];
        assert message == [BASE64_MARK, 48 + kind];
        return Some(TextMessage(message + base64.encode(b)));
      }
      var resultBuffer := EncodeArrayBuffer(kind, b);
      return Some(BinaryMessage(resultBuffer[..]));
    case Absent =>
      return Some(TextMessage([48 + kind]));
    case TextData(s) =>
      var bytes := Utf8.Utf8Encode(s);
      return if bytes.None? then None else Some(TextMessage([48 + kind] + bytes.value));
  }

  method EncodeArrayBuffer(kind: nat, contentArray: seq<Byte>) returns (resultBuffer: array<Byte>)
    requires kind <= 6
    ensures resultBuffer[..] == [kind] + contentArray
  {
    resultBuffer := new Byte[1 + |contentArray|];
    resultBuffer[0] := kind;
    for i := 0 to |contentArray|
      invariant resultBuffer[..i + 1] == [kind] + contentArray[..i]
    {
      resultBuffer[i + 1] := contentArray[i];
      assert resultBuffer[..i + 2] == resultBuffer[..i + 1] + [contentArray[i]];
    }
    assert resultBuffer[..] == resultBuffer[..|contentArray| + 1];
  }

  // ----- decoding

  /** `packetslist[c]` for a character. */
  function ListedKind(c: Option<CodeUnit>): Option<nat> {
    if c.Some? && 48 <= c.value <= 54 then Some(c.value - 48) else None
  }

  function CharAt(s: Text, i: nat): Option<CodeUnit> {
    if i < |s| then Some(s[i]) else None
  }

  /** What a text message decodes to; None is the parser error packet. */
  function TextPacket(message: Text, base64: Base64): Option<Packet> {
    if CharAt(message, 0) == Some(BASE64_MARK) then
      Some(Packet(ListedKind(CharAt(message, 1)), BinaryData(base64.decode(if |message| > 2 then message[2..] else []))))
    else
      var data := Utf8.DecodeBytes(Utf8.LowBytes(Utf8.Ucs2Decode(message)));
      if data.None? || ListedKind(CharAt(data.value, 0)).None? then None
      else Some(Packet(ListedKind(CharAt(data.value, 0)), if |data.value| > 1 then TextData(data.value[1..]) else Absent))
  }

  function BinaryPacket(message: seq<Byte>): Packet {
    Packet(if message != [] && message[0] <= 6 then Some(message[0]) else None,
           BinaryData(if message != [] then message[1..] else []))
  }

  function PacketOf(message: Message, base64: Base64): Option<Packet> {
    match message
    case TextMessage(text) => TextPacket(text, base64)
    case BinaryMessage(bytes) => Some(BinaryPacket(bytes))
  }

  /** decodePacket with utf8decode, and decodeBase64Packet. */
  method DecodePacket(message: Message, base64: Base64) returns (r: Option<Packet>)
    ensures r == PacketOf(message, base64)
  {
    match message
    case BinaryMessage(bytes) =>
      return Some(BinaryPacket(bytes));
    case TextMessage(text) =>
      if CharAt(text, 0) == Some(BASE64_MARK) {
        var msg := text[1..];
        var kind := ListedKind(CharAt(msg, 0));
        var rest := if |msg| > 1 then msg[1..] else [];
        assert rest == if |text| > 2 then text[2..] else [];
        return Some(Packet(kind, BinaryData(base64.decode(rest))));
      }
      var data := Utf8.Utf8Decode(text);
      if data.None? {
        return None;
      }
      var kind := ListedKind(CharAt(data.value, 0));
      if kind.None? {
        return None;
      }
      return Some(Packet(kind, if |data.value| > 1 then TextData(data.value[1..]) else Absent));
  }

  // ----- one packet's round trip

  /** A packet as it arrives: empty text is dropped. */
  function Arriving(p: Packet): Packet {
    if p.data == TextData([]) then p.(data := Absent) else p
  }

  function AllArriving(ps: seq<Packet>): (r: seq<Packet>)
    ensures |r| == |ps| && forall i | 0 <= i < |ps| :: r[i] == Arriving(ps[i])
  {
    seq(|ps|, i requires 0 <= i < |ps| => Arriving(ps[i]))
  }

  lemma KindDigitFirst(kind: nat, s: Text)
    requires kind <= 6 && WellFormed(s)
    ensures WellFormed([48 + kind] + s) && H.Encode([48 + kind] + s) == [48 + kind] + H.Encode(s)
  {
    WellFormedCons(48 + kind, s);
    H.EncodeCons(48 + kind, s);
  }

  /** A kind digit and encoded text are decoded to the kind and the text. */
  lemma TextRoundTrip(kind: nat, s: Text, base64: Base64)
    requires kind <= 6 && WellFormed(s)
    ensures TextPacket([48 + kind] + H.Encode(s), base64)
            == Some(Packet(Some(kind), if s == [] then Absent else TextData(s)))
  {
    hide H.Encode, Utf8.DecodeBytes, WellFormed, Utf8.Ucs2Decode, Utf8.LowBytes;
    var message := [48 + kind] + H.Encode(s);
    var text := [48 + kind] + s;
    KindDigitFirst(kind, s);
    H.EncodeYieldsBytes(text);
    Utf8.BytesStandForThemselves(message);
    Utf8.DecodesExactlyEncodings(message, text);
    assert text[1..] == s;
  }

  lemma EncodeNothing()
    ensures WellFormed([]) && H.Encode([]) == []
  {
  }

  /** Decoding a packet's message gives the packet back, except that empty text is dropped. */
  lemma PacketRoundTrip(p: Packet, supportsBinary: bool, base64: Base64)
    requires KnownKind(p) && Inverse(base64) && MessageOf(p, supportsBinary, base64).Some?
    ensures PacketOf(MessageOf(p, supportsBinary, base64).value, base64) == Some(Arriving(p))
  {
    hide H.Encode, Utf8.DecodeBytes, WellFormed, Utf8.Ucs2Decode;
    var kind := p.kind.value;
    match p.data {
      case BinaryData(b) =>
        if !supportsBinary {
          var m := [BASE64_MARK, 48 + kind] + base64.encode(b);
          assert m[2..] == base64.encode(b);
        }
      case Absent =>
        EncodeNothing();
        TextRoundTrip(kind, [], base64);
        assert [48 + kind] + [] == [48 + kind];
      case TextData(s) => TextRoundTrip(kind, s, base64);
    }
  }
}
