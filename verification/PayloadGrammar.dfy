/** What the text payload decoder makes of any string: which messages it finds in it, what it
    delivers for each, and when it ends with an error. */
module PayloadGrammar {
  import opened JsText
  import opened JsNumbers
  import opened EnginePacket
  import opened TextPayload
  import H = HtermUtf8
  import Utf8 = SocketUtf8

  // ----- messages

  /** A text message that is not base 64 is read as kind and text exactly if it is the encoding of
      the kind's digit and the text; in every other case it is an error. */
  lemma TextAcceptsExactly(message: Text, base64: Base64, kind: nat, s: Text)
    requires CharAt(message, 0) != Some(BASE64_MARK)
    ensures var bytes := Utf8.LowBytes(Utf8.Ucs2Decode(message));
            TextPacket(message, base64) == Some(Packet(Some(kind), if s == [] then Absent else TextData(s)))
            <==> kind <= 6 && WellFormed(s) && bytes == H.Encode([48 + kind] + s)
  {
    hide H.Encode, WellFormed, Utf8.DecodeBytes, Utf8.LowBytes, Utf8.Ucs2Decode;
    var bytes := Utf8.LowBytes(Utf8.Ucs2Decode(message));
    var data := Utf8.DecodeBytes(bytes);
    var text := [48 + kind] + s;
    assert text[1..] == s;
    if kind <= 6 && WellFormed(s) && bytes == H.Encode(text) {
      KindDigitFirst(kind, s);
      Utf8.DecodesExactlyEncodings(bytes, text);
    }
    if data.Some? && data.value != [] {
      Utf8.DecodesExactlyEncodings(bytes, data.value);
      assert data.value == [data.value[0]] + data.value[1..];
      if data.value == text && kind <= 6 {
        RestIsWellFormed(48 + kind, s);
      }
    }
  }

  lemma RestIsWellFormed(c: CodeUnit, s: Text)
    requires c < 0xD800 && WellFormed([c] + s)
    ensures WellFormed(s)
  {
    assert ([c] + s)[1..] == s;
  }

  // ----- payloads

  /** A message behind the text of its length. */
  datatype Piece = Piece(length: Text, message: Text)

  /** How a payload ends: after its last message, in characters without a colon, or with a length
      that is empty, not a number, or too long. */
  datatype Ending = Complete | NoColon(text: Text) | BadLength(length: Text, after: Text)

  function PieceText(p: Piece): Text {
    p.length + [COLON] + p.message
  }

  function Joined(ps: seq<Piece>): Text {
    if ps == [] then [] else PieceText(ps[0]) + Joined(ps[1..])
  }

  function EndText(e: Ending): Text {
    match e
    case Complete => []
    case NoColon(text) => text
    case BadLength(length, after) => length + [COLON] + after
  }

  ghost predicate IsPiece(p: Piece, number: Text -> JsNumber) {
    p.length != [] && COLON !in p.length && number(p.length) == Natural(|p.message|)
  }

  ghost predicate IsEnding(e: Ending, number: Text -> JsNumber) {
    match e
    case Complete => true
    case NoColon(text) => text != [] && COLON !in text
    case BadLength(length, after) =>
      COLON !in length && (length == [] || !number(length).Natural? || number(length).n > |after|)
  }

  /** What the pieces deliver: each message its packet and the position of its last character, an
      empty one nothing; the first that is no packet an error, and so does a bad ending. */
  function Delivers(ps: seq<Piece>, e: Ending, start: nat, total: nat, seen: seq<Packet>, base64: Base64,
                    refuses: seq<Packet> -> bool): seq<Delivery>
    decreases |ps|
  {
    if ps == [] then if e.Complete? then [] else [FAILURE]
    else
      var next := start + |PieceText(ps[0])|;
      if ps[0].message == [] then Delivers(ps[1..], e, next, total, seen, base64, refuses)
      else
        var packet := TextPacket(ps[0].message, base64);
        if packet.None? then [FAILURE]
        else
          var seen' := seen + [packet.value];
          [Delivery(packet, next - 1, total)]
          + if refuses(seen') then [] else Delivers(ps[1..], e, next, total, seen', base64, refuses)
  }

  lemma PieceIsRead(data: Text, start: nat, p: Piece, rest: Text, number: Text -> JsNumber)
    requires IsPiece(p, number) && start <= |data| && data[start..] == PieceText(p) + rest
    ensures var next := start + |PieceText(p)|;
            next <= |data| && ReadFrame(data, start, number) == Got(p.message, next) && data[next..] == rest
  {
    hide Find, ReadFrame;
    var tail := [COLON] + p.message + rest;
    assert PieceText(p) + rest == p.length + tail;
    FindPart(data, start, p.length, tail, COLON);
    var colon := start + |p.length|;
    assert tail == ([COLON] + p.message) + rest;
    PartsLie(data, colon, [COLON] + p.message, rest);
    var next := colon + 1 + |p.message|;
    assert data[colon + 1..next] == data[colon..next][1..] == p.message;
    ReadAt(data, start, colon, number);
  }

  lemma EndingIsRead(data: Text, start: nat, e: Ending, number: Text -> JsNumber)
    requires IsEnding(e, number) && start <= |data| && data[start..] == EndText(e)
    ensures ReadFrame(data, start, number) == if e.Complete? then NoMore else Malformed
  {
    hide Find, ReadFrame;
    var colon := Find(data, start, COLON);
    ReadAt(data, start, colon, number);
    match e {
      case Complete => FindStops(data, start, COLON);
      case NoColon(text) =>
        assert text + [] == text;
        FindPart(data, start, text, [], COLON);
      case BadLength(length, after) =>
        assert EndText(e) == length + ([COLON] + after);
        FindPart(data, start, length, [COLON] + after, COLON);
    }
  }

  lemma {:induction false} PiecesAreRead(ps: seq<Piece>, e: Ending, data: Text, start: nat, seen: seq<Packet>,
                                         number: Text -> JsNumber, base64: Base64, refuses: seq<Packet> -> bool)
    requires (forall p | p in ps :: IsPiece(p, number)) && IsEnding(e, number)
    requires start <= |data| && data[start..] == Joined(ps) + EndText(e)
    ensures DecodeFrom(data, start, seen, number, base64, refuses)
            == Delivers(ps, e, start, |data|, seen, base64, refuses)
    decreases |ps|
  {
    hide TextPacket, ReadFrame, DecodeFrom, PieceText, IsEnding, EndText, IsPiece;
    DecodeStep(data, start, seen, number, base64, refuses);
    if ps == [] {
      assert Joined(ps) + EndText(e) == EndText(e);
      EndingIsRead(data, start, e, number);
    } else {
      var rest := Joined(ps[1..]) + EndText(e);
      Associates3(PieceText(ps[0]), Joined(ps[1..]), EndText(e));
      PieceIsRead(data, start, ps[0], rest, number);
      var next := start + |PieceText(ps[0])|;
      var packet := TextPacket(ps[0].message, base64);
      PiecesAreRead(ps[1..], e, data, next,
                    if ps[0].message == [] || packet.None? then seen else seen + [packet.value], number, base64, refuses);
    }
  }

  lemma Associates3(a: Text, b: Text, c: Text)
    ensures a + b + c == a + (b + c)
  {
  }

  /** What decoding any non-empty payload delivers. */
  lemma PayloadIsRead(ps: seq<Piece>, e: Ending, number: Text -> JsNumber, base64: Base64, refuses: seq<Packet> -> bool)
    requires (forall p | p in ps :: IsPiece(p, number)) && IsEnding(e, number) && Joined(ps) + EndText(e) != []
    ensures var data := Joined(ps) + EndText(e);
            Decoded(data, number, base64, refuses) == Delivers(ps, e, 0, |data|, [], base64, refuses)
  {
    hide DecodeFrom, Delivers;
    var data := Joined(ps) + EndText(e);
    assert data[0..] == data;
    PiecesAreRead(ps, e, data, 0, [], number, base64, refuses);
  }

  /** Every string is a payload of this kind. */
  lemma {:induction false} EveryPayload(data: Text, number: Text -> JsNumber) returns (ps: seq<Piece>, e: Ending)
    ensures (forall p | p in ps :: IsPiece(p, number)) && IsEnding(e, number) && data == Joined(ps) + EndText(e)
    decreases |data|
  {
    hide *;
    NoPieces();
    ps := [];
    if data == [] {
      e := Complete;
      Ends(e, number);
    } else {
      var length, after, found := CutAtColon(data);
      if !found {
        e := NoColon(data);
        Ends(e, number);
      } else {
        var n := number(length);
        if length != [] && n.Natural? && n.n <= |after| {
          var p := Piece(length, after[..n.n]);
          var ps', e' := EveryPayload(after[n.n..], number);
          ps, e := [p] + ps', e';
          IsPieceIf(p, number);
          Sliced(after, n.n);
          JoinedCons(p, ps', EndText(e'));
        } else {
          e := BadLength(length, after);
          Ends(e, number);
        }
      }
    }
    assert [] + EndText(e) == EndText(e);
  }

  lemma CutAtColon(data: Text) returns (length: Text, after: Text, found: bool)
    ensures COLON !in length
    ensures if found then data == length + [COLON] + after && |after| < |data| else COLON !in data
  {
    hide Find;
    var colon := Find(data, 0, COLON);
    FindAvoids(data, 0, COLON);
    found := colon < |data|;
    length, after := data[0..colon], [];
    if found {
      FoundIs(data, 0, COLON);
      after := data[colon + 1..];
    } else {
      assert data[0..colon] == data;
    }
  }

  lemma NoPieces()
    ensures Joined([]) == []
  {
  }

  lemma Ends(e: Ending, number: Text -> JsNumber)
    ensures e.Complete? ==> IsEnding(e, number) && EndText(e) == []
    ensures e.NoColon? && e.text != [] && COLON !in e.text ==> IsEnding(e, number) && EndText(e) == e.text
    ensures e.BadLength? && COLON !in e.length
            && (e.length == [] || !number(e.length).Natural? || number(e.length).n > |e.after|) ==>
              IsEnding(e, number) && EndText(e) == e.length + [COLON] + e.after
  {
  }

  lemma IsPieceIf(p: Piece, number: Text -> JsNumber)
    ensures IsPiece(p, number) <==> p.length != [] && COLON !in p.length && number(p.length) == Natural(|p.message|)
  {
  }

  lemma Sliced(s: Text, n: nat)
    requires n <= |s|
    ensures s == s[..n] + s[n..] && |s[..n]| == n && |s[n..]| == |s| - n
  {
  }

  lemma JoinedCons(p: Piece, ps: seq<Piece>, end: Text)
    ensures Joined([p] + ps) + end == p.length + [COLON] + (p.message + (Joined(ps) + end))
  {
    assert ([p] + ps)[1..] == ps;
  }

  lemma {:induction false} FoundIs(str: Text, i: nat, c: CodeUnit)
    requires i <= |str| && Find(str, i, c) < |str|
    ensures str[Find(str, i, c)] == c
    decreases |str| - i
  {
    if str[i] != c {
      FoundIs(str, i + 1, c);
    }
  }
}
