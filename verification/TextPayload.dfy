/** engine.io's text payloads: messages one after the other, each after its length. */
module TextPayload {
  import opened JsText
  import opened JsNumbers
  import opened EnginePacket

  const COLON: CodeUnit := 58

  // ----- encoding

  function Frame(message: Text): Text {
    Digits(|message|) + [COLON] + message
  }

  /** The messages of several packets; None as soon as one of them cannot be encoded. */
  function Texts(ps: seq<Packet>, base64: Base64): (r: Option<seq<Text>>)
    requires forall p | p in ps :: KnownKind(p)
    ensures r.Some? ==> |r.value| == |ps|
  {
    if ps == [] then Some([])
    else
      var first := TextOf(ps[0], base64);
      var rest := Texts(ps[1..], base64);
      if first.None? || rest.None? then None else Some([first.value] + rest.value)
  }

  function Frames(messages: seq<Text>): Text {
    if messages == [] then [] else Frame(messages[0]) + Frames(messages[1..])
  }

  /** `0:` stands for no packets at all. */
  function PayloadText(messages: seq<Text>): Text {
    if messages == [] then [48, COLON] else Frames(messages)
  }

  function Encoded(packets: seq<Packet>, base64: Base64): Option<Text>
    requires forall p | p in packets :: KnownKind(p)
  {
    var messages := Texts(packets, base64);
    if messages.None? then None else Some(PayloadText(messages.value))
  }

  /** The text path of encodePayload. */
  method EncodePayload(packets: seq<Packet>, base64: Base64) returns (r: Option<Text>)
    requires forall p | p in packets :: KnownKind(p)
    ensures r == Encoded(packets, base64)
  {
    hide *;
    if |packets| == 0 {
      EmptyPayload(base64);
      return Some([48, COLON]);
    }
    var results: Text := [];
    var i := 0;
    assert packets[0..] == packets;
    FramesStart(packets, base64);
    while i < |packets|
      invariant 0 <= i <= |packets|
      invariant Continues(packets, results, packets[i..], base64)
    {
      FramesStep(packets, results, packets[i..], base64);
      assert packets[i..][1..] == packets[i + 1..];
      var message := EncodePacket(packets[i], false, base64);
      MessageIsText(packets[i], base64);
      if message.None? {
        return None;
      }
      results := results + (Digits(|message.value.text|) + [COLON] + message.value.text);
      i := i + 1;
    }
    FramesEnd(packets, results, packets[i..], base64);
    return Some(results);
  }

  /** The payload of `packets` is `done` followed by the frames of `remaining`. */
  ghost predicate Continues(packets: seq<Packet>, done: Text, remaining: seq<Packet>, base64: Base64)
    requires forall p | p in packets + remaining :: KnownKind(p)
  {
    var all, rest := Texts(packets, base64), Texts(remaining, base64);
    && all.Some? == rest.Some?
    && (all.Some? ==> Frames(all.value) == done + Frames(rest.value))
  }

  lemma EmptyPayload(base64: Base64)
    ensures Encoded([], base64) == Some([48, COLON])
  {
  }

  lemma MessageIsText(p: Packet, base64: Base64)
    requires KnownKind(p)
    ensures MessageOf(p, false, base64)
            == if TextOf(p, base64).None? then None else Some(TextMessage(TextOf(p, base64).value))
  {
    hide TextOf;
  }

  lemma FramesStart(packets: seq<Packet>, base64: Base64)
    requires forall p | p in packets :: KnownKind(p)
    ensures Continues(packets, [], packets, base64)
  {
  }

  lemma FramesStep(packets: seq<Packet>, done: Text, remaining: seq<Packet>, base64: Base64)
    requires (forall p | p in packets + remaining :: KnownKind(p)) && remaining != []
    requires Continues(packets, done, remaining, base64)
    ensures var m := TextOf(remaining[0], base64);
            if m.None? then Encoded(packets, base64).None?
            else
              && (forall p | p in packets + remaining[1..] :: KnownKind(p))
              && Continues(packets, done + (Digits(|m.value|) + [COLON] + m.value), remaining[1..], base64)
  {
    hide Digits, TextOf;
    var m := TextOf(remaining[0], base64);
    var rest := Texts(remaining[1..], base64);
    if m.Some? && rest.Some? {
      FramesCons(m.value, rest.value);
      assert done + (Frame(m.value) + Frames(rest.value)) == done + Frame(m.value) + Frames(rest.value);
    }
  }

  lemma FramesCons(m: Text, rest: seq<Text>)
    ensures Frames([m] + rest) == Frame(m) + Frames(rest)
  {
    assert ([m] + rest)[1..] == rest;
  }

  lemma FramesEnd(packets: seq<Packet>, done: Text, remaining: seq<Packet>, base64: Base64)
    requires packets != [] && remaining == [] && forall p | p in packets :: KnownKind(p)
    requires Continues(packets, done, remaining, base64)
    ensures Encoded(packets, base64) == Some(done)
  {
    assert done + [] == done;
  }

  // ----- decoding

  /** One call of the callback: a packet or the parser error (None), and two positions. */
  datatype Delivery = Delivery(packet: Option<Packet>, index: nat, total: nat)

  const FAILURE := Delivery(None, 0, 1)

  /** The frame that starts at some position: none, a malformed one, or a message. */
  datatype FrameRead = NoMore | Malformed | Got(message: Text, next: nat)

  function ReadFrame(data: Text, start: nat, number: Text -> JsNumber): (r: FrameRead)
    requires start <= |data|
    ensures r.Got? ==> start < r.next <= |data|
  {
    var colon := Find(data, start, COLON);
    if colon == |data| then if start < |data| then Malformed else NoMore
    else if colon == start then Malformed
    else
      var n := number(data[start..colon]);
      if n.Natural? && colon + 1 + n.n <= |data| then Got(data[colon + 1..colon + 1 + n.n], colon + 1 + n.n)
      else Malformed
  }

  /** The deliveries from position `start` on; `refuses` tells from the packets delivered so far
      whether the callback answers the last of them with false, which ends the decoding. */
  function DecodeFrom(data: Text, start: nat, seen: seq<Packet>, number: Text -> JsNumber, base64: Base64,
                      refuses: seq<Packet> -> bool): seq<Delivery>
    requires start <= |data|
    decreases |data| - start
  {
    var frame := ReadFrame(data, start, number);
    if frame.NoMore? then []
    else if frame.Malformed? then [FAILURE]
    else if frame.message == [] then DecodeFrom(data, frame.next, seen, number, base64, refuses)
    else
      var packet := TextPacket(frame.message, base64);
      if packet.None? then [FAILURE]
      else
        var seen' := seen + [packet.value];
        [Delivery(packet, frame.next - 1, |data|)]
        + if refuses(seen') then [] else DecodeFrom(data, frame.next, seen', number, base64, refuses)
  }

  function Decoded(data: Text, number: Text -> JsNumber, base64: Base64, refuses: seq<Packet> -> bool): seq<Delivery> {
    if data == [] then [FAILURE] else DecodeFrom(data, 0, [], number, base64, refuses)
  }

  /** decodePayload on a string. */
  method DecodePayload(data: Text, number: Text -> JsNumber, base64: Base64, refuses: seq<Packet> -> bool)
    returns (deliveries: seq<Delivery>)
    ensures deliveries == Decoded(data, number, base64, refuses)
  {
    hide Decoded, DecodeFrom, TextPacket, Find, ReadFrame, Leads;
    DecodedIs(data, number, base64, refuses);
    if data == [] {
      return [FAILURE];
    }
    deliveries := [];
    var seen: seq<Packet> := [];
    var length: Text := [];
    var i, l := 0, |data|;
    ghost var goal := Decoded(data, number, base64, refuses);
    ghost var start := 0;
    while i < l
      invariant 0 <= start <= i <= l && length == data[start..i]
      invariant Find(data, start, COLON) == Find(data, i, COLON)
      invariant Leads(goal, deliveries, data, start, seen, number, base64, refuses)
    {
      LeadsStep(goal, deliveries, data, start, seen, number, base64, refuses);
      FindStep(data, i, COLON);
      if data[i] != COLON {
        SliceGrows(data, start, i);
        length := length + [data[i]];
        i := i + 1;
      } else {
        ReadAt(data, start, i, number);
        if length == [] {
          return deliveries + [FAILURE];
        }
        var n := number(length);
        if !n.Natural? || i + 1 + n.n > l {
          return deliveries + [FAILURE];
        }
        var msg := data[i + 1..i + 1 + n.n];
        if |msg| > 0 {
          var packet := DecodePacket(TextMessage(msg), base64);
          if packet.None? {
            return deliveries + [FAILURE];
          }
          deliveries := deliveries + [Delivery(packet, i + n.n, l)];
          seen := seen + [packet.value];
          if refuses(seen) {
            return;
          }
        }
        i := i + n.n + 1;
        length := [];
        start := i;
      }
    }
    LeadsStep(goal, deliveries, data, start, seen, number, base64, refuses);
    FindStops(data, i, COLON);
    ReadAt(data, start, i, number);
    if length != [] {
      return deliveries + [FAILURE];
    }
  }

  /** `goal` is `done` followed by what decoding from `start` delivers. */
  ghost predicate Leads(goal: seq<Delivery>, done: seq<Delivery>, data: Text, start: nat, seen: seq<Packet>,
                        number: Text -> JsNumber, base64: Base64, refuses: seq<Packet> -> bool)
    requires start <= |data|
  {
    goal == done + DecodeFrom(data, start, seen, number, base64, refuses)
  }

  lemma LeadsStep(goal: seq<Delivery>, done: seq<Delivery>, data: Text, start: nat, seen: seq<Packet>,
                  number: Text -> JsNumber, base64: Base64, refuses: seq<Packet> -> bool)
    requires start <= |data| && Leads(goal, done, data, start, seen, number, base64, refuses)
    ensures var frame := ReadFrame(data, start, number);
            if frame.NoMore? then goal == done
            else if frame.Malformed? then goal == done + [FAILURE]
            else if frame.message == [] then Leads(goal, done, data, frame.next, seen, number, base64, refuses)
            else
              var packet := TextPacket(frame.message, base64);
              if packet.None? then goal == done + [FAILURE]
              else
                var seen' := seen + [packet.value];
                var done' := done + [Delivery(packet, frame.next - 1, |data|)];
                if refuses(seen') then goal == done' else Leads(goal, done', data, frame.next, seen', number, base64, refuses)
  {
    hide DecodeFrom, TextPacket, ReadFrame;
    DecodeStep(data, start, seen, number, base64, refuses);
  }

  lemma DecodedIs(data: Text, number: Text -> JsNumber, base64: Base64, refuses: seq<Packet> -> bool)
    ensures Decoded(data, number, base64, refuses)
            == if data == [] then [FAILURE] else DecodeFrom(data, 0, [], number, base64, refuses)
    ensures data != [] ==> Leads(Decoded(data, number, base64, refuses), [], data, 0, [], number, base64, refuses)
  {
    hide DecodeFrom;
  }

  lemma FindStep(data: Text, i: nat, c: CodeUnit)
    requires i < |data|
    ensures Find(data, i, c) == if data[i] == c then i else Find(data, i + 1, c)
  {
  }

  lemma ReadAt(data: Text, start: nat, colon: nat, number: Text -> JsNumber)
    requires start <= |data| && colon == Find(data, start, COLON)
    ensures ReadFrame(data, start, number) ==
            if colon == |data| then if start < |data| then Malformed else NoMore
            else if colon == start then Malformed
            else
              var n := number(data[start..colon]);
              if n.Natural? && colon + 1 + n.n <= |data| then Got(data[colon + 1..colon + 1 + n.n], colon + 1 + n.n)
              else Malformed
  {
  }

  lemma DecodeStep(data: Text, start: nat, seen: seq<Packet>, number: Text -> JsNumber, base64: Base64,
                   refuses: seq<Packet> -> bool)
    requires start <= |data|
    ensures DecodeFrom(data, start, seen, number, base64, refuses) ==
            var frame := ReadFrame(data, start, number);
            if frame.NoMore? then []
            else if frame.Malformed? then [FAILURE]
            else if frame.message == [] then DecodeFrom(data, frame.next, seen, number, base64, refuses)
            else
              var packet := TextPacket(frame.message, base64);
              if packet.None? then [FAILURE]
              else
                var seen' := seen + [packet.value];
                [Delivery(packet, frame.next - 1, |data|)]
                + if refuses(seen') then [] else DecodeFrom(data, frame.next, seen', number, base64, refuses)
  {
    hide TextPacket, ReadFrame;
  }

  // ----- the round trip

  /** What decoding `ps` delivers: each packet with the position of its last character, up to
      and including the first one that is refused. */
  function Deliveries(ps: seq<Packet>, texts: seq<Text>, start: nat, total: nat, seen: seq<Packet>,
                      refuses: seq<Packet> -> bool): seq<Delivery>
    requires |texts| == |ps|
    decreases |ps|
  {
    if ps == [] then []
    else
      var next := start + |Frame(texts[0])|;
      var seen' := seen + [Arriving(ps[0])];
      [Delivery(Some(Arriving(ps[0])), next - 1, total)]
      + if refuses(seen') then [] else Deliveries(ps[1..], texts[1..], next, total, seen', refuses)
  }

  /** A frame at the start of what is left is read. */
  lemma FrameIsRead(data: Text, start: nat, message: Text, rest: Text, number: Text -> JsNumber)
    requires ReadsDecimal(number) && start <= |data| <= MAX_SAFE && data[start..] == Frame(message) + rest
    ensures var next := start + |Frame(message)|;
            next <= |data| && ReadFrame(data, start, number) == Got(message, next) && data[next..] == rest
  {
    hide Digits, Find;
    var digits := Digits(|message|);
    var tail := [COLON] + message + rest;
    assert Frame(message) + rest == digits + tail;
    assert COLON !in digits;
    FindPart(data, start, digits, tail, COLON);
    var colon := start + |digits|;
    assert tail == ([COLON] + message) + rest;
    PartsLie(data, colon, [COLON] + message, rest);
    var next := colon + 1 + |message|;
    assert data[colon + 1..next] == data[colon..next][1..] == message;
    ReadAt(data, start, colon, number);
  }

  lemma TextsCons(ps: seq<Packet>, base64: Base64)
    requires ps != [] && (forall p | p in ps :: KnownKind(p)) && Texts(ps, base64).Some?
    ensures TextOf(ps[0], base64).Some? && Texts(ps[1..], base64).Some?
    ensures Texts(ps, base64).value[0] == TextOf(ps[0], base64).value
    ensures Texts(ps, base64).value[1..] == Texts(ps[1..], base64).value
  {
    hide TextOf;
  }

  lemma TextIsDecoded(p: Packet, base64: Base64)
    requires KnownKind(p) && Inverse(base64) && TextOf(p, base64).Some?
    ensures TextOf(p, base64).value != []
    ensures TextPacket(TextOf(p, base64).value, base64) == Some(Arriving(p))
  {
    hide TextPacket;
    PacketRoundTrip(p, false, base64);
  }

  lemma {:induction false} FramesAreDecoded(ps: seq<Packet>, data: Text, start: nat, seen: seq<Packet>,
                                            number: Text -> JsNumber, base64: Base64, refuses: seq<Packet> -> bool)
    requires (forall p | p in ps :: KnownKind(p)) && Inverse(base64) && Texts(ps, base64).Some?
    requires ReadsDecimal(number) && start <= |data| <= MAX_SAFE && data[start..] == Frames(Texts(ps, base64).value)
    ensures DecodeFrom(data, start, seen, number, base64, refuses)
            == Deliveries(ps, Texts(ps, base64).value, start, |data|, seen, refuses)
    decreases |ps|
  {
    hide Digits, Texts, TextOf, TextPacket, ReadFrame, DecodeFrom, Arriving, Frame;
    var texts := Texts(ps, base64).value;
    DecodeStep(data, start, seen, number, base64, refuses);
    if ps == [] {
      FindStops(data, start, COLON);
      ReadAt(data, start, start, number);
    } else {
      TextsCons(ps, base64);
      FrameIsRead(data, start, texts[0], Frames(texts[1..]), number);
      TextIsDecoded(ps[0], base64);
      FramesAreDecoded(ps[1..], data, start + |Frame(texts[0])|, seen + [Arriving(ps[0])], number, base64, refuses);
    }
  }

  /** Decoding an encoded payload delivers its packets in order, up to the first one refused. */
  lemma TextRoundTrip(ps: seq<Packet>, number: Text -> JsNumber, base64: Base64, refuses: seq<Packet> -> bool)
    requires (forall p | p in ps :: KnownKind(p)) && Inverse(base64) && ReadsDecimal(number)
    requires Encoded(ps, base64).Some? && |Encoded(ps, base64).value| <= MAX_SAFE
    ensures var data := Encoded(ps, base64).value;
            Decoded(data, number, base64, refuses)
            == Deliveries(ps, Texts(ps, base64).value, 0, |data|, [], refuses)
  {
    hide Texts, DecodeFrom, ReadFrame, Deliveries;
    var data := Encoded(ps, base64).value;
    assert data[0..] == data;
    if ps == [] {
      NothingIsDecoded(number, base64, refuses);
    } else {
      FramesAreDecoded(ps, data, 0, [], number, base64, refuses);
      FramesNotEmpty(Texts(ps, base64).value);
    }
  }

  lemma FramesNotEmpty(texts: seq<Text>)
    requires texts != []
    ensures Frames(texts) != []
  {
    hide Digits;
  }

  lemma NothingIsDecoded(number: Text -> JsNumber, base64: Base64, refuses: seq<Packet> -> bool)
    requires ReadsDecimal(number)
    ensures DecodeFrom([48, COLON], 0, [], number, base64, refuses) == []
    ensures Deliveries([], [], 0, 2, [], refuses) == []
  {
    hide DecodeFrom, ReadFrame, Find;
    var data: Text := [48, COLON];
    assert Digits(0) == [48];
    assert data[0..] == Frame([]) + [];
    FrameIsRead(data, 0, [], [], number);
    DecodeStep(data, 0, [], number, base64, refuses);
    DecodeStep(data, 2, [], number, base64, refuses);
    FindStops(data, 2, COLON);
    ReadAt(data, 2, 2, number);
  }

  function PacketsIn(deliveries: seq<Delivery>): seq<Packet> {
    if deliveries == [] then []
    else (if deliveries[0].packet.Some? then [deliveries[0].packet.value] else []) + PacketsIn(deliveries[1..])
  }

  /** If no packet is refused, all of them arrive. */
  lemma {:induction false} NoneRefused(ps: seq<Packet>, texts: seq<Text>, start: nat, total: nat, seen: seq<Packet>,
                                       refuses: seq<Packet> -> bool)
    requires |texts| == |ps| && forall h :: !refuses(h)
    ensures PacketsIn(Deliveries(ps, texts, start, total, seen, refuses)) == AllArriving(ps)
    decreases |ps|
  {
    hide *;
    DeliveriesCons(ps, texts, start, total, seen, refuses);
    ArrivingCons(ps);
    if ps == [] {
      NoPacketsIn();
    } else {
      var next := start + |Frame(texts[0])|;
      var seen' := seen + [Arriving(ps[0])];
      NoneRefused(ps[1..], texts[1..], next, total, seen', refuses);
      PacketsInCons(Arriving(ps[0]), next - 1, total, Deliveries(ps[1..], texts[1..], next, total, seen', refuses));
    }
  }

  lemma DeliveriesCons(ps: seq<Packet>, texts: seq<Text>, start: nat, total: nat, seen: seq<Packet>,
                       refuses: seq<Packet> -> bool)
    requires |texts| == |ps|
    ensures if ps == [] then Deliveries(ps, texts, start, total, seen, refuses) == []
            else
              var next := start + |Frame(texts[0])|;
              var seen' := seen + [Arriving(ps[0])];
              next > start && Deliveries(ps, texts, start, total, seen, refuses) ==
                [Delivery(Some(Arriving(ps[0])), next - 1, total)]
                + if refuses(seen') then [] else Deliveries(ps[1..], texts[1..], next, total, seen', refuses)
  {
    hide Digits, Arriving;
  }

  lemma ArrivingCons(ps: seq<Packet>)
    ensures AllArriving(ps) == if ps == [] then [] else [Arriving(ps[0])] + AllArriving(ps[1..])
  {
    hide Arriving;
  }

  lemma NoPacketsIn()
    ensures PacketsIn([]) == []
  {
  }

  lemma PacketsInCons(p: Packet, index: nat, total: nat, rest: seq<Delivery>)
    ensures PacketsIn([Delivery(Some(p), index, total)] + rest) == [p] + PacketsIn(rest)
  {
    assert ([Delivery(Some(p), index, total)] + rest)[1..] == rest;
  }

  /** The round trip is exact precisely if no packet carries empty text. */
  lemma TextPayloadIsExact(ps: seq<Packet>, number: Text -> JsNumber, base64: Base64, refuses: seq<Packet> -> bool)
    requires (forall p | p in ps :: KnownKind(p)) && Inverse(base64) && ReadsDecimal(number) && forall h :: !refuses(h)
    requires Encoded(ps, base64).Some? && |Encoded(ps, base64).value| <= MAX_SAFE
    ensures PacketsIn(Decoded(Encoded(ps, base64).value, number, base64, refuses)) == ps
            <==> forall p | p in ps :: p.data != TextData([])
  {
    hide Texts, Decoded, Deliveries, PacketsIn;
    var data := Encoded(ps, base64).value;
    TextRoundTrip(ps, number, base64, refuses);
    NoneRefused(ps, Texts(ps, base64).value, 0, |data|, [], refuses);
    ArrivingIsSame(ps);
  }

  lemma ArrivingIsSame(ps: seq<Packet>)
    ensures AllArriving(ps) == ps <==> forall p | p in ps :: p.data != TextData([])
  {
    if AllArriving(ps) == ps {
      forall p | p in ps ensures p.data != TextData([]) {
        var i :| 0 <= i < |ps| && ps[i] == p;
        assert AllArriving(ps)[i] == Arriving(ps[i]);
      }
    }
  }

  /** A payload can be encoded exactly if all its texts are well-formed. */
  lemma {:induction false} EncodableExactly(ps: seq<Packet>, base64: Base64)
    requires forall p | p in ps :: KnownKind(p)
    ensures Encoded(ps, base64).Some? <==> forall p | p in ps && p.data.TextData? :: WellFormed(p.data.text)
  {
    hide TextOf, WellFormed;
    if ps != [] {
      TextOfExists(ps[0], base64);
      EncodableExactly(ps[1..], base64);
      assert ps == [ps[0]] + ps[1..];
    }
  }

  lemma TextOfExists(p: Packet, base64: Base64)
    requires KnownKind(p)
    ensures TextOf(p, base64).Some? <==> p.data.TextData? ==> WellFormed(p.data.text)
  {
  }
}
