/** engine.io's binary payloads: each message after a marker byte, its length in decimal digits
    and a byte 255. */
module BinaryPayload {
  import opened JsText
  import opened JsNumbers
  import opened EnginePacket
  import H = HtermUtf8
  import opened TextPayload

  const SEPARATOR: Byte := 255

  // ----- encoding

  function CharBytes(s: Text): (r: seq<Byte>)
    ensures |r| == |s| && forall i | 0 <= i < |s| :: r[i] == s[i] % 256
  {
    seq(|s|, i requires 0 <= i < |s| => s[i] % 256)
  }

  /** The decimal digits of `n`, one byte each. */
  function DigitBytes(n: nat): (r: seq<Byte>)
    ensures |r| == |Digits(n)| && forall i | 0 <= i < |r| :: r[i] == Digits(n)[i] - 48
  {
    seq(|Digits(n)|, i requires 0 <= i < |Digits(n)| => Digits(n)[i] - 48)
  }

  function Content(m: Message): seq<Byte> {
    match m
    case TextMessage(text) => CharBytes(text)
    case BinaryMessage(bytes) => bytes
  }

  function BinaryFrame(m: Message): seq<Byte> {
    [if m.TextMessage? then 0 else 1] + DigitBytes(|Content(m)|) + [SEPARATOR] + Content(m)
  }

  function BinaryFrames(ms: seq<Message>): seq<Byte> {
    if ms == [] then [] else BinaryFrame(ms[0]) + BinaryFrames(ms[1..])
  }

  function Messages(ps: seq<Packet>, base64: Base64): (r: Option<seq<Message>>)
    requires forall p | p in ps :: KnownKind(p)
    ensures r.Some? ==> |r.value| == |ps| && forall i | 0 <= i < |ps| :: MessageOf(ps[i], true, base64) == Some(r.value[i])
    ensures r.None? ==> exists i | 0 <= i < |ps| :: MessageOf(ps[i], true, base64) == None
  {
    if ps == [] then Some([])
    else
      var first := MessageOf(ps[0], true, base64);
      var rest := Messages(ps[1..], base64);
      if first.None? || rest.None? then None else Some([first.value] + rest.value)
  }

  /** encodePayloadAsArrayBuffer: the buffer is allocated with a length computed beforehand. */
  method EncodePayloadAsArrayBuffer(packets: seq<Packet>, base64: Base64) returns (r: Option<array<Byte>>)
    requires forall p | p in packets :: KnownKind(p)
    ensures Messages(packets, base64).None? <==> r.None?
    ensures r.Some? ==> fresh(r.value) && r.value[..] == BinaryFrames(Messages(packets, base64).value)
  {
    hide BinaryFrames, MessageOf;
    var encodedPackets: seq<Message> := [];
    var n := 0;
    while n < |packets|
      invariant 0 <= n <= |packets| && |encodedPackets| == n
      invariant forall i | 0 <= i < n :: MessageOf(packets[i], true, base64) == Some(encodedPackets[i])
    {
      var message := EncodePacket(packets[n], true, base64);
      if message.None? {
        assert MessageOf(packets[n], true, base64) == None;
        return None;
      }
      encodedPackets := encodedPackets + [message.value];
      n := n + 1;
    }
    SameMessages(packets, encodedPackets, base64);
    var resultArray := WriteFrames(encodedPackets);
    return Some(resultArray);
  }

  lemma SameMessages(packets: seq<Packet>, ms: seq<Message>, base64: Base64)
    requires (forall p | p in packets :: KnownKind(p)) && |ms| == |packets|
    requires forall i | 0 <= i < |packets| :: MessageOf(packets[i], true, base64) == Some(ms[i])
    ensures Messages(packets, base64) == Some(ms)
  {
    hide MessageOf;
    var r := Messages(packets, base64);
    assert r.Some?;
    forall i | 0 <= i < |ms| ensures r.value[i] == ms[i] {
      assert MessageOf(packets[i], true, base64) == Some(r.value[i]);
    }
    assert r.value == ms;
  }

  /** The callback given to `map`: sums up the length, allocates, and writes frame by frame. */
  method WriteFrames(encodedPackets: seq<Message>) returns (resultArray: array<Byte>)
    ensures fresh(resultArray) && resultArray[..] == BinaryFrames(encodedPackets)
  {
    hide *;
    var totalLength: nat := 0;
    var k := 0;
    assert encodedPackets[0..] == encodedPackets;
    while k < |encodedPackets|
      invariant 0 <= k <= |encodedPackets|
      invariant totalLength + |BinaryFrames(encodedPackets[k..])| == |BinaryFrames(encodedPackets)|
    {
      BinaryFramesCons(encodedPackets[k..]);
      assert encodedPackets[k..][1..] == encodedPackets[k + 1..];
      FrameLength(encodedPackets[k]);
      var len := if encodedPackets[k].TextMessage? then |encodedPackets[k].text| else |encodedPackets[k].bytes|;
      totalLength := totalLength + |Digits(len)| + len + 2;
      k := k + 1;
    }
    BinaryFramesCons(encodedPackets[k..]);
    resultArray := new Byte[totalLength];
    var bufferIndex := 0;
    k := 0;
    assert resultArray[..0] == [];
    while k < |encodedPackets|
      invariant 0 <= k <= |encodedPackets| && 0 <= bufferIndex <= resultArray.Length
      invariant bufferIndex + |BinaryFrames(encodedPackets[k..])| == resultArray.Length
      invariant resultArray[..bufferIndex] + BinaryFrames(encodedPackets[k..]) == BinaryFrames(encodedPackets)
    {
      BinaryFramesCons(encodedPackets[k..]);
      assert encodedPackets[k..][1..] == encodedPackets[k + 1..];
      ghost var done := resultArray[..bufferIndex];
      bufferIndex := WriteFrame(resultArray, bufferIndex, encodedPackets[k]);
      Associates(done, BinaryFrame(encodedPackets[k]), BinaryFrames(encodedPackets[k + 1..]));
      k := k + 1;
    }
    BinaryFramesCons(encodedPackets[k..]);
    assert resultArray[..bufferIndex] == resultArray[..];
  }

  lemma BinaryFramesCons(ms: seq<Message>)
    ensures BinaryFrames(ms) == if ms == [] then [] else BinaryFrame(ms[0]) + BinaryFrames(ms[1..])
  {
  }

  lemma FrameLength(m: Message)
    ensures var len := if m.TextMessage? then |m.text| else |m.bytes|;
            |Content(m)| == len && |BinaryFrame(m)| == |Digits(len)| + len + 2
  {
    hide Digits;
  }

  method WriteFrame(a: array<Byte>, at: nat, p: Message) returns (bufferIndex: nat)
    requires at + |BinaryFrame(p)| <= a.Length
    modifies a
    ensures bufferIndex == at + |BinaryFrame(p)|
    ensures a[..bufferIndex] == old(a[..at]) + BinaryFrame(p)
  {
    hide Digits, CharBytes, DigitBytes;
    FrameLength(p);
    var ab := if p.TextMessage? then CharBytes(p.text) else p.bytes;
    ghost var before := a[..at];
    bufferIndex := at;
    a[bufferIndex] := if p.TextMessage? then 0 else 1;
    bufferIndex := bufferIndex + 1;
    assert a[..bufferIndex] == before + [a[at]];
    bufferIndex := WriteBytes(a, bufferIndex, DigitBytes(|ab|));
    a[bufferIndex] := SEPARATOR;
    assert a[..bufferIndex + 1] == before + [if p.TextMessage? then 0 else 1] + DigitBytes(|ab|) + [SEPARATOR];
    bufferIndex := WriteBytes(a, bufferIndex + 1, ab);
    assert before + [if p.TextMessage? then 0 else 1] + DigitBytes(|ab|) + [SEPARATOR] + ab == before + BinaryFrame(p);
  }

  method WriteBytes(a: array<Byte>, at: nat, bytes: seq<Byte>) returns (bufferIndex: nat)
    requires at + |bytes| <= a.Length
    modifies a
    ensures bufferIndex == at + |bytes|
    ensures a[..bufferIndex] == old(a[..at]) + bytes
  {
    bufferIndex := at;
    for i := 0 to |bytes|
      invariant bufferIndex == at + i
      invariant a[..bufferIndex] == old(a[..at]) + bytes[..i]
    {
      a[bufferIndex] := bytes[i];
      bufferIndex := bufferIndex + 1;
      assert a[..bufferIndex] == a[..bufferIndex - 1] + [bytes[i]];
    }
  }

  // ----- decoding

  /** sliceBuffer(buffer, n): what is left after the first `n` bytes. */
  function Drop(buffer: seq<Byte>, n: nat): (r: seq<Byte>)
    ensures |r| == if n >= |buffer| then 0 else |buffer| - n
  {
    if n >= |buffer| then [] else buffer[n..]
  }

  /** sliceBuffer(buffer, 0, n), which takes an end of 0 to be missing. */
  function Take(buffer: seq<Byte>, n: nat): seq<Byte> {
    if n == 0 || n >= |buffer| then buffer else buffer[..n]
  }

  /** The length read from position `i` on: each byte adds its decimal digits, until a byte 255.
      None if the length gets longer than 310 digits, as it does when no separator follows. */
  function ReadLength(tail: seq<Byte>, i: nat, msgLength: Text): (r: Option<Text>)
    requires forall k | 0 <= k < |msgLength| :: IsDigit(msgLength[k])
    ensures r.Some? ==> forall k | 0 <= k < |r.value| :: IsDigit(r.value[k])
    decreases |tail| - i
  {
    if i >= |tail| then None
    else if tail[i] == SEPARATOR then Some(msgLength)
    else if |msgLength| > 310 then None
    else ReadLength(tail, i + 1, msgLength + Digits(tail[i]))
  }

  function Characters(bytes: seq<Byte>): (r: Text)
    ensures |r| == |bytes| && forall i | 0 <= i < |r| :: r[i] == bytes[i]
  {
    seq(|bytes|, i requires 0 <= i < |bytes| => bytes[i])
  }

  function Received(marker: Byte, msg: seq<Byte>): Message {
    if marker == 0 then TextMessage(Characters(msg)) else BinaryMessage(msg)
  }

  /** The messages in a buffer; None is a length that is too long. */
  function Split(tail: seq<Byte>): Option<seq<Message>>
    decreases |tail|
  {
    if tail == [] then Some([])
    else
      var length := ReadLength(tail, 1, []);
      if length.None? then None
      else
        var n := DigitsValue(length.value);
        var rest := Drop(tail, 2 + |length.value|);
        var msg := Take(rest, n);
        var others := Split(Drop(rest, n));
        if others.None? then None
        else Some([Received(tail[0], msg)] + others.value)
  }

  /** A length of zero, or none at all, is taken to be missing: the message is all that follows,
      which is then read once more. */
  lemma ZeroLengthTakesAll(marker: Byte, digits: seq<Byte>, rest: seq<Byte>)
    requires digits == [] || digits == [0]
    ensures var others := Split(rest);
            Split([marker] + digits + [SEPARATOR] + rest)
            == if others.None? then None else Some([Received(marker, rest)] + others.value)
  {
    hide Received, ReadLength, DigitsValue, Split;
    var tail := [marker] + digits + [SEPARATOR] + rest;
    var length: Text := if digits == [] then [] else [48];
    assert tail[0] == marker && tail[|digits| + 1] == SEPARATOR && tail[|digits| + 2..] == rest;
    assert digits == [0] ==> tail[1] == 0;
    ZeroIsRead(tail, digits);
    NoValue();
    SplitIs(tail);
    assert Drop(tail, 2 + |length|) == rest && Drop(rest, 0) == rest && Take(rest, 0) == rest;
  }

  lemma SplitIs(tail: seq<Byte>)
    requires tail != [] && ReadLength(tail, 1, []).Some?
    ensures var length := ReadLength(tail, 1, []).value;
            var rest := Drop(tail, 2 + |length|);
            var others := Split(Drop(rest, DigitsValue(length)));
            Split(tail) == if others.None? then None else Some([Received(tail[0], Take(rest, DigitsValue(length)))] + others.value)
  {
    hide Received, ReadLength, DigitsValue, Drop, Take;
  }

  lemma NoValue()
    ensures DigitsValue([]) == 0 && DigitsValue([48]) == 0
  {
    assert [48][..0] == [];
  }

  lemma ZeroIsRead(tail: seq<Byte>, digits: seq<Byte>)
    requires digits == [] || digits == [0]
    requires |digits| + 1 < |tail| && tail[|digits| + 1] == SEPARATOR && (digits == [0] ==> tail[1] == 0)
    ensures ReadLength(tail, 1, []) == Some(if digits == [] then [] else [48])
  {
    assert Digits(0) == [48] && [] + [48] == [48];
  }

  function DeliveriesOf(buffers: seq<Message>, base64: Base64): (r: seq<Delivery>)
    ensures |r| == |buffers|
    ensures forall i | 0 <= i < |r| :: r[i] == Delivery(PacketOf(buffers[i], base64), i, |buffers|)
  {
    seq(|buffers|, i requires 0 <= i < |buffers| => Delivery(PacketOf(buffers[i], base64), i, |buffers|))
  }

  function BinaryDecoded(data: seq<Byte>, base64: Base64): seq<Delivery> {
    var buffers := Split(data);
    if buffers.None? then [FAILURE] else DeliveriesOf(buffers.value, base64)
  }

  /** The string "undefined". */
  const UNDEFINED: Text := [117, 110, 100, 101, 102, 105, 110, 101, 100]

  /** decodePayloadAsBinary; what the callback returns is ignored. */
  method DecodePayloadAsBinary(data: seq<Byte>, base64: Base64) returns (deliveries: seq<Delivery>)
    ensures deliveries == BinaryDecoded(data, base64)
  {
    hide Split, SplitLeads, PacketOf, ReadLength, Digits, DigitsValue, Drop, Take, Received;
    SplitStart(data);
    var bufferTail := data;
    var buffers: seq<Message> := [];
    while |bufferTail| > 0
      invariant SplitLeads(Split(data), buffers, bufferTail)
      decreases |bufferTail|
    {
      SplitStep(Split(data), buffers, bufferTail);
      var marker := bufferTail[0];
      var msgLength := ScanLength(bufferTail);
      if msgLength.None? {
        return [FAILURE];
      }
      var length := DigitsValue(msgLength.value);
      bufferTail := Drop(bufferTail, 2 + |msgLength.value|);
      var msg := Take(bufferTail, length);
      buffers := buffers + [Received(marker, msg)];
      bufferTail := Drop(bufferTail, length);
    }
    SplitStep(Split(data), buffers, bufferTail);
    deliveries := [];
    for i := 0 to |buffers|
      invariant |deliveries| == i
      invariant forall k | 0 <= k < i :: deliveries[k] == Delivery(PacketOf(buffers[k], base64), k, |buffers|)
    {
      var packet := DecodePacket(buffers[i], base64);
      deliveries := deliveries + [Delivery(packet, i, |buffers|)];
    }
    assert deliveries == DeliveriesOf(buffers, base64);
  }

  /** The inner loop. Past the end of the buffer a byte reads as undefined. */
  method ScanLength(tailArray: seq<Byte>) returns (r: Option<Text>)
    requires tailArray != []
    ensures r == ReadLength(tailArray, 1, [])
  {
    hide Digits;
    var msgLength: Text := [];
    var i := 1;
    while true
      invariant 1 <= i
      invariant i <= |tailArray| ==> forall k | 0 <= k < |msgLength| :: IsDigit(msgLength[k])
      invariant ReadLength(tailArray, 1, []) == if i <= |tailArray| then ReadLength(tailArray, i, msgLength) else None
      decreases 311 - |msgLength|
    {
      if i < |tailArray| && tailArray[i] == SEPARATOR {
        return Some(msgLength);
      }
      if |msgLength| > 310 {
        return None;
      }
      msgLength := msgLength + if i < |tailArray| then Digits(tailArray[i]) else UNDEFINED;
      i := i + 1;
    }
  }

  /** `goal` is `done` followed by the messages in `tail`. */
  ghost predicate SplitLeads(goal: Option<seq<Message>>, done: seq<Message>, tail: seq<Byte>) {
    var rest := Split(tail);
    goal == if rest.None? then None else Some(done + rest.value)
  }

  lemma SplitStart(data: seq<Byte>)
    ensures SplitLeads(Split(data), [], data)
  {
    hide Split;
    if Split(data).Some? {
      assert [] + Split(data).value == Split(data).value;
    }
  }

  lemma SplitStep(goal: Option<seq<Message>>, done: seq<Message>, tail: seq<Byte>)
    requires SplitLeads(goal, done, tail)
    ensures if tail == [] then goal == Some(done)
            else
              var length := ReadLength(tail, 1, []);
              if length.None? then goal == None
              else
                var n := DigitsValue(length.value);
                var rest := Drop(tail, 2 + |length.value|);
                SplitLeads(goal, done + [Received(tail[0], Take(rest, n))], Drop(rest, n))
  {
    hide Split, ReadLength, DigitsValue, Drop, Take, Received;
    if tail == [] {
      NothingIsSplit();
      assert done + [] == done;
    } else {
      SplitCons(tail);
      var length := ReadLength(tail, 1, []);
      if length.Some? {
        var n := DigitsValue(length.value);
        var rest := Drop(tail, 2 + |length.value|);
        var others := Split(Drop(rest, n));
        if others.Some? {
          AppendOne(done, Received(tail[0], Take(rest, n)), others.value);
        }
      }
    }
  }

  lemma NothingIsSplit()
    ensures Split([]) == Some([])
  {
  }

  lemma SplitCons(tail: seq<Byte>)
    requires tail != []
    ensures var length := ReadLength(tail, 1, []);
            if length.None? then Split(tail) == None
            else
              var n := DigitsValue(length.value);
              var rest := Drop(tail, 2 + |length.value|);
              var others := Split(Drop(rest, n));
              Split(tail) == if others.None? then None else Some([Received(tail[0], Take(rest, n))] + others.value)
  {
    hide ReadLength, DigitsValue, Drop, Take, Received;
  }

  // ----- the round trip

  lemma {:induction false} DigitsAreRead(tail: seq<Byte>, digits: Text, k: nat)
    requires k <= |digits| <= 311 && |digits| + 1 < |tail| && tail[|digits| + 1] == SEPARATOR
    requires (forall i | 0 <= i < |digits| :: IsDigit(digits[i])) && forall i | 0 <= i < |digits| :: tail[i + 1] as int + 48 == digits[i]
    ensures ReadLength(tail, k + 1, digits[..k]) == Some(digits)
    decreases |digits| - k
  {
    if k == |digits| {
      assert digits[..k] == digits;
    } else {
      assert Digits(tail[k + 1]) == [digits[k]];
      assert digits[..k] + [digits[k]] == digits[..k + 1];
      DigitsAreRead(tail, digits, k + 1);
    }
  }

  /** Messages as the encoder makes them: not empty, and strings consist of bytes. */
  ghost predicate Framable(m: Message) {
    Content(m) != [] && |Content(m)| <= MAX_SAFE && (m.TextMessage? ==> IsBytes(m.text))
  }

  lemma BytesAreCharacters(text: Text)
    requires IsBytes(text)
    ensures Characters(CharBytes(text)) == text
  {
  }

  /** A frame at the front of the buffer: where its parts are. */
  lemma FrameParts(m: Message, rest: seq<Byte>)
    requires Framable(m)
    ensures var tail := BinaryFrame(m) + rest;
            var digits := Digits(|Content(m)|);
            && tail != [] && (tail[0] == 0 <==> m.TextMessage?)
            && |tail| > |digits| + 1 && tail[|digits| + 1] == SEPARATOR
            && (forall i | 0 <= i < |digits| :: tail[i + 1] as int + 48 == digits[i])
            && Drop(tail, 2 + |digits|) == Content(m) + rest
  {
    hide Digits, Content;
    var n := |Content(m)|;
    var head := [if m.TextMessage? then 0 else 1] + DigitBytes(n) + [SEPARATOR];
    assert BinaryFrame(m) + rest == head + (Content(m) + rest);
    assert (head + (Content(m) + rest))[|head|..] == Content(m) + rest;
  }

  lemma FrameIsSplit(m: Message, rest: seq<Byte>)
    requires Framable(m)
    ensures Split(BinaryFrame(m) + rest) == var others := Split(rest); if others.None? then None else Some([m] + others.value)
  {
    hide *;
    var tail := BinaryFrame(m) + rest;
    var n := |Content(m)|;
    LengthIsRead(m, rest);
    DigitsValueOfDigits(n);
    FrameParts(m, rest);
    ContentIsTaken(m, rest, tail[0]);
    SplitCons(tail);
  }

  lemma LengthIsRead(m: Message, rest: seq<Byte>)
    requires Framable(m)
    ensures ReadLength(BinaryFrame(m) + rest, 1, []) == Some(Digits(|Content(m)|))
  {
    hide ReadLength, BinaryFrame, Content, Digits, IsBytes;
    var digits := Digits(|Content(m)|);
    FrameParts(m, rest);
    SafeDigits(|Content(m)|);
    assert digits[..0] == [];
    DigitsAreRead(BinaryFrame(m) + rest, digits, 0);
  }

  lemma ContentIsTaken(m: Message, rest: seq<Byte>, marker: Byte)
    requires Framable(m) && (marker == 0 <==> m.TextMessage?)
    ensures var n := |Content(m)|;
            && Take(Content(m) + rest, n) == Content(m) && Drop(Content(m) + rest, n) == rest
            && Received(marker, Content(m)) == m
  {
    hide CharBytes, Characters, IsBytes;
    var n := |Content(m)|;
    assert (Content(m) + rest)[..n] == Content(m) && (Content(m) + rest)[n..] == rest;
    assert rest == [] ==> Content(m) + rest == Content(m);
    if m.TextMessage? {
      BytesAreCharacters(m.text);
    }
  }

  /** Splitting a payload into its messages undoes joining their frames. */
  lemma {:induction false} FramesAreSplit(ms: seq<Message>)
    requires forall m | m in ms :: Framable(m)
    ensures Split(BinaryFrames(ms)) == Some(ms)
  {
    hide *;
    BinaryFramesCons(ms);
    if ms == [] {
      NothingIsSplit();
    } else {
      FrameIsSplit(ms[0], BinaryFrames(ms[1..]));
      FramesAreSplit(ms[1..]);
      assert ms == [ms[0]] + ms[1..];
    }
  }

  lemma MessageIsFramable(p: Packet, base64: Base64)
    requires KnownKind(p) && MessageOf(p, true, base64).Some?
    requires |Content(MessageOf(p, true, base64).value)| <= MAX_SAFE
    ensures Framable(MessageOf(p, true, base64).value)
  {
    hide H.Encode, WellFormed;
    if p.data.TextData? {
      H.EncodeYieldsBytes(p.data.text);
    }
  }

  lemma {:induction false} ContentsFit(ms: seq<Message>, i: nat)
    requires i < |ms|
    ensures |Content(ms[i])| <= |BinaryFrames(ms)|
  {
    hide Content, DigitBytes;
    if i > 0 {
      ContentsFit(ms[1..], i - 1);
    }
  }

  /** Decoding an encoded binary payload delivers its packets in order, each with its position;
      only empty text is lost. */
  lemma BinaryRoundTrip(ps: seq<Packet>, base64: Base64)
    requires (forall p | p in ps :: KnownKind(p)) && Inverse(base64)
    requires Messages(ps, base64).Some? && |BinaryFrames(Messages(ps, base64).value)| <= MAX_SAFE
    ensures var deliveries := BinaryDecoded(BinaryFrames(Messages(ps, base64).value), base64);
            && |deliveries| == |ps|
            && forall i | 0 <= i < |ps| :: deliveries[i] == Delivery(Some(Arriving(ps[i])), i, |ps|)
  {
    hide Messages, BinaryFrames, Split, PacketOf, MessageOf, Content, Framable, Arriving;
    var ms := Messages(ps, base64).value;
    forall m | m in ms ensures Framable(m) {
      var i :| 0 <= i < |ms| && ms[i] == m;
      assert MessageOf(ps[i], true, base64) == Some(ms[i]);
      ContentsFit(ms, i);
      MessageIsFramable(ps[i], base64);
    }
    FramesAreSplit(ms);
    forall i | 0 <= i < |ps| ensures PacketOf(ms[i], base64) == Some(Arriving(ps[i])) {
      PacketRoundTrip(ps[i], true, base64);
    }
  }
}
