/** Packets on the wire: the encoder turns a packet into a header and its buffers, the decoder
    collects the pieces and hands out each packet when its last piece arrives. */
module PacketStream {
  import opened JsText
  import opened JsNumbers
  import opened JsValue
  import opened PacketCodec
  import Json3Printer
  import Json3RoundTrip
  import A = Attachments

  datatype Chunk = TextChunk(str: Text) | BinaryChunk(bytes: Text)

  // ----- what may be sent

  /** A finite tree of JSON values and buffers. */
  predicate Sendable(v: Value) {
    match v
    case Null => true
    case Bool(_) => true
    case Num(n) => -MAX_SAFE <= n <= MAX_SAFE
    case Str(_) => true
    case Binary(_) => true
    case Arr(es) => forall e | e in es :: Sendable(e)
    case Obj(ms) => DistinctKeys(ms) && forall m | m in ms :: Sendable(m.value)
    case _ => false
  }

  /** Packets as the encoder is given them: buffers only where the kind announces them. */
  predicate Encodable(p: Packet) {
    && p.kind <= 6
    && (p.id.Some? ==> p.id.value.Natural? && p.id.value.n <= MAX_SAFE)
    && p.attachments == None
    && (p.data == Undefined || (if IsBinaryKind(p.kind) then Sendable(p.data) else Json3Printer.JsonTree(p.data)))
    && |A.Strip(p.data, 0).buffers| <= MAX_SAFE
  }

  // ----- the encoder

  /** The packet without its buffers, and with their number. */
  function Deconstructed(p: Packet): Packet {
    var stripped := A.Strip(p.data, 0);
    p.(data := stripped.value, attachments := Some(Natural(|stripped.buffers|)))
  }

  function BinaryChunks(buffers: seq<Text>): (r: seq<Chunk>)
    ensures |r| == |buffers| && forall i | 0 <= i < |r| :: r[i] == BinaryChunk(buffers[i])
  {
    seq(|buffers|, i requires 0 <= i < |buffers| => BinaryChunk(buffers[i]))
  }

  /** The packet whose header is sent. */
  function Announced(p: Packet): Packet {
    if IsBinaryKind(p.kind) then Deconstructed(p) else p
  }

  function Buffers(p: Packet): seq<Text> {
    if IsBinaryKind(p.kind) then A.Strip(p.data, 0).buffers else []
  }

  function Encoded(p: Packet): seq<Chunk>
    requires Encodable(p)
  {
    AnnouncedIsWellTyped(p);
    [TextChunk(Header(Announced(p)))] + BinaryChunks(Buffers(p))
  }

  /** encode, encodeAsBinary and the packet part of deconstructPacket. */
  method Encode(p: Packet) returns (chunks: seq<Chunk>)
    requires Encodable(p)
    ensures chunks == Encoded(p)
  {
    hide Header, A.Strip;
    AnnouncedIsWellTyped(p);
    if IsBinaryKind(p.kind) {
      var deconstruction := new A.Deconstruction();
      var data := deconstruction.Deconstruct(p.data);
      var buffers := deconstruction.buffers;
      assert buffers == A.Strip(p.data, 0).buffers;
      var pack := p.(data := data, attachments := Some(Natural(|buffers|)));
      var header := EncodeAsString(pack);
      chunks := [TextChunk(header)] + BinaryChunks(buffers);
    } else {
      var header := EncodeAsString(p);
      chunks := [TextChunk(header)];
      assert BinaryChunks([]) == [];
    }
  }

  // ----- stripped data is JSON

  lemma {:induction false} WithoutProtoKeepsSome(ms: seq<Member>)
    ensures forall m | m in WithoutProto(ms) :: m in ms && m.key != PROTO
  {
    if ms != [] {
      WithoutProtoKeepsSome(ms[1..]);
    }
  }

  lemma {:induction false} WithoutProtoIsProper(ms: seq<Member>)
    requires DistinctKeys(ms)
    ensures DistinctKeys(WithoutProto(ms)) && !HasKey(WithoutProto(ms), PROTO)
    ensures forall m | m in WithoutProto(ms) :: m in ms
  {
    WithoutProtoKeepsSome(ms);
    if ms != [] && ms[0].key != PROTO {
      var rest := WithoutProto(ms[1..]);
      WithoutProtoIsProper(ms[1..]);
      WithoutProtoKeepsSome(ms[1..]);
      ConsIsDistinct(ms[0], rest);
    } else if ms != [] {
      WithoutProtoIsProper(ms[1..]);
    }
  }

  lemma ConsIsDistinct(m: Member, rest: seq<Member>)
    requires DistinctKeys(rest) && forall r | r in rest :: r.key != m.key
    ensures DistinctKeys([m] + rest)
  {
  }

  lemma {:induction false} SendableIsProper(v: Value)
    requires Sendable(v)
    ensures A.Proper(v)
  {
    match v {
      case Arr(es) => forall e | e in es ensures A.Proper(e) { SendableIsProper(e); }
      case Obj(ms) => forall m | m in ms ensures A.Proper(m.value) { SendableIsProper(m.value); }
      case _ =>
    }
  }

  /** JSON data whose objects own no `__proto__`. */
  predicate PlainJson(v: Value) {
    Json3Printer.JsonTree(v) && Json3RoundTrip.ProtoFree(v)
  }

  lemma PlainObject(ms: seq<Member>)
    requires DistinctKeys(ms) && forall m | m in ms :: PlainJson(m.value)
    ensures PlainJson(Obj(WithoutProto(ms)))
  {
    hide WithoutProto, HasKey, DistinctKeys;
    WithoutProtoIsProper(ms);
  }

  lemma PlaceholderIsPlain(n: nat)
    requires n <= MAX_SAFE
    ensures PlainJson(A.Placeholder(n))
  {
    A.NamesDiffer();
  }

  /** Stripping leaves JSON that survives printing and parsing. */
  lemma {:induction false} StrippedIsPlain(v: Value, n: nat)
    requires Sendable(v) && n + |A.Strip(v, n).buffers| <= MAX_SAFE
    ensures PlainJson(A.Strip(v, n).value)
    decreases v, 1
  {
    match v {
      case Binary(b) => PlaceholderIsPlain(n);
      case Arr(es) =>
        hide A.StripAll, Sendable;
        SendableParts(v);
        StrippedAllIsPlain(es, n);
      case Obj(ms) =>
        hide A.StripMembers, A.Strip, WithoutProto, HasKey, DistinctKeys, Sendable, PlainJson, A.IsPlaceholder;
        SendableParts(v);
        StripBuffers(v, n);
        A.StripObject(ms, n);
        StrippedMembersIsPlain(ms, n);
        SameDistinct(A.StripMembers(ms, n).value, ms);
        PlainObject(A.StripMembers(ms, n).value);
      case _ =>
    }
  }

  lemma SendableParts(v: Value)
    requires Sendable(v)
    ensures v.Arr? ==> forall e | e in v.elems :: Sendable(e)
    ensures v.Obj? ==> DistinctKeys(v.members) && forall m | m in v.members :: Sendable(m.value)
  {
  }

  lemma StripBuffers(v: Value, n: nat)
    ensures v.Arr? ==> A.Strip(v, n).buffers == A.StripAll(v.elems, n).buffers
    ensures v.Obj? ==> A.Strip(v, n).buffers == A.StripMembers(v.members, n).buffers
  {
  }

  lemma SameDistinct(ms: seq<Member>, ns: seq<Member>)
    requires |ms| == |ns| && forall i | 0 <= i < |ms| :: ms[i].key == ns[i].key
    ensures DistinctKeys(ns) ==> DistinctKeys(ms)
  {
  }

  lemma {:induction false} StrippedAllIsPlain(es: seq<Value>, n: nat)
    requires (forall e | e in es :: Sendable(e)) && n + |A.StripAll(es, n).buffers| <= MAX_SAFE
    ensures forall e | e in A.StripAll(es, n).value :: PlainJson(e)
    decreases es, 0
  {
    hide *;
    A.StripAllCons(es, n);
    if es != [] {
      var head := A.Strip(es[0], n);
      StrippedIsPlain(es[0], n);
      StrippedAllIsPlain(es[1..], n + |head.buffers|);
    }
  }

  lemma {:induction false} StrippedMembersIsPlain(ms: seq<Member>, n: nat)
    requires (forall m | m in ms :: Sendable(m.value)) && n + |A.StripMembers(ms, n).buffers| <= MAX_SAFE
    ensures forall m | m in A.StripMembers(ms, n).value :: PlainJson(m.value)
    decreases ms, 0
  {
    hide *;
    A.StripMembersCons(ms, n);
    if ms != [] {
      var head := A.Strip(ms[0].value, n);
      StrippedIsPlain(ms[0].value, n);
      StrippedMembersIsPlain(ms[1..], n + |head.buffers|);
    }
  }

  lemma AnnouncedIsWellTyped(p: Packet)
    requires Encodable(p)
    ensures WellTyped(Announced(p))
  {
    hide A.Strip;
    if IsBinaryKind(p.kind) {
      if p.data == Undefined {
        StripLeaf(p.data, 0);
      } else {
        StrippedIsPlain(p.data, 0);
      }
    }
  }

  lemma StripLeaf(v: Value, n: nat)
    requires !v.Arr? && !v.Obj? && !v.Binary?
    ensures A.Strip(v, n) == A.Stripped(v, [])
  {
  }

  // ----- data without buffers

  /** Without buffers, stripping changes nothing exactly if no object owns `__proto__`. */
  lemma {:induction false} StripNothing(v: Value, n: nat)
    requires A.Proper(v) && A.Strip(v, n).buffers == []
    ensures A.Strip(v, n).value == v <==> Json3RoundTrip.ProtoFree(v)
    decreases v, 1
  {
    match v {
      case Arr(es) =>
        hide A.StripAll;
        assert forall e | e in es :: A.Proper(e);
        StripNothingAll(es, n);
      case Obj(ms) => StripNothingObject(ms, n);
      case _ =>
    }
  }

  lemma {:induction false} StripNothingObject(ms: seq<Member>, n: nat)
    requires A.Proper(Obj(ms)) && A.Strip(Obj(ms), n).buffers == []
    ensures A.Strip(Obj(ms), n).value == Obj(ms) <==> Json3RoundTrip.ProtoFree(Obj(ms))
    decreases ms, 1
  {
    hide A.StripMembers, A.Strip, WithoutProto, HasKey, DistinctKeys, A.Proper, A.IsPlaceholder;
    var stripped := A.StripMembers(ms, n).value;
    A.ProperMembers(ms);
    StripBuffers(Obj(ms), n);
    A.StripObject(ms, n);
    StripNothingMembers(ms, n);
    A.SameKeys(stripped, ms);
    WithoutProtoKeepsAll(stripped);
  }

  lemma {:induction false} StripNothingAll(es: seq<Value>, n: nat)
    requires (forall e | e in es :: A.Proper(e)) && A.StripAll(es, n).buffers == []
    ensures A.StripAll(es, n).value == es <==> Json3RoundTrip.AllProtoFree(es)
    decreases es, 0
  {
    hide *;
    A.StripAllCons(es, n);
    Json3RoundTrip.AllProtoFreeCons(es);
    if es != [] {
      var head := A.Strip(es[0], n);
      assert head.buffers == [];
      StripNothing(es[0], n);
      StripNothingAll(es[1..], n);
      ConsIsSame(head.value, A.StripAll(es[1..], n).value, es);
    }
  }

  lemma {:induction false} StripNothingMembers(ms: seq<Member>, n: nat)
    requires (forall m | m in ms :: A.Proper(m.value)) && A.StripMembers(ms, n).buffers == []
    ensures A.StripMembers(ms, n).value == ms <==> Json3RoundTrip.MembersProtoFree(ms)
    decreases ms, 0
  {
    hide *;
    A.StripMembersCons(ms, n);
    Json3RoundTrip.MembersProtoFreeCons(ms);
    if ms != [] {
      var head := A.Strip(ms[0].value, n);
      assert head.buffers == [];
      StripNothing(ms[0].value, n);
      StripNothingMembers(ms[1..], n);
      ConsIsSame(Member(ms[0].key, head.value), A.StripMembers(ms[1..], n).value, ms);
    }
  }

  // ----- the order of members

  /** Taking the buffers out leaves `constructor` last. */
  lemma {:induction false} StripKeepsOrder(v: Value, n: nat)
    requires A.Proper(v) && Json3Printer.ConstructorLast(v)
    ensures Json3Printer.ConstructorLast(A.Strip(v, n).value)
    decreases v, 1
  {
    match v {
      case Binary(b) => PlaceholderKeepsOrder(n);
      case Arr(es) =>
        hide A.StripAll, Json3Printer.AllLast;
        assert forall e | e in es :: A.Proper(e);
        StripAllKeepsOrder(es, n);
      case Obj(ms) =>
        hide A.StripMembers, A.Strip, WithoutProto, DistinctKeys, A.Proper, A.IsPlaceholder;
        hide Json3Printer.KeysLast, Json3Printer.MembersLast;
        var stripped := A.StripMembers(ms, n).value;
        A.ProperMembers(ms);
        A.StripObject(ms, n);
        StripMembersKeepsOrder(ms, n);
        Json3Printer.SameKeysLast(stripped, ms);
        Json3RoundTrip.WithoutProtoKeepsLast(stripped);
        Json3RoundTrip.WithoutProtoKeepsMembersLast(stripped);
      case _ =>
    }
  }

  lemma PlaceholderKeepsOrder(n: nat)
    ensures Json3Printer.ConstructorLast(A.Placeholder(n))
  {
    var ms := A.Placeholder(n).members;
    assert ms[0].key[0] != Json3Printer.CONSTRUCTOR[0];
    var rest := ms[1..];
    assert Json3Printer.ConstructorLast(rest[0].value) && Json3Printer.MembersLast(rest[1..]);
    assert Json3Printer.MembersLast(rest) && Json3Printer.ConstructorLast(ms[0].value);
  }

  lemma {:induction false} StripAllKeepsOrder(es: seq<Value>, n: nat)
    requires (forall e | e in es :: A.Proper(e)) && Json3Printer.AllLast(es)
    ensures Json3Printer.AllLast(A.StripAll(es, n).value)
    decreases es, 0
  {
    hide A.StripAll, A.Strip, A.Proper, Json3Printer.ConstructorLast;
    A.StripAllCons(es, n);
    if es != [] {
      var head := A.Strip(es[0], n);
      StripKeepsOrder(es[0], n);
      StripAllKeepsOrder(es[1..], n + |head.buffers|);
    }
  }

  lemma {:induction false} StripMembersKeepsOrder(ms: seq<Member>, n: nat)
    requires (forall m | m in ms :: A.Proper(m.value)) && Json3Printer.MembersLast(ms)
    ensures Json3Printer.MembersLast(A.StripMembers(ms, n).value)
    decreases ms, 0
  {
    hide A.StripMembers, A.Strip, A.Proper, Json3Printer.ConstructorLast;
    A.StripMembersCons(ms, n);
    if ms != [] {
      var head := A.Strip(ms[0].value, n);
      StripKeepsOrder(ms[0].value, n);
      StripMembersKeepsOrder(ms[1..], n + |head.buffers|);
    }
  }

  /** So does putting them back. */
  lemma {:induction false} RestoreKeepsOrder(v: Value, buffers: seq<Text>)
    requires Json3Printer.ConstructorLast(v)
    ensures Json3Printer.ConstructorLast(A.Restore(v, buffers))
    decreases v, 1
  {
    match v {
      case Arr(es) =>
        hide A.RestoreAll, Json3Printer.AllLast;
        RestoreAllKeepsOrder(es, buffers);
      case Obj(ms) =>
        hide A.RestoreMembers, A.IsPlaceholder, Lookup, Json3Printer.KeysLast, Json3Printer.MembersLast;
        RestoreKeepsKeys(ms, buffers);
        RestoreMembersKeepsOrder(ms, buffers);
        Json3Printer.SameKeysLast(A.RestoreMembers(ms, buffers), ms);
      case _ =>
    }
  }

  lemma {:induction false} RestoreKeepsKeys(ms: seq<Member>, buffers: seq<Text>)
    ensures forall i | 0 <= i < |ms| :: A.RestoreMembers(ms, buffers)[i].key == ms[i].key
  {
    hide A.RestoreMembers, A.Restore;
    A.RestoreMembersCons(ms, buffers);
    if ms != [] {
      RestoreKeepsKeys(ms[1..], buffers);
    }
  }

  lemma {:induction false} RestoreAllKeepsOrder(es: seq<Value>, buffers: seq<Text>)
    requires Json3Printer.AllLast(es)
    ensures Json3Printer.AllLast(A.RestoreAll(es, buffers))
    decreases es, 0
  {
    hide A.RestoreAll, A.Restore, Json3Printer.ConstructorLast;
    A.RestoreAllCons(es, buffers);
    if es != [] {
      RestoreKeepsOrder(es[0], buffers);
      RestoreAllKeepsOrder(es[1..], buffers);
    }
  }

  lemma {:induction false} RestoreMembersKeepsOrder(ms: seq<Member>, buffers: seq<Text>)
    requires Json3Printer.MembersLast(ms)
    ensures Json3Printer.MembersLast(A.RestoreMembers(ms, buffers))
    decreases ms, 0
  {
    hide A.RestoreMembers, A.Restore, Json3Printer.ConstructorLast;
    A.RestoreMembersCons(ms, buffers);
    if ms != [] {
      RestoreKeepsOrder(ms[0].value, buffers);
      RestoreMembersKeepsOrder(ms[1..], buffers);
    }
  }

  // ----- the decoder

  datatype Reconstruction = Reconstruction(pack: Packet, buffers: seq<Text>)

  /** What one call of `add` does: nothing yet, the `decoded` event, or an exception. */
  datatype Outcome = Nothing | Emits(packet: Decoded) | Raises

  datatype Added = Added(pending: Option<Reconstruction>, outcome: Outcome)

  function Completed(r: Reconstruction): Packet {
    r.pack.(data := A.Restore(r.pack.data, r.buffers), attachments := None)
  }

  function Take(r: Reconstruction, bytes: Text): Added {
    var r' := r.(buffers := r.buffers + [bytes]);
    if r.pack.attachments == Some(Natural(|r'.buffers|)) then Added(None, Emits(Read(Completed(r'))))
    else Added(Some(r'), Nothing)
  }

  function AddText(pending: Option<Reconstruction>, decoded: Decoded): Added {
    match decoded
    case Throws => Added(pending, Raises)
    case ParserError => Added(pending, Emits(ParserError))
    case Read(p) =>
      if !IsBinaryKind(p.kind) then Added(pending, Emits(Read(p)))
      else Added(Some(Reconstruction(p, [])), if p.attachments == Some(Natural(0)) then Emits(Read(p)) else Nothing)
  }

  function Add(pending: Option<Reconstruction>, chunk: Chunk, number: Text -> JsNumber): Added {
    match chunk
    case TextChunk(str) => AddText(pending, DecodeHeader(str, number))
    case BinaryChunk(bytes) =>
      if pending.None? then Added(None, Raises) else Take(pending.value, bytes)
  }

  class BinaryReconstructor {
    var reconPack: Option<Packet>
    var buffers: seq<Text>

    constructor (packet: Packet)
      ensures reconPack == Some(packet) && buffers == []
    {
      reconPack := Some(packet);
      buffers := [];
    }

    method TakeBinaryData(binData: Text) returns (packet: Option<Packet>)
      requires reconPack.Some?
      modifies this
      ensures var r := Take(Reconstruction(old(reconPack).value, old(buffers)), binData);
              && (r.pending.Some? ==> packet == None && reconPack == Some(r.pending.value.pack) && buffers == r.pending.value.buffers)
              && (r.pending.None? ==> packet.Some? && r.outcome == Emits(Read(packet.value)) && reconPack == None && buffers == [])
    {
      hide A.Restore;
      buffers := buffers + [binData];
      if reconPack.value.attachments == Some(Natural(|buffers|)) {
        var data := A.Reconstruct(reconPack.value.data, buffers);
        packet := Some(reconPack.value.(data := data, attachments := None));
        FinishedReconstruction();
      } else {
        packet := None;
      }
    }

    method FinishedReconstruction()
      modifies this
      ensures reconPack == None && buffers == []
    {
      reconPack := None;
      buffers := [];
    }
  }

  class Decoder {
    var reconstructor: BinaryReconstructor?

    ghost predicate Valid()
      reads this, reconstructor
    {
      reconstructor != null ==> reconstructor.reconPack.Some?
    }

    ghost function Pending(): Option<Reconstruction>
      requires Valid()
      reads this, reconstructor
    {
      if reconstructor == null then None
      else Some(Reconstruction(reconstructor.reconPack.value, reconstructor.buffers))
    }

    constructor ()
      ensures Valid() && Pending() == None
    {
      reconstructor := null;
    }

    method AddChunk(obj: Chunk, number: Text -> JsNumber) returns (outcome: Outcome)
      requires Valid()
      modifies this, reconstructor
      ensures Valid() && Added(Pending(), outcome) == Add(old(Pending()), obj, number)
      ensures reconstructor != null ==> reconstructor == old(reconstructor) || fresh(reconstructor)
    {
      hide DecodeHeader, A.Restore;
      match obj
      case TextChunk(str) =>
        var decoded := DecodeString(str, number);
        match decoded {
          case Throws => outcome := Raises;
          case ParserError => outcome := Emits(ParserError);
          case Read(packet) =>
            outcome := Emits(decoded);
            if IsBinaryKind(packet.kind) {
              reconstructor := new BinaryReconstructor(packet);
              if packet.attachments != Some(Natural(0)) {
                outcome := Nothing;
              }
            }
        }
      case BinaryChunk(bytes) =>
        if reconstructor == null {
          return Raises;
        }
        var packet := reconstructor.TakeBinaryData(bytes);
        outcome := Nothing;
        if packet.Some? {
          reconstructor := null;
          outcome := Emits(Read(packet.value));
        }
    }
  }

  // ----- whole transmissions

  datatype Fed = Fed(pending: Option<Reconstruction>, outcomes: seq<Outcome>)

  function Feed(pending: Option<Reconstruction>, chunks: seq<Chunk>, number: Text -> JsNumber): (r: Fed)
    ensures |r.outcomes| == |chunks|
    decreases |chunks|
  {
    if chunks == [] then Fed(pending, [])
    else
      var first := Add(pending, chunks[0], number);
      var rest := Feed(first.pending, chunks[1..], number);
      Fed(rest.pending, [first.outcome] + rest.outcomes)
  }

  function Silence(n: nat): (r: seq<Outcome>)
    ensures |r| == n && forall i | 0 <= i < n :: r[i] == Nothing
  {
    seq(n, i => Nothing)
  }

  /** The packet as it comes out: without buffers, the binary kinds keep the count 0. */
  function Delivered(p: Packet): Packet {
    if IsBinaryKind(p.kind) && Buffers(p) == [] then p.(attachments := Some(Natural(0))) else p
  }

  /** The packet comes out once, with its last piece. */
  function Expected(p: Packet): seq<Outcome> {
    Silence(|Buffers(p)|) + [Emits(Read(Delivered(p)))]
  }

  /** The packets that arrive unchanged: the namespace starts with a slash and has no comma;
      with buffers no object has a truthy `_placeholder`, and without them the data is neither
      null nor a non-negative number; no object owns `__proto__` or a property behind one
      called `constructor`. */
  predicate Transmittable(p: Packet) {
    && NspReadable(p) && Json3Printer.ConstructorLast(p.data)
    && (if Buffers(p) != [] then A.Clean(p.data)
        else p.data != Null && !(p.data.Num? && p.data.n >= 0) && Json3RoundTrip.ProtoFree(p.data))
  }

  lemma FeedCons(pending: Option<Reconstruction>, chunk: Chunk, chunks: seq<Chunk>, number: Text -> JsNumber)
    ensures var first := Add(pending, chunk, number);
            var rest := Feed(first.pending, chunks, number);
            Feed(pending, [chunk] + chunks, number) == Fed(rest.pending, [first.outcome] + rest.outcomes)
  {
    hide Add;
    assert ([chunk] + chunks)[1..] == chunks;
  }

  lemma FeedNothing(pending: Option<Reconstruction>, number: Text -> JsNumber)
    ensures Feed(pending, [], number) == Fed(pending, [])
  {
  }

  /** Feeding two runs of chunks one after the other. */
  lemma {:induction false} FeedConcat(pending: Option<Reconstruction>, a: seq<Chunk>, b: seq<Chunk>, number: Text -> JsNumber)
    ensures var first := Feed(pending, a, number);
            var rest := Feed(first.pending, b, number);
            Feed(pending, a + b, number) == Fed(rest.pending, first.outcomes + rest.outcomes)
    decreases |a|
  {
    hide *;
    if a == [] {
      FeedNothing(pending, number);
      assert a + b == b;
    } else {
      var first := Add(pending, a[0], number);
      FeedCons(pending, a[0], a[1..], number);
      FeedCons(pending, a[0], a[1..] + b, number);
      FeedConcat(first.pending, a[1..], b, number);
      assert [a[0]] + a[1..] == a && [a[0]] + (a[1..] + b) == a + b;
    }
  }

  lemma AddBuffer(r: Reconstruction, b: Text, n: nat, number: Text -> JsNumber)
    requires r.pack.attachments == Some(Natural(|r.buffers| + n)) && n > 0
    ensures Add(Some(r), BinaryChunk(b), number)
            == if n == 1 then Added(None, Emits(Read(Completed(r.(buffers := r.buffers + [b])))))
               else Added(Some(r.(buffers := r.buffers + [b])), Nothing)
  {
    hide Completed;
  }

  lemma BinaryChunksCons(bs: seq<Text>)
    requires bs != []
    ensures BinaryChunks(bs) == [BinaryChunk(bs[0])] + BinaryChunks(bs[1..])
  {
  }

  lemma SilenceCons(n: nat, o: Outcome)
    ensures Silence(n + 1) + [o] == [Nothing] + (Silence(n) + [o])
    ensures Silence(0) + [o] == [o]
  {
    assert Silence(n + 1) == [Nothing] + Silence(n);
  }

  lemma AppendAssociates(a: seq<Text>, bs: seq<Text>)
    requires bs != []
    ensures a + [bs[0]] + bs[1..] == a + bs
    ensures |bs| == 1 ==> a + [bs[0]] == a + bs
  {
    assert bs == [bs[0]] + bs[1..];
  }

  /** Buffers are collected silently; the last one completes the packet. */
  lemma {:induction false} BuffersComplete(r: Reconstruction, bs: seq<Text>, number: Text -> JsNumber)
    requires bs != [] && r.pack.attachments == Some(Natural(|r.buffers| + |bs|))
    ensures Feed(Some(r), BinaryChunks(bs), number)
            == Fed(None, Silence(|bs| - 1) + [Emits(Read(Completed(r.(buffers := r.buffers + bs))))])
    decreases |bs|
  {
    hide *;
    var rest := bs[1..];
    var taken := r.(buffers := r.buffers + [bs[0]]);
    BinaryChunksCons(bs);
    AddBuffer(r, bs[0], |bs|, number);
    AppendAssociates(r.buffers, bs);
    FeedCons(Some(r), BinaryChunk(bs[0]), BinaryChunks(rest), number);
    var done := Emits(Read(Completed(r.(buffers := r.buffers + bs))));
    if rest == [] {
      assert BinaryChunks(rest) == [];
      FeedNothing(None, number);
      SilenceCons(0, done);
    } else {
      BuffersComplete(taken, rest, number);
      SilenceCons(|rest| - 1, done);
    }
  }

  /** What a packet's header makes of it: the data loses its buffers and any `__proto__`. */
  lemma HeaderArrives(p: Packet, number: Text -> JsNumber)
    requires Encodable(p) && ReadsDecimal(number)
    ensures var q := Announced(p);
            WellTyped(q) && (DecodeHeader(Header(q), number) == Read(q) <==> Readable(q))
            && ReadsOnly(DecodeHeader(Header(q), number), q)
  {
    hide *;
    AnnouncedIsWellTyped(p);
    HeaderRoundTrip(Announced(p), number);
  }

  /** The announced packet is readable exactly if the namespace is, given a tree of data in
      the order in which it is printed. */
  lemma AnnouncedIsReadable(p: Packet)
    requires Encodable(p) && IsBinaryKind(p.kind)
    ensures Readable(Announced(p)) <==>
            && NspReadable(p) && p.data != Null && !(p.data.Num? && p.data.n >= 0)
            && Json3Printer.ConstructorLast(Announced(p).data)
    ensures Json3Printer.ConstructorLast(p.data) ==> Json3Printer.ConstructorLast(Announced(p).data)
    ensures Buffers(p) != [] ==> p.data != Null && !p.data.Num?
  {
    hide A.Strip, Json3RoundTrip.ProtoFree, Json3Printer.ConstructorLast, A.Proper;
    StripKinds(p.data);
    if p.data == Undefined {
      UndefinedIsFree();
    } else {
      StrippedIsPlain(p.data, 0);
      SendableIsProper(p.data);
    }
    if Json3Printer.ConstructorLast(p.data) {
      StripKeepsOrder(p.data, 0);
    }
  }

  lemma UndefinedIsFree()
    ensures A.Strip(Undefined, 0) == A.Stripped(Undefined, [])
    ensures Json3RoundTrip.ProtoFree(Undefined)
    ensures A.Proper(Undefined)
  {
  }

  lemma StripKinds(v: Value)
    ensures A.Strip(v, 0).value == Null <==> v == Null
    ensures v.Num? || A.Strip(v, 0).value.Num? ==> A.Strip(v, 0).value == v
    ensures A.Strip(v, 0).buffers != [] ==> v != Null && !v.Num?
  {
  }

  lemma StripIsSame(p: Packet)
    requires Encodable(p) && IsBinaryKind(p.kind) && Buffers(p) == []
    ensures Announced(p).data == p.data <==> Json3RoundTrip.ProtoFree(p.data)
  {
    hide A.Strip, Json3RoundTrip.ProtoFree, A.Proper;
    if p.data == Undefined {
      UndefinedIsFree();
    } else {
      SendableIsProper(p.data);
    }
    StripNothing(p.data, 0);
  }

  /** A freshly announced packet, its buffers still to come. */
  lemma BuffersRestore(p: Packet)
    requires Encodable(p) && IsBinaryKind(p.kind) && Buffers(p) != []
    ensures A.Restore(Announced(p).data, Buffers(p)) == p.data <==> A.Clean(p.data)
  {
    hide A.Strip, A.Clean, A.Restore, A.Proper;
    if p.data == Undefined {
      UndefinedIsFree();
      assert false;
    }
    SendableIsProper(p.data);
    assert Buffers(p)[0..0 + |Buffers(p)|] == Buffers(p);
    A.RestoreStrip(p.data, 0, Buffers(p));
  }

  lemma DeliveredWithBuffers(p: Packet, pending: Option<Reconstruction>, number: Text -> JsNumber)
    requires Encodable(p) && ReadsDecimal(number) && Buffers(p) != []
    ensures Feed(pending, Encoded(p), number).outcomes == Expected(p) <==> Transmittable(p)
  {
    hide Feed, Header, A.Strip, A.Clean, A.Restore, ReadsDecimal, Sendable, Json3Printer.JsonTree, DecodeHeader, Readable;
    hide Json3Printer.ConstructorLast;
    var q := Announced(p);
    var bs := Buffers(p);
    HeaderArrives(p, number);
    AnnouncedIsReadable(p);
    BuffersRestore(p);
    var decoded := DecodeHeader(Header(q), number);
    FeedCons(pending, TextChunk(Header(q)), BinaryChunks(bs), number);
    var first := AddText(pending, decoded);
    var outcomes := Feed(pending, Encoded(p), number).outcomes;
    assert Expected(p)[0] == Nothing;
    if decoded.Read? {
      var r := Reconstruction(decoded.packet, []);
      BuffersComplete(r, bs, number);
      assert [] + bs == bs;
      var done := Completed(r.(buffers := bs));
      SilenceCons(|bs| - 1, Emits(Read(done)));
      SilenceCons(|bs| - 1, Emits(Read(p)));
      if Json3Printer.ConstructorLast(decoded.packet.data) {
        RestoreKeepsOrder(decoded.packet.data, bs);
      }
      assert outcomes == Silence(|bs|) + [Emits(Read(done))];
      assert outcomes[|bs|] == Emits(Read(done)) && Expected(p)[|bs|] == Emits(Read(p));
    } else {
      assert outcomes[0] != Nothing;
    }
  }

  /** Whatever the decoder held before, feeding it a packet's encoding brings out that packet
      once, with the last piece, exactly if the packet is transmittable. */
  lemma Delivery(p: Packet, pending: Option<Reconstruction>, number: Text -> JsNumber)
    requires Encodable(p) && ReadsDecimal(number)
    ensures Feed(pending, Encoded(p), number).outcomes == Expected(p) <==> Transmittable(p)
  {
    if Buffers(p) != [] {
      DeliveredWithBuffers(p, pending, number);
    } else {
      hide Feed, Header, A.Strip, A.Clean, A.Restore, ReadsDecimal, Encodable, DecodeHeader, Json3Printer.ConstructorLast;
      var q := Announced(p);
      HeaderArrives(p, number);
      var decoded := DecodeHeader(Header(q), number);
      FeedCons(pending, TextChunk(Header(q)), [], number);
      var first := AddText(pending, decoded);
      FeedNothing(first.pending, number);
      assert BinaryChunks([]) == [];
      assert Feed(pending, Encoded(p), number).outcomes == [first.outcome];
      assert Expected(p) == [Emits(Read(Delivered(p)))];
      if IsBinaryKind(p.kind) {
        AnnouncedIsReadable(p);
        StripIsSame(p);
      }
    }
  }

  // ----- streams of packets

  function EncodedAll(ps: seq<Packet>): seq<Chunk>
    requires forall p | p in ps :: Encodable(p)
  {
    if ps == [] then [] else Encoded(ps[0]) + EncodedAll(ps[1..])
  }

  function ExpectedAll(ps: seq<Packet>): seq<Outcome> {
    if ps == [] then [] else Expected(ps[0]) + ExpectedAll(ps[1..])
  }

  lemma SplitEqual<T>(a: seq<T>, b: seq<T>, c: seq<T>, d: seq<T>)
    requires |a| == |c|
    ensures a + b == c + d <==> a == c && b == d
  {
    if a + b == c + d {
      assert a == (a + b)[..|a|] && b == (a + b)[|a|..];
      assert c == (c + d)[..|c|] && d == (c + d)[|c|..];
    }
  }

  /** One decoder fed any number of packets: each comes out once, in order and unchanged,
      exactly if all of them are transmittable. */
  lemma {:induction false} StreamDelivery(ps: seq<Packet>, pending: Option<Reconstruction>, number: Text -> JsNumber)
    requires (forall p | p in ps :: Encodable(p)) && ReadsDecimal(number)
    ensures Feed(pending, EncodedAll(ps), number).outcomes == ExpectedAll(ps) <==> forall p | p in ps :: Transmittable(p)
    decreases |ps|
  {
    hide Feed, Encoded, Expected, Encodable, ReadsDecimal, Transmittable;
    if ps == [] {
      FeedNothing(pending, number);
    } else {
      var first := Feed(pending, Encoded(ps[0]), number);
      FeedConcat(pending, Encoded(ps[0]), EncodedAll(ps[1..]), number);
      Delivery(ps[0], pending, number);
      StreamDelivery(ps[1..], first.pending, number);
      SameLength(ps[0]);
      SplitEqual(first.outcomes, Feed(first.pending, EncodedAll(ps[1..]), number).outcomes, Expected(ps[0]), ExpectedAll(ps[1..]));
      assert ps == [ps[0]] + ps[1..];
    }
  }

  lemma SameLength(p: Packet)
    requires Encodable(p)
    ensures |Encoded(p)| == |Expected(p)|
  {
  }
}
