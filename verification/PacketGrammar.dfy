/** What the packet decoder makes of any input: which strings are packet headers, and what a
    stream of pieces gives that was not written by the encoder. */
module PacketGrammar {
  import opened JsText
  import opened JsNumbers
  import opened JsValue
  import opened PacketCodec
  import opened PacketStream
  import Json3Parser
  import A = Attachments

  // ----- headers

  /** A header in its parts: the character for the kind, the count in front of the dash, the
      namespace, a comma behind it or not, the id and the data. */
  datatype Parts = Parts(mark: CodeUnit, count: Text, nsp: Text, comma: bool, id: Text, data: Text)

  /** `Number` makes a kind of a digit, and 0 of white space. */
  predicate IsMark(c: int) {
    IsNumeric(c) && !(55 <= c <= 57)
  }

  function KindFor(c: int): nat {
    if 48 <= c <= 54 then c - 48 else 0
  }

  predicate IsBinaryMark(c: int) { IsBinaryKind(KindFor(c)) }

  function Front(p: Parts): Text {
    [p.mark] + if IsBinaryMark(p.mark) then p.count + [DASH] else []
  }

  function Rest(p: Parts): Text {
    p.nsp + ((if p.comma then [COMMA] else []) + (p.id + p.data))
  }

  /** The parts end where the next one begins: a count has no dash, a namespace begins with a slash and
      has no comma, and nothing follows it without one; an id is as long as possible. */
  predicate WellCut(p: Parts) {
    && IsMark(p.mark) && DASH !in p.count
    && (p.nsp == [] ==> !p.comma && (p.id + p.data == [] || (p.id + p.data)[0] != SLASH))
    && (p.nsp != [] ==> p.nsp[0] == SLASH && COMMA !in p.nsp && (!p.comma ==> p.id == [] && p.data == []))
    && (forall k | 0 <= k < |p.id| :: IsNumeric(p.id[k]))
    && (p.data == [] || !IsNumeric(p.data[0]))
  }

  /** The packet that the parts denote. */
  function Denoted(p: Parts, number: Text -> JsNumber): Decoded {
    var count := if IsBinaryMark(p.mark) then Some(number(p.count)) else None;
    var nsp := if p.nsp == [] then [SLASH] else p.nsp;
    var id := if p.id == [] then None else Some(number(p.id));
    var data := if p.data == [] then Some(Undefined) else Json3Parser.ParseText(p.data);
    if count == Some(NotANumber) then Throws
    else if data.None? then ParserError
    else Read(Packet(KindFor(p.mark), nsp, id, data.value, count))
  }

  /** The first numeric run. */
  lemma NumericRun(str: Text, j: nat, a: Text, b: Text)
    requires j <= |str| && str[j..] == a + b
    requires (forall k | 0 <= k < |a| :: IsNumeric(a[k])) && (b == [] || !IsNumeric(b[0]))
    ensures |str| == j + |a| + |b| && str[j..j + |a|] == a && str[j + |a|..] == b
    ensures NumericEnd(str, j) == j + |a|
  {
    hide NumericEnd, IsNumeric;
    PartsLie(str, j, a, b);
    NumericSkips(str, j, j + |a|);
    NumericStops(str, j + |a|);
  }

  /** Where the namespace ends and the id begins. */
  lemma NamespaceEnds(str: Text, i: nat, p: Parts)
    requires WellCut(p) && i <= |str| && str[i..] == Rest(p)
    ensures var hasNsp := i < |str| && str[i] == SLASH;
            var nspEnd := if hasNsp then Find(str, i, COMMA) else i;
            var j := if hasNsp && nspEnd < |str| then nspEnd + 1 else nspEnd;
            && (hasNsp <==> p.nsp != []) && str[i..nspEnd] == p.nsp
            && str[j..] == p.id + p.data
  {
    hide Find, IsNumeric;
    var tail := p.id + p.data;
    if p.nsp == [] {
      assert Rest(p) == tail;
      assert tail != [] ==> str[i] == str[i..][0];
    } else {
      var comma := if p.comma then [COMMA] else [];
      FindPart(str, i, p.nsp, comma + tail, COMMA);
      assert str[i] == str[i..][0] == p.nsp[0];
      var e := i + |p.nsp|;
      assert str[e..] == comma + tail;
      if p.comma {
        assert str[e + 1..] == str[e..][1..] == tail;
      } else {
        assert comma + tail == [];
      }
    }
  }

  lemma IdIsRun(p: Parts)
    requires WellCut(p)
    ensures (forall k | 0 <= k < |p.id| :: IsNumeric(p.id[k])) && (p.data == [] || !IsNumeric(p.data[0]))
  {
    hide IsNumeric;
  }

  lemma RestDenotes(str: Text, i: nat, p: Parts, kind: nat, count: Option<JsNumber>, number: Text -> JsNumber)
    requires WellCut(p) && i <= |str| && str[i..] == Rest(p)
    ensures var data := if p.data == [] then Some(Undefined) else Json3Parser.ParseText(p.data);
            DecodeRest(str, i, kind, count, number)
            == if data.None? then ParserError
               else Read(Packet(kind, if p.nsp == [] then [SLASH] else p.nsp,
                                if p.id == [] then None else Some(number(p.id)), data.value, count))
  {
    hide *;
    NamespaceEnds(str, i, p);
    IdIsRun(p);
    RestIs(str, i, kind, count, number);
    var hasNsp := i < |str| && str[i] == SLASH;
    var nspEnd := if hasNsp then Find(str, i, COMMA) else i;
    var j := if hasNsp && nspEnd < |str| then nspEnd + 1 else nspEnd;
    NumericRun(str, j, p.id, p.data);
  }

  /** Every text that is put together from well-cut parts is read as the packet they denote. */
  lemma HeaderIsDenoted(p: Parts, number: Text -> JsNumber)
    requires WellCut(p)
    ensures DecodeHeader(Front(p) + Rest(p), number) == Denoted(p, number)
  {
    hide Find, DecodeRest, Rest, Json3Parser.ParseText, DecodeHeader, WellCut, KindOf, IsBinaryKind;
    var str := Front(p) + Rest(p);
    HeaderIs(str, number);
    MarkIsRead(str, p.mark);
    MarkIsMark(p);
    if IsBinaryMark(p.mark) {
      CountIsRead(str, p);
      var dash := Find(str, 1, DASH);
      RestDenotes(str, dash + 1, p, KindFor(p.mark), Some(number(p.count)), number);
    } else {
      assert str[1..] == Rest(p);
      RestDenotes(str, 1, p, KindFor(p.mark), None, number);
    }
  }

  lemma MarkIsMark(p: Parts)
    requires WellCut(p)
    ensures IsMark(p.mark)
  {
    hide IsMark;
  }

  lemma CountIsRead(str: Text, p: Parts)
    requires WellCut(p) && IsBinaryMark(p.mark) && str == Front(p) + Rest(p)
    ensures var dash := Find(str, 1, DASH);
            dash < |str| && str[1..dash] == p.count && str[dash + 1..] == Rest(p)
  {
    hide Find, Rest, IsMark, IsNumeric;
    var rest := Rest(p);
    assert str[1..] == p.count + ([DASH] + rest);
    FindPart(str, 1, p.count, [DASH] + rest, DASH);
    var dash := 1 + |p.count|;
    assert str[dash + 1..] == str[dash..][1..];
    assert ([DASH] + rest)[1..] == rest;
  }

  lemma MarkIsRead(str: Text, mark: CodeUnit)
    requires str != [] && str[0] == mark
    ensures KindOf(str) == if IsMark(mark) then Some(KindFor(mark)) else None
  {
  }

  /** The parts of a text, from position `i` on. */
  function CutRest(str: Text, i: nat, mark: CodeUnit, count: Text): Parts
    requires i <= |str|
  {
    var hasNsp := i < |str| && str[i] == SLASH;
    var nspEnd := if hasNsp then Find(str, i, COMMA) else i;
    var comma := hasNsp && nspEnd < |str|;
    var j := if comma then nspEnd + 1 else nspEnd;
    var idEnd := NumericEnd(str, j);
    Parts(mark, count, str[i..nspEnd], comma, str[j..idEnd], str[idEnd..])
  }

  lemma {:induction false} NumericEndIs(str: Text, i: nat)
    requires i <= |str|
    ensures var e := NumericEnd(str, i);
            && (forall k | 0 <= k < e - i :: IsNumeric(str[i..e][k])) && (e == |str| || !IsNumeric(str[e]))
    decreases |str| - i
  {
    hide IsNumeric;
    if i < |str| && IsNumeric(str[i]) {
      NumericEndIs(str, i + 1);
      var e := NumericEnd(str, i + 1);
      assert str[i..e] == [str[i]] + str[i + 1..e];
    }
  }

  lemma {:induction false} FindIs(str: Text, i: nat, c: CodeUnit)
    requires i <= |str|
    ensures Find(str, i, c) < |str| ==> str[Find(str, i, c)] == c
    ensures Find(str, i, c) == |str| ==> c !in str[i..]
    ensures i < |str| && str[i] != c ==> Find(str, i, c) > i
    decreases |str| - i
  {
    if i < |str| && str[i] != c {
      FindIs(str, i + 1, c);
      assert str[i..] == [str[i]] + str[i + 1..];
    }
  }

  lemma CutRestIs(str: Text, i: nat, mark: CodeUnit, count: Text)
    requires i <= |str| && IsMark(mark) && DASH !in count
    ensures var p := CutRest(str, i, mark, count);
            WellCut(p) && p.mark == mark && p.count == count && Rest(p) == str[i..]
  {
    hide Find, NumericEnd, IsNumeric, IsMark;
    var p := CutRest(str, i, mark, count);
    var hasNsp := i < |str| && str[i] == SLASH;
    var nspEnd := if hasNsp then Find(str, i, COMMA) else i;
    var j := if p.comma then nspEnd + 1 else nspEnd;
    var idEnd := NumericEnd(str, j);
    NumericEndIs(str, j);
    assert p.id + p.data == str[j..];
    if hasNsp {
      FindIs(str, i, COMMA);
      FindAvoids(str, i, COMMA);
      assert str[nspEnd..] == (if p.comma then [COMMA] else []) + str[j..];
      assert str[i..] == str[i..nspEnd] + str[nspEnd..];
    } else {
      assert str[j..] != [] ==> str[j..][0] == str[j];
    }
  }

  /** Every text is an empty header, no header at all, a binary header whose dash is missing, or it
      is put together from well-cut parts. */
  lemma EveryHeader(str: Text, number: Text -> JsNumber) returns (p: Parts)
    ensures str == [] ==> DecodeHeader(str, number) == Read(Packet(0, [SLASH], None, Undefined, None))
    ensures str != [] && !IsMark(str[0]) ==> DecodeHeader(str, number) == ParserError
    ensures str != [] && IsMark(str[0]) && IsBinaryMark(str[0]) && DASH !in str[1..] ==> DecodeHeader(str, number) == Throws
    ensures str != [] && IsMark(str[0]) && (IsBinaryMark(str[0]) ==> DASH in str[1..]) ==>
              WellCut(p) && str == Front(p) + Rest(p) && DecodeHeader(str, number) == Denoted(p, number)
  {
    hide Find, DecodeRest, CutRest, Rest, WellCut, IsMark, KindOf, DecodeHeader, Denoted;
    p := Parts(48, [], [], false, [], []);
    if str == [] {
      EmptyHeader(number);
    } else if !IsMark(str[0]) {
      HeaderIs(str, number);
      MarkIsRead(str, str[0]);
    } else {
      HeaderIs(str, number);
      MarkIsRead(str, str[0]);
      var dash := Find(str, 1, DASH);
      FindIs(str, 1, DASH);
      FindAvoids(str, 1, DASH);
      if !IsBinaryMark(str[0]) {
        p := CutRest(str, 1, str[0], []);
        CutRestIs(str, 1, str[0], []);
        assert str == [str[0]] + str[1..];
        HeaderIsDenoted(p, number);
      } else if dash < |str| {
        p := CutRest(str, dash + 1, str[0], str[1..dash]);
        CutRestIs(str, dash + 1, str[0], str[1..dash]);
        assert str == [str[0]] + (str[1..dash] + [DASH]) + str[dash + 1..];
        HeaderIsDenoted(p, number);
      }
    }
  }

  lemma EmptyHeader(number: Text -> JsNumber)
    ensures DecodeHeader([], number) == Read(Packet(0, [SLASH], None, Undefined, None))
  {
    hide Json3Parser.ParseText;
  }

  // ----- streams

  /** The buffers among the pieces. */
  function BuffersIn(chunks: seq<Chunk>): seq<Text> {
    if chunks == [] then []
    else (if chunks[0].BinaryChunk? then [chunks[0].bytes] else []) + BuffersIn(chunks[1..])
  }

  /** A text that starts waiting for buffers. */
  predicate Announces(chunk: Chunk, number: Text -> JsNumber) {
    chunk.TextChunk? && var d := DecodeHeader(chunk.str, number); d.Read? && IsBinaryKind(d.packet.kind)
  }

  /** What a text that announces no buffers gives, whatever is pending. */
  function Immediate(decoded: Decoded): Outcome {
    if decoded == Throws then Raises else Emits(decoded)
  }

  /** What each piece gives by itself: buffers give `silent`. */
  function Each(chunks: seq<Chunk>, silent: Outcome, number: Text -> JsNumber): (r: seq<Outcome>)
    ensures |r| == |chunks|
  {
    if chunks == [] then []
    else [if chunks[0].TextChunk? then Immediate(DecodeHeader(chunks[0].str, number)) else silent]
         + Each(chunks[1..], silent, number)
  }

  predicate AnnouncesNothing(chunks: seq<Chunk>, number: Text -> JsNumber) {
    forall c | c in chunks :: !Announces(c, number)
  }

  /** The packet still lacks buffers. */
  predicate Lacks(r: Reconstruction, n: nat) {
    n > 0 && r.pack.attachments == Some(Natural(|r.buffers| + n))
  }

  lemma TextLeavesPending(pending: Option<Reconstruction>, str: Text, number: Text -> JsNumber)
    requires !Announces(TextChunk(str), number)
    ensures Add(pending, TextChunk(str), number) == Added(pending, Immediate(DecodeHeader(str, number)))
  {
    hide DecodeHeader, IsBinaryKind;
  }

  lemma EachCons(c: Chunk, cs: seq<Chunk>, silent: Outcome, number: Text -> JsNumber)
    ensures Each([c] + cs, silent, number)
            == [if c.TextChunk? then Immediate(DecodeHeader(c.str, number)) else silent] + Each(cs, silent, number)
    ensures BuffersIn([c] + cs) == (if c.BinaryChunk? then [c.bytes] else []) + BuffersIn(cs)
    ensures AnnouncesNothing([c] + cs, number) ==> AnnouncesNothing(cs, number) && !Announces(c, number)
  {
    hide DecodeHeader, Immediate;
    assert ([c] + cs)[1..] == cs && ([c] + cs)[0] == c;
    assert forall x | x in cs :: x in [c] + cs;
    assert c in [c] + cs;
  }

  /** Texts between the buffers of a packet, other packets among them, do not disturb it: while
      buffers are lacking each piece gives what it gives by itself, and a buffer nothing. */
  lemma {:induction false} InterleavedPieces(r: Reconstruction, cs: seq<Chunk>, n: nat, number: Text -> JsNumber)
    requires AnnouncesNothing(cs, number) && Lacks(r, n) && |BuffersIn(cs)| < n
    ensures Feed(Some(r), cs, number)
            == Fed(Some(r.(buffers := r.buffers + BuffersIn(cs))), Each(cs, Nothing, number))
    decreases |cs|
  {
    hide *;
    if cs == [] {
      FeedNothing(Some(r), number);
      NoPieces(r, number);
    } else {
      var c, rest := cs[0], cs[1..];
      assert cs == [c] + rest;
      FeedCons(Some(r), c, rest, number);
      EachCons(c, rest, Nothing, number);
      LacksMore(r, n);
      match c {
        case TextChunk(str) =>
          TextLeavesPending(Some(r), str, number);
          assert BuffersIn(cs) == BuffersIn(rest);
          InterleavedPieces(r, rest, n, number);
        case BinaryChunk(bytes) =>
          AddBuffer(r, bytes, n, number);
          LacksOneLess(r, bytes, n);
          InterleavedPieces(r.(buffers := r.buffers + [bytes]), rest, n - 1, number);
          assert r.buffers + [bytes] + BuffersIn(rest) == r.buffers + BuffersIn(cs);
      }
    }
  }

  lemma NoPieces(r: Reconstruction, number: Text -> JsNumber)
    ensures BuffersIn([]) == [] && Each([], Nothing, number) == [] && r.(buffers := r.buffers + []) == r
  {
    assert r.buffers + [] == r.buffers;
  }

  lemma LacksMore(r: Reconstruction, n: nat)
    requires Lacks(r, n)
    ensures n > 0 && r.pack.attachments == Some(Natural(|r.buffers| + n))
  {
  }

  lemma LacksOneLess(r: Reconstruction, b: Text, n: nat)
    requires Lacks(r, n) && n > 1
    ensures Lacks(r.(buffers := r.buffers + [b]), n - 1)
  {
  }

  /** The last buffer completes the packet, with all its buffers in the order of their arrival. */
  lemma InterleavedDelivery(r: Reconstruction, cs: seq<Chunk>, last: Text, number: Text -> JsNumber)
    requires AnnouncesNothing(cs, number) && Lacks(r, |BuffersIn(cs)| + 1)
    ensures Feed(Some(r), cs + [BinaryChunk(last)], number)
            == Fed(None, Each(cs, Nothing, number)
                         + [Emits(Read(Completed(r.(buffers := r.buffers + BuffersIn(cs) + [last]))))])
  {
    hide *;
    InterleavedPieces(r, cs, |BuffersIn(cs)| + 1, number);
    FeedConcat(Some(r), cs, [BinaryChunk(last)], number);
    var full := r.(buffers := r.buffers + BuffersIn(cs));
    LacksOne(r, BuffersIn(cs));
    LacksMore(full, 1);
    AddBuffer(full, last, 1, number);
    FeedCons(Some(full), BinaryChunk(last), [], number);
    FeedNothing(None, number);
    assert [BinaryChunk(last)] + [] == [BinaryChunk(last)];
  }

  lemma LacksOne(r: Reconstruction, bs: seq<Text>)
    requires Lacks(r, |bs| + 1)
    ensures Lacks(r.(buffers := r.buffers + bs), 1)
  {
  }

  /** A buffer that no packet waits for raises an exception and changes nothing. */
  lemma {:induction false} StrayBuffersRaise(cs: seq<Chunk>, number: Text -> JsNumber)
    requires AnnouncesNothing(cs, number)
    ensures Feed(None, cs, number) == Fed(None, Each(cs, Raises, number))
    decreases |cs|
  {
    hide *;
    if cs == [] {
      FeedNothing(None, number);
      NoneRaised(number);
    } else {
      var c, rest := cs[0], cs[1..];
      assert cs == [c] + rest;
      FeedCons(None, c, rest, number);
      EachCons(c, rest, Raises, number);
      StrayBuffersRaise(rest, number);
      if c.TextChunk? {
        TextLeavesPending(None, c.str, number);
      } else {
        StrayRaises(c.bytes, number);
      }
    }
  }

  lemma NoneRaised(number: Text -> JsNumber)
    ensures Each([], Raises, number) == []
  {
  }

  lemma StrayRaises(bytes: Text, number: Text -> JsNumber)
    ensures Add(None, BinaryChunk(bytes), number) == Added(None, Raises)
  {
  }

  /** The count can no longer be reached. */
  predicate Overfull(r: Reconstruction) {
    match r.pack.attachments
    case Some(Natural(count)) => count <= |r.buffers|
    case _ => true
  }

  lemma OverfullTakes(r: Reconstruction, bytes: Text, number: Text -> JsNumber)
    requires Overfull(r)
    ensures Overfull(r.(buffers := r.buffers + [bytes]))
    ensures Add(Some(r), BinaryChunk(bytes), number) == Added(Some(r.(buffers := r.buffers + [bytes])), Nothing)
  {
    hide Completed;
  }

  /** A packet whose count is 0 or no natural number is never completed: the buffers behind it
      are swallowed, where without it each would raise an exception. */
  lemma {:induction false} OverfullSwallows(r: Reconstruction, cs: seq<Chunk>, number: Text -> JsNumber)
    requires AnnouncesNothing(cs, number) && Overfull(r)
    ensures Feed(Some(r), cs, number)
            == Fed(Some(r.(buffers := r.buffers + BuffersIn(cs))), Each(cs, Nothing, number))
    decreases |cs|
  {
    hide *;
    if cs == [] {
      FeedNothing(Some(r), number);
      NoPieces(r, number);
    } else {
      var c, rest := cs[0], cs[1..];
      assert cs == [c] + rest;
      FeedCons(Some(r), c, rest, number);
      EachCons(c, rest, Nothing, number);
      match c {
        case TextChunk(str) =>
          TextLeavesPending(Some(r), str, number);
          assert BuffersIn(cs) == BuffersIn(rest);
          OverfullSwallows(r, rest, number);
        case BinaryChunk(bytes) =>
          OverfullTakes(r, bytes, number);
          OverfullSwallows(r.(buffers := r.buffers + [bytes]), rest, number);
          assert r.buffers + [bytes] + BuffersIn(rest) == r.buffers + BuffersIn(cs);
      }
    }
  }

  /** An announcement starts afresh: what was pending is forgotten, with the buffers it had. */
  lemma AnnouncementReplaces(pending: Option<Reconstruction>, chunk: Chunk, number: Text -> JsNumber)
    requires Announces(chunk, number)
    ensures var p := DecodeHeader(chunk.str, number).packet;
            Add(pending, chunk, number)
            == Added(Some(Reconstruction(p, [])), if p.attachments == Some(Natural(0)) then Emits(Read(p)) else Nothing)
  {
    hide DecodeHeader, IsBinaryKind;
  }
}
