/** What the binary payload decoder makes of buffers that the encoder did not write: lengths with
    leading zeros, a message cut short, a length without an end or with too many digits. */
module BinaryGrammar {
  import opened JsText
  import opened JsNumbers
  import opened EnginePacket
  import opened TextPayload
  import opened BinaryPayload

  /** The length may have up to this many digits. */
  const MAX_DIGITS := 311

  datatype Piece = Piece(marker: Byte, digits: seq<Byte>, content: seq<Byte>)

  predicate AreDigits(digits: seq<Byte>) {
    forall i | 0 <= i < |digits| :: digits[i] <= 9
  }

  function LengthText(digits: seq<Byte>): (r: Text)
    requires AreDigits(digits)
    ensures |r| == |digits| && forall i | 0 <= i < |r| :: IsDigit(r[i]) && r[i] == 48 + digits[i]
  {
    seq(|digits|, i requires 0 <= i < |digits| => 48 + digits[i])
  }

  /** The length that a piece claims for its content. */
  function Claimed(p: Piece): nat
    requires AreDigits(p.digits)
  {
    DigitsValue(LengthText(p.digits))
  }

  predicate Readable(p: Piece) {
    AreDigits(p.digits) && |p.digits| <= MAX_DIGITS
  }

  predicate Whole(p: Piece) {
    Readable(p) && p.content != [] && Claimed(p) == |p.content|
  }

  function PieceBytes(p: Piece): seq<Byte> {
    [p.marker] + p.digits + [SEPARATOR] + p.content
  }

  function Joined(ps: seq<Piece>): seq<Byte> {
    if ps == [] then [] else PieceBytes(ps[0]) + Joined(ps[1..])
  }

  /** How a buffer ends: after its last message, in the middle of one, or in a length that has no
      end or too many digits. */
  datatype Ending = Complete | Truncated(piece: Piece) | NoSeparator(bytes: seq<Byte>) | TooLong(marker: Byte, digits: seq<Byte>, after: seq<Byte>)

  predicate IsEnding(e: Ending) {
    match e
    case Complete => true
    case Truncated(p) => Readable(p) && Claimed(p) > |p.content|
    case NoSeparator(bytes) => bytes != [] && SEPARATOR !in bytes[1..]
    case TooLong(_, digits, _) => AreDigits(digits) && |digits| > MAX_DIGITS
  }

  function EndBytes(e: Ending): seq<Byte> {
    match e
    case Complete => []
    case Truncated(p) => PieceBytes(p)
    case NoSeparator(bytes) => bytes
    case TooLong(marker, digits, after) => [marker] + digits + after
  }

  function Messages(ps: seq<Piece>): (r: seq<Message>)
    ensures |r| == |ps| && forall i | 0 <= i < |r| :: r[i] == Received(ps[i].marker, ps[i].content)
  {
    seq(|ps|, i requires 0 <= i < |ps| => Received(ps[i].marker, ps[i].content))
  }

  /** A message cut short counts with what is there of it; a bad length spoils the whole buffer. */
  function Found(ps: seq<Piece>, e: Ending): Option<seq<Message>> {
    match e
    case Complete => Some(Messages(ps))
    case Truncated(p) => Some(Messages(ps + [p]))
    case _ => None
  }

  lemma PieceParts(p: Piece, rest: seq<Byte>)
    ensures var tail := PieceBytes(p) + rest;
            && tail != [] && tail[0] == p.marker && |tail| > |p.digits| + 1 && tail[|p.digits| + 1] == SEPARATOR
            && (forall i | 0 <= i < |p.digits| :: tail[i + 1] == p.digits[i])
            && Drop(tail, 2 + |p.digits|) == p.content + rest
  {
    var head := [p.marker] + p.digits + [SEPARATOR];
    assert PieceBytes(p) + rest == head + (p.content + rest);
    assert (head + (p.content + rest))[|head|..] == p.content + rest;
  }

  lemma LengthIsScanned(p: Piece, rest: seq<Byte>)
    requires Readable(p)
    ensures ReadLength(PieceBytes(p) + rest, 1, []) == Some(LengthText(p.digits))
  {
    hide ReadLength, PieceBytes;
    PieceParts(p, rest);
    var text := LengthText(p.digits);
    assert text[..0] == [];
    DigitsAreRead(PieceBytes(p) + rest, text, 0);
  }

  /** A whole piece is split off, whatever follows it. */
  lemma PieceIsSplit(p: Piece, rest: seq<Byte>)
    requires Whole(p)
    ensures Split(PieceBytes(p) + rest)
            == if Split(rest).None? then None else Some([Received(p.marker, p.content)] + Split(rest).value)
  {
    hide ReadLength, PieceBytes, Split, DigitsValue, Received;
    PieceParts(p, rest);
    LengthIsScanned(p, rest);
    SplitCons(PieceBytes(p) + rest);
    assert (p.content + rest)[..|p.content|] == p.content && (p.content + rest)[|p.content|..] == rest;
    assert rest == [] ==> p.content + rest == p.content;
  }

  lemma TruncatedIsTaken(p: Piece)
    requires Readable(p) && Claimed(p) > |p.content|
    ensures Split(PieceBytes(p)) == Some([Received(p.marker, p.content)])
  {
    hide ReadLength, PieceBytes, Split, DigitsValue, Received;
    assert PieceBytes(p) + [] == PieceBytes(p) && p.content + [] == p.content;
    PieceParts(p, []);
    LengthIsScanned(p, []);
    SplitCons(PieceBytes(p));
    NothingIsSplit();
    var m := Received(p.marker, p.content);
    assert Take(p.content, Claimed(p)) == p.content && Drop(p.content, Claimed(p)) == [];
    assert [m] + [] == [m];
  }

  lemma {:induction false} NoEndIsFound(tail: seq<Byte>, i: nat, msgLength: Text)
    requires 1 <= i && (forall k | 0 <= k < |msgLength| :: IsDigit(msgLength[k]))
    requires forall k | i <= k < |tail| :: tail[k] != SEPARATOR
    ensures ReadLength(tail, i, msgLength) == None
    decreases |tail| - i
  {
    if i < |tail| && |msgLength| <= 310 {
      NoEndIsFound(tail, i + 1, msgLength + Digits(tail[i]));
    }
  }

  lemma {:induction false} TooManyDigits(tail: seq<Byte>, i: nat, msgLength: Text, n: nat)
    requires 1 <= i && |msgLength| == i - 1 <= MAX_DIGITS < n && n + 1 <= |tail|
    requires forall k | 0 <= k < |msgLength| :: IsDigit(msgLength[k])
    requires forall k | 1 <= k <= n :: tail[k] <= 9
    ensures ReadLength(tail, i, msgLength) == None
    decreases |tail| - i
  {
    if |msgLength| <= 310 {
      OneDigit(tail[i]);
      TooManyDigits(tail, i + 1, msgLength + Digits(tail[i]), n);
    }
  }

  lemma OneDigit(b: Byte)
    requires b <= 9
    ensures Digits(b) == [48 + b]
  {
  }

  lemma EndingIsSplit(e: Ending)
    requires IsEnding(e)
    ensures Split(EndBytes(e)) == Found([], e)
  {
    hide Split, ReadLength, PieceBytes, Digits, DigitsValue, Received;
    match e {
      case Complete => NothingIsSplit();
      case Truncated(p) =>
        TruncatedIsTaken(p);
        assert Messages([] + [p]) == [Received(p.marker, p.content)];
      case NoSeparator(bytes) =>
        assert forall k | 1 <= k < |bytes| :: bytes[k] == bytes[1..][k - 1];
        NoEndIsFound(bytes, 1, []);
        SplitCons(bytes);
      case TooLong(marker, digits, after) =>
        var tail := [marker] + digits + after;
        assert forall k | 1 <= k <= |digits| :: tail[k] == digits[k - 1];
        TooManyDigits(tail, 1, [], |digits|);
        SplitCons(tail);
    }
  }

  lemma FoundCons(p: Piece, ps: seq<Piece>, e: Ending)
    ensures Found([p] + ps, e)
            == if Found(ps, e).None? then None else Some([Received(p.marker, p.content)] + Found(ps, e).value)
  {
    hide Received;
    assert Messages([p] + ps) == [Received(p.marker, p.content)] + Messages(ps);
    if e.Truncated? {
      assert [p] + ps + [e.piece] == [p] + (ps + [e.piece]);
      assert Messages([p] + (ps + [e.piece])) == [Received(p.marker, p.content)] + Messages(ps + [e.piece]);
    }
  }

  /** Whole pieces in a row give their messages in order, however they are marked and however many
      zeros lead their lengths; the ending decides about all. */
  lemma {:induction false} BufferIsSplit(ps: seq<Piece>, e: Ending)
    requires (forall p | p in ps :: Whole(p)) && IsEnding(e)
    ensures Split(Joined(ps) + EndBytes(e)) == Found(ps, e)
    decreases |ps|
  {
    hide *;
    JoinedIs(ps);
    if ps == [] {
      EndingIsSplit(e);
      assert [] + EndBytes(e) == EndBytes(e);
    } else {
      var rest := Joined(ps[1..]) + EndBytes(e);
      assert PieceBytes(ps[0]) + Joined(ps[1..]) + EndBytes(e) == PieceBytes(ps[0]) + rest;
      PieceIsSplit(ps[0], rest);
      BufferIsSplit(ps[1..], e);
      FoundCons(ps[0], ps[1..], e);
      assert [ps[0]] + ps[1..] == ps;
    }
  }

  lemma JoinedIs(ps: seq<Piece>)
    ensures Joined(ps) == if ps == [] then [] else PieceBytes(ps[0]) + Joined(ps[1..])
  {
  }
}
