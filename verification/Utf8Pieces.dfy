/** What the streaming decoder makes of malformed input: every byte string falls into encoded
    characters and ill-formed pieces, and each ill-formed piece comes out as one U+FFFD. */
module Utf8Pieces {
  import opened JsText
  import opened HtermUtf8

  /** An encoded character; a byte that neither starts nor continues a sequence here; a sequence
      cut short by a byte that does not continue it; a complete one that encodes no character. */
  datatype Piece = Scalar(c: nat) | Stray(b: CodeUnit) | Cut(bytes: Text) | Rejected(bytes: Text)

  /** How many of a byte's bits are ones before the first zero. */
  function LeadingOnes(b: nat): nat
    requires b < 0x100
  {
    if b < 0x80 then 0 else 1 + LeadingOnes(2 * b - 0x100)
  }

  predicate Continues(b: CodeUnit) { b < 0x100 && LeadingOnes(b) == 1 }

  /** A lead byte has one leading one for each byte of its sequence. */
  predicate Leads(b: CodeUnit, length: nat) { b < 0x100 && 2 <= length <= 6 && LeadingOnes(b) == length }

  /** The start of a sequence of `length` bytes, or all of it. */
  predicate Begun(s: Text, length: nat) {
    1 <= |s| <= length && Leads(s[0], length) && forall i | 1 <= i < |s| :: Continues(s[i])
  }

  ghost predicate Proper(p: Piece) {
    match p
    case Scalar(c) => IsScalar(c)
    case Stray(b) => b >= 0x80 && forall length: nat :: !Leads(b, length)
    case Cut(s) => exists length :: Begun(s, length) && |s| < length
    case Rejected(s) => Begun(s, |s|) && forall c: nat | IsScalar(c) :: EncodeScalar(c) != s
  }

  function Bytes(p: Piece): Text {
    match p
    case Scalar(c) => if IsScalar(c) then EncodeScalar(c) else []
    case Stray(b) => [b]
    case Cut(s) => s
    case Rejected(s) => s
  }

  function Shown(p: Piece): Text {
    if p.Scalar? && IsScalar(p.c) then Utf16(p.c) else [REPLACEMENT]
  }

  function ShownAll(ps: seq<Piece>): Text {
    if ps == [] then [] else Shown(ps[0]) + ShownAll(ps[1..])
  }

  /** The input is made up of the pieces and of the start of a sequence that is not complete yet,
      if there is anything left. */
  ghost predicate MadeUp(input: Text, ps: seq<Piece>, pending: Text)
    decreases |ps|
  {
    if ps == [] then
      input == pending && (pending == [] || exists length :: Begun(pending, length) && |pending| < length)
    else
      var n := |Bytes(ps[0])|;
      && Proper(ps[0]) && n <= |input| && input[..n] == Bytes(ps[0])
      && (ps[0].Cut? ==> n < |input| && !Continues(input[n]))
      && MadeUp(input[n..], ps[1..], pending)
  }

  // ----- lead bytes

  lemma OnesStep(b: nat)
    requires b < 0x100
    ensures LeadingOnes(b) == if b < 0x80 then 0 else 1 + LeadingOnes(2 * b - 0x100)
  {
  }

  lemma OnesOf(b: nat)
    requires b < 0x100
    ensures LeadingOnes(b) == if b < 0x80 then 0 else if b < 0xC0 then 1 else if b < 0xE0 then 2 else if b < 0xF0 then 3
                              else if b < 0xF8 then 4 else if b < 0xFC then 5 else if b < 0xFE then 6 else if b == 0xFE then 7 else 8
  {
    hide LeadingOnes;
    OnesStep(b);
    if b >= 0x80 {
      var b1 := 2 * b - 0x100;
      OnesStep(b1);
      if b1 >= 0x80 {
        OnesOf(b1);
      }
    }
  }

  lemma LeadIs(b: CodeUnit)
    ensures Continues(b) <==> 0x80 <= b <= 0xBF
    ensures forall length: nat :: Leads(b, length) <==> Continuations(b) > 0 && length == Continuations(b) + 1
  {
    hide LeadingOnes;
    if b < 0x100 {
      OnesOf(b);
    }
  }

  // ----- what an encoding is

  /** The bits that a byte contributes to a sequence of `length` bytes, as a number: of a lead byte those
      behind its leading ones and the zero after them, of any other its last six. */
  function LeadBits(b: nat, length: nat): nat {
    if length == 1 then b else if length == 2 then b % 32 else if length == 3 then b % 16 else b % 8
  }

  function PayloadBits(s: Text, length: nat): nat {
    if s == [] then 0
    else if |s| == 1 then LeadBits(s[0], length)
    else PayloadBits(s[..|s| - 1], length) * 64 + s[|s| - 1] % 64
  }

  /** Section 3 of RFC 3629: as few bytes as hold the bits, one leading one for each of several bytes
      in the first of them, and `10` in front of six bits in the others. */
  predicate EncodesBits(s: Text, c: nat) {
    && |s| == (if c < 0x80 then 1 else if c < 0x800 then 2 else if c < 0x1_0000 then 3 else 4)
    && (if |s| == 1 then s[0] < 0x80 else Leads(s[0], |s|) && forall i | 1 <= i < |s| :: Continues(s[i]))
    && PayloadBits(s, |s|) == c
  }

  /** The bytes written out. */
  lemma EncodingBytes(c: nat)
    requires c <= 0x10FFFF
    ensures EncodeScalar(c) ==
            if c < 0x80 then [c]
            else if c < 0x800 then [0xC0 + c / 64, 0x80 + c % 64]
            else if c < 0x1_0000 then [0xE0 + c / 4096, 0x80 + c / 64 % 64, 0x80 + c % 64]
            else [0xF0 + c / 262144, 0x80 + c / 4096 % 64, 0x80 + c / 64 % 64, 0x80 + c % 64]
  {
    hide Tail, Shift;
    Shifts(c, 1);
    Shifts(c, 2);
    Shifts(c, 3);
    TailBytes(c);
  }

  lemma TailBytes(c: nat)
    ensures Tail(c, 1) == [0x80 + c % 64] && Tail(c, 2) == [0x80 + c / 64 % 64, 0x80 + c % 64]
    ensures Tail(c, 3) == [0x80 + c / 4096 % 64, 0x80 + c / 64 % 64, 0x80 + c % 64]
  {
    Shifts(c, 1);
    Shifts(c, 2);
  }

  lemma BitsStep(s: Text, length: nat)
    requires |s| > 1
    ensures PayloadBits(s, length) == PayloadBits(s[..|s| - 1], length) * 64 + (s[|s| - 1] as int) % 64
  {
  }

  lemma BitsOfOne(b: CodeUnit, length: nat)
    ensures PayloadBits([b], length) == LeadBits(b, length)
  {
  }

  lemma BitsOfTwo(s: Text)
    requires |s| == 2
    ensures PayloadBits(s, 2) == (s[0] as int) % 32 * 64 + (s[1] as int) % 64
  {
    hide PayloadBits;
    assert s[..1] == [s[0]];
    BitsStep(s, 2);
    BitsOfOne(s[0], 2);
  }

  lemma BitsOfThree(s: Text)
    requires |s| == 3
    ensures PayloadBits(s, 3) == ((s[0] as int) % 16 * 64 + (s[1] as int) % 64) * 64 + (s[2] as int) % 64
  {
    hide PayloadBits;
    assert s[..2][..1] == [s[0]];
    BitsStep(s, 3);
    BitsStep(s[..2], 3);
    BitsOfOne(s[0], 3);
  }

  lemma BitsOfFour(s: Text)
    requires |s| == 4
    ensures PayloadBits(s, 4) == (((s[0] as int) % 8 * 64 + (s[1] as int) % 64) * 64 + (s[2] as int) % 64) * 64 + (s[3] as int) % 64
  {
    hide PayloadBits, LeadBits;
    assert s[..3][..2] == s[..2] && s[..2][..1] == [s[0]];
    BitsStep(s, 4);
    BitsStep(s[..3], 4);
    BitsStep(s[..2], 4);
    BitsOfOne(s[0], 4);
    FourBits(s[0]);
  }

  lemma FourBits(b: nat)
    ensures LeadBits(b, 4) == b % 8
  {
  }

  /** The encoder's bytes are the one sequence that encodes the bits. */
  lemma EncodingIsBits(c: nat, s: Text)
    requires c <= 0x10FFFF
    ensures s == EncodeScalar(c) <==> EncodesBits(s, c)
  {
    hide EncodeScalar, PayloadBits, LeadingOnes, Leads, Continues;
    EncodingBytes(c);
    forall b: CodeUnit {
      ByteShapes(b);
    }
    if c < 0x80 {
      PlainByte(c, s);
    } else if c < 0x800 {
      if |s| == 2 {
        BitsOfTwo(s);
        TwoBytes(c, s[0], s[1]);
        assert s == [s[0], s[1]];
      }
    } else if c < 0x1_0000 {
      if |s| == 3 {
        BitsOfThree(s);
        ThreeBytes(c, s[0], s[1], s[2]);
        assert s == [s[0], s[1], s[2]];
      }
    } else if |s| == 4 {
      BitsOfFour(s);
      FourBytes(c, s[0], s[1], s[2], s[3]);
      assert s == [s[0], s[1], s[2], s[3]];
    }
  }

  lemma ByteShapes(b: CodeUnit)
    ensures Continues(b) <==> 0x80 <= b <= 0xBF
    ensures Leads(b, 2) <==> 0xC0 <= b <= 0xDF
    ensures Leads(b, 3) <==> 0xE0 <= b <= 0xEF
    ensures Leads(b, 4) <==> 0xF0 <= b <= 0xF7
  {
    hide LeadingOnes;
    if b < 0x100 {
      OnesOf(b);
    }
  }

  lemma PlainByte(c: nat, s: Text)
    requires c < 0x80
    ensures s == [c] <==> |s| == 1 && s[0] < 0x80 && PayloadBits(s, |s|) == c
  {
  }

  lemma LastSix(c: nat, high: nat, z: nat)
    ensures high * 64 + z % 64 == c <==> high == c / 64 && z % 64 == c % 64
  {
  }

  lemma TwoBytes(c: nat, a: nat, b: nat)
    requires 0x80 <= c < 0x800
    ensures a == 0xC0 + c / 64 && b == 0x80 + c % 64
            <==> 0xC0 <= a <= 0xDF && 0x80 <= b <= 0xBF && a % 32 * 64 + b % 64 == c
  {
    LastSix(c, a % 32, b);
  }

  lemma ThreeBytes(c: nat, x: nat, y: nat, z: nat)
    requires 0x800 <= c < 0x1_0000
    ensures x == 0xE0 + c / 4096 && y == 0x80 + c / 64 % 64 && z == 0x80 + c % 64
            <==> 0xE0 <= x <= 0xEF && 0x80 <= y <= 0xBF && 0x80 <= z <= 0xBF && (x % 16 * 64 + y % 64) * 64 + z % 64 == c
  {
    LastSix(c, x % 16 * 64 + y % 64, z);
    LastSix(c / 64, x % 16, y);
    Shifts(c, 1);
    Shifts(c, 2);
  }

  lemma FourBytes(c: nat, w: nat, x: nat, y: nat, z: nat)
    requires 0x1_0000 <= c <= 0x10FFFF
    ensures w == 0xF0 + c / 262144 && x == 0x80 + c / 4096 % 64 && y == 0x80 + c / 64 % 64 && z == 0x80 + c % 64
            <==> 0xF0 <= w <= 0xF7 && 0x80 <= x <= 0xBF && 0x80 <= y <= 0xBF && 0x80 <= z <= 0xBF
                 && ((w % 8 * 64 + x % 64) * 64 + y % 64) * 64 + z % 64 == c
  {
    var u := (w % 8 * 64 + x % 64) * 64 + y % 64;
    LastSix(c, u, z);
    Shifts(c, 1);
    Shifts(c, 2);
    Shifts(c, 3);
    UpperThree(c / 64, w, x, y);
  }

  lemma UpperThree(u: nat, w: nat, x: nat, y: nat)
    requires 0x400 <= u <= 0x43FF
    ensures w == 0xF0 + u / 4096 && x == 0x80 + u / 64 % 64 && y == 0x80 + u % 64
            <==> 0xF0 <= w <= 0xF7 && 0x80 <= x <= 0xBF && 0x80 <= y <= 0xBF && (w % 8 * 64 + x % 64) * 64 + y % 64 == u
  {
    LastSix(u, w % 8 * 64 + x % 64, y);
    LastSix(u / 64, w % 8, x);
    Shifts(u, 1);
    Shifts(u, 2);
  }

  // ----- one piece

  /** While a sequence is incomplete nothing comes out. */
  lemma {:induction false} BegunWaits(s: DecoderState, p: Text, length: nat)
    requires s.bytesLeft == 0 && Begun(p, length) && |p| < length
    ensures var d := Run(s, p);
            d.text == [] && d.state.bytesLeft == length - |p| && Pending(d.state, p)
    decreases |p|
  {
    hide Run, Pending, Step, Continuations, LeadingOnes;
    var last := |p| - 1;
    assert p == p[..last] + [p[last]];
    LeadIs(p[0]);
    LeadIs(p[last]);
    if last == 0 {
      assert p == [p[0]] + [];
      RunCons(s, p[0], []);
      RunNone(Step(s, p[0]).state);
      StepOfLead(s, p[0]);
      PendingLead(s, p[0]);
    } else {
      BegunWaits(s, p[..last], length);
      RunConcat(s, p[..last], [p[last]]);
      var mid := Run(s, p[..last]).state;
      RunOne(mid, p[last]);
      StepContinues(mid, p[last]);
      PendingStep(mid, p[..last], p[last]);
    }
  }

  lemma RunNone(s: DecoderState)
    ensures Run(s, []) == Decoded(s, [], false)
  {
  }

  lemma RunOne(s: DecoderState, b: CodeUnit)
    ensures Run(s, [b]) == Step(s, b)
  {
    hide Step;
    assert [b] + [] == [b];
    RunCons(s, b, []);
    RunNone(Step(s, b).state);
    assert Step(s, b).text + [] == Step(s, b).text;
  }

  lemma StepOfLead(s: DecoderState, b: CodeUnit)
    requires s.bytesLeft == 0 && Continuations(b) > 0
    ensures Step(s, b).text == [] && Step(s, b).state.bytesLeft == Continuations(b)
  {
  }

  lemma StepContinues(s: DecoderState, b: CodeUnit)
    requires s.bytesLeft > 1 && 0x80 <= b <= 0xBF
    ensures Step(s, b).text == [] && Step(s, b).state.bytesLeft == s.bytesLeft - 1
  {
  }

  /** A sequence is cut short: one U+FFFD, and the byte that cuts it is looked at afresh. */
  lemma CutIsReported(s: DecoderState, rest: Text)
    requires s.bytesLeft > 0 && rest != [] && !(0x80 <= rest[0] <= 0xBF)
    ensures var afresh := s.(bytesLeft := 0);
            && Run(s, rest).text == [REPLACEMENT] + Run(afresh, rest).text
            && Run(s, rest).state == Run(afresh, rest).state
  {
    hide Run;
    var afresh := s.(bytesLeft := 0);
    assert rest == [rest[0]] + rest[1..];
    RunCons(s, rest[0], rest[1..]);
    RunCons(afresh, rest[0], rest[1..]);
    assert Step(s, rest[0]).text == [REPLACEMENT] + Step(afresh, rest[0]).text;
    Associates([REPLACEMENT], Step(afresh, rest[0]).text, Run(Step(s, rest[0]).state, rest[1..]).text);
  }

  /** The last byte of a sequence: what comes out is its character, or U+FFFD if it has none. */
  lemma LastByte(s: DecoderState, p: Text, b: CodeUnit)
    requires s.bytesLeft == 1 && Pending(s, p) && 0x80 <= b <= 0xBF
    requires forall c: nat | IsScalar(c) :: EncodeScalar(c) != p + [b]
    ensures Step(s, b).text == [REPLACEMENT] && Step(s, b).state.bytesLeft == 0
  {
    hide Pending, EncodeScalar, Utf16;
    if !Step(s, b).error {
      CompletedIsCanonical(s, p, b);
    }
  }

  lemma RejectedIsReported(s: DecoderState, p: Text)
    requires s.bytesLeft == 0 && Proper(Rejected(p))
    ensures Run(s, p).text == [REPLACEMENT] && Run(s, p).state.bytesLeft == 0
  {
    hide Run, Pending, Step, EncodeScalar, Continuations, LeadingOnes;
    var last := |p| - 1;
    assert p == p[..last] + [p[last]];
    LeadIs(p[last]);
    assert Leads(p[0], |p|);
    BegunWaits(s, p[..last], |p|);
    var mid := Run(s, p[..last]).state;
    LastByte(mid, p[..last], p[last]);
    RunConcat(s, p[..last], [p[last]]);
    RunOne(mid, p[last]);
  }

  /** One piece, whatever comes after it. */
  lemma PieceIsShown(s: DecoderState, p: Piece, rest: Text) returns (after: DecoderState)
    requires s.bytesLeft == 0 && Proper(p) && (p.Cut? ==> rest != [] && !Continues(rest[0]))
    ensures after.bytesLeft == 0
    ensures Run(s, Bytes(p) + rest).text == Shown(p) + Run(after, rest).text
    ensures Run(s, Bytes(p) + rest).state == Run(after, rest).state
  {
    hide Run, Begun, Pending, EncodeScalar, Utf16, LeadingOnes, Continues, Leads, Continuations;
    RunConcat(s, Bytes(p), rest);
    match p
    case Scalar(c) =>
      DecodeScalar(s, c);
      after := Run(s, Bytes(p)).state;
    case Stray(b) =>
      LeadIs(b);
      RunOne(s, b);
      assert Continuations(b) > 0 ==> Leads(b, Continuations(b) + 1);
      StrayIsReported(s, b);
      after := s;
    case Cut(bytes) =>
      var length :| Begun(bytes, length) && |bytes| < length;
      BegunWaits(s, bytes, length);
      var mid := Run(s, bytes).state;
      LeadIs(rest[0]);
      CutIsReported(mid, rest);
      after := mid.(bytesLeft := 0);
    case Rejected(bytes) =>
      RejectedIsReported(s, bytes);
      after := Run(s, bytes).state;
  }

  lemma StrayIsReported(s: DecoderState, b: CodeUnit)
    requires s.bytesLeft == 0 && b >= 0x80 && Continuations(b) == 0
    ensures Step(s, b) == Decoded(s, [REPLACEMENT], true)
  {
  }

  // ----- all of them

  /** The text of every input: its characters in order, and one U+FFFD for each ill-formed piece. */
  lemma {:induction false} PiecesAreShown(s: DecoderState, input: Text, ps: seq<Piece>, pending: Text)
    requires s.bytesLeft == 0 && MadeUp(input, ps, pending)
    ensures Run(s, input).text == ShownAll(ps)
    ensures Run(s, input).state.bytesLeft == 0 <==> pending == []
    decreases |ps|
  {
    hide Run, Begun, Proper, Bytes, Shown, Continues;
    if ps == [] {
      if pending == [] {
        RunNone(s);
      } else {
        var length :| Begun(pending, length) && |pending| < length;
        BegunWaits(s, pending, length);
      }
    } else {
      var n := |Bytes(ps[0])|;
      var rest := input[n..];
      assert input == Bytes(ps[0]) + rest;
      var after := PieceIsShown(s, ps[0], rest);
      PiecesAreShown(after, rest, ps[1..], pending);
    }
  }

  // ----- every input is made up of pieces

  lemma MadeUpCons(p: Piece, rest: Text, ps: seq<Piece>, pending: Text)
    requires Proper(p) && MadeUp(rest, ps, pending) && (p.Cut? ==> rest != [] && !Continues(rest[0]))
    ensures MadeUp(Bytes(p) + rest, [p] + ps, pending)
  {
    hide Proper, Bytes, Continues;
    var input := Bytes(p) + rest;
    assert ([p] + ps)[1..] == ps && input[|Bytes(p)|..] == rest && input[..|Bytes(p)|] == Bytes(p);
  }

  /** How many bytes in front continue a sequence, but no more than `limit`. */
  lemma Continuing(input: Text, limit: nat) returns (k: nat)
    ensures k <= |input| && k <= limit && (forall i | 0 <= i < k :: Continues(input[i]))
    ensures k < limit && k < |input| ==> !Continues(input[k])
  {
    hide Continues;
    k := 0;
    while k < limit && k < |input| && Continues(input[k])
      invariant k <= limit && k <= |input| && forall i | 0 <= i < k :: Continues(input[i])
    {
      k := k + 1;
    }
  }

  lemma {:induction false} EveryInput(input: Text) returns (ps: seq<Piece>, pending: Text)
    ensures MadeUp(input, ps, pending)
    decreases |input|
  {
    hide LeadingOnes, EncodeScalar, MadeUp, Continuations, Continues;
    if input == [] {
      ps, pending := [], [];
      NothingPending([]);
    } else {
      var b := input[0];
      LeadIs(b);
      var p: Piece;
      if b <= 0x7F {
        p := Scalar(b);
        OneByte(b);
      } else if Continuations(b) == 0 {
        p := Stray(b);
      } else {
        var length := Continuations(b) + 1;
        var k := Continuing(input[1..], length - 1);
        var begun := input[..k + 1];
        assert forall i | 1 <= i < |begun| :: begun[i] == input[1..][i - 1];
        assert Begun(begun, length);
        if k + 1 == |input| && k + 1 < length {
          assert begun == input;
          ps, pending := [], input;
          NothingPending(input);
          return;
        }
        p := Finished(begun, length);
        assert k + 1 < |input| ==> input[k + 1..][0] == input[1..][k];
      }
      var n := |Bytes(p)|;
      assert 1 <= n <= |input| && input[..n] == Bytes(p);
      ps, pending := EveryInput(input[n..]);
      MadeUpCons(p, input[n..], ps, pending);
      assert Bytes(p) + input[n..] == input;
      ps := [p] + ps;
    }
  }

  lemma NothingPending(input: Text)
    requires input == [] || exists length :: Begun(input, length) && |input| < length
    ensures MadeUp(input, [], input)
  {
    hide Begun;
  }

  lemma Finished(begun: Text, length: nat) returns (p: Piece)
    requires Begun(begun, length)
    ensures Proper(p) && Bytes(p) == begun && (p.Cut? <==> |begun| < length)
  {
    hide Begun, EncodeScalar;
    if |begun| < length {
      p := Cut(begun);
    } else if c: nat :| IsScalar(c) && EncodeScalar(c) == begun {
      p := Scalar(c);
    } else {
      assert |begun| == length by { BegunFits(begun, length); }
      p := Rejected(begun);
    }
  }

  lemma BegunFits(begun: Text, length: nat)
    requires Begun(begun, length)
    ensures |begun| <= length
  {
  }

  /** Whatever the input is, the decoder shows its characters in order with one U+FFFD for each
      ill-formed piece, and waits exactly if an incomplete sequence is left. */
  lemma DecodesEverything(s: DecoderState, input: Text) returns (ps: seq<Piece>, pending: Text)
    requires s.bytesLeft == 0
    ensures MadeUp(input, ps, pending)
    ensures Run(s, input).text == ShownAll(ps)
    ensures Run(s, input).state.bytesLeft == 0 <==> pending == []
  {
    hide *;
    ps, pending := EveryInput(input);
    PiecesAreShown(s, input, ps, pending);
  }
}
