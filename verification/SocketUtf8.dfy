/** The UTF-8 codec bundled with socket.io (utf8.js 2.0.0): encoding fails on unpaired
    surrogates, decoding fails on anything but canonical UTF-8. */
module SocketUtf8 {
  import opened JsText
  import H = HtermUtf8

  /** The code points of a UTF-16 text; unpaired surrogates stand for themselves. */
  function Ucs2Decode(s: Text): (r: seq<nat>) {
    if s == [] then []
    else if StartsWithPair(s) then [PairValue(s[0], s[1])] + Ucs2Decode(s[2..])
    else [s[0] as nat] + Ucs2Decode(s[1..])
  }

  method DecodeUcs2(str: Text) returns (output: seq<nat>)
    ensures output == Ucs2Decode(str)
  {
    hide Ucs2Decode, PairValue;
    output := [];
    var counter := 0;
    assert str[0..] == str;
    while counter < |str|
      invariant 0 <= counter <= |str|
      invariant Ucs2Decode(str) == output + Ucs2Decode(str[counter..])
    {
      ghost var start := counter;
      var value: nat := str[counter];
      counter := counter + 1;
      if 0xD800 <= value <= 0xDBFF && counter < |str| {
        var extra := str[counter];
        counter := counter + 1;
        if 0xDC00 <= extra <= 0xDFFF {
          H.PairBits(value, extra);
          value := value % 0x400 * 0x400 + extra % 0x400 + 0x10000;
        } else {
          // An unmatched surrogate: the next code unit may still start a pair.
          counter := counter - 1;
        }
      }
      output := output + [value];
      Ucs2Cons(str, start, value, counter);
    }
    Ucs2Nothing(str[counter..]);
  }

  lemma Ucs2Cons(str: Text, start: nat, value: nat, next: nat)
    requires start < next <= |str|
    requires if StartsWithPair(str[start..]) then
               next == start + 2 && value == PairValue(str[start], str[start + 1])
             else next == start + 1 && value == str[start]
    ensures Ucs2Decode(str[start..]) == [value] + Ucs2Decode(str[next..])
  {
    assert str[start..][next - start..] == str[next..];
  }

  lemma Ucs2Nothing(s: Text)
    requires s == []
    ensures Ucs2Decode(s) == []
  {
  }

  /** The UTF-16 form of a sequence of code points. */
  function Ucs2Encode(cps: seq<nat>): (s: Text)
    requires forall i | 0 <= i < |cps| :: cps[i] <= 0x10FFFF
  {
    if cps == [] then [] else Utf16(cps[0]) + Ucs2Encode(cps[1..])
  }

  /** One code point as UTF-8; an unpaired surrogate is an error. */
  method EncodeCodePoint(codePoint: nat) returns (r: Option<Text>)
    requires codePoint <= 0x10FFFF
    ensures r == if IsScalar(codePoint) then Some(H.EncodeScalar(codePoint)) else None
  {
    hide H.EncodeScalar, H.Tail, H.Shift;
    if codePoint > 0x7F {
      H.LeadByte(codePoint);
      EncodedTails(codePoint);
    } else {
      H.OneByte(codePoint);
    }
    if codePoint <= 0x7F {
      return Some([codePoint]);
    }
    var symbol: Text;
    if codePoint <= 0x7FF {
      symbol := [codePoint / 64 % 0x20 + 0xC0];
    } else if codePoint <= 0xFFFF {
      if 0xD800 <= codePoint <= 0xDFFF {
        return None;
      }
      symbol := [codePoint / 4096 % 0x10 + 0xE0];
      symbol := symbol + [codePoint / 64 % 0x40 + 0x80];
    } else {
      symbol := [codePoint / 262144 % 0x08 + 0xF0];
      symbol := symbol + [codePoint / 4096 % 0x40 + 0x80];
      symbol := symbol + [codePoint / 64 % 0x40 + 0x80];
    }
    symbol := symbol + [codePoint % 0x40 + 0x80];
    assert symbol == H.EncodeScalar(codePoint);
    return Some(symbol);
  }

  lemma EncodedTails(c: nat)
    ensures H.Tail(c, 1) == [0x80 + c % 64]
    ensures H.Tail(c, 2) == [0x80 + c / 64 % 64, 0x80 + c % 64]
    ensures H.Tail(c, 3) == [0x80 + c / 4096 % 64, 0x80 + c / 64 % 64, 0x80 + c % 64]
  {
    hide H.Tail, H.Shift;
    H.Shifts(c, 1);
    H.Shifts(c, 2);
    H.TailStep(c, 0);
    H.TailStep(c, 1);
    H.TailStep(c, 2);
    H.TailStep(c, 3);
  }

  /** UTF-8 of a code point sequence; None as soon as one of them is a surrogate. */
  function EncodeAll(cps: seq<nat>): (r: Option<Text>)
    requires forall i | 0 <= i < |cps| :: cps[i] <= 0x10FFFF
  {
    if cps == [] then Some([])
    else if !IsScalar(cps[0]) then None
    else match EncodeAll(cps[1..])
      case None => None
      case Some(rest) => Some(H.EncodeScalar(cps[0]) + rest)
  }

  lemma {:induction false} Ucs2Bounded(s: Text)
    ensures forall i | 0 <= i < |Ucs2Decode(s)| :: Ucs2Decode(s)[i] <= 0x10FFFF
    decreases |s|
  {
    if s == [] {
    } else if StartsWithPair(s) {
      Ucs2Bounded(s[2..]);
    } else {
      Ucs2Bounded(s[1..]);
    }
  }

  /** On well-formed text this encoder and hterm's agree; on any other it fails. */
  lemma {:induction false} EncodersAgree(s: Text)
    ensures forall i | 0 <= i < |Ucs2Decode(s)| :: Ucs2Decode(s)[i] <= 0x10FFFF
    ensures EncodeAll(Ucs2Decode(s)) == if WellFormed(s) then Some(H.Encode(s)) else None
    decreases |s|
  {
    hide H.EncodeScalar;
    Ucs2Bounded(s);
    if s != [] {
      var n := if StartsWithPair(s) then 2 else 1;
      EncodersAgree(s[n..]);
      assert Ucs2Decode(s)[1..] == Ucs2Decode(s[n..]);
      if WellFormed(s) {
        assert H.FirstScalar(s) == (Ucs2Decode(s)[0], n);
      }
    }
  }

  /** utf8.encode: an exception on text with unpaired surrogates, else its UTF-8 bytes. */
  method Utf8Encode(str: Text) returns (r: Option<Text>)
    ensures r == if WellFormed(str) then Some(H.Encode(str)) else None
  {
    hide *;
    var codePoints := DecodeUcs2(str);
    EncodersAgree(str);
    var index := 0;
    var byteString: Text := [];
    ghost var goal := EncodeAll(codePoints);
    assert codePoints[0..] == codePoints;
    EncodesStart(codePoints);
    while index < |codePoints|
      invariant 0 <= index <= |codePoints|
      invariant Encodes(goal, byteString, codePoints[index..])
    {
      var symbol := EncodeCodePoint(codePoints[index]);
      EncodesStep(goal, byteString, codePoints, index);
      if symbol.None? {
        return None;
      }
      byteString := byteString + symbol.value;
      index := index + 1;
    }
    EncodesEnd(goal, byteString, codePoints[index..]);
    return Some(byteString);
  }

  /** `goal` is what encoding `remaining` adds to `done`. */
  ghost predicate Encodes(goal: Option<Text>, done: Text, remaining: seq<nat>) {
    && (forall i | 0 <= i < |remaining| :: remaining[i] <= 0x10FFFF)
    && goal == match EncodeAll(remaining)
               case None => None
               case Some(rest) => Some(done + rest)
  }

  lemma EncodesStart(cps: seq<nat>)
    requires forall i | 0 <= i < |cps| :: cps[i] <= 0x10FFFF
    ensures Encodes(EncodeAll(cps), [], cps)
  {
    if EncodeAll(cps).Some? {
      assert [] + EncodeAll(cps).value == EncodeAll(cps).value;
    }
  }

  lemma EncodesStep(goal: Option<Text>, done: Text, cps: seq<nat>, i: nat)
    requires i < |cps| && cps[i] <= 0x10FFFF && Encodes(goal, done, cps[i..])
    ensures if IsScalar(cps[i]) then Encodes(goal, done + H.EncodeScalar(cps[i]), cps[i + 1..])
            else goal == None
  {
    hide H.EncodeScalar;
    assert cps[i..][1..] == cps[i + 1..];
    if IsScalar(cps[i]) && EncodeAll(cps[i + 1..]).Some? {
      var rest := EncodeAll(cps[i + 1..]).value;
      assert done + (H.EncodeScalar(cps[i]) + rest) == done + H.EncodeScalar(cps[i]) + rest;
    }
  }

  lemma EncodesEnd(goal: Option<Text>, done: Text, remaining: seq<nat>)
    requires Encodes(goal, done, remaining) && remaining == []
    ensures goal == Some(done)
  {
    assert done + [] == done;
  }

  // ----- decoding

  /** A continuation byte's payload at position `i`, if there is one. */
  function Continuation(b: seq<nat>, i: nat): (r: Option<nat>)
    ensures r.Some? ==> r.value < 64
  {
    if i < |b| && 0x80 <= b[i] <= 0xBF then Some(b[i] - 0x80) else None
  }

  /** The code point whose encoding starts `b`, and the length of that encoding. */
  function Symbol(b: seq<nat>): (r: Option<(nat, nat)>)
    requires b != []
  {
    if b[0] <= 0x7F then Some((b[0], 1))
    else
      var c1, c2, c3 := Continuation(b, 1), Continuation(b, 2), Continuation(b, 3);
      if 0xC0 <= b[0] <= 0xDF && c1.Some? then
        Checked((b[0] - 0xC0) * 64 + c1.value, 0x80, 2)
      else if 0xE0 <= b[0] <= 0xEF && c1.Some? && c2.Some? then
        Checked(((b[0] - 0xE0) * 64 + c1.value) * 64 + c2.value, 0x800, 3)
      else if 0xF0 <= b[0] <= 0xF7 && c1.Some? && c2.Some? && c3.Some? then
        Checked((((b[0] - 0xF0) * 64 + c1.value) * 64 + c2.value) * 64 + c3.value, 0x10000, 4)
      else None
  }

  function Checked(codePoint: nat, least: nat, length: nat): Option<(nat, nat)> {
    if codePoint >= least && IsScalar(codePoint) then Some((codePoint, length)) else None
  }

  function DecodeBytes(b: seq<nat>): (r: Option<Text>)
    decreases |b|
  {
    if b == [] then Some([])
    else match Symbol(b)
      case None => None
      case Some((c, n)) =>
        if n > |b| || c > 0x10FFFF then None
        else match DecodeBytes(b[n..])
          case None => None
          case Some(rest) => Some(Utf16(c) + rest)
  }

  /** `Symbol`, read at position `i` of a longer sequence. */
  lemma SymbolAt(b: seq<nat>, i: nat)
    requires i < |b|
    ensures var c1, c2, c3 := Continuation(b, i + 1), Continuation(b, i + 2), Continuation(b, i + 3);
            Symbol(b[i..]) ==
            if b[i] <= 0x7F then Some((b[i], 1))
            else if 0xC0 <= b[i] <= 0xDF && c1.Some? then
              Checked((b[i] - 0xC0) * 64 + c1.value, 0x80, 2)
            else if 0xE0 <= b[i] <= 0xEF && c1.Some? && c2.Some? then
              Checked((b[i] - 0xE0) * 4096 + c1.value * 64 + c2.value, 0x800, 3)
            else if 0xF0 <= b[i] <= 0xF7 && c1.Some? && c2.Some? && c3.Some? then
              Checked((b[i] - 0xF0) * 262144 + c1.value * 4096 + c2.value * 64 + c3.value, 0x10000, 4)
            else None
  {
    assert forall k: nat | k <= 3 :: Continuation(b[i..], k) == Continuation(b, i + k);
  }

  datatype Outcome = End | CodePoint(value: nat) | Failure

  /** The decoder's shared cursor: `byteArray` and `byteIndex` are module variables there. */
  class Reader {
    const byteArray: seq<nat>
    var byteIndex: nat

    constructor (byteArray: seq<nat>)
      ensures this.byteArray == byteArray && byteIndex == 0
    {
      this.byteArray := byteArray;
      byteIndex := 0;
    }

    method ReadContinuationByte() returns (r: Option<nat>)
      modifies this
      ensures r == Continuation(byteArray, old(byteIndex))
      ensures r.Some? ==> byteIndex == old(byteIndex) + 1 <= |byteArray|
    {
      if byteIndex >= |byteArray| {
        return None;
      }
      var continuationByte := byteArray[byteIndex];
      byteIndex := byteIndex + 1;
      if 0x80 <= continuationByte <= 0xBF {
        return Some(continuationByte % 0x40);
      }
      return None;
    }

    method DecodeSymbol() returns (r: Outcome)
      requires byteIndex <= |byteArray|
      modifies this
      ensures old(byteIndex) == |byteArray| <==> r.End?
      ensures r.End? ==> byteIndex == old(byteIndex)
      ensures r.Failure? ==> Symbol(byteArray[old(byteIndex)..]) == None
      ensures r.CodePoint? ==>
                && old(byteIndex) < byteIndex <= |byteArray|
                && Symbol(byteArray[old(byteIndex)..]) == Some((r.value, byteIndex - old(byteIndex)))
    {
      if byteIndex == |byteArray| {
        return End;
      }
      hide Symbol, Continuation;
      SymbolAt(byteArray, byteIndex);
      var byte1 := byteArray[byteIndex];
      byteIndex := byteIndex + 1;
      if byte1 < 0x80 {
        return CodePoint(byte1);
      }
      if 0xC0 <= byte1 <= 0xDF {
        var byte2 := ReadContinuationByte();
        if byte2.None? { return Failure; }
        var codePoint := (byte1 - 0xC0) * 64 + byte2.value;
        return if codePoint >= 0x80 then CodePoint(codePoint) else Failure;
      }
      if 0xE0 <= byte1 <= 0xEF {
        var byte2 := ReadContinuationByte();
        if byte2.None? { return Failure; }
        var byte3 := ReadContinuationByte();
        if byte3.None? { return Failure; }
        var codePoint := (byte1 - 0xE0) * 4096 + byte2.value * 64 + byte3.value;
        return if codePoint >= 0x800 && !(0xD800 <= codePoint <= 0xDFFF) then CodePoint(codePoint) else Failure;
      }
      if 0xF0 <= byte1 <= 0xF7 {
        var byte2 := ReadContinuationByte();
        if byte2.None? { return Failure; }
        var byte3 := ReadContinuationByte();
        if byte3.None? { return Failure; }
        var byte4 := ReadContinuationByte();
        if byte4.None? { return Failure; }
        var codePoint := (byte1 - 0xF0) * 262144 + byte2.value * 4096 + byte3.value * 64 + byte4.value;
        if 0x10000 <= codePoint <= 0x10FFFF {
          return CodePoint(codePoint);
        }
      }
      return Failure;
    }
  }

  /** The code units the decoder works on: of each code point only the low byte counts. */
  function LowBytes(cps: seq<nat>): (r: seq<nat>)
    ensures |r| == |cps| && forall i | 0 <= i < |r| :: r[i] == cps[i] % 0x100
  {
    seq(|cps|, i requires 0 <= i < |cps| => cps[i] % 0x100)
  }

  lemma {:induction false} BytesStandForThemselves(s: Text)
    requires IsBytes(s)
    ensures Ucs2Decode(s) == s && LowBytes(Ucs2Decode(s)) == s
    decreases |s|
  {
    if s != [] {
      BytesStandForThemselves(s[1..]);
      assert s == [s[0]] + s[1..];
      assert Ucs2Decode(s) == [s[0] as nat] + Ucs2Decode(s[1..]);
    }
  }

  /** utf8.decode, which throws (None) on malformed input. */
  method Utf8Decode(byteString: Text) returns (r: Option<Text>)
    ensures r == DecodeBytes(LowBytes(Ucs2Decode(byteString)))
  {
    hide *;
    var units := DecodeUcs2(byteString);
    var bytes := LowBytes(units);
    var reader := new Reader(bytes);
    var text: Text := [];
    ghost var goal := DecodeBytes(bytes);
    assert bytes[0..] == bytes;
    DecodesStart(bytes);
    while true
      invariant reader.byteIndex <= |bytes|
      invariant Decodes(goal, text, bytes[reader.byteIndex..])
      decreases |bytes| - reader.byteIndex
    {
      ghost var at := reader.byteIndex;
      var symbol := reader.DecodeSymbol();
      match symbol
      case End =>
        DecodesEnd(goal, text, bytes[at..]);
        return Some(text);
      case Failure =>
        DecodesFailure(goal, text, bytes[at..]);
        return None;
      case CodePoint(c) =>
        DecodesStep(goal, text, bytes, at, c, reader.byteIndex);
        text := text + Utf16(c);
    }
  }

  ghost predicate Decodes(goal: Option<Text>, done: Text, remaining: seq<nat>) {
    goal == match DecodeBytes(remaining)
            case None => None
            case Some(rest) => Some(done + rest)
  }

  lemma DecodesStart(bytes: seq<nat>)
    ensures Decodes(DecodeBytes(bytes), [], bytes)
  {
    if DecodeBytes(bytes).Some? {
      assert [] + DecodeBytes(bytes).value == DecodeBytes(bytes).value;
    }
  }

  lemma DecodesStep(goal: Option<Text>, done: Text, bytes: seq<nat>, at: nat, c: nat, next: nat)
    requires at < next <= |bytes| && Symbol(bytes[at..]) == Some((c, next - at))
    requires Decodes(goal, done, bytes[at..])
    ensures c <= 0x10FFFF
    ensures Decodes(goal, done + Utf16(c), bytes[next..])
  {
    assert c <= 0x10FFFF;
    hide Symbol, Utf16;
    assert bytes[at..][next - at..] == bytes[next..];
    if DecodeBytes(bytes[next..]).Some? {
      var rest := DecodeBytes(bytes[next..]).value;
      assert done + (Utf16(c) + rest) == done + Utf16(c) + rest;
    }
  }

  lemma DecodesFailure(goal: Option<Text>, done: Text, remaining: seq<nat>)
    requires remaining != [] && Symbol(remaining) == None && Decodes(goal, done, remaining)
    ensures goal == None
  {
    hide Symbol;
  }

  lemma DecodesEnd(goal: Option<Text>, done: Text, remaining: seq<nat>)
    requires remaining == [] && Decodes(goal, done, remaining)
    ensures goal == Some(done)
  {
    assert done + [] == done;
  }

  /** The encoding of a scalar value is recognised, whatever follows it. */
  lemma SymbolOfEncoding(c: nat, rest: seq<nat>)
    requires IsScalar(c)
    ensures Symbol(H.EncodeScalar(c) + rest) == Some((c, |H.EncodeScalar(c)|))
  {
    hide H.EncodeScalar, H.Tail, Symbol;
    var b: seq<nat> := H.EncodeScalar(c) + rest;
    if c <= 0x7F {
      H.OneByte(c);
      SymbolOfBytes(b, c, 1);
    } else {
      H.LeadByte(c);
      EncodedTails(c);
      SixBitsThrice(c);
      if c <= 0x7FF {
        SymbolOfBytes(b, c, 2);
      } else if c <= 0xFFFF {
        SymbolOfBytes(b, c, 3);
      } else {
        SymbolOfBytes(b, c, 4);
      }
    }
  }

  lemma SixBitsThrice(c: nat)
    ensures c / 4096 == c / 64 / 64 && c / 262144 == c / 64 / 64 / 64
  {
  }

  lemma SymbolOfBytes(b: seq<nat>, c: nat, n: nat)
    requires IsScalar(c) && 1 <= n <= |b|
    requires n == if c <= 0x7F then 1 else if c <= 0x7FF then 2 else if c <= 0xFFFF then 3 else 4
    requires if n == 1 then b[0] == c else b[n - 1] == 0x80 + c % 64
    requires n == 2 ==> b[0] == 0xC0 + c / 64
    requires n == 3 ==> b[0] == 0xE0 + c / 64 / 64 && b[1] == 0x80 + c / 64 % 64
    requires n == 4 ==> b[0] == 0xF0 + c / 64 / 64 / 64 && b[1] == 0x80 + c / 64 / 64 % 64 && b[2] == 0x80 + c / 64 % 64
    ensures Symbol(b) == Some((c, n))
  {
  }

  lemma SixBits(h: nat, x: nat)
    requires x < 64
    ensures (h * 64 + x) / 64 == h && (h * 64 + x) % 64 == x
  {
  }

  /** Whatever is recognised is an encoding. */
  lemma SymbolIsEncoding(b: seq<nat>)
    requires b != [] && Symbol(b).Some?
    ensures var (c, n) := Symbol(b).value;
            IsScalar(c) && 1 <= n <= |b| && b[..n] == H.EncodeScalar(c)
  {
    var (c, n) := Symbol(b).value;
    if n == 1 {
      H.OneByte(c);
    } else {
      var h := b[0] - H.LeadBase(n - 1);
      var x1 := Continuation(b, 1).value;
      SixBits(h, x1);
      if n > 2 {
        var h1 := h * 64 + x1;
        var x2 := Continuation(b, 2).value;
        SixBits(h1, x2);
        if n > 3 {
          SixBits(h1 * 64 + x2, Continuation(b, 3).value);
        }
      }
      SymbolParts(b, c, n);
    }
  }

  lemma SymbolParts(b: seq<nat>, c: nat, n: nat)
    requires 2 <= n <= 4 <= |b| + 4 - n && 0x80 <= c <= 0x10FFFF
    requires n == if c <= 0x7FF then 2 else if c <= 0xFFFF then 3 else 4
    requires b[n - 1] == 0x80 + c % 64
    requires n == 2 ==> b[0] == 0xC0 + c / 64
    requires n == 3 ==> b[0] == 0xE0 + c / 64 / 64 && b[1] == 0x80 + c / 64 % 64
    requires n == 4 ==> b[0] == 0xF0 + c / 64 / 64 / 64 && b[1] == 0x80 + c / 64 / 64 % 64 && b[2] == 0x80 + c / 64 % 64
    ensures b[..n] == H.EncodeScalar(c)
  {
    hide H.EncodeScalar, H.Tail;
    H.LeadByte(c);
    EncodedTails(c);
    assert c / 4096 == c / 64 / 64 && c / 262144 == c / 64 / 64 / 64;
  }

  /** The decoder accepts a byte string exactly if it is the encoding of some well-formed
      text, and then yields that text. */
  lemma {:induction false} DecodesExactlyEncodings(b: seq<nat>, t: Text)
    ensures DecodeBytes(b) == Some(t) <==> WellFormed(t) && b == H.Encode(t)
    decreases |b| + |t|
  {
    hide H.EncodeScalar, Symbol, Utf16, H.FirstScalar;
    if b != [] && DecodeBytes(b) == Some(t) {
      SymbolIsEncoding(b);
      var (c, n) := Symbol(b).value;
      var rest := DecodeBytes(b[n..]).value;
      Utf16Length(c);
      DecodesExactlyEncodings(b[n..], rest);
      WellFormedCons(c, rest);
      H.EncodeCons(c, rest);
      assert b == b[..n] + b[n..];
    } else if t != [] && WellFormed(t) && b == H.Encode(t) {
      var (c, n) := H.FirstScalar(t);
      FirstOfWellFormed(t);
      var rest: seq<nat> := H.Encode(t[n..]);
      SymbolOfEncoding(c, rest);
      var k := |H.EncodeScalar(c)|;
      assert b == H.EncodeScalar(c) + rest;
      assert b[k..] == rest;
      DecodesExactlyEncodings(b[k..], t[n..]);
    }
  }

  lemma Utf16Length(c: nat)
    requires c <= 0x10FFFF
    ensures 1 <= |Utf16(c)| <= 2
  {
  }

  lemma FirstOfWellFormed(t: Text)
    requires WellFormed(t) && t != []
    ensures var (c, n) := H.FirstScalar(t);
            t == Utf16(c) + t[n..] && WellFormed(t[n..])
  {
  }

  /** The two decoders of the repository accept the same byte strings with the same result. */
  lemma DecodersAgree(s: H.DecoderState, b: Text)
    requires s.bytesLeft == 0
    ensures var d := H.Run(s, b);
            DecodeBytes(b) == if d.error || d.state.bytesLeft > 0 then None else Some(d.text)
  {
    var d := H.Run(s, b);
    H.AcceptsExactlyCanonical(s, b);
    H.OutputIsWellFormed(s, b);
    if !d.error && d.state.bytesLeft == 0 {
      DecodesExactlyEncodings(b, d.text);
    } else if DecodeBytes(b).Some? {
      var t := DecodeBytes(b).value;
      DecodesExactlyEncodings(b, t);
      H.DecodeEncode(s, t);
    }
  }
}
