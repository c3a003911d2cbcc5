/** The streaming UTF-8 decoder and the UTF-8 encoder of hterm (libdot/js/lib_utf8.js). */
module HtermUtf8 {
  import opened JsText

  /** The decoder's fields between two calls. */
  datatype DecoderState = DecoderState(bytesLeft: nat, codePoint: nat, lowerBound: nat)

  /** What consuming some input yields: the state left behind, the text decoded,
      and whether an error branch was taken. */
  datatype Decoded = Decoded(state: DecoderState, text: Text, error: bool)

  /** The JavaScript value of `x << 6`: the shift works on signed 32-bit integers. */
  function ShiftLeft6(x: int): int {
    var y := (x * 64) % 0x1_0000_0000;
    if y < 0x8000_0000 then y else y - 0x1_0000_0000
  }

  /** No in-progress code point is ever large enough for the next shift to overflow. */
  predicate Reachable(s: DecoderState) {
    && s.bytesLeft <= 5
    && s.codePoint < CodePointLimit(s.bytesLeft)
  }

  function CodePointLimit(bytesLeft: nat): nat
    requires bytesLeft <= 5
  {
    match bytesLeft
    case 0 => 0x8000_0000
    case 1 => 0x200_0000
    case 2 => 0x8_0000
    case 3 => 0x2000
    case 4 => 0x80
    case 5 => 2
  }

  /** The number of continuation bytes that lead byte `c` announces; 0 if `c` is no lead byte. */
  function Continuations(c: CodeUnit): nat {
    if 0xC0 <= c <= 0xDF then 1
    else if 0xE0 <= c <= 0xEF then 2
    else if 0xF0 <= c <= 0xF7 then 3
    else if 0xF8 <= c <= 0xFB then 4
    else if 0xFC <= c <= 0xFD then 5
    else 0
  }

  /** The first byte value with `n` continuation bytes, and the least code point worth that length. */
  function LeadBase(n: nat): nat
    requires 1 <= n <= 5
  {
    match n case 1 => 0xC0 case 2 => 0xE0 case 3 => 0xF0 case 4 => 0xF8 case 5 => 0xFC
  }

  function LeastCodePoint(n: nat): nat
    requires 1 <= n <= 5
  {
    match n case 1 => 0x80 case 2 => 0x800 case 3 => 0x10000 case 4 => 0x200000 case 5 => 0x4000000
  }

  /** One code unit with no sequence in progress. */
  function Begin(s: DecoderState, c: CodeUnit): Decoded {
    var n := Continuations(c);
    if c <= 0x7F then Decoded(s, [c], false)
    else if n == 0 then Decoded(s, [REPLACEMENT], true)
    else Decoded(DecoderState(n, c - LeadBase(n), LeastCodePoint(n)), [], false)
  }

  /** One code unit in any state; a sequence cut short is reported, and the unit looked at afresh. */
  function Step(s: DecoderState, c: CodeUnit): Decoded {
    if s.bytesLeft == 0 then Begin(s, c)
    else if !(0x80 <= c <= 0xBF) then
      var d := Begin(s.(bytesLeft := 0), c);
      Decoded(d.state, [REPLACEMENT] + d.text, true)
    else
      var cp := s.codePoint * 64 + (c - 0x80);
      var next := s.(bytesLeft := s.bytesLeft - 1, codePoint := cp);
      if next.bytesLeft > 0 then Decoded(next, [], false)
      else if cp < s.lowerBound || !IsScalar(cp) then Decoded(next, [REPLACEMENT], true)
      else Decoded(next, Utf16(cp), false)
  }

  /** Decoding a whole string, one code unit after the other. */
  function Run(s: DecoderState, str: Text): Decoded
    decreases |str|
  {
    if str == [] then Decoded(s, [], false)
    else
      var first := Step(s, str[0]);
      var rest := Run(first.state, str[1..]);
      Decoded(rest.state, first.text + rest.text, first.error || rest.error)
  }

  /** lib.UTF8Decoder: the fields survive from one call to the next. */
  class UTF8Decoder {
    var bytesLeft: nat
    var codePoint: nat
    var lowerBound: nat

    ghost predicate Valid()
      reads this
    {
      Reachable(State())
    }

    ghost function State(): DecoderState
      reads this
    {
      DecoderState(bytesLeft, codePoint, lowerBound)
    }

    constructor ()
      ensures Valid() && State() == DecoderState(0, 0, 0)
    {
      bytesLeft, codePoint, lowerBound := 0, 0, 0;
    }

    /** The loop of the original steps back one position to look at a byte again; it ends
        because such a step lowers `bytesLeft`. */
    method Decode(str: Text) returns (ret: Text)
      requires Valid()
      modifies this
      ensures Valid()
      ensures State() == Run(old(State()), str).state
      ensures ret == Run(old(State()), str).text
    {
      hide Run, Completes, Utf16, ShiftLeft6, Reachable;
      ret := [];
      var i := 0;
      ghost var goal := Run(State(), str);
      CompletesStart(State(), str);
      while i < |str|
        invariant 0 <= i <= |str|
        invariant Valid()
        invariant Completes(goal, ret, State(), str[i..])
        decreases |str| - i, bytesLeft
      {
        ghost var before, seen := State(), ret;
        var c := str[i];
        if bytesLeft == 0 {
          if c <= 0x7F {
            ret := ret + [c];
          } else if 0xC0 <= c <= 0xDF {
            codePoint, bytesLeft, lowerBound := c - 0xC0, 1, 0x80;
          } else if 0xE0 <= c <= 0xEF {
            codePoint, bytesLeft, lowerBound := c - 0xE0, 2, 0x800;
          } else if 0xF0 <= c <= 0xF7 {
            codePoint, bytesLeft, lowerBound := c - 0xF0, 3, 0x10000;
          } else if 0xF8 <= c <= 0xFB {
            codePoint, bytesLeft, lowerBound := c - 0xF8, 4, 0x200000;
          } else if 0xFC <= c <= 0xFD {
            codePoint, bytesLeft, lowerBound := c - 0xFC, 5, 0x4000000;
          } else {
            ret := ret + [REPLACEMENT];
          }
          CompletesStep(goal, seen, before, str, i, State(), ret);
          StepReachable(before, c);
        } else if 0x80 <= c <= 0xBF {
          ShiftIsExact(before);
          bytesLeft := bytesLeft - 1;
          codePoint := ShiftLeft6(codePoint) + (c - 0x80);
          if bytesLeft == 0 {
            if codePoint < lowerBound || 0xD800 <= codePoint <= 0xDFFF || codePoint > 0x10FFFF {
              ret := ret + [REPLACEMENT];
            } else if codePoint < 0x10000 {
              Utf16IsPair(codePoint);
              ret := ret + [codePoint];
            } else {
              var offset := codePoint - 0x10000;
              Utf16IsPair(codePoint);
              ret := ret + [0xD800 + offset / 0x400 % 0x400, 0xDC00 + offset % 0x400];
            }
          }
          CompletesStep(goal, seen, before, str, i, State(), ret);
          StepReachable(before, c);
        } else {
          // Too few bytes: report it, and come back to this one.
          ret := ret + [REPLACEMENT];
          bytesLeft := 0;
          i := i - 1;
          CompletesRewind(goal, seen, before, str, i + 1);
          RewindReachable(before);
        }
        i := i + 1;
      }
      CompletesEnd(goal, ret, State(), str[i..]);
    }
  }

  /** `goal` is what was decoded so far plus what the remaining input still yields. */
  ghost predicate Completes(goal: Decoded, done: Text, s: DecoderState, remaining: Text) {
    goal.state == Run(s, remaining).state && goal.text == done + Run(s, remaining).text
  }

  lemma CompletesStart(s: DecoderState, str: Text)
    ensures Completes(Run(s, str), [], s, str[0..])
  {
    assert str[0..] == str;
  }

  lemma CompletesEnd(goal: Decoded, done: Text, s: DecoderState, remaining: Text)
    requires Completes(goal, done, s, remaining) && remaining == []
    ensures goal.state == s && goal.text == done
  {
  }

  lemma CompletesStep(goal: Decoded, done: Text, s: DecoderState, str: Text, i: nat,
                      next: DecoderState, now: Text)
    requires i < |str| && Completes(goal, done, s, str[i..])
    requires next == Step(s, str[i]).state && now == done + Step(s, str[i]).text
    ensures Completes(goal, now, next, str[i + 1..])
  {
    assert str[i..][1..] == str[i + 1..];
    var rest := Run(next, str[i + 1..]).text;
    assert done + (Step(s, str[i]).text + rest) == now + rest;
  }

  lemma CompletesRewind(goal: Decoded, done: Text, s: DecoderState, str: Text, i: nat)
    requires i < |str| && Completes(goal, done, s, str[i..])
    requires s.bytesLeft > 0 && !(0x80 <= str[i] <= 0xBF)
    ensures Completes(goal, done + [REPLACEMENT], s.(bytesLeft := 0), str[i..])
  {
    var afresh := s.(bytesLeft := 0);
    assert Step(s, str[i]).text == [REPLACEMENT] + Step(afresh, str[i]).text;
    var rest := Run(Step(s, str[i]).state, str[i..][1..]).text;
    assert [REPLACEMENT] + Step(afresh, str[i]).text + rest == [REPLACEMENT] + (Step(afresh, str[i]).text + rest);
    assert done + ([REPLACEMENT] + Run(afresh, str[i..]).text) == done + [REPLACEMENT] + Run(afresh, str[i..]).text;
  }

  lemma Utf16IsPair(c: nat)
    requires c <= 0x10FFFF
    ensures Utf16(c) == if c < 0x10000 then [c]
                        else [0xD800 + (c - 0x10000) / 0x400 % 0x400, 0xDC00 + (c - 0x10000) % 0x400]
  {
  }

  lemma StepReachable(s: DecoderState, c: CodeUnit)
    requires Reachable(s)
    ensures Reachable(Step(s, c).state)
  {
  }

  lemma RewindReachable(s: DecoderState)
    requires Reachable(s)
    ensures Reachable(s.(bytesLeft := 0))
  {
  }

  lemma ShiftIsExact(s: DecoderState)
    requires Reachable(s) && s.bytesLeft > 0
    ensures ShiftLeft6(s.codePoint) == s.codePoint * 64
  {
  }

  /** Streaming: two calls on one decoder give the text, the final fields and the errors
      of one call on the joined input. */
  lemma {:induction false} RunConcat(s: DecoderState, a: Text, b: Text)
    ensures Run(s, a + b).state == Run(Run(s, a).state, b).state
    ensures Run(s, a + b).text == Run(s, a).text + Run(Run(s, a).state, b).text
    ensures Run(s, a + b).error == (Run(s, a).error || Run(Run(s, a).state, b).error)
    decreases |a|
  {
    if a == [] {
      assert a + b == b;
    } else {
      assert (a + b)[1..] == a[1..] + b;
      RunConcat(Step(s, a[0]).state, a[1..], b);
    }
  }

  /** Every in-progress code point stays below 2^31, so the 32-bit shift is exact. */
  lemma {:induction false} RunReachable(s: DecoderState, str: Text)
    requires Reachable(s)
    ensures Reachable(Run(s, str).state)
    ensures s.bytesLeft > 0 ==> ShiftLeft6(s.codePoint) == s.codePoint * 64
    decreases |str|
  {
    if str != [] {
      RunReachable(Step(s, str[0]).state, str[1..]);
    }
  }

  /** From whatever state, on whatever input, the output is well-formed UTF-16. */
  lemma {:induction false} OutputIsWellFormed(s: DecoderState, str: Text)
    ensures WellFormed(Run(s, str).text)
    decreases |str|
  {
    if str != [] {
      var first := Step(s, str[0]);
      var rest := Run(first.state, str[1..]).text;
      OutputIsWellFormed(first.state, str[1..]);
      StepIsWellFormed(s, str[0], rest);
    }
  }

  lemma StepIsWellFormed(s: DecoderState, c: CodeUnit, rest: Text)
    requires WellFormed(rest)
    ensures WellFormed(Step(s, c).text + rest)
  {
    var out := Step(s, c).text;
    if |out| == 2 && !IsHigh(out[0]) {
      assert out + rest == Utf16(out[0]) + (Utf16(out[1]) + rest);
      WellFormedCons(out[1], rest);
      WellFormedCons(out[0], Utf16(out[1]) + rest);
    } else if |out| == 2 {
      assert (out + rest)[2..] == rest;
    } else if |out| == 1 {
      WellFormedCons(out[0], rest);
    } else {
      assert out + rest == rest;
    }
  }

  // ----- encoder

  /** `c >>> 6 * k` */
  function Shift(c: nat, k: nat): (r: nat)
    ensures r <= c && (k == 0 ==> r == c)
  {
    if k == 0 then c else Shift(c, k - 1) / 64
  }

  lemma {:induction false} Shifts(c: nat, k: nat)
    requires 1 <= k <= 5
    ensures Shift(c, k) == Shift(c, k - 1) / 64
    ensures Shift(c, k) == match k case 1 => c / 64 case 2 => c / 4096 case 3 => c / 262144
                                  case 4 => c / 16777216 case 5 => c / 1073741824
  {
    if k > 1 {
      Shifts(c, k - 1);
    }
  }

  /** The last `k` continuation bytes of code point `c`. */
  function Tail(c: nat, k: nat): Text {
    if k == 0 then [] else [0x80 + Shift(c, k - 1) % 64] + Tail(c, k - 1)
  }

  /** A lead byte that announces `n` continuation bytes, and those bytes. */
  function EncodeLong(c: nat, n: nat): Text
    requires 1 <= n <= 5 && LeadBase(n) + Shift(c, n) <= 0xFFFF
  {
    [LeadBase(n) + Shift(c, n)] + Tail(c, n)
  }

  /** UTF-8 of one code point (RFC 3629, section 3). */
  function EncodeScalar(c: nat): (r: Text)
    requires c <= 0x10FFFF
    ensures r != []
  {
    Shifts(c, 1); Shifts(c, 2); Shifts(c, 3);
    if c <= 0x7F then [c]
    else if c <= 0x7FF then EncodeLong(c, 1)
    else if c <= 0xFFFF then EncodeLong(c, 2)
    else EncodeLong(c, 3)
  }

  /** The first code point of a text, an unpaired surrogate counting as U+FFFD,
      and the number of code units it takes. */
  function FirstScalar(s: Text): (r: (nat, nat))
    requires s != []
    ensures IsScalar(r.0) && 1 <= r.1 <= |s| && r.1 <= 2
  {
    if StartsWithPair(s) then (PairValue(s[0], s[1]), 2)
    else (if IsHigh(s[0]) || IsLow(s[0]) then REPLACEMENT else s[0], 1)
  }

  function Encode(s: Text): Text {
    if s == [] then []
    else
      var (c, n) := FirstScalar(s);
      EncodeScalar(c) + Encode(s[n..])
  }

  /** lib.encodeUTF8. */
  method EncodeUTF8(str: Text) returns (ret: Text)
    ensures ret == Encode(str)
  {
    hide *;
    ret := [];
    var i := 0;
    assert str[0..] == str;
    while i < |str|
      invariant 0 <= i <= |str|
      invariant Encode(str) == ret + Encode(str[i..])
    {
      var c, last := CodePointAt(str, i);
      FirstScalarAt(str, i, c, last);
      AppendAssociates(ret, EncodeScalar(c), Encode(str[last + 1..]));
      ret := AppendUTF8(ret, c);
      i := last + 1;
    }
    EncodeNothing(str[i..]);
  }

  /** The first half of the encoder's loop: the code point at `start`, and the position of
      its last code unit. */
  method CodePointAt(str: Text, start: nat) returns (c: nat, i: nat)
    requires start < |str|
    ensures CodePointSpan(str, start, c, i)
  {
    i := start;
    c := str[i];
    if 0xDC00 <= c <= 0xDFFF {
      c := 0xFFFD;
    } else if 0xD800 <= c <= 0xDBFF {
      if i + 1 < |str| {
        var d := str[i + 1];
        if 0xDC00 <= d <= 0xDFFF {
          // both halves of a pair
          PairBits(c, d);
          c := 0x10000 + c % 0x400 * 0x400 + d % 0x400;
          i := i + 1;
        } else {
          c := 0xFFFD;
        }
      } else {
        c := 0xFFFD;
      }
    }
  }

  /** The second half: the bytes of `c` are appended. */
  method AppendUTF8(done: Text, c: nat) returns (ret: Text)
    requires c <= 0x10FFFF
    ensures ret == done + EncodeScalar(c)
  {
    hide *;
    ret := done;
    if c <= 0x7F {
      ret := ret + [c];
      OneByte(c);
      return;
    }
    var bytesLeft: nat;
    LeadByte(c);
    ghost var goal := done + EncodeScalar(c);
    if c <= 0x7FF {
      ret, bytesLeft := ret + [0xC0 + c / 64], 1;
    } else if c <= 0xFFFF {
      ret, bytesLeft := ret + [0xE0 + c / 4096], 2;
    } else {
      ret, bytesLeft := ret + [0xF0 + c / 262144], 3;
    }
    while bytesLeft > 0
      invariant goal == ret + Tail(c, bytesLeft)
    {
      bytesLeft := bytesLeft - 1;
      TailStep(c, bytesLeft + 1);
      AppendAssociates(ret, [0x80 + Shift(c, bytesLeft) % 64], Tail(c, bytesLeft));
      ret := ret + [0x80 + Shift(c, bytesLeft) % 64];
    }
    TailStep(c, 0);
  }

  lemma AppendAssociates(a: Text, b: Text, c: Text)
    ensures a + (b + c) == a + b + c
  {
  }

  lemma PairBits(high: int, low: int)
    requires IsHigh(high) && IsLow(low)
    ensures 0x10000 + high % 0x400 * 0x400 + low % 0x400 == PairValue(high, low)
  {
  }

  ghost predicate CodePointSpan(str: Text, start: nat, c: nat, i: nat)
    requires start < |str|
  {
    && start <= i < |str| && i <= start + 1
    && if IsLow(str[start]) then c == 0xFFFD && i == start
       else if IsHigh(str[start]) && start + 1 < |str| && IsLow(str[start + 1]) then
         i == start + 1 && c == PairValue(str[start], str[start + 1])
       else i == start && c == if IsHigh(str[start]) then 0xFFFD else str[start]
  }

  lemma FirstScalarAt(str: Text, start: nat, c: nat, i: nat)
    requires start < |str| && CodePointSpan(str, start, c, i)
    ensures c <= 0x10FFFF && start <= i < |str|
    ensures Encode(str[start..]) == EncodeScalar(c) + Encode(str[i + 1..])
  {
    hide EncodeScalar;
    assert FirstScalar(str[start..]) == (c, i + 1 - start);
    assert str[start..][i + 1 - start..] == str[i + 1..];
  }

  lemma OneByte(c: nat)
    requires c <= 0x7F
    ensures EncodeScalar(c) == [c]
  {
  }

  lemma LeadByte(c: nat)
    requires 0x80 <= c <= 0x10FFFF
    ensures EncodeScalar(c) == if c <= 0x7FF then [0xC0 + c / 64] + Tail(c, 1)
                               else if c <= 0xFFFF then [0xE0 + c / 4096] + Tail(c, 2)
                               else [0xF0 + c / 262144] + Tail(c, 3)
  {
    hide Tail;
    Shifts(c, 1);
    Shifts(c, 2);
    Shifts(c, 3);
  }

  lemma TailStep(c: nat, k: nat)
    ensures Tail(c, k) == if k == 0 then [] else [0x80 + Shift(c, k - 1) % 64] + Tail(c, k - 1)
  {
  }

  lemma EncodeNothing(s: Text)
    requires s == []
    ensures Encode(s) == []
  {
  }

  lemma {:induction false} TailIsBytes(c: nat, k: nat)
    ensures IsBytes(Tail(c, k)) && |Tail(c, k)| == k
  {
    if k > 0 {
      TailIsBytes(c, k - 1);
    }
  }

  lemma {:induction false} EncodeYieldsBytes(s: Text)
    ensures IsBytes(Encode(s))
    decreases |s|
  {
    if s != [] {
      var (c, n) := FirstScalar(s);
      hide Tail;
      TailIsBytes(c, 1);
      TailIsBytes(c, 2);
      TailIsBytes(c, 3);
      if c > 0x7F {
        LeadByte(c);
      }
      EncodeYieldsBytes(s[n..]);
    }
  }

  /** Encoding goes code point by code point. */
  lemma EncodeCons(c: nat, s: Text)
    requires IsScalar(c)
    ensures Encode(Utf16(c) + s) == EncodeScalar(c) + Encode(s)
  {
    hide EncodeScalar;
    var t := Utf16(c) + s;
    assert t[|Utf16(c)|..] == s;
    assert FirstScalar(t) == (c, |Utf16(c)|);
  }

  // ----- decoding what was encoded

  /** The continuation bytes still missing from `c` complete it. */
  lemma {:induction false} DecodeTail(s: DecoderState, c: nat)
    requires 1 <= s.bytesLeft <= 3 && IsScalar(c)
    requires s.codePoint == Shift(c, s.bytesLeft) && s.lowerBound <= c
    ensures Run(s, Tail(c, s.bytesLeft)).text == Utf16(c)
    ensures Run(s, Tail(c, s.bytesLeft)).state.bytesLeft == 0
    ensures !Run(s, Tail(c, s.bytesLeft)).error
    decreases s.bytesLeft
  {
    hide Shift, Utf16;
    var k := s.bytesLeft;
    var b := 0x80 + Shift(c, k - 1) % 64;
    Shifts(c, k);
    var next := Step(s, b).state;
    assert Tail(c, k)[0] == b && Tail(c, k)[1..] == Tail(c, k - 1);
    if k > 1 {
      DecodeTail(next, c);
    } else {
      assert Tail(c, 0) == [];
    }
  }

  lemma DecodeLong(s: DecoderState, c: nat, n: nat)
    requires s.bytesLeft == 0 && IsScalar(c) && 1 <= n <= 3
    requires LeastCodePoint(n) <= c && LeadBase(n) + Shift(c, n) <= 0xFFFF
    requires Continuations(LeadBase(n) + Shift(c, n)) == n
    ensures Run(s, EncodeLong(c, n)).text == Utf16(c)
    ensures Run(s, EncodeLong(c, n)).state.bytesLeft == 0
    ensures !Run(s, EncodeLong(c, n)).error
  {
    hide Run, Tail, Shift, Utf16;
    var b := LeadBase(n) + Shift(c, n);
    var first := Step(s, b);
    RunCons(s, b, Tail(c, n));
    DecodeTail(first.state, c);
    var d := Run(first.state, Tail(c, n));
    assert first.text + d.text == d.text;
  }

  /** The bytes of one scalar value, fed to a decoder with nothing pending, come out as that value. */
  lemma DecodeScalar(s: DecoderState, c: nat)
    requires s.bytesLeft == 0 && IsScalar(c)
    ensures Run(s, EncodeScalar(c)).text == Utf16(c)
    ensures Run(s, EncodeScalar(c)).state.bytesLeft == 0
    ensures !Run(s, EncodeScalar(c)).error
  {
    if c <= 0x7F {
      OneByte(c);
    } else {
      hide Run, EncodeLong, Shift, Utf16, Step;
      var n := if c <= 0x7FF then 1 else if c <= 0xFFFF then 2 else 3;
      Shifts(c, n);
      DecodeLong(s, c, n);
    }
  }

  /** From a decoder with nothing pending, decoding undoes encoding, except that unpaired
      surrogates come back as U+FFFD. */
  lemma {:induction false} DecodeEncode(s: DecoderState, str: Text)
    requires s.bytesLeft == 0
    ensures Run(s, Encode(str)).text == Repaired(str)
    ensures Run(s, Encode(str)).state.bytesLeft == 0
    ensures !Run(s, Encode(str)).error
    decreases |str|
  {
    if str != [] {
      hide Run, EncodeScalar;
      var (c, n) := FirstScalar(str);
      DecodeScalar(s, c);
      RunConcat(s, EncodeScalar(c), Encode(str[n..]));
      DecodeEncode(Run(s, EncodeScalar(c)).state, str[n..]);
      assert Repaired(str) == Utf16(c) + Repaired(str[n..]);
    }
  }

  // ----- strictness

  /** In state `s`, `p` is the part of a sequence already consumed: whatever code point the
      rest of the sequence makes of it, `p` is how the encoding of that code point begins. */
  ghost predicate Pending(s: DecoderState, p: Text) {
    if s.bytesLeft == 0 then p == []
    else
      && 1 <= |p| && s.bytesLeft + |p| <= 6
      && var n := s.bytesLeft + |p| - 1;
      && Continuations(p[0]) == n && s.lowerBound == LeastCodePoint(n)
      && forall c: nat | Shift(c, s.bytesLeft) == s.codePoint ::
           Begins(p, c, n, s.bytesLeft)
  }

  ghost predicate Begins(p: Text, c: nat, n: nat, left: nat)
    requires 1 <= n <= 5
  {
    LeadBase(n) + Shift(c, n) <= 0xFFFF && EncodeLong(c, n) == p + Tail(c, left)
  }

  lemma PendingLead(s: DecoderState, b: CodeUnit)
    requires s.bytesLeft == 0 && Continuations(b) > 0
    ensures Pending(Step(s, b).state, [b])
  {
    hide Shift, Tail;
    var n := Continuations(b);
    forall c: nat | Shift(c, n) == b - LeadBase(n)
      ensures Begins([b], c, n, n)
    {
    }
  }

  lemma PendingStep(s: DecoderState, p: Text, b: CodeUnit)
    requires s.bytesLeft > 1 && Pending(s, p) && 0x80 <= b <= 0xBF
    ensures Pending(Step(s, b).state, p + [b])
  {
    hide Shift, Tail;
    var k := s.bytesLeft;
    var j := k - 1;
    forall c: nat | Shift(c, j) == s.codePoint * 64 + (b - 0x80)
      ensures Begins(p + [b], c, k + |p| - 1, j)
    {
      Shifts(c, k);
      TailStep(c, k);
      assert Begins(p, c, k + |p| - 1, k);
      assert p + ([b] + Tail(c, k - 1)) == p + [b] + Tail(c, k - 1);
    }
  }

  /** A sequence that is accepted when it completes is the encoding of the value it yields. */
  lemma CompletedIsCanonical(s: DecoderState, p: Text, b: CodeUnit)
    requires Pending(s, p) && s.bytesLeft == 1 && 0x80 <= b <= 0xBF
    requires !Step(s, b).error
    ensures IsScalar(Step(s, b).state.codePoint) && Step(s, b).text == Utf16(Step(s, b).state.codePoint)
    ensures EncodeScalar(Step(s, b).state.codePoint) == p + [b]
  {
    hide Shift, Tail, Utf16;
    var c := Step(s, b).state.codePoint;
    Shifts(c, 1);
    Shifts(c, |p|);
    TailStep(c, 1);
    TailStep(c, 0);
    assert Begins(p, c, |p|, 1);
    assert EncodeLong(c, |p|)[0] == p[0];
    assert |p| <= 3;
    assert Tail(c, 1) == [b];
    assert EncodeScalar(c) == EncodeLong(c, |p|);
  }

  /** Input that meets no error and ends between sequences is the encoding of its own output. */
  lemma {:induction false} CanonicalFrom(s: DecoderState, p: Text, str: Text)
    requires Pending(s, p)
    requires !Run(s, str).error && Run(s, str).state.bytesLeft == 0
    ensures p + str == Encode(Run(s, str).text)
    decreases |str|, 1
  {
    hide Run, Encode, EncodeScalar, Pending, Utf16, Step;
    if str == [] {
      CanonicalNothing(s, p);
    } else {
      assert str == [str[0]] + str[1..];
      CanonicalCons(s, p, str[0], str[1..]);
    }
  }

  lemma {:induction false} CanonicalCons(s: DecoderState, p: Text, b: CodeUnit, rest: Text)
    requires Pending(s, p)
    requires !Run(s, [b] + rest).error && Run(s, [b] + rest).state.bytesLeft == 0
    ensures p + ([b] + rest) == Encode(Run(s, [b] + rest).text)
    decreases |rest| + 1, 0
  {
    hide Run, Encode, EncodeScalar, Pending, Utf16, Step;
    RunCons(s, b, rest);
    var first := Step(s, b);
    var out := Run(first.state, rest).text;
    AppendAssociates(p, [b], rest);
    if first.state.bytesLeft > 0 {
      PendingGrows(s, p, b);
      CanonicalFrom(first.state, p + [b], rest);
      assert first.text + out == out;
    } else {
      PendingEnds(s, p, b);
      CanonicalFrom(first.state, [], rest);
      var c := if s.bytesLeft == 0 then b as nat else first.state.codePoint;
      EncodeCons(c, out);
      assert [] + rest == rest;
    }
  }

  lemma CanonicalNothing(s: DecoderState, p: Text)
    requires Pending(s, p) && Run(s, []).state.bytesLeft == 0
    ensures p == Encode(Run(s, []).text)
  {
  }

  lemma RunCons(s: DecoderState, b: CodeUnit, rest: Text)
    ensures Run(s, [b] + rest)
            == var first := Step(s, b);
               var d := Run(first.state, rest);
               Decoded(d.state, first.text + d.text, first.error || d.error)
  {
    assert ([b] + rest)[1..] == rest;
  }

  lemma PendingGrows(s: DecoderState, p: Text, b: CodeUnit)
    requires Pending(s, p) && !Step(s, b).error && Step(s, b).state.bytesLeft > 0
    ensures Pending(Step(s, b).state, p + [b]) && Step(s, b).text == []
  {
    if s.bytesLeft == 0 {
      PendingLead(s, b);
      assert p + [b] == [b];
    } else {
      PendingStep(s, p, b);
    }
  }

  lemma PendingEnds(s: DecoderState, p: Text, b: CodeUnit)
    requires Pending(s, p) && !Step(s, b).error && Step(s, b).state.bytesLeft == 0
    ensures Pending(Step(s, b).state, [])
    ensures var c := if s.bytesLeft == 0 then b as nat else Step(s, b).state.codePoint;
            IsScalar(c) && Step(s, b).text == Utf16(c) && EncodeScalar(c) == p + [b]
  {
    if s.bytesLeft == 0 {
      OneByte(b);
    } else {
      CompletedIsCanonical(s, p, b);
    }
  }

  /** The decoder accepts exactly the canonical encodings: overlong forms, encoded surrogates
      and five- or six-byte forms always meet an error. */
  lemma AcceptsExactlyCanonical(s: DecoderState, bytes: Text)
    requires s.bytesLeft == 0
    ensures (!Run(s, bytes).error && Run(s, bytes).state.bytesLeft == 0)
            <==> bytes == Encode(Run(s, bytes).text)
  {
    if !Run(s, bytes).error && Run(s, bytes).state.bytesLeft == 0 {
      CanonicalFrom(s, [], bytes);
    } else if bytes == Encode(Run(s, bytes).text) {
      DecodeEncode(s, Run(s, bytes).text);
    }
  }
}
