/** hterm.VT's parser for control characters and escape sequences: what one call of the current
    parse function does to the parse state, and what it hands to the handlers. */
module VtParser {
  import opened JsText

  const BEL: CodeUnit := 0x07
  const CAN: CodeUnit := 0x18
  const SUB: CodeUnit := 0x1A
  const ESC: CodeUnit := 0x1B
  const BACKSLASH: CodeUnit := 0x5C
  const MAX_STRING_SEQUENCE := 1024

  /** The parse functions, with the part of the parse state that each of them uses. A device
      control string, privacy message or program command is read by the same function; an
      operating system command (`osc`) by one around it. */
  datatype Mode =
    | Unknown
    | Esc
    | Csi(args: seq<Text>, leading: Text, trailing: Text)
    | Str(osc: bool, text: Text)
    | Swallow(kind: CodeUnit)
    | Charset(kind: CodeUnit)

  /** What reaches the terminal or a handler, in order. */
  datatype Event =
    | Print(text: Text)
    | Control(c: CodeUnit)
    | EscCode(c: CodeUnit)
    | CsiCode(modifiers: Text, final: CodeUnit, args: seq<Text>)
    | OscCode(number: Text, data: Text)
    | Swallowed(kind: CodeUnit, c: CodeUnit)
    | CharsetChosen(kind: CodeUnit, c: CodeUnit)

  /** The one-byte control characters that have an entry in the table of handlers. */
  predicate IsControl(c: CodeUnit) {
    c in {0x00, 0x05, 0x07, 0x08, 0x09, 0x0A, 0x0B, 0x0C, 0x0D, 0x0E, 0x0F, 0x11, 0x13, 0x18, 0x1A, 0x1B, 0x7F,
          0x84, 0x85, 0x88, 0x8D, 0x8E, 0x8F, 0x90, 0x96, 0x97, 0x98, 0x9A, 0x9B, 0x9C, 0x9D, 0x9E, 0x9F}
  }

  /** The parse function that a control character's handler leaves behind. */
  function AfterControl(c: CodeUnit, eightBit: bool, current: Mode): Mode {
    if c == CAN || c == SUB then Unknown
    else if c == ESC then Esc
    else if c > 0x7F && !eightBit then current
    else if c == 0x90 || c == 0x9E || c == 0x9F then Str(false, [])
    else if c == 0x9D then Str(true, [])
    else if c == 0x9B then Csi([], [], [])
    else current
  }

  /** The parse function after ESC and the character `c`. */
  function AfterEsc(c: CodeUnit): Mode {
    if c == 80 || c == 94 || c == 95 then Str(false, [])                              // P ^ _
    else if c == 93 then Str(true, [])                                                // ]
    else if c == 91 then Csi([], [], [])                                              // [
    else if c == 32 || c == 35 || c == 37 then Swallow(c)                             // space # %
    else if c == 40 || c == 41 || c == 42 || c == 43 || 45 <= c <= 47 then Charset(c) // ( ) * + - . /
    else Unknown
  }

  // ----- one character

  datatype CharStep = CharStep(mode: Mode, events: seq<Event>)

  /** parseCSI_. */
  function CsiChar(m: Mode, c: CodeUnit, eightBit: bool): CharStep
    requires m.Csi?
  {
    if 64 <= c <= 126 then CharStep(Unknown, [CsiCode(m.leading + m.trailing, c, m.args)])
    else if c == 59 then
      if m.trailing != [] then CharStep(Unknown, [])
      else CharStep(m.(args := (if m.args == [] then [[]] else m.args) + [[]]), [])
    else if 48 <= c <= 57 then
      if m.trailing != [] then CharStep(Unknown, [])
      else if m.args == [] then CharStep(m.(args := [[c]]), [])
      else CharStep(m.(args := m.args[|m.args| - 1 := m.args[|m.args| - 1] + [c]]), [])
    else if 32 <= c <= 63 && c != 58 then
      if m.args == [] then CharStep(m.(leading := m.leading + [c]), []) else CharStep(m.(trailing := m.trailing + [c]), [])
    else if IsControl(c) then CharStep(AfterControl(c, eightBit, m), [Control(c)])
    else CharStep(Unknown, [])
  }

  /** What one character does in the modes that take one at a time; in `Unknown`, what it would
      do on its own. */
  function OneChar(m: Mode, c: CodeUnit, eightBit: bool): CharStep
    requires !m.Str?
  {
    match m
    case Unknown => if IsControl(c) then CharStep(AfterControl(c, eightBit, Unknown), [Control(c)]) else CharStep(Unknown, [Print([c])])
    case Esc => if c == ESC then CharStep(Esc, []) else CharStep(AfterEsc(c), [EscCode(c)])
    case Csi(_, _, _) => CsiChar(m, c, eightBit)
    case Swallow(kind) => CharStep(Unknown, [Swallowed(kind, c)])
    case Charset(kind) => CharStep(Unknown, if c == ESC then [] else [CharsetChosen(kind, c)])
  }

  /** An escape character inside a charset designator calls the parse function without its
      argument, which is an exception. */
  predicate Crashes(m: Mode, c: CodeUnit) { m.Charset? && c == ESC }

  // ----- one call of the parse function

  /** The parse state after a call: `rest` is what is still to be read; `crashed` means that an
      exception has left interpret. */
  datatype Called = Called(mode: Mode, rest: Text, events: seq<Event>, crashed: bool)

  /** Where the next control character is, or the end. */
  function NextControl(s: Text): (n: nat)
    ensures n <= |s| && (n < |s| ==> IsControl(s[n])) && forall i | 0 <= i < n :: !IsControl(s[i])
  {
    if s == [] || IsControl(s[0]) then 0 else 1 + NextControl(s[1..])
  }

  /** Where the next string terminator starts, or the end. */
  function NextTerminator(s: Text): (n: nat)
    ensures n <= |s|
    ensures n < |s| ==> s[n] == BEL || (s[n] == ESC && n + 1 < |s| && s[n + 1] == BACKSLASH)
  {
    if s == [] || s[0] == BEL || (|s| > 1 && s[0] == ESC && s[1] == BACKSLASH) then 0 else 1 + NextTerminator(s[1..])
  }

  /** parseUnknown_. */
  function CallUnknown(rest: Text, eightBit: bool): Called
    requires rest != []
  {
    var n := NextControl(rest);
    var printed := if n == 0 then [] else [Print(rest[..n])];
    if n == |rest| then Called(Unknown, [], printed, false)
    else Called(AfterControl(rest[n], eightBit, Unknown), rest[n + 1..], printed + [Control(rest[n])], false)
  }

  function DigitsEnd(s: Text): (n: nat)
    ensures n <= |s|
  {
    if s == [] || !(48 <= s[0] <= 57) then 0 else 1 + DigitsEnd(s[1..])
  }

  /** Digits, a semicolon, and text without line terminators. */
  function OscEvents(text: Text): seq<Event> {
    var n := DigitsEnd(text);
    if n == 0 || n == |text| || text[n] != 59
       || 10 in text[n + 1..] || 13 in text[n + 1..] || 0x2028 in text[n + 1..] || 0x2029 in text[n + 1..] then []
    else [OscCode(text[..n], text[n + 1..])]
  }

  /** The string sequence ends in the buffer and is not too long. */
  predicate Terminated(m: Mode, rest: Text)
    requires m.Str?
  {
    NextTerminator(rest) < |rest| && |m.text| + NextTerminator(rest) <= MAX_STRING_SEQUENCE
  }

  /** parseUntilStringTerminator_, and what the function around it does for an operating system
      command. An aborted sequence goes back into the buffer. */
  function CallString(m: Mode, rest: Text): Called
    requires m.Str? && rest != []
  {
    var n := NextTerminator(rest);
    if n == |rest| then
      var text := m.text + rest;
      if |text| > MAX_STRING_SEQUENCE || ESC in text then Called(Unknown, text, [], false)
      else Called(Str(m.osc, text), [], [], false)
    else if |m.text| + n > MAX_STRING_SEQUENCE then Called(Unknown, m.text + rest, [], false)
    else
      Called(Unknown, rest[n + (if rest[n] == ESC then 2 else 1)..],
             if m.osc then OscEvents(m.text + rest[..n]) else [], false)
  }

  function Call(m: Mode, rest: Text, eightBit: bool): Called
    requires rest != []
  {
    match m
    case Unknown => CallUnknown(rest, eightBit)
    case Str(_, _) => CallString(m, rest)
    case _ =>
      var step := OneChar(m, rest[0], eightBit);
      Called(step.mode, rest[1..], step.events, Crashes(m, rest[0]))
  }

  // ----- termination

  /** Characters still to be read, counting those that an aborted string sequence gives back. */
  function Pending(m: Mode, rest: Text): nat {
    |rest| + if m.Str? then |m.text| else 0
  }

  function StringFlag(m: Mode): nat { if m.Str? then 1 else 0 }

  /** Every call gets closer to the end: there is less to be read, or a string sequence has been
      aborted, or all that was left has been read. */
  lemma CallProgresses(m: Mode, rest: Text, eightBit: bool)
    requires rest != []
    ensures var c := Call(m, rest, eightBit);
            || Pending(c.mode, c.rest) < Pending(m, rest)
            || (Pending(c.mode, c.rest) == Pending(m, rest) && StringFlag(c.mode) < StringFlag(m))
            || (Pending(c.mode, c.rest) == Pending(m, rest) && StringFlag(c.mode) == StringFlag(m) && |c.rest| < |rest|)
  {
    hide IsControl, OscEvents, NextTerminator, NextControl;
  }

  /** A whole run of interpret. */
  datatype Interpreted = Interpreted(mode: Mode, events: seq<Event>, crashed: bool)

  function Interpret(m: Mode, rest: Text, eightBit: bool): Interpreted
    decreases Pending(m, rest), StringFlag(m), |rest|
  {
    if rest == [] then Interpreted(m, [], false)
    else
      CallProgresses(m, rest, eightBit);
      var c := Call(m, rest, eightBit);
      if c.crashed then Interpreted(c.mode, c.events, true)
      else
        var r := Interpret(c.mode, c.rest, eightBit);
        Interpreted(r.mode, c.events + r.events, r.crashed)
  }

  // ----- splitting the input

  /** Adjacent prints joined, or rather all of them taken apart. */
  function Flat(events: seq<Event>): seq<Event> {
    if events == [] then []
    else (if events[0].Print? then Singles(events[0].text) else [events[0]]) + Flat(events[1..])
  }

  function Singles(text: Text): (r: seq<Event>)
    ensures |r| == |text| && forall i | 0 <= i < |r| :: r[i] == Print([text[i]])
  {
    seq(|text|, i requires 0 <= i < |text| => Print([text[i]]))
  }

  /** The characters neither open a string sequence nor cause the exception. */
  predicate Plain(m: Mode, s: Text, eightBit: bool)
    decreases |s|
  {
    !m.Str? && (s == [] || (!Crashes(m, s[0]) && Plain(OneChar(m, s[0], eightBit).mode, s[1..], eightBit)))
  }

  /** Reading character by character. */
  function RunChars(m: Mode, s: Text, eightBit: bool): CharStep
    requires Plain(m, s, eightBit)
    decreases |s|
  {
    if s == [] then CharStep(m, [])
    else
      var first := OneChar(m, s[0], eightBit);
      var rest := RunChars(first.mode, s[1..], eightBit);
      CharStep(rest.mode, first.events + rest.events)
  }

  lemma PlainCons(m: Mode, c: CodeUnit, s: Text, eightBit: bool)
    ensures Plain(m, [c] + s, eightBit) <==> !m.Str? && !Crashes(m, c) && Plain(OneChar(m, c, eightBit).mode, s, eightBit)
    ensures Plain(m, [c] + s, eightBit) ==>
              var first := OneChar(m, c, eightBit);
              var rest := RunChars(first.mode, s, eightBit);
              RunChars(m, [c] + s, eightBit) == CharStep(rest.mode, first.events + rest.events)
  {
    hide OneChar, Crashes;
    assert ([c] + s)[1..] == s;
  }

  lemma PlainNothing(m: Mode, eightBit: bool)
    ensures Plain(m, [], eightBit) <==> !m.Str?
    ensures !m.Str? ==> RunChars(m, [], eightBit) == CharStep(m, [])
  {
  }

  lemma UnknownChar(c: CodeUnit, eightBit: bool)
    ensures OneChar(Unknown, c, eightBit)
            == if IsControl(c) then CharStep(AfterControl(c, eightBit, Unknown), [Control(c)]) else CharStep(Unknown, [Print([c])])
    ensures !Crashes(Unknown, c)
  {
  }

  lemma SinglesCons(c: CodeUnit, t: Text)
    ensures Singles([c] + t) == [Print([c])] + Singles(t)
  {
  }

  /** Text without control characters is printed. */
  lemma {:induction false} PlainText(t: Text, s: Text, eightBit: bool)
    requires Plain(Unknown, t + s, eightBit) && forall i | 0 <= i < |t| :: !IsControl(t[i])
    ensures Plain(Unknown, s, eightBit)
    ensures RunChars(Unknown, t + s, eightBit)
            == CharStep(RunChars(Unknown, s, eightBit).mode, Singles(t) + RunChars(Unknown, s, eightBit).events)
    decreases |t|
  {
    hide *;
    if t == [] {
      assert t + s == s && Singles(t) == [];
    } else {
      assert t + s == [t[0]] + (t[1..] + s) && t == [t[0]] + t[1..];
      PlainCons(Unknown, t[0], t[1..] + s, eightBit);
      UnknownChar(t[0], eightBit);
      PlainText(t[1..], s, eightBit);
      SinglesCons(t[0], t[1..]);
      Associates([Print([t[0]])], Singles(t[1..]), RunChars(Unknown, s, eightBit).events);
    }
  }

  lemma FlatNothing()
    ensures Flat([]) == []
  {
  }

  lemma FlatCons(e: Event, events: seq<Event>)
    ensures Flat([e] + events) == (if e.Print? then Singles(e.text) else [e]) + Flat(events)
  {
    assert ([e] + events)[1..] == events;
  }

  lemma {:induction false} FlatConcat(a: seq<Event>, b: seq<Event>)
    ensures Flat(a + b) == Flat(a) + Flat(b)
  {
    hide *;
    FlatNothing();
    if a == [] {
      assert a + b == b;
    } else {
      assert a + b == [a[0]] + (a[1..] + b) && a == [a[0]] + a[1..];
      FlatCons(a[0], a[1..]);
      FlatCons(a[0], a[1..] + b);
      FlatConcat(a[1..], b);
      Associates(if a[0].Print? then Singles(a[0].text) else [a[0]], Flat(a[1..]), Flat(b));
    }
  }

  lemma FlatOne(e: Event)
    ensures Flat([e]) == if e.Print? then Singles(e.text) else [e]
  {
    hide Singles;
    FlatCons(e, []);
    FlatNothing();
    assert [e] + [] == [e];
  }

  lemma InterpretStep(m: Mode, rest: Text, eightBit: bool)
    ensures Interpret(m, rest, eightBit) ==
            if rest == [] then Interpreted(m, [], false)
            else
              var c := Call(m, rest, eightBit);
              var r := Interpret(c.mode, c.rest, eightBit);
              if c.crashed then Interpreted(c.mode, c.events, true)
              else Interpreted(r.mode, c.events + r.events, r.crashed)
  {
    hide Call, Pending, StringFlag;
  }

  /** In the modes other than `Unknown`, events of one character are no prints of more than it. */
  lemma OneCharIsFlat(m: Mode, c: CodeUnit, eightBit: bool)
    requires !m.Str? && !m.Unknown?
    ensures Flat(OneChar(m, c, eightBit).events) == OneChar(m, c, eightBit).events
  {
    hide Flat, IsControl, AfterControl, AfterEsc;
    FlatNothing();
    var events := OneChar(m, c, eightBit).events;
    if events != [] {
      FlatOne(events[0]);
    }
  }

  lemma CallOne(m: Mode, c: CodeUnit, s: Text, eightBit: bool)
    requires !m.Str? && !m.Unknown?
    ensures Call(m, [c] + s, eightBit)
            == Called(OneChar(m, c, eightBit).mode, s, OneChar(m, c, eightBit).events, Crashes(m, c))
  {
    hide OneChar, Crashes;
    assert ([c] + s)[1..] == s;
  }

  lemma CallPlain(s: Text, eightBit: bool) returns (n: nat)
    requires s != []
    ensures n <= |s| && forall i | 0 <= i < n :: !IsControl(s[i])
    ensures n < |s| ==> IsControl(s[n])
    ensures Flat(Call(Unknown, s, eightBit).events) == Singles(s[..n]) + if n < |s| then [Control(s[n])] else []
    ensures Call(Unknown, s, eightBit).mode == if n < |s| then AfterControl(s[n], eightBit, Unknown) else Unknown
    ensures Call(Unknown, s, eightBit).rest == if n < |s| then s[n + 1..] else []
    ensures !Call(Unknown, s, eightBit).crashed
  {
    n := NextControl(s);
    hide NextControl, Flat, Singles, IsControl, AfterControl;
    var printed := if n == 0 then [] else [Print(s[..n])];
    FlatNothing();
    FlatOne(Print(s[..n]));
    assert n == 0 ==> Singles(s[..n]) == [];
    if n < |s| {
      FlatConcat(printed, [Control(s[n])]);
      FlatOne(Control(s[n]));
    }
  }

  /** On such input interpret does the same as reading character by character. */
  lemma {:induction false} InterpretIsRun(m: Mode, s: Text, eightBit: bool)
    requires Plain(m, s, eightBit)
    ensures var r := Interpret(m, s, eightBit);
            var chars := RunChars(m, s, eightBit);
            !r.crashed && r.mode == chars.mode && Flat(r.events) == chars.events
    decreases |s|
  {
    hide *;
    InterpretStep(m, s, eightBit);
    if s == [] {
      PlainNothing(m, eightBit);
      FlatNothing();
    } else {
      var c := Call(m, s, eightBit);
      var rest := Interpret(c.mode, c.rest, eightBit);
      NotString(m, s, eightBit);
      if m.Unknown? {
        var n := CallPlain(s, eightBit);
        UnknownRun(s, n, eightBit);
        InterpretIsRun(c.mode, c.rest, eightBit);
        FlatConcat(c.events, rest.events);
      } else {
        assert s == [s[0]] + s[1..];
        PlainCons(m, s[0], s[1..], eightBit);
        CallOne(m, s[0], s[1..], eightBit);
        OneCharIsFlat(m, s[0], eightBit);
        InterpretIsRun(c.mode, c.rest, eightBit);
        FlatConcat(c.events, rest.events);
      }
    }
  }

  lemma NotString(m: Mode, s: Text, eightBit: bool)
    requires Plain(m, s, eightBit)
    ensures !m.Str?
  {
  }

  /** Reading printable text and the control character after it. */
  lemma UnknownRun(s: Text, n: nat, eightBit: bool)
    requires Plain(Unknown, s, eightBit) && n <= |s| && (forall i | 0 <= i < n :: !IsControl(s[i]))
    requires n < |s| ==> IsControl(s[n])
    ensures var mode := if n < |s| then AfterControl(s[n], eightBit, Unknown) else Unknown;
            var rest := if n < |s| then s[n + 1..] else [];
            && Plain(mode, rest, eightBit)
            && RunChars(Unknown, s, eightBit)
               == CharStep(RunChars(mode, rest, eightBit).mode,
                           Singles(s[..n]) + (if n < |s| then [Control(s[n])] else []) + RunChars(mode, rest, eightBit).events)
  {
    hide *;
    assert s == s[..n] + s[n..];
    PlainText(s[..n], s[n..], eightBit);
    if n < |s| {
      assert s[n..] == [s[n]] + s[n + 1..];
      PlainCons(Unknown, s[n], s[n + 1..], eightBit);
      UnknownChar(s[n], eightBit);
      Associates(Singles(s[..n]), [Control(s[n])], RunChars(AfterControl(s[n], eightBit, Unknown), s[n + 1..], eightBit).events);
    } else {
      assert s[n..] == [];
      PlainNothing(Unknown, eightBit);
      assert Singles(s[..n]) + [] + [] == Singles(s[..n]) + [];
    }
  }

  lemma {:induction false} RunCharsConcat(m: Mode, a: Text, b: Text, eightBit: bool)
    requires Plain(m, a + b, eightBit)
    ensures Plain(m, a, eightBit) && Plain(RunChars(m, a, eightBit).mode, b, eightBit)
    ensures var first := RunChars(m, a, eightBit);
            var rest := RunChars(first.mode, b, eightBit);
            RunChars(m, a + b, eightBit) == CharStep(rest.mode, first.events + rest.events)
    decreases |a|
  {
    hide *;
    NotString(m, a + b, eightBit);
    PlainNothing(m, eightBit);
    if a == [] {
      assert a + b == b;
    } else {
      assert a + b == [a[0]] + (a[1..] + b) && a == [a[0]] + a[1..];
      PlainCons(m, a[0], a[1..] + b, eightBit);
      PlainCons(m, a[0], a[1..], eightBit);
      var first := OneChar(m, a[0], eightBit);
      RunCharsConcat(first.mode, a[1..], b, eightBit);
      var mid := RunChars(first.mode, a[1..], eightBit);
      Associates(first.events, mid.events, RunChars(mid.mode, b, eightBit).events);
    }
  }

  /** Interpreting in two calls leaves the same mode behind and hands over the same events as
      interpreting in one, up to joining adjacent prints. */
  lemma SplitInvariance(m: Mode, a: Text, b: Text, eightBit: bool)
    requires Plain(m, a + b, eightBit)
    ensures var whole := Interpret(m, a + b, eightBit);
            var first := Interpret(m, a, eightBit);
            var rest := Interpret(first.mode, b, eightBit);
            && !whole.crashed && !first.crashed && !rest.crashed
            && whole.mode == rest.mode && Flat(whole.events) == Flat(first.events + rest.events)
            && Plain(first.mode, b, eightBit)
  {
    hide *;
    RunCharsConcat(m, a, b, eightBit);
    InterpretIsRun(m, a + b, eightBit);
    InterpretIsRun(m, a, eightBit);
    var first := Interpret(m, a, eightBit);
    InterpretIsRun(first.mode, b, eightBit);
    FlatConcat(first.events, Interpret(first.mode, b, eightBit).events);
  }

  lemma {:induction false} NoTerminatorIn(s: Text, i: nat)
    requires i <= |s| && forall k | 0 <= k < i :: s[k] != BEL && s[k] != ESC
    ensures NextTerminator(s) == i + NextTerminator(s[i..])
    decreases i
  {
    if i == 0 {
      assert s[0..] == s;
    } else {
      NoTerminatorIn(s[1..], i - 1);
      assert s[1..][i - 1..] == s[i..];
    }
  }

  lemma {:induction false} NoControlIn(s: Text, i: nat)
    requires i <= |s| && forall k | 0 <= k < i :: !IsControl(s[k])
    ensures NextControl(s) == i + NextControl(s[i..])
    decreases i
  {
    hide IsControl;
    if i == 0 {
      assert s[0..] == s;
    } else {
      NoControlIn(s[1..], i - 1);
      assert s[1..][i - 1..] == s[i..];
    }
  }

  lemma TerminatorAt(text: Text)
    requires forall k | 0 <= k < |text| :: !IsControl(text[k])
    ensures NextTerminator(text + [ESC, BACKSLASH]) == |text|
    ensures NextTerminator(text + [ESC]) == |text| + 1
    ensures NextControl(text + [ESC]) == |text|
  {
    hide IsControl;
    assert IsControl(BEL) && IsControl(ESC) by { EscIsControl(); }
    NoTerminatorIn(text + [ESC, BACKSLASH], |text|);
    assert (text + [ESC, BACKSLASH])[|text|..] == [ESC, BACKSLASH];
    NoTerminatorIn(text + [ESC], |text|);
    assert (text + [ESC])[|text|..] == [ESC] && [ESC][1..] == [];
    NoControlIn(text + [ESC], |text|);
  }

  lemma EscIsControl()
    ensures IsControl(BEL) && IsControl(ESC)
  {
  }

  lemma CallWhole(text: Text, eightBit: bool)
    requires |text| < MAX_STRING_SEQUENCE && forall k | 0 <= k < |text| :: !IsControl(text[k])
    ensures Call(Str(true, []), text + [ESC, BACKSLASH], eightBit) == Called(Unknown, [], OscEvents(text), false)
  {
    hide IsControl, NextTerminator, OscEvents;
    TerminatorAt(text);
    var whole := text + [ESC, BACKSLASH];
    assert [] + whole[..|text|] == text && whole[|text| + 2..] == [];
  }

  lemma CallPart(text: Text, eightBit: bool)
    requires |text| < MAX_STRING_SEQUENCE && forall k | 0 <= k < |text| :: !IsControl(text[k])
    ensures Call(Str(true, []), text + [ESC], eightBit) == Called(Unknown, text + [ESC], [], false)
  {
    hide IsControl, NextTerminator, OscEvents;
    TerminatorAt(text);
    var part := text + [ESC];
    assert [] + part == part && part[|text|] == ESC;
  }

  lemma CallAgain(text: Text, eightBit: bool)
    requires text != [] && forall k | 0 <= k < |text| :: !IsControl(text[k])
    ensures Call(Unknown, text + [ESC], eightBit) == Called(Esc, [], [Print(text), Control(ESC)], false)
  {
    hide IsControl, NextControl;
    TerminatorAt(text);
    var part := text + [ESC];
    assert part[..|text|] == text && part[|text| + 1..] == [];
  }

  lemma InterpretLast(m: Mode, rest: Text, eightBit: bool)
    requires rest != [] && Call(m, rest, eightBit).rest == [] && !Call(m, rest, eightBit).crashed
    ensures Interpret(m, rest, eightBit) == Interpreted(Call(m, rest, eightBit).mode, Call(m, rest, eightBit).events, false)
  {
    hide *;
    var c := Call(m, rest, eightBit);
    InterpretStep(m, rest, eightBit);
    InterpretStep(c.mode, [], eightBit);
    assert c.events + [] == c.events;
  }

  /** String sequences are the exception: a terminator that arrives in two parts is not
      recognised, and the command is printed instead of carried out. */
  lemma SplitTerminatorMatters(text: Text, eightBit: bool)
    requires text != [] && |text| < MAX_STRING_SEQUENCE && forall k | 0 <= k < |text| :: !IsControl(text[k])
    ensures Interpret(Str(true, []), text + [ESC, BACKSLASH], eightBit) == Interpreted(Unknown, OscEvents(text), false)
    ensures Interpret(Str(true, []), text + [ESC], eightBit) == Interpreted(Esc, [Print(text), Control(ESC)], false)
  {
    hide *;
    CallWhole(text, eightBit);
    InterpretLast(Str(true, []), text + [ESC, BACKSLASH], eightBit);
    CallPart(text, eightBit);
    CallAgain(text, eightBit);
    InterpretStep(Str(true, []), text + [ESC], eightBit);
    InterpretLast(Unknown, text + [ESC], eightBit);
    assert [] + [Print(text), Control(ESC)] == [Print(text), Control(ESC)];
  }
}
