/** hterm.VT and its parse state as objects; every parse function is proved to do what VtParser's
    `Call` says, and interpret what its `Interpret` says. */
module VtInterpreter {
  import opened JsText
  import opened VtParser
  import H = HtermUtf8

  /** The value of the parse state's `func`. */
  datatype Func =
    | ParseUnknown
    | ParseESC
    | ParseCSI
    | ParseUntilStringTerminator
    | ParseOSC
    | ParseSwallowed(kind: CodeUnit)
    | ParseCharset(kind: CodeUnit)

  function ModeOf(func: Func, args: seq<Text>, leading: Text, trailing: Text): Mode {
    match func
    case ParseUnknown => Unknown
    case ParseESC => Esc
    case ParseCSI => Csi(args, leading, trailing)
    case ParseUntilStringTerminator => Str(false, if args == [] then [] else args[0])
    case ParseOSC => Str(true, if args == [] then [] else args[0])
    case ParseSwallowed(kind) => Swallow(kind)
    case ParseCharset(kind) => Charset(kind)
  }

  class ParseState {
    var buf: Option<Text>
    var pos: nat
    var func: Func
    var args: seq<Text>

    constructor ()
      ensures buf == None && pos == 0 && func == ParseUnknown && args == []
    {
      buf, pos, func, args := None, 0, ParseUnknown, [];
    }

    /** The remaining portion of the buffer. */
    ghost function Rest(): Text
      reads this
    {
      if buf.None? || pos >= |buf.value| then [] else buf.value[pos..]
    }

    method Reset(newBuf: Text)
      modifies this
      ensures func == ParseUnknown && args == [] && buf == Some(newBuf) && pos == 0 && Rest() == newBuf
    {
      ResetParseFunction();
      ResetBuf(Some(newBuf));
      ResetArguments();
    }

    method ResetParseFunction()
      modifies `func
      ensures func == ParseUnknown
    {
      func := ParseUnknown;
    }

    method ResetBuf(newBuf: Option<Text>)
      modifies `buf, `pos
      ensures buf == newBuf && pos == 0 && Rest() == if newBuf.Some? then newBuf.value else []
    {
      buf := newBuf;
      pos := 0;
    }

    method ResetArguments()
      modifies `args
      ensures args == []
    {
      args := [];
    }

    method Advance(count: nat)
      modifies `pos
      ensures pos == old(pos) + count
      ensures count <= |old(Rest())| ==> Rest() == old(Rest())[count..]
    {
      pos := pos + count;
    }

    method PeekRemainingBuf() returns (rest: Text)
      requires buf.Some?
      ensures rest == Rest()
    {
      rest := if pos >= |buf.value| then [] else buf.value[pos..];
    }

    method PeekChar() returns (c: CodeUnit)
      requires Rest() != []
      ensures c == Rest()[0]
    {
      c := buf.value[pos];
    }

    method ConsumeChar() returns (c: CodeUnit)
      requires Rest() != []
      modifies `pos
      ensures c == old(Rest())[0] && Rest() == old(Rest())[1..] && pos == old(pos) + 1
    {
      c := buf.value[pos];
      pos := pos + 1;
    }

    method IsComplete() returns (complete: bool)
      ensures complete <==> Rest() == []
    {
      complete := buf.None? || |buf.value| <= pos;
    }
  }

  /** How interpret ends. */
  datatype Outcome = Finished | DidNotAlterTheState | TypeError

  class VT {
    const parseState: ParseState
    var leadingModifier: Text
    var trailingModifier: Text
    const enable8BitControl: bool
    const utf8: bool
    const utf8Decoder: H.UTF8Decoder
    /** What the terminal and the handlers have been given so far. */
    var events: seq<Event>

    constructor (enable8BitControl: bool, utf8: bool)
      ensures Valid() && fresh(parseState) && fresh(utf8Decoder)
      ensures ModeNow() == Unknown && events == [] && utf8Decoder.State() == H.DecoderState(0, 0, 0)
      ensures this.enable8BitControl == enable8BitControl && this.utf8 == utf8
    {
      parseState := new ParseState();
      utf8Decoder := new H.UTF8Decoder();
      this.enable8BitControl, this.utf8 := enable8BitControl, utf8;
      leadingModifier, trailingModifier, events := [], [], [];
    }

    ghost predicate Valid()
      reads utf8Decoder
    {
      utf8Decoder.Valid()
    }

    ghost function ModeNow(): Mode
      reads this, parseState
    {
      ModeOf(parseState.func, parseState.args, leadingModifier, trailingModifier)
    }

    /** The parse state is the one that `called` describes. */
    ghost predicate Reached(called: Called)
      reads this, parseState
    {
      ModeNow() == called.mode && parseState.Rest() == called.rest
    }

    // ----- handlers that change the parse function

    /** Dispatch of a one-byte control character. */
    method DispatchControl(c: CodeUnit)
      requires IsControl(c)
      modifies this, parseState`func, parseState`args
      ensures ModeNow() == AfterControl(c, enable8BitControl, old(ModeNow()))
      ensures events == old(events) + [Control(c)]
    {
      events := events + [Control(c)];
      if c > 0x7F && !enable8BitControl {
        return;
      }
      if c == CAN || c == SUB {
        parseState.ResetParseFunction();
      } else if c == ESC {
        parseState.func := ParseESC;
      } else if c == 0x90 || c == 0x9E || c == 0x9F {
        parseState.ResetArguments();
        parseState.func := ParseUntilStringTerminator;
      } else if c == 0x9D {
        parseState.ResetArguments();
        parseState.func := ParseOSC;
      } else if c == 0x9B {
        StartCSI();
      }
    }

    method StartCSI()
      modifies `leadingModifier, `trailingModifier, parseState`func, parseState`args
      ensures ModeNow() == Csi([], [], [])
    {
      parseState.ResetArguments();
      leadingModifier := [];
      trailingModifier := [];
      parseState.func := ParseCSI;
    }

    /** Dispatch of the character after ESC. */
    method DispatchEsc(c: CodeUnit)
      requires parseState.func == ParseESC
      modifies this, parseState`func, parseState`args
      ensures ModeNow() == if AfterEsc(c) == Unknown then Esc else AfterEsc(c)
      ensures events == old(events) + [EscCode(c)]
    {
      events := events + [EscCode(c)];
      if c == 80 || c == 94 || c == 95 {
        parseState.ResetArguments();
        parseState.func := ParseUntilStringTerminator;
      } else if c == 93 {
        parseState.ResetArguments();
        parseState.func := ParseOSC;
      } else if c == 91 {
        StartCSI();
      } else if c == 32 || c == 35 || c == 37 {
        parseState.func := ParseSwallowed(c);
      } else if c == 40 || c == 41 || c == 42 || c == 43 || 45 <= c <= 47 {
        parseState.func := ParseCharset(c);
      }
    }

    // ----- parse functions

    /** buf.search(cc1Pattern), with the length for -1. */
    method SearchControl(buf: Text) returns (n: nat)
      ensures n == NextControl(buf)
    {
      hide IsControl;
      n := 0;
      assert buf[0..] == buf;
      while n < |buf| && !IsControl(buf[n])
        invariant n <= |buf| && NextControl(buf) == n + NextControl(buf[n..])
      {
        assert buf[n..][1..] == buf[n + 1..];
        n := n + 1;
      }
    }

    method CallParseUnknown()
      requires parseState.func == ParseUnknown && parseState.Rest() != []
      modifies this, parseState
      ensures Reached(Call(Unknown, old(parseState.Rest()), enable8BitControl))
      ensures events == old(events) + Call(Unknown, old(parseState.Rest()), enable8BitControl).events
      ensures parseState.buf != old(parseState.buf) || parseState.pos != old(parseState.pos)
    {
      hide IsControl, AfterControl, NextControl;
      var buf := parseState.PeekRemainingBuf();
      var nextControl := SearchControl(buf);
      if nextControl == 0 {
        DispatchControl(buf[0]);
        parseState.Advance(1);
        assert [] + [Control(buf[0])] == [Control(buf[0])];
        return;
      }
      events := events + [Print(buf[..nextControl])];
      if nextControl == |buf| {
        parseState.Reset([]);
        return;
      }
      DispatchControl(buf[nextControl]);
      parseState.Advance(nextControl + 1);
    }

    method CallParseESC()
      requires parseState.func == ParseESC && parseState.Rest() != []
      modifies this, parseState
      ensures Reached(Call(Esc, old(parseState.Rest()), enable8BitControl))
      ensures events == old(events) + Call(Esc, old(parseState.Rest()), enable8BitControl).events
      ensures parseState.pos != old(parseState.pos)
    {
      var ch := parseState.ConsumeChar();
      if ch == ESC {
        return;
      }
      DispatchEsc(ch);
      if parseState.func == ParseESC {
        parseState.ResetParseFunction();
      }
    }

    method CallParseCSI()
      requires parseState.func == ParseCSI && parseState.Rest() != []
      modifies this, parseState
      ensures Reached(Call(old(ModeNow()), old(parseState.Rest()), enable8BitControl))
      ensures events == old(events) + Call(old(ModeNow()), old(parseState.Rest()), enable8BitControl).events
      ensures parseState.pos != old(parseState.pos)
    {
      hide IsControl, AfterControl;
      var ch := parseState.PeekChar();
      var args := parseState.args;
      if 64 <= ch <= 126 {
        events := events + [CsiCode(leadingModifier + trailingModifier, ch, args)];
        parseState.ResetParseFunction();
      } else if ch == 59 {
        if trailingModifier != [] {
          parseState.ResetParseFunction();
        } else {
          if |args| == 0 {
            parseState.args := parseState.args + [[]];
          }
          parseState.args := parseState.args + [[]];
        }
      } else if 48 <= ch <= 57 {
        if trailingModifier != [] {
          parseState.ResetParseFunction();
        } else if |args| == 0 {
          parseState.args := [[ch]];
        } else {
          parseState.args := args[|args| - 1 := args[|args| - 1] + [ch]];
        }
      } else if 32 <= ch <= 63 && ch != 58 {
        if |args| == 0 {
          leadingModifier := leadingModifier + [ch];
        } else {
          trailingModifier := trailingModifier + [ch];
        }
      } else if IsControl(ch) {
        DispatchControl(ch);
      } else {
        parseState.ResetParseFunction();
      }
      parseState.Advance(1);
    }

    /** buf.search for the terminator, with the length for -1. */
    method SearchTerminator(buf: Text) returns (n: nat)
      ensures n == NextTerminator(buf)
    {
      n := 0;
      assert buf[0..] == buf;
      while n < |buf| && buf[n] != BEL && !(n + 1 < |buf| && buf[n] == ESC && buf[n + 1] == BACKSLASH)
        invariant n <= |buf| && NextTerminator(buf) == n + NextTerminator(buf[n..])
      {
        assert buf[n..][1..] == buf[n + 1..];
        n := n + 1;
      }
    }

    /** parseUntilStringTerminator_, without the time limit. True if parsing goes on or is complete. */
    method CallParseUntilStringTerminator() returns (ok: bool)
      requires (parseState.func == ParseUntilStringTerminator || parseState.func == ParseOSC) && parseState.Rest() != []
      modifies parseState
      ensures Reached(CallString(old(ModeNow()), old(parseState.Rest())))
      ensures parseState.func == ParseUnknown || parseState.func == old(parseState.func)
      ensures ok && parseState.func == ParseUnknown <==> Terminated(old(ModeNow()), old(parseState.Rest()))
      ensures ok && parseState.func == ParseUnknown ==>
                |parseState.args| > 0 && parseState.args[0] == SequenceText(old(ModeNow()), old(parseState.Rest()))
      ensures parseState.func == old(parseState.func) ==> parseState.pos != old(parseState.pos)
    {
      hide NextTerminator, OscEvents, CallString, Terminated, SequenceText, ModeOf;
      StartString();
      StringCases(ModeNow(), parseState.Rest());
      var buf := parseState.PeekRemainingBuf();
      var nextTerminator := SearchTerminator(buf);
      if nextTerminator == |buf| {
        ok := Accumulate(buf);
      } else {
        ok := EndString(buf, nextTerminator);
      }
    }

    /** At the start of a string sequence nothing has been gathered. */
    method StartString()
      requires parseState.func == ParseUntilStringTerminator || parseState.func == ParseOSC
      modifies parseState`args
      ensures ModeNow() == old(ModeNow()) && ModeNow().Str? && parseState.Rest() == old(parseState.Rest())
      ensures |parseState.args| > 0 && parseState.args[0] == ModeNow().text
    {
      if |parseState.args| == 0 {
        parseState.args := [[]];
      }
    }

    /** The terminator is at position `end`; a sequence that got too long is given back. */
    method EndString(buf: Text, end: nat) returns (ok: bool)
      requires (parseState.func == ParseUntilStringTerminator || parseState.func == ParseOSC) && |parseState.args| > 0
      requires buf == parseState.Rest() && end < |buf| && (buf[end] == ESC ==> end + 1 < |buf|)
      modifies parseState
      ensures parseState.func == ParseUnknown && ModeNow() == Unknown
      ensures ok <==> |old(parseState.args[0])| + end <= MAX_STRING_SEQUENCE
      ensures !ok ==> parseState.Rest() == old(parseState.args[0]) + buf
      ensures ok ==>
                && parseState.Rest() == buf[end + (if buf[end] == ESC then 2 else 1)..]
                && |parseState.args| > 0 && parseState.args[0] == old(parseState.args[0]) + buf[..end]
    {
      var text := parseState.args[0];
      if |text| + end > MAX_STRING_SEQUENCE {
        parseState.Reset(text + buf);
        return false;
      }
      parseState.args := parseState.args[0 := text + buf[..end]];
      parseState.ResetParseFunction();
      parseState.Advance(end + if buf[end] == ESC then 2 else 1);
      return true;
    }

    /** No terminator yet: wait for the next string, unless the sequence has to be aborted. */
    method Accumulate(buf: Text) returns (ok: bool)
      requires (parseState.func == ParseUntilStringTerminator || parseState.func == ParseOSC) && |parseState.args| > 0
      requires buf == parseState.Rest() && buf != []
      modifies parseState
      ensures var m, text := old(ModeNow()), old(parseState.args[0]) + buf;
              if |text| > MAX_STRING_SEQUENCE || ESC in text then !ok && ModeNow() == Unknown && parseState.Rest() == text
              else ok && ModeNow() == Str(m.osc, text) && parseState.Rest() == []
      ensures ok ==> parseState.func == old(parseState.func) && parseState.pos != old(parseState.pos)
      ensures !ok ==> parseState.func == ParseUnknown
    {
      var text := parseState.args[0] + buf;
      parseState.args := parseState.args[0 := text];
      if |text| > MAX_STRING_SEQUENCE || ESC in text {
        parseState.Reset(text);
        return false;
      }
      parseState.Advance(|buf|);
      return true;
    }

    method CallParseOSC()
      requires parseState.func == ParseOSC && parseState.Rest() != []
      modifies this, parseState
      ensures Reached(Call(old(ModeNow()), old(parseState.Rest()), enable8BitControl))
      ensures events == old(events) + Call(old(ModeNow()), old(parseState.Rest()), enable8BitControl).events
      ensures parseState.func == old(parseState.func) ==> parseState.pos != old(parseState.pos)
    {
      hide CallString, Terminated, SequenceText, OscEvents;
      StringEvents(ModeNow(), parseState.Rest(), enable8BitControl);
      var ok := CallParseUntilStringTerminator();
      if !ok || parseState.func == ParseOSC {
        assert events + [] == events;
        return;
      }
      var found := OscEvents(parseState.args[0]);
      events := events + found;
    }

    /** The functions that ESC SP, ESC #, ESC % and the character set selections install; true if
        the call fails. */
    method CallOneChar() returns (failed: bool)
      requires (parseState.func.ParseSwallowed? || parseState.func.ParseCharset?) && parseState.Rest() != []
      modifies this, parseState
      ensures Reached(Call(old(ModeNow()), old(parseState.Rest()), enable8BitControl))
      ensures failed == Call(old(ModeNow()), old(parseState.Rest()), enable8BitControl).crashed
      ensures events == old(events) + Call(old(ModeNow()), old(parseState.Rest()), enable8BitControl).events
      ensures parseState.pos != old(parseState.pos)
    {
      hide AfterControl, AfterEsc, CsiChar, IsControl, CallUnknown, CallString;
      var func := parseState.func;
      var ch := parseState.ConsumeChar();
      parseState.ResetParseFunction();
      if func.ParseSwallowed? {
        events := events + [Swallowed(func.kind, ch)];
        return false;
      }
      if ch == ESC {
        return true;
      }
      events := events + [CharsetChosen(func.kind, ch)];
      return false;
    }

    /** One round of interpret's loop; true if an exception is thrown. */
    method CallFunc() returns (failed: bool)
      requires parseState.Rest() != []
      modifies this, parseState
      ensures Reached(Call(old(ModeNow()), old(parseState.Rest()), enable8BitControl))
      ensures failed == Call(old(ModeNow()), old(parseState.Rest()), enable8BitControl).crashed
      ensures events == old(events) + Call(old(ModeNow()), old(parseState.Rest()), enable8BitControl).events
      ensures !(parseState.func == old(parseState.func) && parseState.pos == old(parseState.pos) && parseState.buf == old(parseState.buf))
    {
      hide OneChar, CallUnknown, CallString, Terminated, SequenceText, OscEvents;
      OnlyCharsetsCrash(ModeNow(), parseState.Rest(), enable8BitControl);
      failed := false;
      match parseState.func
      case ParseUnknown => CallParseUnknown();
      case ParseESC => CallParseESC();
      case ParseCSI => CallParseCSI();
      case ParseUntilStringTerminator =>
        StringEvents(ModeNow(), parseState.Rest(), enable8BitControl);
        var ok := CallParseUntilStringTerminator();
        assert events + [] == events;
      case ParseOSC => CallParseOSC();
      case _ => failed := CallOneChar();
    }

    /** interpret: never ends with "Parser did not alter the state!". */
    method Interpret(str: Text) returns (outcome: Outcome)
      requires Valid()
      modifies this, parseState, utf8Decoder
      ensures Valid() && outcome != DidNotAlterTheState
      ensures var decoded := if utf8 then H.Run(old(utf8Decoder.State()), str).text else str;
              var r := VtParser.Interpret(old(ModeNow()), decoded, enable8BitControl);
              && ModeNow() == r.mode && events == old(events) + r.events
              && outcome == if r.crashed then TypeError else Finished
      ensures utf8Decoder.State() == if utf8 then H.Run(old(utf8Decoder.State()), str).state else old(utf8Decoder.State())
    {
      hide Call, VtParser.Interpret, H.Run, ModeOf, Leads;
      var decoded := str;
      if utf8 {
        decoded := utf8Decoder.Decode(str);
      }
      parseState.ResetBuf(Some(decoded));
      ghost var goal := VtParser.Interpret(ModeNow(), decoded, enable8BitControl);
      ghost var before := events;
      var complete := parseState.IsComplete();
      LeadsFirst(goal, before);
      while !complete
        invariant complete <==> parseState.Rest() == []
        invariant Leads(goal, before, events, VtParser.Interpret(ModeNow(), parseState.Rest(), enable8BitControl))
        modifies this, parseState
        decreases Pending(ModeNow(), parseState.Rest()), StringFlag(ModeNow()), |parseState.Rest()|
      {
        LeadsStep(goal, before, events, ModeNow(), parseState.Rest(), enable8BitControl);
        CallProgresses(ModeNow(), parseState.Rest(), enable8BitControl);
        var func, pos, buf := parseState.func, parseState.pos, parseState.buf;
        var failed := CallFunc();
        if failed {
          return TypeError;
        }
        if parseState.func == func && parseState.pos == pos && parseState.buf == buf {
          return DidNotAlterTheState;
        }
        complete := parseState.IsComplete();
      }
      LeadsLast(goal, before, events, ModeNow(), enable8BitControl);
      return Finished;
    }
  }

  /** The run `goal`, started with the events `before`, has `rest` still to do after `done`. */
  ghost predicate Leads(goal: Interpreted, before: seq<Event>, done: seq<Event>, rest: Interpreted) {
    goal.mode == rest.mode && goal.crashed == rest.crashed && before + goal.events == done + rest.events
  }

  lemma LeadsFirst(goal: Interpreted, before: seq<Event>)
    ensures Leads(goal, before, before, goal)
  {
  }

  lemma LeadsStep(goal: Interpreted, before: seq<Event>, done: seq<Event>, m: Mode, rest: Text, eightBit: bool)
    requires rest != [] && Leads(goal, before, done, VtParser.Interpret(m, rest, eightBit))
    ensures var c := Call(m, rest, eightBit);
            if c.crashed then goal.crashed && goal.mode == c.mode && before + goal.events == done + c.events
            else Leads(goal, before, done + c.events, VtParser.Interpret(c.mode, c.rest, eightBit))
  {
    hide Call, VtParser.Interpret;
    var c := Call(m, rest, eightBit);
    InterpretStep(m, rest, eightBit);
    Associates(done, c.events, VtParser.Interpret(c.mode, c.rest, eightBit).events);
  }

  lemma LeadsLast(goal: Interpreted, before: seq<Event>, done: seq<Event>, m: Mode, eightBit: bool)
    requires Leads(goal, before, done, VtParser.Interpret(m, [], eightBit))
    ensures !goal.crashed && goal.mode == m && before + goal.events == done
  {
    hide VtParser.Interpret;
    InterpretStep(m, [], eightBit);
    assert done + [] == done;
  }

  /** All of it. */
  function SequenceText(m: Mode, rest: Text): Text
    requires m.Str?
  {
    m.text + rest[..NextTerminator(rest)]
  }

  /** The exception of a call: an escape character where the character of a character set
      designation should be. */
  lemma OnlyCharsetsCrash(m: Mode, rest: Text, eightBit: bool)
    requires rest != []
    ensures Call(m, rest, eightBit).crashed <==> m.Charset? && rest[0] == ESC
  {
    hide OneChar, NextControl, NextTerminator, OscEvents, AfterControl;
  }

  lemma StringCases(m: Mode, rest: Text)
    requires m.Str? && rest != []
    ensures var n := NextTerminator(rest);
            var c := CallString(m, rest);
            && (Terminated(m, rest) <==> n < |rest| && |m.text| + n <= MAX_STRING_SEQUENCE)
            && SequenceText(m, rest) == m.text + rest[..n]
            && (if n == |rest| then
                  if |m.text + rest| > MAX_STRING_SEQUENCE || ESC in m.text + rest then c.mode == Unknown && c.rest == m.text + rest
                  else c.mode == Str(m.osc, m.text + rest) && c.rest == []
                else if |m.text| + n > MAX_STRING_SEQUENCE then c.mode == Unknown && c.rest == m.text + rest
                else c.mode == Unknown && c.rest == rest[n + (if rest[n] == ESC then 2 else 1)..])
  {
    hide NextTerminator, OscEvents;
  }

  lemma StringEvents(m: Mode, rest: Text, eightBit: bool)
    requires m.Str? && rest != []
    ensures Call(m, rest, eightBit) == CallString(m, rest) && !CallString(m, rest).crashed
    ensures CallString(m, rest).events == if m.osc && Terminated(m, rest) then OscEvents(SequenceText(m, rest)) else []
  {
    hide NextTerminator, OscEvents;
  }
}
