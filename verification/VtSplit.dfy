/** What the interpreter hands over does not depend on how its input is cut, with one exception:
    a string sequence that is cut after an escape character. */
module VtSplit {
  import opened JsText
  import opened VtParser

  /** The outcome of interpret as it can be observed: the text printed counts, not the number of
      calls that print it. */
  function Trace(m: Mode, s: Text, eightBit: bool): Interpreted {
    var r := Interpret(m, s, eightBit);
    Interpreted(r.mode, Flat(r.events), r.crashed)
  }

  function Then(events: seq<Event>, r: Interpreted): Interpreted {
    Interpreted(r.mode, events + r.events, r.crashed)
  }

  /** What a second call adds. */
  function Resume(first: Interpreted, b: Text, eightBit: bool): Interpreted {
    if first.crashed then first else Then(first.events, Trace(first.mode, b, eightBit))
  }

  lemma ThenThen(a: seq<Event>, b: seq<Event>, r: Interpreted)
    ensures Then(a, Then(b, r)) == Then(a + b, r)
  {
    Associates(a, b, r.events);
  }

  lemma ThenCrashes(events: seq<Event>, r: Interpreted)
    ensures Then(events, r).crashed == r.crashed && Then(events, r).mode == r.mode && Then(events, r).events == events + r.events
  {
  }

  lemma ThenNothing(r: Interpreted)
    ensures Then([], r) == r
  {
  }

  lemma ResumeThen(events: seq<Event>, first: Interpreted, b: Text, eightBit: bool)
    ensures Resume(Then(events, first), b, eightBit) == Then(events, Resume(first, b, eightBit))
  {
    hide Trace;
    Associates(events, first.events, Trace(first.mode, b, eightBit).events);
  }

  // ----- traces step by step

  lemma TraceNothing(m: Mode, eightBit: bool)
    ensures Trace(m, [], eightBit) == Interpreted(m, [], false)
  {
    hide Flat, Interpret;
    InterpretStep(m, [], eightBit);
    FlatNothing();
  }

  lemma TraceCall(m: Mode, s: Text, eightBit: bool)
    requires s != [] && !Call(m, s, eightBit).crashed
    ensures var c := Call(m, s, eightBit);
            Trace(m, s, eightBit) == Then(Flat(c.events), Trace(c.mode, c.rest, eightBit))
  {
    hide Flat, Interpret, Call;
    var c := Call(m, s, eightBit);
    InterpretStep(m, s, eightBit);
    FlatConcat(c.events, Interpret(c.mode, c.rest, eightBit).events);
  }

  lemma TraceString(m: Mode, s: Text, eightBit: bool)
    requires m.Str? && s != []
    ensures Trace(m, s, eightBit) == Then(CallString(m, s).events, Trace(CallString(m, s).mode, CallString(m, s).rest, eightBit))
    ensures CallString(m, s).events == [] || (CallString(m, s).events[0].OscCode? && |CallString(m, s).events| == 1)
  {
    hide Flat, Trace, NextTerminator, DigitsEnd;
    assert Call(m, s, eightBit) == CallString(m, s) && !CallString(m, s).crashed;
    TraceCall(m, s, eightBit);
    FlatNothing();
    if CallString(m, s).events != [] {
      FlatOne(CallString(m, s).events[0]);
      assert CallString(m, s).events == [CallString(m, s).events[0]];
    }
  }

  /** Outside of string sequences a trace is read off character by character. */
  lemma TraceChar(m: Mode, c: CodeUnit, s: Text, eightBit: bool)
    requires !m.Str?
    ensures var first := OneChar(m, c, eightBit);
            Trace(m, [c] + s, eightBit)
            == if Crashes(m, c) then Interpreted(first.mode, first.events, true) else Then(first.events, Trace(first.mode, s, eightBit))
  {
    hide *;
    if m.Unknown? {
      TraceUnknown(c, s, eightBit);
    } else {
      CallOne(m, c, s, eightBit);
      OneCharIsFlat(m, c, eightBit);
      if Crashes(m, c) {
        TraceCrash(m, [c] + s, eightBit);
      } else {
        TraceCall(m, [c] + s, eightBit);
      }
    }
  }

  lemma TraceCrash(m: Mode, s: Text, eightBit: bool)
    requires s != [] && Call(m, s, eightBit).crashed
    ensures Trace(m, s, eightBit) == Interpreted(Call(m, s, eightBit).mode, Flat(Call(m, s, eightBit).events), true)
  {
    hide Flat, Interpret, Call;
    InterpretStep(m, s, eightBit);
  }

  lemma TraceUnknown(c: CodeUnit, s: Text, eightBit: bool)
    ensures !Crashes(Unknown, c)
    ensures Trace(Unknown, [c] + s, eightBit)
            == Then(OneChar(Unknown, c, eightBit).events, Trace(OneChar(Unknown, c, eightBit).mode, s, eightBit))
  {
    hide *;
    var whole := [c] + s;
    UnknownChar(c, eightBit);
    var n := CallPlain(whole, eightBit);
    TraceCall(Unknown, whole, eightBit);
    if IsControl(c) {
      assert whole[0] == c && whole[1..] == s && n == 0;
      assert Singles(whole[..0]) + [Control(c)] == [Control(c)] by { assert |Singles(whole[..0])| == 0; }
    } else if s == [] {
      assert n == 1 && whole[..1] == [c] && Singles([c]) + [] == [Print([c])];
      assert Call(Unknown, whole, eightBit).rest == [];
      TraceNothing(Unknown, eightBit);
    } else {
      var k := CallPlain(s, eightBit);
      TraceCall(Unknown, s, eightBit);
      OneFurther(c, s, n, k);
      SinglesCons(c, s[..k]);
      var control: seq<Event> := if k < |s| then [Control(s[k])] else [];
      Associates([Print([c])], Singles(s[..k]), control);
      ThenThen([Print([c])], Singles(s[..k]) + control, Trace(Call(Unknown, s, eightBit).mode, Call(Unknown, s, eightBit).rest, eightBit));
    }
  }

  lemma OneFurther(c: CodeUnit, s: Text, n: nat, k: nat)
    requires !IsControl(c) && n <= |[c] + s| && k <= |s|
    requires (forall i | 0 <= i < n :: !IsControl(([c] + s)[i])) && (n < |[c] + s| ==> IsControl(([c] + s)[n]))
    requires (forall i | 0 <= i < k :: !IsControl(s[i])) && (k < |s| ==> IsControl(s[k]))
    ensures n == k + 1 && ([c] + s)[..n] == [c] + s[..k]
    ensures n < |[c] + s| ==> ([c] + s)[n] == s[k] && ([c] + s)[n + 1..] == s[k + 1..]
  {
    hide IsControl;
    var whole := [c] + s;
    assert forall i | 0 <= i < |s| :: whole[i + 1] == s[i];
    assert whole[0] == c && n > 0;
    assert k < |s| ==> whole[k + 1] == s[k];
    assert n < |whole| ==> whole[n] == s[n - 1];
  }

  // ----- terminators

  /** What a string sequence has gathered holds neither of the characters that end one. */
  predicate Waiting(m: Mode) {
    m.Str? ==> BEL !in m.text && ESC !in m.text
  }

  lemma TerminatorCons(c: CodeUnit, s: Text)
    ensures NextTerminator([c] + s) == if c == BEL || (c == ESC && s != [] && s[0] == BACKSLASH) then 0 else 1 + NextTerminator(s)
  {
    assert ([c] + s)[1..] == s;
    assert s != [] ==> ([c] + s)[1] == s[0];
  }

  lemma TerminatorNone()
    ensures NextTerminator([]) == 0
  {
  }

  /** A terminator that lies in the first part is the terminator of the whole. */
  lemma {:induction false} TerminatorFirst(a: Text, b: Text)
    requires NextTerminator(a) < |a|
    ensures NextTerminator(a + b) == NextTerminator(a)
    decreases |a|
  {
    hide *;
    if a == [] {
      TerminatorNone();
    } else {
      assert a == [a[0]] + a[1..] && a + b == [a[0]] + (a[1..] + b);
      TerminatorCons(a[0], a[1..]);
      TerminatorCons(a[0], a[1..] + b);
      assert a[1..] != [] ==> (a[1..] + b)[0] == a[1..][0];
      if NextTerminator(a) > 0 {
        TerminatorFirst(a[1..], b);
      } else if a[0] != BEL {
        assert a[1..] != [] && a[1..][0] == BACKSLASH;
      }
    }
  }

  /** Otherwise it lies in the second part, or the cut goes through it. */
  predicate CutThrough(a: Text, b: Text) {
    a != [] && a[|a| - 1] == ESC && b != [] && b[0] == BACKSLASH
  }

  lemma {:induction false} TerminatorLater(a: Text, b: Text)
    requires NextTerminator(a) == |a|
    ensures NextTerminator(a + b) == if CutThrough(a, b) then |a| - 1 else |a| + NextTerminator(b)
    ensures BEL !in a
    decreases |a|
  {
    hide NextTerminator;
    if a == [] {
      assert a + b == b;
    } else {
      assert a == [a[0]] + a[1..] && a + b == [a[0]] + (a[1..] + b);
      TerminatorCons(a[0], a[1..]);
      TerminatorCons(a[0], a[1..] + b);
      TerminatorLater(a[1..], b);
      if a[1..] != [] {
        assert (a[1..] + b)[0] == a[1..][0] && a[1..][|a[1..]| - 1] == a[|a| - 1];
      } else {
        assert a[1..] + b == b;
      }
    }
  }

  lemma {:induction false} NoTerminator(a: Text)
    requires BEL !in a && ESC !in a
    ensures NextTerminator(a) == |a|
  {
    if a != [] {
      assert a[0] in a && forall c | c in a[1..] :: c in a;
      NoTerminator(a[1..]);
    }
  }

  // ----- when a cut is good

  /** The sequence ends in the whole input, but with only the first part at hand the escape
      character in it makes the interpreter give the sequence up. */
  predicate GivenUp(m: Mode, a: Text, b: Text)
    requires m.Str?
  {
    NextTerminator(a) == |a| && ESC in a && Terminated(m, a + b)
  }

  /** Reading `a` never comes to a sequence that is given up for that reason. */
  predicate GoodCut(m: Mode, a: Text, b: Text, eightBit: bool)
    decreases Pending(m, a), StringFlag(m), |a|
  {
    if a == [] then true
    else if m.Str? then
      CallProgresses(m, a, eightBit);
      var c := CallString(m, a);
      !GivenUp(m, a, b) && (c.mode.Str? || GoodCut(c.mode, c.rest, b, eightBit))
    else
      Crashes(m, a[0]) || (FreshString(m, a[0], eightBit); GoodCut(OneChar(m, a[0], eightBit).mode, a[1..], b, eightBit))
  }

  /** A string sequence starts with nothing gathered. */
  lemma FreshString(m: Mode, c: CodeUnit, eightBit: bool)
    requires !m.Str?
    ensures OneChar(m, c, eightBit).mode.Str? ==> OneChar(m, c, eightBit).mode.text == []
    ensures Waiting(OneChar(m, c, eightBit).mode)
  {
    hide IsControl;
  }

  // ----- a good cut does no harm

  /** The characters of the terminator that starts at `n`. */
  function TerminatorEnd(s: Text, n: nat): (e: nat)
    requires n < |s| && (s[n] == BEL || (s[n] == ESC && n + 1 < |s|))
    ensures n < e <= |s|
  {
    n + (if s[n] == ESC then 2 else 1)
  }

  lemma TerminatorHere(s: Text)
    requires NextTerminator(s) < |s|
    ensures var n := NextTerminator(s);
            s[n] == BEL || (s[n] == ESC && n + 1 < |s| && s[n + 1] == BACKSLASH)
  {
  }

  lemma CallEnded(m: Mode, s: Text, n: nat)
    requires m.Str? && s != [] && n == NextTerminator(s) < |s|
    ensures s[n] == BEL || (s[n] == ESC && n + 1 < |s|)
    ensures CallString(m, s)
            == if |m.text| + n > MAX_STRING_SEQUENCE then Called(Unknown, m.text + s, [], false)
               else Called(Unknown, s[TerminatorEnd(s, n)..], if m.osc then OscEvents(m.text + s[..n]) else [], false)
  {
    hide NextTerminator, OscEvents;
    TerminatorHere(s);
  }

  lemma CallOpen(m: Mode, s: Text)
    requires m.Str? && s != [] && NextTerminator(s) == |s|
    ensures CallString(m, s)
            == if |m.text + s| > MAX_STRING_SEQUENCE || ESC in m.text + s then Called(Unknown, m.text + s, [], false)
               else Called(Str(m.osc, m.text + s), [], [], false)
  {
    hide NextTerminator, OscEvents;
  }

  /** Terminated in the first part: the second is not looked at. */
  lemma EndsInFirst(m: Mode, a: Text, b: Text)
    requires m.Str? && NextTerminator(a) < |a|
    ensures CallString(m, a + b) == CallString(m, a).(rest := CallString(m, a).rest + b)
  {
    hide NextTerminator, OscEvents, CallString, TerminatorEnd;
    TerminatorFirst(a, b);
    var n := NextTerminator(a);
    CallEnded(m, a, n);
    CallEnded(m, a + b, n);
    Associates(m.text, a, b);
    EndInFirst(a, b, n);
  }

  lemma EndInFirst(a: Text, b: Text, n: nat)
    requires n < |a| && (a[n] == BEL || (a[n] == ESC && n + 1 < |a|))
    ensures (a + b)[n] == a[n] && (a + b)[..n] == a[..n]
    ensures (a + b)[TerminatorEnd(a + b, n)..] == a[TerminatorEnd(a, n)..] + b
  {
  }

  /** Not terminated and without an escape character, it goes on in the second. */
  lemma GoesOn(m: Mode, a: Text, b: Text)
    requires m.Str? && a != [] && b != [] && NextTerminator(a) == |a| && CallString(m, a).mode.Str?
    ensures CallString(m, a) == Called(Str(m.osc, m.text + a), [], [], false) && ESC !in m.text + a
    ensures CallString(Str(m.osc, m.text + a), b) == CallString(m, a + b)
  {
    hide *;
    CallOpen(m, a);
    NotCutThrough(m.text, a, b);
    TerminatorLater(a, b);
    NextTerminatorBound(b);
    if NextTerminator(b) < |b| {
      EndsInSecond(m, a, b, NextTerminator(b));
    } else {
      WaitsInSecond(m, a, b);
    }
  }

  lemma EndsInSecond(m: Mode, a: Text, b: Text, n: nat)
    requires m.Str? && a != [] && b != [] && n == NextTerminator(b) < |b| && NextTerminator(a + b) == |a| + n
    ensures CallString(Str(m.osc, m.text + a), b) == CallString(m, a + b)
  {
    hide *;
    CallEnded(Str(m.osc, m.text + a), b, n);
    SameEnd(a, b, n);
    CallEnded(m, a + b, |a| + n);
    Associates(m.text, a, b);
    Associates(m.text, a, b[..n]);
  }

  lemma WaitsInSecond(m: Mode, a: Text, b: Text)
    requires m.Str? && a != [] && b != [] && NextTerminator(b) == |b| && NextTerminator(a + b) == |a + b|
    ensures CallString(Str(m.osc, m.text + a), b) == CallString(m, a + b)
  {
    hide *;
    CallOpen(Str(m.osc, m.text + a), b);
    CallOpen(m, a + b);
    Associates(m.text, a, b);
  }

  lemma NotCutThrough(text: Text, a: Text, b: Text)
    requires ESC !in text + a
    ensures !CutThrough(a, b)
  {
    if a != [] {
      assert (text + a)[|text| + |a| - 1] == a[|a| - 1];
    }
  }

  lemma SameEnd(a: Text, b: Text, n: nat)
    requires n < |b| && (b[n] == BEL || (b[n] == ESC && n + 1 < |b|))
    ensures (a + b)[|a| + n] == b[n] && (a + b)[..|a| + n] == a + b[..n]
    ensures (a + b)[TerminatorEnd(a + b, |a| + n)..] == b[TerminatorEnd(b, n)..]
  {
  }

  /** Given up in the first part, it is given up in the whole if it does not end there. */
  lemma GivenUpAnyway(m: Mode, a: Text, b: Text)
    requires m.Str? && a != [] && NextTerminator(a) == |a| && !CallString(m, a).mode.Str?
    requires Waiting(m) && !GivenUp(m, a, b)
    ensures CallString(m, a) == Called(Unknown, m.text + a, [], false)
    ensures CallString(m, a + b) == Called(Unknown, m.text + a + b, [], false)
  {
    hide NextTerminator, OscEvents;
    Associates(m.text, a, b);
    TerminatorLater(a, b);
    assert ESC in m.text + a ==> ESC in a;
    assert ESC in a ==> ESC in m.text + (a + b);
    if ESC !in a && b != [] {
      assert a[|a| - 1] in a;
    }
  }

  lemma GoodCutIs(m: Mode, a: Text, b: Text, eightBit: bool)
    ensures GoodCut(m, a, b, eightBit) <==>
              if a == [] then true
              else if m.Str? then
                !GivenUp(m, a, b) && (CallString(m, a).mode.Str? || GoodCut(CallString(m, a).mode, CallString(m, a).rest, b, eightBit))
              else Crashes(m, a[0]) || GoodCut(OneChar(m, a[0], eightBit).mode, a[1..], b, eightBit)
  {
    hide CallString, GivenUp, OneChar, Crashes;
  }

  lemma OneCharPending(m: Mode, a: Text, eightBit: bool)
    requires !m.Str? && a != []
    ensures Pending(OneChar(m, a[0], eightBit).mode, a[1..]) < Pending(m, a)
  {
    hide OneChar;
    FreshString(m, a[0], eightBit);
  }

  lemma StringPending(m: Mode, a: Text)
    requires m.Str? && a != [] && !CallString(m, a).mode.Str?
    ensures CallString(m, a).mode == Unknown
    ensures Pending(Unknown, CallString(m, a).rest) <= Pending(m, a) && StringFlag(Unknown) < StringFlag(m)
  {
    hide NextTerminator, OscEvents;
  }

  /** A good cut leaves everything as it is. */
  lemma {:induction false} SplitGood(m: Mode, a: Text, b: Text, eightBit: bool)
    requires Waiting(m) && GoodCut(m, a, b, eightBit)
    ensures Trace(m, a + b, eightBit) == Resume(Trace(m, a, eightBit), b, eightBit)
    decreases Pending(m, a), StringFlag(m), 1
  {
    hide *;
    GoodCutIs(m, a, b, eightBit);
    if a == [] {
      assert a + b == b;
      TraceNothing(m, eightBit);
      ResumeNothing(m, b, eightBit);
    } else if m.Str? {
      SplitGoodString(m, a, b, eightBit);
    } else {
      assert a == [a[0]] + a[1..] && a + b == [a[0]] + (a[1..] + b);
      TraceChar(m, a[0], a[1..], eightBit);
      TraceChar(m, a[0], a[1..] + b, eightBit);
      var first := OneChar(m, a[0], eightBit);
      if Crashes(m, a[0]) {
        ResumeCrashed(Trace(m, a, eightBit), b, eightBit);
      } else {
        FreshString(m, a[0], eightBit);
        OneCharPending(m, a, eightBit);
        SplitGood(first.mode, a[1..], b, eightBit);
        ResumeThen(first.events, Trace(first.mode, a[1..], eightBit), b, eightBit);
      }
    }
  }

  lemma ResumeNothing(m: Mode, b: Text, eightBit: bool)
    ensures Resume(Interpreted(m, [], false), b, eightBit) == Trace(m, b, eightBit)
  {
    hide Trace;
    ThenNothing(Trace(m, b, eightBit));
  }

  lemma ResumeCrashed(first: Interpreted, b: Text, eightBit: bool)
    requires first.crashed
    ensures Resume(first, b, eightBit) == first
  {
  }

  lemma SplitGoodString(m: Mode, a: Text, b: Text, eightBit: bool)
    requires m.Str? && a != [] && Waiting(m) && GoodCut(m, a, b, eightBit)
    ensures Trace(m, a + b, eightBit) == Resume(Trace(m, a, eightBit), b, eightBit)
    decreases Pending(m, a), StringFlag(m), 0
  {
    hide *;
    GoodCutIs(m, a, b, eightBit);
    var c := CallString(m, a);
    TraceString(m, a, eightBit);
    TraceString(m, a + b, eightBit);
    if c.mode.Str? {
      WaitsOnlyUnterminated(m, a);
      if b == [] {
        assert a + b == a;
        TraceWaits(m, a, eightBit);
        TraceNothing(Str(m.osc, m.text + a), eightBit);
        ResumeNothing(Str(m.osc, m.text + a), b, eightBit);
      } else {
        GoesOn(m, a, b);
        TraceWaits(m, a, eightBit);
        TraceString(Str(m.osc, m.text + a), b, eightBit);
        ResumeNothing(Str(m.osc, m.text + a), b, eightBit);
      }
    } else {
      StringPending(m, a);
      if NextTerminator(a) < |a| {
        EndsInFirst(m, a, b);
      } else {
        NextTerminatorBound(a);
        GivenUpAnyway(m, a, b);
      }
      UnknownWaits();
      SplitGood(Unknown, c.rest, b, eightBit);
      ResumeThen(c.events, Trace(Unknown, c.rest, eightBit), b, eightBit);
    }
  }

  lemma UnknownWaits()
    ensures Waiting(Unknown)
  {
  }

  lemma NextTerminatorBound(a: Text)
    ensures NextTerminator(a) <= |a|
  {
  }

  lemma WaitsOnlyUnterminated(m: Mode, a: Text)
    requires m.Str? && a != [] && CallString(m, a).mode.Str?
    ensures NextTerminator(a) == |a| && CallString(m, a) == Called(Str(m.osc, m.text + a), [], [], false)
  {
    hide NextTerminator, OscEvents;
  }

  lemma TraceWaits(m: Mode, a: Text, eightBit: bool)
    requires m.Str? && a != [] && CallString(m, a) == Called(Str(m.osc, m.text + a), [], [], false)
    ensures Trace(m, a, eightBit) == Interpreted(Str(m.osc, m.text + a), [], false)
  {
    hide *;
    TraceString(m, a, eightBit);
    TraceNothing(Str(m.osc, m.text + a), eightBit);
    ThenNothing(Interpreted(Str(m.osc, m.text + a), [], false));
  }

  // ----- any other cut does

  /** How often an escape character has been acted upon. */
  function Escapes(events: seq<Event>): nat {
    if events == [] then 0 else (if events[0] == Control(ESC) then 1 else 0) + Escapes(events[1..])
  }

  lemma {:induction false} EscapesConcat(a: seq<Event>, b: seq<Event>)
    ensures Escapes(a + b) == Escapes(a) + Escapes(b)
  {
    if a == [] {
      assert a + b == b;
    } else {
      EscapesConcat(a[1..], b);
      assert (a + b)[1..] == a[1..] + b;
    }
  }

  lemma EscapesThen(events: seq<Event>, r: Interpreted)
    ensures Escapes(Then(events, r).events) == Escapes(events) + Escapes(r.events)
    ensures Then(events, r).crashed == r.crashed
  {
    EscapesConcat(events, r.events);
  }

  /** The escape character in a string sequence that does not end is acted upon after all. */
  lemma {:induction false} EscapeIsSeen(m: Mode, s: Text, eightBit: bool)
    requires Waiting(m) && (m.Unknown? || m.Csi? || m.Str?)
    requires ESC in s && NextTerminator(s) == |s|
    ensures Escapes(Trace(m, s, eightBit).events) > 0
    decreases Pending(m, s), StringFlag(m)
  {
    hide *;
    if m.Str? {
      SeenInString(m, s);
      TraceString(m, s, eightBit);
      StringPending(m, s);
      EscapeIsSeen(Unknown, m.text + s, eightBit);
      EscapesThen([], Trace(Unknown, m.text + s, eightBit));
    } else {
      assert s == [s[0]] + s[1..];
      var first := OneChar(m, s[0], eightBit);
      TraceChar(m, s[0], s[1..], eightBit);
      EscapesThen(first.events, Trace(first.mode, s[1..], eightBit));
      SeenInChar(m, s[0], eightBit);
      if s[0] != ESC {
        TerminatorCons(s[0], s[1..]);
        TerminatorLater(s, []);
        OneCharPending(m, s, eightBit);
        FreshString(m, s[0], eightBit);
        EscapeIsSeen(first.mode, s[1..], eightBit);
      }
    }
  }

  lemma SeenInString(m: Mode, s: Text)
    requires m.Str? && Waiting(m) && ESC in s && NextTerminator(s) == |s|
    ensures CallString(m, s) == Called(Unknown, m.text + s, [], false)
    ensures Waiting(Unknown) && ESC in m.text + s && NextTerminator(m.text + s) == |m.text + s|
  {
    hide NextTerminator, CallString;
    CallOpen(m, s);
    NoTerminator(m.text);
    if m.text != [] {
      assert m.text[|m.text| - 1] in m.text;
    }
    TerminatorLater(m.text, s);
  }

  lemma SeenInChar(m: Mode, c: CodeUnit, eightBit: bool)
    requires m.Unknown? || m.Csi?
    ensures !Crashes(m, c)
    ensures c == ESC ==> Escapes(OneChar(m, c, eightBit).events) == 1
    ensures c != ESC ==> var next := OneChar(m, c, eightBit).mode; next.Unknown? || next.Csi? || next.Str?
  {
    hide IsControl;
    EscIsControl();
    assert Escapes([Control(ESC)]) == 1 by { assert [Control(ESC)][1..] == []; }
  }

  /** After a control sequence that has been left open the same escape characters are acted upon
      as after none. */
  lemma {:induction false} OpenSequence(m: Mode, s: Text, eightBit: bool)
    requires m.Csi?
    ensures Escapes(Trace(m, s, eightBit).events) == Escapes(Trace(Unknown, s, eightBit).events)
    decreases |s|
  {
    hide *;
    if s == [] {
      TraceNothing(m, eightBit);
      TraceNothing(Unknown, eightBit);
    } else {
      assert s == [s[0]] + s[1..];
      var first, other := OneChar(m, s[0], eightBit), OneChar(Unknown, s[0], eightBit);
      TraceChar(m, s[0], s[1..], eightBit);
      TraceChar(Unknown, s[0], s[1..], eightBit);
      EscapesThen(first.events, Trace(first.mode, s[1..], eightBit));
      EscapesThen(other.events, Trace(other.mode, s[1..], eightBit));
      SeenInEither(m, s[0], eightBit);
      if first.mode != other.mode {
        OpenSequence(first.mode, s[1..], eightBit);
      }
    }
  }

  lemma SeenInEither(m: Mode, c: CodeUnit, eightBit: bool)
    requires m.Csi?
    ensures !Crashes(m, c) && !Crashes(Unknown, c)
    ensures Escapes(OneChar(m, c, eightBit).events) == Escapes(OneChar(Unknown, c, eightBit).events)
    ensures OneChar(m, c, eightBit).mode == OneChar(Unknown, c, eightBit).mode
            || (OneChar(m, c, eightBit).mode.Csi? && OneChar(Unknown, c, eightBit).mode.Unknown?)
  {
    hide Escapes;
    NotSeen(OneChar(m, c, eightBit).events);
    NotSeen(OneChar(Unknown, c, eightBit).events);
  }

  lemma NotSeen(events: seq<Event>)
    ensures |events| <= 1 ==> Escapes(events) == if |events| == 1 && events[0] == Control(ESC) then 1 else 0
  {
  }

  /** Whatever is open, reading up to and including a terminator leaves nothing open that would
      keep an escape character from being acted upon. */
  lemma {:induction false} NotFewer(m: Mode, s: Text, eightBit: bool)
    requires Waiting(m) && NextTerminator(s) < |s| && !Trace(m, s, eightBit).crashed
    ensures s[NextTerminator(s)] == BEL || (s[NextTerminator(s)] == ESC && NextTerminator(s) + 1 < |s|)
    ensures Escapes(Trace(m, s, eightBit).events)
            >= Escapes(Trace(Unknown, s[TerminatorEnd(s, NextTerminator(s))..], eightBit).events)
    decreases Pending(m, s), StringFlag(m)
  {
    hide *;
    var n := NextTerminator(s);
    TerminatorHere(s);
    if m.Str? {
      NotFewerString(m, s, eightBit);
    } else {
      assert s == [s[0]] + s[1..];
      var first := OneChar(m, s[0], eightBit);
      TerminatorCons(s[0], s[1..]);
      TraceChar(m, s[0], s[1..], eightBit);
      EscapesThen(first.events, Trace(first.mode, s[1..], eightBit));
      EndOf(s, n);
      if n > 0 {
        OneCharPending(m, s, eightBit);
        FreshString(m, s[0], eightBit);
        NotFewer(first.mode, s[1..], eightBit);
      } else if s[0] == BEL {
        AfterBel(m, eightBit);
        if first.mode.Csi? {
          OpenSequence(first.mode, s[1..], eightBit);
        }
      } else {
        var later := s[1..];
        assert later == [later[0]] + later[1..] && later[1..] == s[2..];
        AfterEscape(m, eightBit);
        AfterBackslash(first.mode, later[1..], eightBit);
      }
    }
  }

  lemma EndOf(s: Text, n: nat)
    requires n < |s| && (s[n] == BEL || (s[n] == ESC && n + 1 < |s|))
    ensures n > 0 ==> s[TerminatorEnd(s, n)..] == s[1..][TerminatorEnd(s[1..], n - 1)..]
    ensures n == 0 ==> s[TerminatorEnd(s, n)..] == if s[0] == BEL then s[1..] else s[2..]
  {
  }

  lemma AfterBel(m: Mode, eightBit: bool)
    requires !m.Str?
    ensures !Crashes(m, BEL) && (OneChar(m, BEL, eightBit).mode.Unknown? || OneChar(m, BEL, eightBit).mode.Csi?)
  {
    EscIsControl();
  }

  lemma AfterEscape(m: Mode, eightBit: bool)
    requires !m.Str? && !Crashes(m, ESC)
    ensures OneChar(m, ESC, eightBit).mode.Unknown? || OneChar(m, ESC, eightBit).mode.Esc?
  {
    EscIsControl();
  }

  lemma AfterBackslash(m: Mode, s: Text, eightBit: bool)
    requires !m.Str?
    ensures OneChar(m, BACKSLASH, eightBit).mode == Unknown && !Crashes(m, BACKSLASH)
    ensures Escapes(Trace(m, [BACKSLASH] + s, eightBit).events) >= Escapes(Trace(Unknown, s, eightBit).events)
  {
    hide Trace, Escapes;
    TraceChar(m, BACKSLASH, s, eightBit);
    EscapesThen(OneChar(m, BACKSLASH, eightBit).events, Trace(Unknown, s, eightBit));
  }

  lemma NotFewerString(m: Mode, s: Text, eightBit: bool)
    requires m.Str? && Waiting(m) && NextTerminator(s) < |s| && !Trace(m, s, eightBit).crashed
    ensures s[NextTerminator(s)] == BEL || (s[NextTerminator(s)] == ESC && NextTerminator(s) + 1 < |s|)
    ensures Escapes(Trace(m, s, eightBit).events)
            >= Escapes(Trace(Unknown, s[TerminatorEnd(s, NextTerminator(s))..], eightBit).events)
    decreases Pending(m, s), StringFlag(m), 0
  {
    hide *;
    var n := NextTerminator(s);
    CallEnded(m, s, n);
    TraceString(m, s, eightBit);
    var c := CallString(m, s);
    EscapesThen(c.events, Trace(c.mode, c.rest, eightBit));
    if |m.text| + n > MAX_STRING_SEQUENCE {
      StringPending(m, s);
      NoTerminatorGathered(m, s);
      SameEnd(m.text, s, n);
      UnknownWaits();
      NotFewer(Unknown, m.text + s, eightBit);
    }
  }

  lemma NoTerminatorGathered(m: Mode, s: Text)
    requires m.Str? && Waiting(m)
    ensures NextTerminator(m.text + s) == |m.text| + NextTerminator(s)
    ensures NextTerminator(m.text) == |m.text|
  {
    hide NextTerminator;
    NoTerminator(m.text);
    if m.text != [] {
      assert m.text[|m.text| - 1] in m.text;
    }
    TerminatorLater(m.text, s);
  }

  /** Input that ends with an escape character leaves no string sequence open. */
  lemma {:induction false} NoStringAfterEscape(m: Mode, s: Text, eightBit: bool)
    requires s != [] && s[|s| - 1] == ESC && !Trace(m, s, eightBit).crashed
    ensures !Trace(m, s, eightBit).mode.Str?
    decreases Pending(m, s), StringFlag(m)
  {
    hide *;
    if m.Str? {
      TraceString(m, s, eightBit);
      EscapeEndsString(m, s);
      StringPending(m, s);
      var rest := CallString(m, s).rest;
      ThenCrashes(CallString(m, s).events, Trace(Unknown, rest, eightBit));
      if rest == [] {
        TraceNothing(Unknown, eightBit);
      } else {
        NoStringAfterEscape(Unknown, rest, eightBit);
      }
    } else {
      assert s == [s[0]] + s[1..];
      TraceChar(m, s[0], s[1..], eightBit);
      ThenCrashes(OneChar(m, s[0], eightBit).events, Trace(OneChar(m, s[0], eightBit).mode, s[1..], eightBit));
      if s[1..] == [] {
        AfterEscape(m, eightBit);
        TraceNothing(OneChar(m, ESC, eightBit).mode, eightBit);
      } else {
        OneCharPending(m, s, eightBit);
        NoStringAfterEscape(OneChar(m, s[0], eightBit).mode, s[1..], eightBit);
      }
    }
  }

  lemma EscapeEndsString(m: Mode, s: Text)
    requires m.Str? && s != [] && s[|s| - 1] == ESC
    ensures !CallString(m, s).mode.Str?
    ensures var rest := CallString(m, s).rest; rest != [] ==> rest[|rest| - 1] == ESC
  {
    hide NextTerminator, OscEvents;
    assert (m.text + s)[|m.text| + |s| - 1] == ESC;
  }

  /** A cut after which a string sequence is given up lets an escape character be acted upon that
      belongs to the sequence. */
  lemma GivingUpIsSeen(m: Mode, a: Text, b: Text, eightBit: bool)
    requires m.Str? && Waiting(m) && GivenUp(m, a, b) && !Resume(Trace(m, a, eightBit), b, eightBit).crashed
    ensures Escapes(Resume(Trace(m, a, eightBit), b, eightBit).events) > Escapes(Trace(m, a + b, eightBit).events)
  {
    hide *;
    GivenUpIs(m, a, b);
    SeenInString(m, a);
    TraceString(m, a, eightBit);
    var t := m.text + a;
    var first := Trace(Unknown, t, eightBit);
    EscapeIsSeen(Unknown, t, eightBit);
    ThenNothing(first);
    assert Trace(m, a, eightBit) == first;
    ResumeCrashes(first, b, eightBit);
    EscapesThen(first.events, Trace(first.mode, b, eightBit));

    var whole := a + b;
    var n := NextTerminator(whole);
    CallEnded(m, whole, n);
    TraceString(m, whole, eightBit);
    var after := whole[TerminatorEnd(whole, n)..];
    EscapesThen(CallString(m, whole).events, Trace(Unknown, after, eightBit));
    OscIsNotSeen(m, whole);
    TerminatorLater(a, b);
    if CutThrough(a, b) {
      CutThroughIs(a, b);
      assert t[|t| - 1] == a[|a| - 1];
      NoStringAfterEscape(Unknown, t, eightBit);
      AfterBackslash(first.mode, b[1..], eightBit);
    } else {
      NextTerminatorBound(b);
      TerminatorHere(b);
      SameEnd(a, b, NextTerminator(b));
      TraceKeepsWaiting(Unknown, t, eightBit);
      NotFewer(first.mode, b, eightBit);
    }
  }

  lemma GivenUpIs(m: Mode, a: Text, b: Text)
    requires m.Str?
    ensures GivenUp(m, a, b) ==>
              && a != [] && NextTerminator(a) == |a| && ESC in a
              && NextTerminator(a + b) < |a + b| && |m.text| + NextTerminator(a + b) <= MAX_STRING_SEQUENCE
  {
    hide NextTerminator;
  }

  lemma ResumeCrashes(first: Interpreted, b: Text, eightBit: bool)
    requires !Resume(first, b, eightBit).crashed
    ensures !first.crashed && !Trace(first.mode, b, eightBit).crashed
    ensures Resume(first, b, eightBit) == Then(first.events, Trace(first.mode, b, eightBit))
  {
    hide Trace;
  }

  lemma OscIsNotSeen(m: Mode, s: Text)
    requires m.Str? && s != []
    ensures Escapes(CallString(m, s).events) == 0
  {
    hide NextTerminator, DigitsEnd;
    NotSeen(CallString(m, s).events);
  }

  lemma CutThroughIs(a: Text, b: Text)
    requires CutThrough(a, b)
    ensures a != [] && a[|a| - 1] == ESC && b == [BACKSLASH] + b[1..]
    ensures (a + b)[|a| - 1] == ESC && (a + b)[TerminatorEnd(a + b, |a| - 1)..] == b[1..]
  {
    assert (a + b)[|a| - 1] == a[|a| - 1];
  }

  /** What a string sequence has gathered never holds what would have ended it. */
  lemma {:induction false} TraceKeepsWaiting(m: Mode, s: Text, eightBit: bool)
    requires Waiting(m)
    ensures Waiting(Trace(m, s, eightBit).mode)
    decreases Pending(m, s), StringFlag(m)
  {
    hide *;
    if s == [] {
      TraceNothing(m, eightBit);
    } else if m.Str? {
      TraceString(m, s, eightBit);
      if CallString(m, s).mode.Str? {
        WaitsOnlyUnterminated(m, s);
        GathersWaiting(m, s);
        TraceWaits(m, s, eightBit);
      } else {
        StringPending(m, s);
        UnknownWaits();
        ThenCrashes(CallString(m, s).events, Trace(Unknown, CallString(m, s).rest, eightBit));
        TraceKeepsWaiting(Unknown, CallString(m, s).rest, eightBit);
      }
    } else {
      assert s == [s[0]] + s[1..];
      TraceChar(m, s[0], s[1..], eightBit);
      FreshString(m, s[0], eightBit);
      if !Crashes(m, s[0]) {
        OneCharPending(m, s, eightBit);
        ThenCrashes(OneChar(m, s[0], eightBit).events, Trace(OneChar(m, s[0], eightBit).mode, s[1..], eightBit));
        TraceKeepsWaiting(OneChar(m, s[0], eightBit).mode, s[1..], eightBit);
      }
    }
  }

  lemma GathersWaiting(m: Mode, s: Text)
    requires m.Str? && Waiting(m) && s != [] && CallString(m, s).mode.Str?
    ensures Waiting(Str(m.osc, m.text + s))
  {
    hide NextTerminator, CallString;
    WaitsOnlyUnterminated(m, s);
    CallOpen(m, s);
    TerminatorLater(s, []);
  }

  /** After a cut that is not good more escape characters are acted upon. */
  lemma {:induction false} SplitBad(m: Mode, a: Text, b: Text, eightBit: bool)
    requires Waiting(m) && !GoodCut(m, a, b, eightBit) && !Resume(Trace(m, a, eightBit), b, eightBit).crashed
    ensures Escapes(Resume(Trace(m, a, eightBit), b, eightBit).events) > Escapes(Trace(m, a + b, eightBit).events)
    decreases Pending(m, a), StringFlag(m)
  {
    hide *;
    GoodCutIs(m, a, b, eightBit);
    if m.Str? {
      if GivenUp(m, a, b) {
        GivingUpIsSeen(m, a, b, eightBit);
      } else {
        var c := CallString(m, a);
        TraceString(m, a, eightBit);
        TraceString(m, a + b, eightBit);
        StringPending(m, a);
        if NextTerminator(a) < |a| {
          EndsInFirst(m, a, b);
        } else {
          NextTerminatorBound(a);
          GivenUpAnyway(m, a, b);
        }
        UnknownWaits();
        ResumeThen(c.events, Trace(Unknown, c.rest, eightBit), b, eightBit);
        ThenCrashes(c.events, Resume(Trace(Unknown, c.rest, eightBit), b, eightBit));
        SplitBad(Unknown, c.rest, b, eightBit);
        EscapesThen(c.events, Resume(Trace(Unknown, c.rest, eightBit), b, eightBit));
        EscapesThen(c.events, Trace(Unknown, c.rest + b, eightBit));
      }
    } else {
      assert a == [a[0]] + a[1..] && a + b == [a[0]] + (a[1..] + b);
      TraceChar(m, a[0], a[1..], eightBit);
      TraceChar(m, a[0], a[1..] + b, eightBit);
      var first := OneChar(m, a[0], eightBit);
      FreshString(m, a[0], eightBit);
      OneCharPending(m, a, eightBit);
      ResumeThen(first.events, Trace(first.mode, a[1..], eightBit), b, eightBit);
      ThenCrashes(first.events, Resume(Trace(first.mode, a[1..], eightBit), b, eightBit));
      SplitBad(first.mode, a[1..], b, eightBit);
      EscapesThen(first.events, Resume(Trace(first.mode, a[1..], eightBit), b, eightBit));
      EscapesThen(first.events, Trace(first.mode, a[1..] + b, eightBit));
    }
  }

  // ----- exactly when a cut goes unnoticed

  /** Two calls leave behind and hand over what one call does. */
  predicate Unnoticed(m: Mode, a: Text, b: Text, eightBit: bool) {
    var whole := Interpret(m, a + b, eightBit);
    var first := Interpret(m, a, eightBit);
    var rest := Interpret(first.mode, b, eightBit);
    if first.crashed then whole.crashed && whole.mode == first.mode && Flat(whole.events) == Flat(first.events)
    else whole.crashed == rest.crashed && whole.mode == rest.mode && Flat(whole.events) == Flat(first.events + rest.events)
  }

  lemma UnnoticedIs(m: Mode, a: Text, b: Text, eightBit: bool)
    ensures Unnoticed(m, a, b, eightBit) <==> Trace(m, a + b, eightBit) == Resume(Trace(m, a, eightBit), b, eightBit)
  {
    hide Interpret, Flat;
    var first := Interpret(m, a, eightBit);
    FlatConcat(first.events, Interpret(first.mode, b, eightBit).events);
  }

  /** A cut goes unnoticed exactly if it is good: if reading up to it never comes to a string
      sequence that ends behind it and has an escape character in front of it. */
  lemma SplitExactly(m: Mode, a: Text, b: Text, eightBit: bool)
    requires Waiting(m)
    ensures GoodCut(m, a, b, eightBit) ==> Unnoticed(m, a, b, eightBit)
    ensures !Interpret(m, a + b, eightBit).crashed && Unnoticed(m, a, b, eightBit) ==> GoodCut(m, a, b, eightBit)
  {
    hide *;
    UnnoticedIs(m, a, b, eightBit);
    TraceIs(m, a + b, eightBit);
    if GoodCut(m, a, b, eightBit) {
      SplitGood(m, a, b, eightBit);
    } else if !Interpret(m, a + b, eightBit).crashed && Unnoticed(m, a, b, eightBit) {
      SplitBad(m, a, b, eightBit);
    }
  }

  lemma TraceIs(m: Mode, s: Text, eightBit: bool)
    ensures var r := Interpret(m, s, eightBit); Trace(m, s, eightBit) == Interpreted(r.mode, Flat(r.events), r.crashed)
  {
  }

  /** In a string sequence that ends behind the cut, that is: exactly if it has no escape
      character in front of it. */
  lemma SplitInString(m: Mode, a: Text, b: Text, eightBit: bool)
    requires m.Str? && Waiting(m) && a != [] && NextTerminator(a) == |a| && Terminated(m, a + b)
    ensures ESC !in a ==> Unnoticed(m, a, b, eightBit)
    ensures !Interpret(m, a + b, eightBit).crashed && Unnoticed(m, a, b, eightBit) ==> ESC !in a
  {
    hide *;
    SplitExactly(m, a, b, eightBit);
    GoodCutIs(m, a, b, eightBit);
    WaitsExactly(m, a, b);
  }

  /** As far as the next call goes, one condition on the characters in front of the cut decides. */
  lemma CallsAgree(m: Mode, a: Text, b: Text, eightBit: bool)
    requires m.Str? && Waiting(m) && a != [] && b != [] && NextTerminator(a) == |a| && Terminated(m, a + b)
    ensures var first := Call(m, a, eightBit);
            first.mode.Str? && first.rest == [] && Call(first.mode, b, eightBit) == Call(m, a + b, eightBit) <==> ESC !in a
  {
    hide NextTerminator, CallString, Terminated, Waiting;
    WaitsExactly(m, a, b);
    if ESC !in a {
      GoesOn(m, a, b);
    }
  }

  lemma WaitsExactly(m: Mode, a: Text, b: Text)
    requires m.Str? && Waiting(m) && a != [] && NextTerminator(a) == |a| && Terminated(m, a + b)
    ensures CallString(m, a).mode.Str? <==> ESC !in a
    ensures GivenUp(m, a, b) <==> ESC in a
  {
    hide NextTerminator, CallString;
    CallOpen(m, a);
    TerminatorLater(a, b);
    NextTerminatorBound(b);
    if ESC !in a {
      assert a[|a| - 1] in a;
    }
  }

  /** Where no string sequence is opened every cut is good. */
  lemma {:induction false} PlainIsGood(m: Mode, a: Text, b: Text, eightBit: bool)
    requires Plain(m, a + b, eightBit)
    ensures GoodCut(m, a, b, eightBit) && Waiting(m)
    decreases |a|
  {
    hide *;
    NotString(m, a + b, eightBit);
    GoodCutIs(m, a, b, eightBit);
    assert Waiting(m) by { NotGathering(m); }
    if a != [] {
      assert a + b == [a[0]] + (a[1..] + b);
      PlainCons(m, a[0], a[1..] + b, eightBit);
      PlainIsGood(OneChar(m, a[0], eightBit).mode, a[1..], b, eightBit);
    }
  }

  lemma NotGathering(m: Mode)
    requires !m.Str?
    ensures Waiting(m)
  {
  }

  /** Input that raises an exception has to be left out of the converse: there a cut that is not
      good can go unnoticed because the same exception comes earlier. */
  lemma ExceptionHidesCut(eightBit: bool)
    ensures var m, a, b := Str(false, []), [ESC, 40, ESC], [BACKSLASH, ESC, 40, ESC];
            Waiting(m) && Unnoticed(m, a, b, eightBit) && !GoodCut(m, a, b, eightBit)
  {
    hide Trace, Unnoticed, GoodCut, GivenUp, CallString;
    var m, a, b := Str(false, []), [ESC, 40, ESC], [BACKSLASH, ESC, 40, ESC];
    FirstCallHere();
    WholeCallHere();
    CharsetTrace(eightBit);
    SameException(m, a, b, eightBit);
  }

  lemma SameException(m: Mode, a: Text, b: Text, eightBit: bool)
    requires m.Str? && a != [] && GivenUp(m, a, b)
    requires CallString(m, a) == CallString(m, a + b) == Called(Unknown, a, [], false) && Trace(Unknown, a, eightBit).crashed
    ensures Unnoticed(m, a, b, eightBit) && !GoodCut(m, a, b, eightBit)
  {
    hide *;
    var raised := Trace(Unknown, a, eightBit);
    TraceString(m, a, eightBit);
    TraceString(m, a + b, eightBit);
    ThenNothing(raised);
    ResumeCrashed(raised, b, eightBit);
    UnnoticedIs(m, a, b, eightBit);
    GoodCutIs(m, a, b, eightBit);
  }

  lemma FirstCallHere()
    ensures CallString(Str(false, []), [ESC, 40, ESC]) == Called(Unknown, [ESC, 40, ESC], [], false)
  {
    hide NextTerminator, CallString;
    TerminatorsHere();
    assert [] + [ESC, 40, ESC] == [ESC, 40, ESC] && [ESC, 40, ESC][0] == ESC;
    CallOpen(Str(false, []), [ESC, 40, ESC]);
  }

  lemma WholeCallHere()
    ensures var a, b := [ESC, 40, ESC], [BACKSLASH, ESC, 40, ESC];
            CallString(Str(false, []), a + b) == Called(Unknown, a, [], false) && GivenUp(Str(false, []), a, b)
  {
    hide NextTerminator, CallString, TerminatorEnd;
    TerminatorsHere();
    TerminatorEndHere();
    var a: Text, b: Text := [ESC, 40, ESC], [BACKSLASH, ESC, 40, ESC];
    assert a[0] == ESC;
    CallEnded(Str(false, []), a + b, 2);
  }

  lemma CharsetTrace(eightBit: bool)
    ensures Trace(Unknown, [ESC, 40, ESC], eightBit) == Interpreted(Unknown, [Control(ESC), EscCode(40)], true)
  {
    hide Trace;
    assert [ESC, 40, ESC] == [ESC] + ([40] + ([ESC] + []));
    TraceChar(Unknown, ESC, [40] + ([ESC] + []), eightBit);
    TraceChar(Esc, 40, [ESC] + [], eightBit);
    TraceChar(Charset(40), ESC, [], eightBit);
    EscIsControl();
  }

  lemma TerminatorEndHere()
    ensures var s := [ESC, 40, ESC] + [BACKSLASH, ESC, 40, ESC];
            s[2] == ESC && s[TerminatorEnd(s, 2)..] == [ESC, 40, ESC]
  {
  }

  lemma TerminatorsHere()
    ensures NextTerminator([ESC, 40, ESC]) == 3 && NextTerminator([ESC, 40, ESC] + [BACKSLASH, ESC, 40, ESC]) == 2
  {
    TerminatorNone();
    TerminatorCons(ESC, []);
    TerminatorCons(40, [ESC] + []);
    TerminatorCons(ESC, [40] + ([ESC] + []));
    assert [ESC, 40, ESC] == [ESC] + ([40] + ([ESC] + []));
    TerminatorLater([ESC, 40, ESC], [BACKSLASH, ESC, 40, ESC]);
  }
}
