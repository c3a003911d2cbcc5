/** The one exception that can leave interpret: which input raises it. */
module VtRaise {
  import opened JsText
  import opened VtParser
  import opened VtSplit

  /** Cut in front of the escape character at `k`, the input leaves a character set designation open. */
  predicate DesignationOpenAt(m: Mode, s: Text, k: nat, eightBit: bool)
    requires k < |s|
  {
    && s[k] == ESC && GoodCut(m, s[..k], s[k..], eightBit)
    && !Trace(m, s[..k], eightBit).crashed && Trace(m, s[..k], eightBit).mode.Charset?
  }

  lemma {:induction false} OpenRaises(m: Mode, s: Text, k: nat, eightBit: bool)
    requires Waiting(m) && k < |s| && DesignationOpenAt(m, s, k, eightBit)
    ensures Trace(m, s, eightBit).crashed
  {
    hide *;
    OpenIs(m, s, k, eightBit);
    var a, b := s[..k], s[k..];
    assert s == a + b && b == [ESC] + b[1..];
    SplitGood(m, a, b, eightBit);
    ResumeIs(Trace(m, a, eightBit), b, eightBit);
    CharsetCrashes(Trace(m, a, eightBit).mode, b[1..], eightBit);
  }

  lemma OpenIs(m: Mode, s: Text, k: nat, eightBit: bool)
    requires k < |s|
    ensures DesignationOpenAt(m, s, k, eightBit) <==>
              && s[k] == ESC && GoodCut(m, s[..k], s[k..], eightBit)
              && !Trace(m, s[..k], eightBit).crashed && Trace(m, s[..k], eightBit).mode.Charset?
  {
    hide Trace, GoodCut;
  }

  lemma ResumeIs(first: Interpreted, b: Text, eightBit: bool)
    ensures !first.crashed ==> Resume(first, b, eightBit).crashed == Trace(first.mode, b, eightBit).crashed
  {
    hide Trace;
  }

  lemma CharsetCrashes(m: Mode, s: Text, eightBit: bool)
    requires m.Charset?
    ensures Trace(m, [ESC] + s, eightBit).crashed
  {
    hide Trace;
    TraceChar(m, ESC, s, eightBit);
  }

  /** Without an escape character no designation is opened. */
  lemma {:induction false} NoDesignation(m: Mode, s: Text, eightBit: bool)
    requires (m.Unknown? || m.Csi? || m.Str?) && Waiting(m) && ESC !in s
    ensures var t := Trace(m, s, eightBit).mode; t.Unknown? || t.Csi? || t.Str?
    decreases Pending(m, s), StringFlag(m)
  {
    hide *;
    if s == [] {
      TraceNothing(m, eightBit);
    } else if m.Str? {
      TraceString(m, s, eightBit);
      var c := CallString(m, s);
      ThenCrashes(c.events, Trace(c.mode, c.rest, eightBit));
      if c.mode.Str? {
        WaitsOnlyUnterminated(m, s);
        TraceWaits(m, s, eightBit);
      } else {
        StringPending(m, s);
        StillNoEscape(m, s);
        UnknownWaits();
        NoDesignation(Unknown, c.rest, eightBit);
      }
    } else {
      assert s == [s[0]] + s[1..] && s[0] in s && forall c | c in s[1..] :: c in s;
      var first := OneChar(m, s[0], eightBit);
      TraceChar(m, s[0], s[1..], eightBit);
      ThenCrashes(first.events, Trace(first.mode, s[1..], eightBit));
      SeenInChar(m, s[0], eightBit);
      FreshString(m, s[0], eightBit);
      OneCharPending(m, s, eightBit);
      NoDesignation(first.mode, s[1..], eightBit);
    }
  }

  lemma StillNoEscape(m: Mode, s: Text)
    requires m.Str? && Waiting(m) && s != [] && ESC !in s
    ensures ESC !in CallString(m, s).rest
  {
    hide NextTerminator, OscEvents;
    var rest := CallString(m, s).rest;
    assert forall c | c in rest :: c in m.text || c in s;
  }

  /** Where the exception comes from. */
  lemma {:induction false} RaisedAt(m: Mode, s: Text, eightBit: bool) returns (k: nat)
    requires Waiting(m) && Trace(m, s, eightBit).crashed
    ensures k < |s| && DesignationOpenAt(m, s, k, eightBit)
    decreases Pending(m, s), StringFlag(m), 1
  {
    hide *;
    TraceNothing(m, eightBit);
    if m.Str? {
      k := RaisedInString(m, s, eightBit);
    } else {
      assert s == [s[0]] + s[1..];
      var first := OneChar(m, s[0], eightBit);
      TraceChar(m, s[0], s[1..], eightBit);
      if Crashes(m, s[0]) {
        k := 0;
        CrashesIs(m, s[0]);
        assert s[..0] == [];
        GoodCutIs(m, [], s[0..], eightBit);
        OpenIs(m, s, 0, eightBit);
      } else {
        ThenCrashes(first.events, Trace(first.mode, s[1..], eightBit));
        FreshString(m, s[0], eightBit);
        OneCharPending(m, s, eightBit);
        var j := RaisedAt(first.mode, s[1..], eightBit);
        k := j + 1;
        OpenIs(first.mode, s[1..], j, eightBit);
        var a, b := s[..k], s[k..];
        assert a == [s[0]] + s[1..][..j] && a[1..] == s[1..][..j] && b == s[1..][j..] && s[k] == s[1..][j];
        GoodCutIs(m, a, b, eightBit);
        TraceChar(m, s[0], a[1..], eightBit);
        ThenCrashes(first.events, Trace(first.mode, a[1..], eightBit));
        OpenIs(m, s, k, eightBit);
      }
    }
  }

  lemma CrashesIs(m: Mode, c: CodeUnit)
    ensures Crashes(m, c) <==> m.Charset? && c == ESC
  {
  }

  lemma {:induction false} RaisedInString(m: Mode, s: Text, eightBit: bool) returns (k: nat)
    requires m.Str? && Waiting(m) && Trace(m, s, eightBit).crashed
    ensures k < |s| && DesignationOpenAt(m, s, k, eightBit)
    decreases Pending(m, s), StringFlag(m), 0
  {
    hide *;
    TraceNothing(m, eightBit);
    TraceString(m, s, eightBit);
    var c := CallString(m, s);
    ThenCrashes(c.events, Trace(c.mode, c.rest, eightBit));
    if c.mode.Str? {
      WaitsOnlyUnterminated(m, s);
      TraceNothing(c.mode, eightBit);
    }
    StringPending(m, s);
    UnknownWaits();
    var j := RaisedAt(Unknown, c.rest, eightBit);
    OpenIs(Unknown, c.rest, j, eightBit);
    k := CutInString(m, s, j, eightBit);
    var a, b := s[..k], s[k..];
    GoodCutIs(m, a, b, eightBit);
    TraceString(m, a, eightBit);
    var d := CallString(m, a);
    ThenCrashes(d.events, Trace(d.mode, d.rest, eightBit));
    OpenIs(m, s, k, eightBit);
  }

  /** The same place in the input when a string sequence comes first. */
  lemma CutInString(m: Mode, s: Text, j: nat, eightBit: bool) returns (k: nat)
    requires m.Str? && Waiting(m) && s != [] && CallString(m, s).mode == Unknown
    requires j < |CallString(m, s).rest| && CallString(m, s).rest[j] == ESC
    requires Trace(Unknown, CallString(m, s).rest[..j], eightBit).mode.Charset?
    ensures 0 < k < |s| && s[k] == ESC && s[k..] == CallString(m, s).rest[j..]
    ensures CallString(m, s[..k]).mode == Unknown && CallString(m, s[..k]).rest == CallString(m, s).rest[..j]
    ensures !GivenUp(m, s[..k], s[k..])
  {
    hide *;
    var n, rest := NextTerminator(s), CallString(m, s).rest;
    NextTerminatorBound(s);
    if n < |s| && |m.text| + n <= MAX_STRING_SEQUENCE {
      CallEnded(m, s, n);
      var e := TerminatorEnd(s, n);
      EndIs(s, n);
      k := e + j;
      var a, b := s[..k], s[k..];
      assert a + b == s && s[e..][..j] == a[e..] && s[e..][j..] == b;
      EndsBefore(s, n, k);
      NotGivenUp(m, a, b);
      EndsInFirst(m, a, b);
      SameRest(CallString(m, a).rest, b, rest, j);
    } else {
      GivenBack(m, s);
      EscapeBehind(m, s, j);
      k := j - |m.text|;
      var a, b := s[..k], s[k..];
      assert a + b == s && rest[..j] == m.text + a && rest[j..] == b;
      EscapeNeeded(m, a, eightBit);
      NextTerminatorBound(a);
      NotTerminated(m, a, b);
      if NextTerminator(a) < |a| {
        EndsInFirst(m, a, b);
        SameRest(CallString(m, a).rest, b, rest, j);
      } else {
        CallOpen(m, a);
      }
    }
  }

  lemma EndIs(s: Text, n: nat)
    requires n < |s| && (s[n] == BEL || (s[n] == ESC && n + 1 < |s|))
    ensures n < TerminatorEnd(s, n) <= |s|
    ensures TerminatorEnd(s, n) == n + if s[n] == ESC then 2 else 1
  {
  }

  lemma EndsBefore(s: Text, n: nat, k: nat)
    requires n == NextTerminator(s) < |s| && (s[n] == BEL || (s[n] == ESC && n + 1 < |s|)) && TerminatorEnd(s, n) <= k <= |s|
    ensures NextTerminator(s[..k]) < |s[..k]|
  {
    hide NextTerminator;
    var a, b := s[..k], s[k..];
    assert a + b == s && a[k - 1] == s[k - 1];
    NextTerminatorBound(a);
    if NextTerminator(a) == |a| {
      TerminatorLater(a, b);
    }
  }

  lemma SameRest(r: Text, b: Text, rest: Text, j: nat)
    requires j <= |rest| && r + b == rest && rest[j..] == b
    ensures r == rest[..j]
  {
    assert |r| == j;
  }

  lemma NotGivenUp(m: Mode, a: Text, b: Text)
    requires m.Str? && NextTerminator(a) < |a|
    ensures !GivenUp(m, a, b)
  {
  }

  lemma NotTerminated(m: Mode, a: Text, b: Text)
    requires m.Str? && (NextTerminator(a + b) == |a + b| || |m.text| + NextTerminator(a + b) > MAX_STRING_SEQUENCE)
    ensures !GivenUp(m, a, b)
  {
    hide NextTerminator;
  }

  lemma GivenBack(m: Mode, s: Text)
    requires m.Str? && s != [] && CallString(m, s).mode == Unknown
    requires NextTerminator(s) == |s| || |m.text| + NextTerminator(s) > MAX_STRING_SEQUENCE
    ensures CallString(m, s).rest == m.text + s
  {
    hide NextTerminator;
  }

  lemma EscapeBehind(m: Mode, s: Text, j: nat)
    requires m.Str? && Waiting(m) && j < |m.text + s| && (m.text + s)[j] == ESC
    ensures j >= |m.text| && s[j - |m.text|] == ESC
  {
    assert forall i | 0 <= i < |m.text| :: (m.text + s)[i] == m.text[i] && m.text[i] in m.text;
  }

  lemma EscapeNeeded(m: Mode, a: Text, eightBit: bool)
    requires m.Str? && Waiting(m) && Trace(Unknown, m.text + a, eightBit).mode.Charset?
    ensures ESC in a && a != [] && ESC in m.text + a
  {
    hide Trace;
    if ESC !in a {
      assert forall c | c in m.text + a :: c in m.text || c in a;
      NoDesignation(Unknown, m.text + a, eightBit);
    }
    assert forall c | c in a :: c in m.text + a;
  }

  /** interpret raises an exception exactly if some escape character of its input comes where the
      input in front of it leaves a character set designation open. */
  lemma InterpretRaises(m: Mode, s: Text, eightBit: bool)
    requires Waiting(m)
    ensures Interpret(m, s, eightBit).crashed <==> exists k | 0 <= k < |s| :: DesignationOpenAt(m, s, k, eightBit)
  {
    hide *;
    TraceIs(m, s, eightBit);
    if Interpret(m, s, eightBit).crashed {
      var k := RaisedAt(m, s, eightBit);
    } else if k :| 0 <= k < |s| && DesignationOpenAt(m, s, k, eightBit) {
      OpenRaises(m, s, k, eightBit);
    }
  }
}
