/** Terminal output as ECMA-48 writes it: text, control characters and escape sequences, each of which
    the interpreter recognises for what it is, whatever comes before and after. */
module VtGrammar {
  import opened JsText
  import opened VtParser
  import opened VtSplit

  const SEMICOLON: CodeUnit := 59
  const CSI: CodeUnit := 91
  const OSC: CodeUnit := 93

  /** A unit of the host's output; `Broken` is a control sequence that `c` cuts off. */
  datatype Token =
    | Characters(text: Text)
    | OneControl(c: CodeUnit)
    | Escape(c: CodeUnit)
    | TwoParts(kind: CodeUnit, c: CodeUnit)
    | Designation(kind: CodeUnit, c: CodeUnit)
    | Sequence(leading: Text, params: seq<Text>, trailing: Text, final: CodeUnit)
    | Broken(leading: Text, params: seq<Text>, trailing: Text, c: CodeUnit)
    | Command(number: Text, data: Text, bell: bool)
    | Ignored(kind: CodeUnit, text: Text, bell: bool)

  // ----- the grammar

  predicate IsGraphic(c: CodeUnit) { 0x20 <= c <= 0x7E || c >= 0xA0 }

  /** The control characters that neither open nor cancel a sequence. */
  predicate IsPlainControl(c: CodeUnit) { c in {0x00, 0x05, 0x07, 0x08, 0x09, 0x0A, 0x0B, 0x0C, 0x0D, 0x0E, 0x0F, 0x11, 0x13, 0x7F} }

  /** The eight-bit control characters that have a handler. */
  predicate IsEightBit(c: CodeUnit) {
    c in {0x84, 0x85, 0x88, 0x8D, 0x8E, 0x8F, 0x90, 0x96, 0x97, 0x98, 0x9A, 0x9B, 0x9C, 0x9D, 0x9E, 0x9F}
  }

  predicate Cancels(c: CodeUnit) { c == 0x18 || c == 0x1A }

  predicate IsNumeral(c: CodeUnit) { 0x30 <= c <= 0x39 }

  /** Intermediate and private characters: neither digits nor the separators of parameters. */
  predicate IsModifier(c: CodeUnit) { (0x20 <= c <= 0x2F) || (0x3C <= c <= 0x3F) }

  predicate AllNumerals(p: Text) { forall i | 0 <= i < |p| :: IsNumeral(p[i]) }

  predicate AllModifiers(p: Text) { forall i | 0 <= i < |p| :: IsModifier(p[i]) }

  /** No parameter at all is one that is empty. */
  predicate Parameters(params: seq<Text>) { params != [] && forall p | p in params :: AllNumerals(p) }

  /** A string that ends neither early nor too late. */
  predicate Encloses(s: Text) { |s| <= 1024 && BEL !in s && ESC !in s }

  predicate OneLine(s: Text) { 10 !in s && 13 !in s && 0x2028 !in s && 0x2029 !in s }

  /** Behind a trailing modifier no parameter may follow; a colon and what is no ASCII never may. */
  predicate Breaks(params: seq<Text>, trailing: Text, c: CodeUnit) {
    || (trailing != [] && params != [[]] && (IsNumeral(c) || c == SEMICOLON))
    || c == 58 || c >= 0xA0
  }

  predicate Proper(t: Token) {
    match t
    case Characters(text) => forall i | 0 <= i < |text| :: IsGraphic(text[i])
    case OneControl(c) => IsPlainControl(c) || Cancels(c)
    case Escape(c) => c !in {ESC, 32, 35, 37, 40, 41, 42, 43, 45, 46, 47, 80, 91, 93, 94, 95}
    case TwoParts(kind, _) => kind in {32, 35, 37}
    case Designation(kind, c) => kind in {40, 41, 42, 43, 45, 46, 47} && c != ESC
    case Sequence(l, ps, t, f) => AllModifiers(l) && Parameters(ps) && AllModifiers(t) && 0x40 <= f <= 0x7E
    case Broken(l, ps, t, c) => AllModifiers(l) && Parameters(ps) && AllModifiers(t) && (Breaks(ps, t, c) || Cancels(c))
    case Command(number, data, _) => number != [] && AllNumerals(number) && OneLine(data) && Encloses(number + [SEMICOLON] + data)
    case Ignored(kind, text, _) => kind in {80, 94, 95} && Encloses(text)
  }

  /** Parameters with a semicolon between any two. */
  function Separated(params: seq<Text>): Text
    requires params != []
  {
    params[0] + MoreParams(params[1..])
  }

  function MoreParams(params: seq<Text>): Text {
    if params == [] then [] else [SEMICOLON] + params[0] + MoreParams(params[1..])
  }

  function Terminator(bell: bool): Text {
    if bell then [BEL] else [ESC, BACKSLASH]
  }

  function Written(t: Token): Text
    requires Proper(t)
  {
    match t
    case Characters(text) => text
    case OneControl(c) => [c]
    case Escape(c) => [ESC, c]
    case TwoParts(kind, c) => [ESC, kind, c]
    case Designation(kind, c) => [ESC, kind, c]
    case Sequence(l, ps, t, f) => [ESC, CSI] + (l + (Separated(ps) + (t + [f])))
    case Broken(l, ps, t, c) => [ESC, CSI] + (l + (Separated(ps) + (t + [c])))
    case Command(number, data, bell) => [ESC, OSC] + ((number + [SEMICOLON] + data) + Terminator(bell))
    case Ignored(kind, text, bell) => [ESC, kind] + (text + Terminator(bell))
  }

  function WrittenAll(ts: seq<Token>): Text
    requires forall t | t in ts :: Proper(t)
  {
    if ts == [] then [] else Written(ts[0]) + WrittenAll(ts[1..])
  }

  /** What it means: each character printed, each control character, escape sequence, control
      sequence and command handed to its handler with all its parts. */
  function Meaning(t: Token): seq<Event> {
    match t
    case Characters(text) => Singles(text)
    case OneControl(c) => [Control(c)]
    case Escape(c) => [Control(ESC), EscCode(c)]
    case TwoParts(kind, c) => [Control(ESC), EscCode(kind), Swallowed(kind, c)]
    case Designation(kind, c) => [Control(ESC), EscCode(kind), CharsetChosen(kind, c)]
    case Sequence(l, ps, t, f) => [Control(ESC), EscCode(CSI), CsiCode(l + t, f, if ps == [[]] then [] else ps)]
    case Broken(_, _, _, c) => [Control(ESC), EscCode(CSI)] + if Cancels(c) then [Control(c)] else []
    case Command(number, data, _) => [Control(ESC), EscCode(OSC), OscCode(number, data)]
    case Ignored(kind, _, _) => [Control(ESC), EscCode(kind)]
  }

  function MeaningAll(ts: seq<Token>): seq<Event> {
    if ts == [] then [] else Meaning(ts[0]) + MeaningAll(ts[1..])
  }

  // ----- single characters

  lemma Silent(m: Mode, c: CodeUnit, next: Mode, s: Text, eightBit: bool)
    requires !m.Str? && OneChar(m, c, eightBit) == CharStep(next, []) && !Crashes(m, c)
    ensures Trace(m, [c] + s, eightBit) == Trace(next, s, eightBit)
  {
    hide *;
    TraceChar(m, c, s, eightBit);
    ThenNothing(Trace(next, s, eightBit));
  }

  lemma Noted(m: Mode, c: CodeUnit, next: Mode, e: Event, s: Text, eightBit: bool)
    requires !m.Str? && OneChar(m, c, eightBit) == CharStep(next, [e]) && !Crashes(m, c)
    ensures Trace(m, [c] + s, eightBit) == Then([e], Trace(next, s, eightBit))
  {
    hide *;
    TraceChar(m, c, s, eightBit);
  }

  lemma Opened(kind: CodeUnit, s: Text, eightBit: bool)
    requires kind != ESC
    ensures Trace(Unknown, [ESC, kind] + s, eightBit) == Then([Control(ESC), EscCode(kind)], Trace(AfterEsc(kind), s, eightBit))
  {
    hide Trace, AfterEsc;
    assert [ESC, kind] + s == [ESC] + ([kind] + s);
    EscIsControl();
    Noted(Unknown, ESC, Esc, Control(ESC), [kind] + s, eightBit);
    Noted(Esc, kind, AfterEsc(kind), EscCode(kind), s, eightBit);
    ThenThen([Control(ESC)], [EscCode(kind)], Trace(AfterEsc(kind), s, eightBit));
    assert [Control(ESC)] + [EscCode(kind)] == [Control(ESC), EscCode(kind)];
  }

  /** An eight-bit control character stands for ESC and the character 64 below it: what follows is read
      alike. Unless eight-bit controls are enabled it is reported and opens nothing. */
  lemma C1StandsForEscape(c: CodeUnit, s: Text)
    requires IsEightBit(c)
    ensures var one, two := Trace(Unknown, [c] + s, true), Trace(Unknown, [ESC, c - 0x40] + s, true);
            && one.mode == two.mode && one.crashed == two.crashed
            && |two.events| >= 2 && two.events[..2] == [Control(ESC), EscCode(c - 0x40)]
            && one.events == [Control(c)] + two.events[2..]
    ensures Trace(Unknown, [c] + s, false) == Then([Control(c)], Trace(Unknown, s, false))
  {
    hide Trace;
    var later := Trace(AfterEsc(c - 0x40), s, true);
    Noted(Unknown, c, AfterEsc(c - 0x40), Control(c), s, true);
    Opened(c - 0x40, s, true);
    Noted(Unknown, c, Unknown, Control(c), s, false);
    assert ([Control(ESC), EscCode(c - 0x40)] + later.events)[2..] == later.events;
  }

  /** A control character without a handler is printed as it is. */
  lemma OthersArePrinted(c: CodeUnit, s: Text, eightBit: bool)
    requires !IsPlainControl(c) && !IsEightBit(c) && !Cancels(c) && c != ESC
    ensures Trace(Unknown, [c] + s, eightBit) == Then([Print([c])], Trace(Unknown, s, eightBit))
  {
    hide Trace;
    Noted(Unknown, c, Unknown, Print([c]), s, eightBit);
  }

  lemma {:induction false} TextIsPrinted(text: Text, s: Text, eightBit: bool)
    requires forall i | 0 <= i < |text| :: IsGraphic(text[i])
    ensures Trace(Unknown, text + s, eightBit) == Then(Singles(text), Trace(Unknown, s, eightBit))
    decreases |text|
  {
    hide Trace, Singles, IsGraphic;
    if text == [] {
      assert text + s == s && Singles([]) == [];
      ThenNothing(Trace(Unknown, s, eightBit));
    } else {
      assert text + s == [text[0]] + (text[1..] + s) && text == [text[0]] + text[1..];
      GraphicIsPrinted(text[0], eightBit);
      Noted(Unknown, text[0], Unknown, Print([text[0]]), text[1..] + s, eightBit);
      TextIsPrinted(text[1..], s, eightBit);
      SinglesCons(text[0], text[1..]);
      ThenThen([Print([text[0]])], Singles(text[1..]), Trace(Unknown, s, eightBit));
    }
  }

  lemma GraphicIsPrinted(c: CodeUnit, eightBit: bool)
    requires IsGraphic(c)
    ensures OneChar(Unknown, c, eightBit) == CharStep(Unknown, [Print([c])])
  {
  }

  // ----- control sequences

  /** The parameters as they are gathered: one that is empty is not there yet. */
  function Gathered(params: seq<Text>): seq<Text> {
    if params == [[]] then [] else params
  }

  lemma {:induction false} LeadingIsRead(l: Text, before: Text, s: Text, eightBit: bool)
    requires AllModifiers(l)
    ensures Trace(Csi([], before, []), l + s, eightBit) == Trace(Csi([], before + l, []), s, eightBit)
    decreases |l|
  {
    hide Trace;
    if l == [] {
      assert l + s == s && before + l == before;
    } else {
      assert IsModifier(l[0]);
      assert l + s == [l[0]] + (l[1..] + s);
      Silent(Csi([], before, []), l[0], Csi([], before + [l[0]], []), l[1..] + s, eightBit);
      LeadingIsRead(l[1..], before + [l[0]], s, eightBit);
      assert before + [l[0]] + l[1..] == before + l;
    }
  }

  /** Digits extend the last parameter, or make the first one. */
  lemma {:induction false} DigitsAreRead(p: Text, done: seq<Text>, q: Text, l: Text, s: Text, eightBit: bool)
    requires AllNumerals(p)
    ensures Trace(Csi(Gathered(done + [q]), l, []), p + s, eightBit) == Trace(Csi(Gathered(done + [q + p]), l, []), s, eightBit)
    decreases |p|
  {
    hide Trace, Gathered;
    if p == [] {
      assert p + s == s && q + p == q;
    } else {
      assert IsNumeral(p[0]);
      assert p + s == [p[0]] + (p[1..] + s);
      DigitIsRead(p[0], done, q, l, eightBit);
      Silent(Csi(Gathered(done + [q]), l, []), p[0], Csi(Gathered(done + [q + [p[0]]]), l, []), p[1..] + s, eightBit);
      DigitsAreRead(p[1..], done, q + [p[0]], l, s, eightBit);
      assert q + [p[0]] + p[1..] == q + p;
    }
  }

  lemma DigitIsRead(c: CodeUnit, done: seq<Text>, q: Text, l: Text, eightBit: bool)
    requires IsNumeral(c)
    ensures OneChar(Csi(Gathered(done + [q]), l, []), c, eightBit) == CharStep(Csi(Gathered(done + [q + [c]]), l, []), [])
  {
    var args, next := done + [q], done + [q + [c]];
    assert next != [[]] by { assert next[|next| - 1] == q + [c]; }
    if args == [[]] {
      assert |args| == |done| + 1 && args[|done|] == q && args[0] == [];
      assert q + [c] == [c];
      assert next == [[c]];
    } else {
      assert args[|args| - 1 := args[|args| - 1] + [c]] == next;
    }
  }

  /** A semicolon starts the next parameter; in front of the first one it ends an empty one. */
  lemma SemicolonIsRead(done: seq<Text>, l: Text, eightBit: bool)
    requires done != []
    ensures OneChar(Csi(Gathered(done), l, []), SEMICOLON, eightBit) == CharStep(Csi(Gathered(done + [[]]), l, []), [])
  {
    assert |done + [[]]| > 1;
  }

  lemma {:induction false} MoreParamsAreRead(done: seq<Text>, more: seq<Text>, l: Text, s: Text, eightBit: bool)
    requires done != [] && forall p | p in more :: AllNumerals(p)
    ensures Trace(Csi(Gathered(done), l, []), MoreParams(more) + s, eightBit) == Trace(Csi(Gathered(done + more), l, []), s, eightBit)
    decreases |more|
  {
    hide Trace, Gathered, OneChar, MoreParams, AllNumerals;
    MoreParamsCons(done, more, s);
    if more != [] {
      var p := more[0];
      var rest := MoreParams(more[1..]) + s;
      SemicolonIsRead(done, l, eightBit);
      Silent(Csi(Gathered(done), l, []), SEMICOLON, Csi(Gathered(done + [[]]), l, []), p + rest, eightBit);
      DigitsAreRead(p, done, [], l, rest, eightBit);
      assert [] + p == p;
      MoreParamsAreRead(done + [p], more[1..], l, s, eightBit);
    }
  }

  lemma MoreParamsCons(done: seq<Text>, more: seq<Text>, s: Text)
    ensures more == [] ==> MoreParams(more) + s == s && done + more == done
    ensures more != [] ==>
              && MoreParams(more) + s == [SEMICOLON] + (more[0] + (MoreParams(more[1..]) + s))
              && done + [more[0]] + more[1..] == done + more
  {
    hide AllNumerals;
    if more != [] {
      Associates([SEMICOLON], more[0], MoreParams(more[1..]));
      Associates(more[0], MoreParams(more[1..]), s);
      Associates([SEMICOLON], more[0] + MoreParams(more[1..]), s);
      assert more == [more[0]] + more[1..];
    }
  }

  lemma ParamsAreRead(params: seq<Text>, l: Text, s: Text, eightBit: bool)
    requires Parameters(params)
    ensures Trace(Csi([], l, []), Separated(params) + s, eightBit) == Trace(Csi(Gathered(params), l, []), s, eightBit)
  {
    hide Trace, MoreParams, AllNumerals;
    var p, more := params[0], params[1..];
    assert Separated(params) + s == p + (MoreParams(more) + s);
    var none: seq<Text> := [];
    assert none + [[]] == [[]] && Gathered([[]]) == [];
    DigitsAreRead(p, none, [], l, MoreParams(more) + s, eightBit);
    assert [] + p == p && none + [p] == [p];
    MoreParamsAreRead([p], more, l, s, eightBit);
    assert [p] + more == params;
  }

  /** Behind parameters modifiers are trailing ones; without them they count with the leading. */
  function Modified(params: seq<Text>, l: Text, t: Text): Mode {
    if Gathered(params) == [] then Csi([], l + t, []) else Csi(Gathered(params), l, t)
  }

  lemma {:induction false} TrailingIsRead(params: seq<Text>, l: Text, before: Text, t: Text, s: Text, eightBit: bool)
    requires AllModifiers(t)
    ensures Trace(Modified(params, l, before), t + s, eightBit) == Trace(Modified(params, l, before + t), s, eightBit)
    decreases |t|
  {
    hide Trace, Gathered;
    if t == [] {
      assert t + s == s && before + t == before;
    } else {
      assert IsModifier(t[0]);
      assert t + s == [t[0]] + (t[1..] + s);
      assert l + before + [t[0]] == l + (before + [t[0]]);
      Silent(Modified(params, l, before), t[0], Modified(params, l, before + [t[0]]), t[1..] + s, eightBit);
      TrailingIsRead(params, l, before + [t[0]], t[1..], s, eightBit);
      assert before + [t[0]] + t[1..] == before + t;
    }
  }

  /** All of a control sequence in front of its last character. */
  lemma SequenceIsGathered(l: Text, params: seq<Text>, t: Text, s: Text, eightBit: bool)
    requires AllModifiers(l) && Parameters(params) && AllModifiers(t)
    ensures Trace(Unknown, [ESC, CSI] + (l + (Separated(params) + (t + s))), eightBit)
            == Then([Control(ESC), EscCode(CSI)], Trace(Modified(params, l, t), s, eightBit))
  {
    hide Trace, Separated, AllModifiers, AllNumerals, Gathered;
    Opened(CSI, l + (Separated(params) + (t + s)), eightBit);
    assert AfterEsc(CSI) == Csi([], [], []);
    LeadingIsRead(l, [], Separated(params) + (t + s), eightBit);
    assert [] + l == l;
    ParamsAreRead(params, l, t + s, eightBit);
    assert l + [] == l;
    assert Modified(params, l, []) == Csi(Gathered(params), l, []);
    TrailingIsRead(params, l, [], t, s, eightBit);
    assert [] + t == t;
  }

  lemma FinalIsRead(params: seq<Text>, l: Text, t: Text, f: CodeUnit, s: Text, eightBit: bool)
    requires 0x40 <= f <= 0x7E
    ensures Trace(Modified(params, l, t), [f] + s, eightBit) == Then([CsiCode(l + t, f, Gathered(params))], Trace(Unknown, s, eightBit))
  {
    hide Trace, Gathered;
    assert l + t + [] == l + t;
    Noted(Modified(params, l, t), f, Unknown, CsiCode(l + t, f, Gathered(params)), s, eightBit);
  }

  lemma SequenceBreaks(params: seq<Text>, l: Text, t: Text, c: CodeUnit, s: Text, eightBit: bool)
    requires params != [] && (Breaks(params, t, c) || Cancels(c))
    ensures Trace(Modified(params, l, t), [c] + s, eightBit)
            == Then(if Cancels(c) then [Control(c)] else [], Trace(Unknown, s, eightBit))
  {
    hide Trace;
    if Cancels(c) {
      Noted(Modified(params, l, t), c, Unknown, Control(c), s, eightBit);
    } else {
      Silent(Modified(params, l, t), c, Unknown, s, eightBit);
      ThenNothing(Trace(Unknown, s, eightBit));
    }
  }

  /** Within a control sequence a control character is carried out, and the sequence goes on. */
  lemma ControlsAreCarriedOut(m: Mode, c: CodeUnit, s: Text, eightBit: bool)
    requires m.Csi? && IsPlainControl(c)
    ensures Trace(m, [c] + s, eightBit) == Then([Control(c)], Trace(m, s, eightBit))
  {
    hide Trace;
    Noted(m, c, m, Control(c), s, eightBit);
  }

  // ----- string sequences

  lemma {:induction false} NumeralsEnd(number: Text, s: Text)
    requires AllNumerals(number) && (s == [] || !IsNumeral(s[0]))
    ensures DigitsEnd(number + s) == |number|
    decreases |number|
  {
    if number == [] {
      assert number + s == s;
    } else {
      assert IsNumeral(number[0]);
      assert (number + s)[1..] == number[1..] + s;
      NumeralsEnd(number[1..], s);
    }
  }

  lemma {:induction false} DigitsEndIs(text: Text)
    ensures AllNumerals(text[..DigitsEnd(text)])
  {
    if text != [] && 48 <= text[0] <= 57 {
      DigitsEndIs(text[1..]);
      assert text[..DigitsEnd(text)] == [text[0]] + text[1..][..DigitsEnd(text[1..])];
    }
  }

  /** A command is a number, a semicolon and a line of data; anything else is dropped. */
  lemma CommandShape(text: Text, number: Text, data: Text)
    ensures OscEvents(text) == [OscCode(number, data)] <==>
              number != [] && AllNumerals(number) && OneLine(data) && text == number + [SEMICOLON] + data
    ensures OscEvents(text) == [] || exists n, d :: OscEvents(text) == [OscCode(n, d)]
  {
    hide DigitsEnd;
    var n := DigitsEnd(text);
    DigitsEndIs(text);
    if OscEvents(text) != [] {
      assert OscEvents(text) == [OscCode(text[..n], text[n + 1..])];
      assert text == text[..n] + [SEMICOLON] + text[n + 1..];
    }
    if number != [] && AllNumerals(number) && OneLine(data) && text == number + [SEMICOLON] + data {
      assert text == number + ([SEMICOLON] + data);
      NumeralsEnd(number, [SEMICOLON] + data);
      assert text[..n] == number && text[n + 1..] == data;
    }
  }

  lemma StringIsRead(osc: bool, text: Text, bell: bool, s: Text, eightBit: bool)
    requires Encloses(text)
    ensures Trace(Str(osc, []), text + Terminator(bell) + s, eightBit)
            == Then(if osc then OscEvents(text) else [], Trace(Unknown, s, eightBit))
  {
    hide Trace, OscEvents, NextTerminator, CutThrough, Encloses, Terminator;
    var whole := text + Terminator(bell) + s;
    TerminatorFound(text, bell, s);
    TraceString(Str(osc, []), whole, eightBit);
    assert [] + text == text;
  }

  /** The first terminator is the one behind the text. */
  lemma TerminatorFound(text: Text, bell: bool, s: Text)
    requires Encloses(text)
    ensures var whole := text + Terminator(bell) + s;
            && NextTerminator(whole) == |text| < |whole| && |text| <= 1024 && whole[..|text|] == text
            && whole[|text|] == (if bell then BEL else ESC) && ESC !in text
            && |Terminator(bell)| == (if bell then 1 else 2) && |text| + |Terminator(bell)| <= |whole|
            && whole[|text| + |Terminator(bell)|..] == s
  {
    hide NextTerminator;
    var whole := text + Terminator(bell) + s;
    assert whole == text + (Terminator(bell) + s);
    NoTerminator(text);
    TerminatorLater(text, Terminator(bell) + s);
    TerminatorHere(bell, s);
    assert !CutThrough(text, Terminator(bell) + s) by {
      if text != [] {
        assert text[|text| - 1] in text;
      }
    }
  }

  lemma TerminatorHere(bell: bool, s: Text)
    ensures NextTerminator(Terminator(bell) + s) == 0
  {
  }

  // ----- whole output

  lemma CommandIsRead(number: Text, data: Text, bell: bool, s: Text, eightBit: bool)
    requires Proper(Command(number, data, bell))
    ensures Trace(Unknown, [ESC, OSC] + ((number + [SEMICOLON] + data) + Terminator(bell) + s), eightBit)
            == Then([Control(ESC), EscCode(OSC), OscCode(number, data)], Trace(Unknown, s, eightBit))
  {
    hide Trace, OscEvents, Terminator, AllNumerals, OneLine, Encloses;
    var text := number + [SEMICOLON] + data;
    Opened(OSC, text + Terminator(bell) + s, eightBit);
    assert AfterEsc(OSC) == Str(true, []);
    StringIsRead(true, text, bell, s, eightBit);
    CommandShape(text, number, data);
    ThenThen([Control(ESC), EscCode(OSC)], [OscCode(number, data)], Trace(Unknown, s, eightBit));
    assert [Control(ESC), EscCode(OSC)] + [OscCode(number, data)] == [Control(ESC), EscCode(OSC), OscCode(number, data)];
  }

  lemma IgnoredIsRead(kind: CodeUnit, text: Text, bell: bool, s: Text, eightBit: bool)
    requires kind in {80, 94, 95} && Encloses(text)
    ensures Trace(Unknown, [ESC, kind] + (text + Terminator(bell) + s), eightBit)
            == Then([Control(ESC), EscCode(kind)], Trace(Unknown, s, eightBit))
  {
    hide Trace, OscEvents, Terminator, Encloses;
    Opened(kind, text + Terminator(bell) + s, eightBit);
    assert AfterEsc(kind) == Str(false, []);
    StringIsRead(false, text, bell, s, eightBit);
    ThenNothing(Trace(Unknown, s, eightBit));
  }

  lemma ShortIsRead(t: Token, s: Text, eightBit: bool)
    requires Proper(t) && (t.Escape? || t.TwoParts? || t.Designation? || t.OneControl?)
    ensures Trace(Unknown, Written(t) + s, eightBit) == Then(Meaning(t), Trace(Unknown, s, eightBit))
  {
    hide Trace;
    match t
    case OneControl(c) =>
      Noted(Unknown, c, Unknown, Control(c), s, eightBit);
    case Escape(c) =>
      Opened(c, s, eightBit);
      assert AfterEsc(c) == Unknown;
    case TwoParts(kind, c) =>
      Opened(kind, [c] + s, eightBit);
      assert [ESC, kind, c] + s == [ESC, kind] + ([c] + s);
      Noted(Swallow(kind), c, Unknown, Swallowed(kind, c), s, eightBit);
      ThenThen([Control(ESC), EscCode(kind)], [Swallowed(kind, c)], Trace(Unknown, s, eightBit));
    case Designation(kind, c) =>
      Opened(kind, [c] + s, eightBit);
      assert [ESC, kind, c] + s == [ESC, kind] + ([c] + s);
      Noted(Charset(kind), c, Unknown, CharsetChosen(kind, c), s, eightBit);
      ThenThen([Control(ESC), EscCode(kind)], [CharsetChosen(kind, c)], Trace(Unknown, s, eightBit));
  }

  /** One unit, whatever comes after it. */
  lemma TokenIsRead(t: Token, s: Text, eightBit: bool)
    requires Proper(t)
    ensures Trace(Unknown, Written(t) + s, eightBit) == Then(Meaning(t), Trace(Unknown, s, eightBit))
  {
    hide Trace, Separated, Terminator, AllModifiers, AllNumerals, Encloses, OneLine, Breaks, Gathered, Modified, IsGraphic;
    var rest := Trace(Unknown, s, eightBit);
    match t
    case Characters(text) => TextIsPrinted(text, s, eightBit);
    case Sequence(l, ps, t, f) =>
      Regrouped(l, Separated(ps), t, f, s);
      SequenceIsGathered(l, ps, t, [f] + s, eightBit);
      FinalIsRead(ps, l, t, f, s, eightBit);
      assert Gathered(ps) == if ps == [[]] then [] else ps by { GatheredIs(ps); }
      ThenThen([Control(ESC), EscCode(CSI)], [CsiCode(l + t, f, Gathered(ps))], rest);
    case Broken(l, ps, t, c) =>
      Regrouped(l, Separated(ps), t, c, s);
      SequenceIsGathered(l, ps, t, [c] + s, eightBit);
      SequenceBreaks(ps, l, t, c, s, eightBit);
      ThenThen([Control(ESC), EscCode(CSI)], if Cancels(c) then [Control(c)] else [], rest);
    case Command(number, data, bell) =>
      Associates([ESC, OSC], (number + [SEMICOLON] + data) + Terminator(bell), s);
      CommandIsRead(number, data, bell, s, eightBit);
    case Ignored(kind, text, bell) =>
      Associates([ESC, kind], text + Terminator(bell), s);
      IgnoredIsRead(kind, text, bell, s, eightBit);
    case _ => ShortIsRead(t, s, eightBit);
  }

  lemma GatheredIs(params: seq<Text>)
    ensures Gathered(params) == if params == [[]] then [] else params
  {
  }

  lemma Regrouped(l: Text, ps: Text, t: Text, c: CodeUnit, s: Text)
    ensures [ESC, CSI] + (l + (ps + (t + [c]))) + s == [ESC, CSI] + (l + (ps + (t + ([c] + s))))
  {
    Associates(t, [c], s);
    Associates(ps, t + [c], s);
    Associates(l, ps + (t + [c]), s);
    Associates([ESC, CSI], l + (ps + (t + [c])), s);
  }

  /** Any output that is made up of such units is read unit by unit. */
  lemma {:induction false} OutputIsRead(ts: seq<Token>, s: Text, eightBit: bool)
    requires forall t | t in ts :: Proper(t)
    ensures Trace(Unknown, WrittenAll(ts) + s, eightBit) == Then(MeaningAll(ts), Trace(Unknown, s, eightBit))
    decreases |ts|
  {
    hide Trace, Written, Meaning, Proper;
    if ts == [] {
      assert WrittenAll(ts) + s == s;
      ThenNothing(Trace(Unknown, s, eightBit));
    } else {
      Associates(Written(ts[0]), WrittenAll(ts[1..]), s);
      TokenIsRead(ts[0], WrittenAll(ts[1..]) + s, eightBit);
      OutputIsRead(ts[1..], s, eightBit);
      ThenThen(Meaning(ts[0]), MeaningAll(ts[1..]), Trace(Unknown, s, eightBit));
    }
  }

  // ----- in terms of interpret

  predicate PrintsSomething(events: seq<Event>) {
    forall i | 0 <= i < |events| :: events[i].Print? ==> events[i].text != []
  }

  lemma CallPrintsSomething(m: Mode, s: Text, eightBit: bool)
    requires s != []
    ensures PrintsSomething(Call(m, s, eightBit).events)
  {
    hide NextTerminator, IsControl, AfterControl, DigitsEnd;
  }

  lemma {:induction false} InterpretPrintsSomething(m: Mode, s: Text, eightBit: bool)
    ensures PrintsSomething(Interpret(m, s, eightBit).events)
    decreases Pending(m, s), StringFlag(m), |s|
  {
    hide Interpret, Call, Pending, StringFlag;
    InterpretStep(m, s, eightBit);
    if s != [] {
      var c := Call(m, s, eightBit);
      CallProgresses(m, s, eightBit);
      CallPrintsSomething(m, s, eightBit);
      if !c.crashed {
        InterpretPrintsSomething(c.mode, c.rest, eightBit);
      }
    }
  }

  lemma FirstIsPrinted(events: seq<Event>)
    requires events != [] && events[0].Print? && PrintsSomething(events)
    ensures Flat(events) != [] && Flat(events)[0].Print?
  {
    hide Flat;
    assert events == [events[0]] + events[1..];
    FlatCons(events[0], events[1..]);
    assert Flat(events)[0] == Singles(events[0].text)[0];
  }

  /** Events among which nothing is printed are as they are. */
  lemma {:induction false} NothingPrinted(events: seq<Event>)
    requires PrintsSomething(events) && forall i | 0 <= i < |Flat(events)| :: !Flat(events)[i].Print?
    ensures Flat(events) == events
  {
    hide Flat;
    if events == [] {
      FlatNothing();
    } else {
      var e, rest := events[0], events[1..];
      assert events == [e] + rest;
      FlatCons(e, rest);
      if e.Print? {
        FirstIsPrinted(events);
      }
      assert forall i | 0 <= i < |Flat(rest)| :: Flat(rest)[i] == Flat(events)[i + 1];
      NothingPrinted(rest);
    }
  }

  /** A control sequence, on its own: its handler is called once, with its modifiers, its final
      character and all of its parameters, and nothing is left open. */
  lemma SequenceIsDispatched(l: Text, params: seq<Text>, t: Text, f: CodeUnit, eightBit: bool)
    requires Proper(Sequence(l, params, t, f))
    ensures Interpret(Unknown, Written(Sequence(l, params, t, f)), eightBit)
            == Interpreted(Unknown, [Control(ESC), EscCode(CSI), CsiCode(l + t, f, if params == [[]] then [] else params)], false)
  {
    hide *;
    TokenAlone(Sequence(l, params, t, f), eightBit);
    SequenceMeans(l, params, t, f);
  }

  lemma SequenceMeans(l: Text, params: seq<Text>, t: Text, f: CodeUnit)
    ensures Meaning(Sequence(l, params, t, f)) == [Control(ESC), EscCode(CSI), CsiCode(l + t, f, if params == [[]] then [] else params)]
  {
  }

  /** The like for an operating system command. */
  lemma CommandIsDispatched(number: Text, data: Text, bell: bool, eightBit: bool)
    requires Proper(Command(number, data, bell))
    ensures Interpret(Unknown, [ESC, OSC] + ((number + [SEMICOLON] + data) + Terminator(bell)), eightBit)
            == Interpreted(Unknown, [Control(ESC), EscCode(OSC), OscCode(number, data)], false)
  {
    hide Interpret, Terminator, Proper;
    TokenAlone(Command(number, data, bell), eightBit);
  }

  lemma TokenAlone(t: Token, eightBit: bool)
    requires Proper(t) && !t.Characters?
    ensures Interpret(Unknown, Written(t), eightBit) == Interpreted(Unknown, Meaning(t), false)
  {
    hide Interpret, Written, Proper, Flat, PrintsSomething;
    TokenIsRead(t, [], eightBit);
    assert Written(t) + [] == Written(t);
    TraceNothing(Unknown, eightBit);
    TraceIs(Unknown, Written(t), eightBit);
    assert Meaning(t) + [] == Meaning(t);
    ThenCrashes(Meaning(t), Interpreted(Unknown, [], false));
    InterpretPrintsSomething(Unknown, Written(t), eightBit);
    NothingPrinted(Interpret(Unknown, Written(t), eightBit).events);
  }
}
