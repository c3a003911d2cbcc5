/** Well-nested scripts come out of the beautifier indented by how deep each line is nested, and what is
    open in any script can be told from the tests of its lines alone. */
module Nesting {
  import opened JsText
  import opened Beautifier

  // ----- scripts as trees

  /** A line that opens nothing; an `else`; lines between one that opens and one that closes; a case
      with its arms; a here-document; a quotation over several lines. */
  datatype Item =
    | Line(text: string)
    | Else(text: string)
    | Group(open: string, body: seq<Item>, close: string)
    | Case(head: string, arms: seq<Arm>, esac: string)
    | HereDoc(first: string, lines: seq<string>, last: string)
    | Quotation(first: string, lines: seq<string>, last: string)

  /** An arm is ended on its first line, by a line of its own, or not at all. */
  datatype Arm = Arm(head: string, body: seq<Item>, end: Ending)

  datatype Ending = AtOnce | EndedBy(line: string) | Unended

  function LinesOf(items: seq<Item>): seq<string> {
    if items == [] then [] else LinesOfItem(items[0]) + LinesOf(items[1..])
  }

  function LinesOfItem(item: Item): seq<string> {
    match item
    case Line(text) => [text]
    case Else(text) => [text]
    case Group(open, body, close) => [open] + LinesOf(body) + [close]
    case Case(head, arms, esac) => [head] + LinesOfArms(arms) + [esac]
    case HereDoc(first, lines, last) => [first] + lines + [last]
    case Quotation(first, lines, last) => [first] + lines + [last]
  }

  function LinesOfArms(arms: seq<Arm>): seq<string> {
    if arms == [] then [] else [arms[0].head] + (LinesOf(arms[0].body) + LinesOfEnding(arms[0].end)) + LinesOfArms(arms[1..])
  }

  function LinesOfEnding(end: Ending): seq<string> {
    if end.EndedBy? then [end.line] else []
  }

  // ----- how deep

  function Passed(lines: seq<string>): (r: seq<Form>)
    ensures |r| == |lines| && forall i | 0 <= i < |r| :: r[i] == AsIs
  {
    seq(|lines|, _ => AsIs)
  }

  /** The form of every line of items at a depth. */
  function Forms(items: seq<Item>, depth: nat): seq<Form> {
    if items == [] then [] else FormsOfItem(items[0], depth) + Forms(items[1..], depth)
  }

  function FormsOfItem(item: Item, depth: nat): seq<Form> {
    match item
    case Line(_) => [Indented(depth)]
    case Else(_) => [Indented(if depth > 0 then depth - 1 else 0)]
    case Group(_, body, _) => [Indented(depth)] + Forms(body, depth + 1) + [Indented(depth)]
    case Case(_, arms, _) => [Indented(depth)] + FormsOfArms(arms, depth + 1) + [Indented(depth)]
    case HereDoc(first, lines, last) => [AsIs] + Passed(lines) + [AsIs]
    case Quotation(first, lines, last) => [Indented(depth)] + Passed(lines) + [Indented(depth)]
  }

  /** Arms stand one stop deeper than their case and their bodies two; behind an arm that is not ended
      everything up to the `esac` stands one deeper. */
  function FormsOfArms(arms: seq<Arm>, depth: nat): seq<Form> {
    if arms == [] then []
    else
      var arm := arms[0];
      [Indented(depth)]
      + (Forms(arm.body, if arm.end.AtOnce? then depth else depth + 1) + if arm.end.EndedBy? then [Indented(depth)] else [])
      + FormsOfArms(arms[1..], if arm.end.Unended? then depth + 1 else depth)
  }

  function UnendedArms(arms: seq<Arm>): nat {
    if arms == [] then 0 else (if arms[0].end.Unended? then 1 else 0) + UnendedArms(arms[1..])
  }

  // ----- which lines fit

  /** What is looked at of a line. */
  function TestOf(t: Tests, space: char -> bool, line: string): string {
    t.cleaned(Strip(space, line))
  }

  /** Neither a here-document nor a quotation starts. */
  predicate Ordinary(t: Tests, space: char -> bool, line: string) {
    !t.opensHere(TestOf(t, space, line)) && !t.opensQuote(TestOf(t, space, line))
  }

  /** No part of a case, as far as one is open. */
  predicate Aside(t: Tests, test: string, inCase: bool) {
    !t.isCase(test) && !t.isEsac(test) && (inCase ==> !t.isArm(test) && !t.endsArm(test))
  }

  predicate Even(t: Tests, test: string, inCase: bool) {
    Aside(t, test, inCase) && t.opens(test) == t.closes(test) && !t.isElse(test)
  }

  predicate Fits(t: Tests, space: char -> bool, items: seq<Item>, inCase: bool) {
    items == [] || (FitsItem(t, space, items[0], inCase) && Fits(t, space, items[1..], inCase))
  }

  predicate FitsItem(t: Tests, space: char -> bool, item: Item, inCase: bool) {
    match item
    case Line(text) => Ordinary(t, space, text) && Even(t, TestOf(t, space, text), inCase)
    case Else(text) =>
      var test := TestOf(t, space, text);
      Ordinary(t, space, text) && Aside(t, test, inCase) && t.opens(test) == t.closes(test) && t.isElse(test)
    case Group(open, body, close) =>
      var o, c := TestOf(t, space, open), TestOf(t, space, close);
      && Ordinary(t, space, open) && Aside(t, o, inCase) && t.opens(o) == t.closes(o) + 1 && !t.isElse(o)
      && Fits(t, space, body, inCase)
      && Ordinary(t, space, close) && Aside(t, c, inCase) && t.closes(c) == t.opens(c) + 1 && !t.isElse(c)
    case Case(head, arms, esac) =>
      var h, e := TestOf(t, space, head), TestOf(t, space, esac);
      && Ordinary(t, space, head) && t.isCase(h) && !t.isEsac(h) && (inCase ==> !t.isArm(h) && !t.endsArm(h))
      && t.opens(h) == t.closes(h) + 1 && !t.isElse(h)
      && FitsArms(t, space, arms)
      && Ordinary(t, space, esac) && t.isEsac(e) && !t.isCase(e) && (inCase ==> !t.isArm(e) && !t.endsArm(e))
      && t.closes(e) == t.opens(e) + 1 && !t.isElse(e)
    case HereDoc(first, lines, last) =>
      var word := t.hereWord(Strip(space, first));
      && t.opensHere(TestOf(t, space, first)) && word != [] && GoesOn(t, space, word, first)
      && (forall l | l in lines :: GoesOn(t, space, word, l))
      && t.found(word, TestOf(t, space, last)) == Some(true) && !t.hasHereMark(TestOf(t, space, last))
    case Quotation(first, lines, last) =>
      var quote := t.quoteOf(TestOf(t, space, first));
      && !t.opensHere(TestOf(t, space, first)) && t.opensQuote(TestOf(t, space, first))
      && Even(t, t.before(quote, TestOf(t, space, first)), inCase)
      && (forall l | l in lines :: Quoted(t, space, quote, l))
      && !t.opensHere(TestOf(t, space, last)) && t.found(quote, TestOf(t, space, last)) == Some(true)
      && Even(t, t.after(quote, TestOf(t, space, last)), inCase)
  }

  /** The word does not end the here-document on this line. */
  predicate GoesOn(t: Tests, space: char -> bool, word: string, line: string) {
    var found := t.found(word, TestOf(t, space, line));
    found.Some? && (found.value ==> t.hasHereMark(TestOf(t, space, line)))
  }

  /** The quotation does not end on this line, which must not look like a case or a here-document. */
  predicate Quoted(t: Tests, space: char -> bool, quote: string, line: string) {
    var test := TestOf(t, space, line);
    !t.opensHere(test) && t.found(quote, test) == Some(false) && !t.isCase(test)
  }

  predicate FitsArms(t: Tests, space: char -> bool, arms: seq<Arm>) {
    arms == [] || (FitsArm(t, space, arms[0]) && FitsArms(t, space, arms[1..]))
  }

  predicate FitsArm(t: Tests, space: char -> bool, arm: Arm) {
    var h := TestOf(t, space, arm.head);
    && Ordinary(t, space, arm.head) && t.isArm(h) && (t.endsArm(h) <==> arm.end.AtOnce?)
    && !t.isEsac(h) && !t.isCase(h) && !t.isElse(h) && t.closes(h) == t.opens(h) + 1
    && (arm.end.AtOnce? ==> arm.body == [])
    && Fits(t, space, arm.body, true)
    && (arm.end.EndedBy? ==>
          var e := TestOf(t, space, arm.end.line);
          && Ordinary(t, space, arm.end.line) && t.endsArm(e) && !t.isArm(e) && !t.isEsac(e) && !t.isCase(e) && !t.isElse(e)
          && t.opens(e) == t.closes(e))
  }

  // ----- what lines do

  function FormsIn(effects: seq<Effect>): (r: seq<Form>)
    ensures |r| == |effects|
  {
    seq(|effects|, i requires 0 <= i < |effects| => effects[i].form)
  }

  /** The lines get these forms, lead from one state to the other, and give no reason to complain. */
  ghost predicate Does(t: Tests, space: char -> bool, st: State, lines: seq<string>, forms: seq<Form>, after: State) {
    var r := Run(t, space, st, lines);
    && r.Some? && FormsIn(r.value) == forms && After(st, r.value) == after
    && forall e | e in r.value :: !e.badEsac
  }

  lemma DoesNothing(t: Tests, space: char -> bool, st: State)
    ensures Does(t, space, st, [], [], st)
  {
  }

  lemma DoesOne(t: Tests, space: char -> bool, st: State, line: string, e: Effect)
    requires Step(t, st, Strip(space, line)) == Some(e) && !e.badEsac
    ensures Does(t, space, st, [line], [e.form], e.state)
  {
    hide Step, Strip;
    assert [line][1..] == [];
    assert Run(t, space, e.state, []) == Some([]);
    assert Run(t, space, st, [line]) == Some([e] + []);
    assert [e] + [] == [e];
  }

  lemma AfterConcat(st: State, a: seq<Effect>, b: seq<Effect>)
    ensures After(st, a + b) == After(After(st, a), b)
  {
    if b == [] {
      assert a + b == a;
    }
  }

  lemma DoesBoth(t: Tests, space: char -> bool, st: State, a: seq<string>, f: seq<Form>, mid: State, b: seq<string>, g: seq<Form>, after: State)
    requires Does(t, space, st, a, f, mid) && Does(t, space, mid, b, g, after)
    ensures Does(t, space, st, a + b, f + g, after)
  {
    hide Run, After;
    RunConcat(t, space, st, a, b);
    var x, y := Run(t, space, st, a).value, Run(t, space, mid, b).value;
    AfterConcat(st, x, y);
    assert FormsIn(x + y) == FormsIn(x) + FormsIn(y);
  }

  lemma DoesThree(t: Tests, space: char -> bool, st: State, a: string, f: Form, s1: State, b: seq<string>, g: seq<Form>, s2: State, c: string, h: Form, s3: State)
    requires Does(t, space, st, [a], [f], s1) && Does(t, space, s1, b, g, s2) && Does(t, space, s2, [c], [h], s3)
    ensures Does(t, space, st, [a] + b + [c], [f] + g + [h], s3)
  {
    hide Does;
    DoesBoth(t, space, st, [a], [f], s1, b, g, s2);
    DoesBoth(t, space, st, [a] + b, [f] + g, s2, [c], [h], s3);
  }

  /** Between items nothing is open that would hide a line. */
  predicate Outright(st: State, depth: nat, stack: seq<int>) {
    st.tab == depth && st.caseStack == stack && !st.inHereDoc && !st.inExtQuote
  }

  // ----- single lines

  /** A line that is counted. */
  lemma OrdinaryStep(t: Tests, space: char -> bool, st: State, line: string)
    requires Ordinary(t, space, line) && !st.inHereDoc && !st.inExtQuote
    ensures var test := TestOf(t, space, line);
            Step(t, st, Strip(space, line)) == Some(WithCase(t, Counted(t, st, test), test))
  {
    hide Strip, Counted, WithCase;
  }

  lemma AsideIsCounted(t: Tests, st: State, test: string)
    requires Aside(t, test, st.caseStack != [])
    ensures var net := t.opens(test) - t.closes(test);
            WithCase(t, Counted(t, st, test), test)
            == Effect(st.(tab := st.tab + net), Indented(Max(0, st.tab + Min(net, 0) - if t.isElse(test) then 1 else 0)), net, net, false, t.isElse(test), false)
  {
    if st.caseStack != [] {
      var left, top := st.caseStack[..|st.caseStack| - 1], st.caseStack[|st.caseStack| - 1];
      assert left + [top] == st.caseStack;
    }
  }

  /** A line outside of cases: what it opens and closes moves the indentation. */
  lemma AsideDoes(t: Tests, space: char -> bool, st: State, line: string)
    requires Ordinary(t, space, line) && !st.inHereDoc && !st.inExtQuote && Aside(t, TestOf(t, space, line), st.caseStack != [])
    ensures var test := TestOf(t, space, line);
            var net := t.opens(test) - t.closes(test);
            Does(t, space, st, [line], [Indented(Max(0, st.tab + Min(net, 0) - if t.isElse(test) then 1 else 0))], st.(tab := st.tab + net))
  {
    hide Strip, Counted, WithCase, Step, Does, Max, Min;
    OrdinaryStep(t, space, st, line);
    var test := TestOf(t, space, line);
    AsideIsCounted(t, st, test);
    DoesOne(t, space, st, line, WithCase(t, Counted(t, st, test), test));
  }

  // ----- cases

  lemma HeadDoes(t: Tests, space: char -> bool, st: State, line: string)
    requires Ordinary(t, space, line) && !st.inHereDoc && !st.inExtQuote && st.tab >= 0
    requires var h := TestOf(t, space, line);
             && t.isCase(h) && !t.isEsac(h) && (st.caseStack != [] ==> !t.isArm(h) && !t.endsArm(h))
             && t.opens(h) == t.closes(h) + 1 && !t.isElse(h)
    ensures Does(t, space, st, [line], [Indented(st.tab)], st.(tab := st.tab + 1, caseStack := st.caseStack + [0]))
  {
    hide Strip, Step, Does;
    OrdinaryStep(t, space, st, line);
    var h := TestOf(t, space, line);
    if st.caseStack != [] {
      assert st.caseStack[..|st.caseStack| - 1] + [st.caseStack[|st.caseStack| - 1]] == st.caseStack;
    }
    DoesOne(t, space, st, line, WithCase(t, Counted(t, st, h), h));
  }

  lemma TopIs(stack: seq<int>, top: int)
    ensures (stack + [top]) != [] && (stack + [top])[..|stack + [top]| - 1] == stack && (stack + [top])[|stack + [top]| - 1] == top
  {
  }

  /** The line that starts an arm, and perhaps ends it. */
  lemma ArmDoes(t: Tests, space: char -> bool, st: State, line: string, stack: seq<int>, top: int)
    requires Ordinary(t, space, line) && !st.inHereDoc && !st.inExtQuote && st.tab >= 0 && st.caseStack == stack + [top]
    requires var h := TestOf(t, space, line);
             t.isArm(h) && !t.isEsac(h) && !t.isCase(h) && !t.isElse(h) && t.closes(h) == t.opens(h) + 1
    ensures var more := if t.endsArm(TestOf(t, space, line)) then 0 else 1;
            Does(t, space, st, [line], [Indented(st.tab)], st.(tab := st.tab + more, caseStack := stack + [top + more]))
  {
    hide Strip, Step, Does;
    OrdinaryStep(t, space, st, line);
    TopIs(stack, top);
    var h := TestOf(t, space, line);
    DoesOne(t, space, st, line, WithCase(t, Counted(t, st, h), h));
  }

  /** The line that ends it. */
  lemma EndDoes(t: Tests, space: char -> bool, st: State, line: string, stack: seq<int>, top: int)
    requires Ordinary(t, space, line) && !st.inHereDoc && !st.inExtQuote && st.tab >= 1 && st.caseStack == stack + [top]
    requires var e := TestOf(t, space, line);
             t.endsArm(e) && !t.isArm(e) && !t.isEsac(e) && !t.isCase(e) && !t.isElse(e) && t.opens(e) == t.closes(e)
    ensures Does(t, space, st, [line], [Indented(st.tab - 1)], st.(tab := st.tab - 1, caseStack := stack + [top - 1]))
  {
    hide Strip, Step, Does;
    OrdinaryStep(t, space, st, line);
    TopIs(stack, top);
    var e := TestOf(t, space, line);
    DoesOne(t, space, st, line, WithCase(t, Counted(t, st, e), e));
  }

  lemma EsacDoes(t: Tests, space: char -> bool, st: State, line: string, stack: seq<int>, top: nat)
    requires Ordinary(t, space, line) && !st.inHereDoc && !st.inExtQuote && st.caseStack == stack + [top] && st.tab >= 1 + top
    requires var e := TestOf(t, space, line);
             && t.isEsac(e) && !t.isCase(e) && (stack != [] ==> !t.isArm(e) && !t.endsArm(e))
             && t.closes(e) == t.opens(e) + 1 && !t.isElse(e)
    ensures Does(t, space, st, [line], [Indented(st.tab - 1 - top)], st.(tab := st.tab - 1 - top, caseStack := stack))
  {
    hide Strip, Step, Does;
    OrdinaryStep(t, space, st, line);
    TopIs(stack, top);
    if stack != [] {
      assert stack[..|stack| - 1] + [stack[|stack| - 1]] == stack;
    }
    var e := TestOf(t, space, line);
    DoesOne(t, space, st, line, WithCase(t, Counted(t, st, e), e));
  }

  // ----- here-documents and quotations

  lemma HereLineDoes(t: Tests, space: char -> bool, st: State, line: string)
    requires st.inHereDoc && t.found(st.hereString, TestOf(t, space, line)).Some?
    ensures var test := TestOf(t, space, line);
            Does(t, space, st, [line], [AsIs], st.(inHereDoc := !(t.found(st.hereString, test).value && !t.hasHereMark(test))))
  {
    hide Strip, Does, Outside;
    DoesOne(t, space, st, line, Step(t, st, Strip(space, line)).value);
  }

  lemma HereStarts(t: Tests, space: char -> bool, st: State, line: string)
    requires !st.inHereDoc && t.opensHere(TestOf(t, space, line))
    requires var word := t.hereWord(Strip(space, line)); word != [] && GoesOn(t, space, word, line)
    ensures Does(t, space, st, [line], [AsIs], st.(inHereDoc := true, hereString := t.hereWord(Strip(space, line))))
  {
    hide Strip, Does, Outside;
    DoesOne(t, space, st, line, Step(t, st, Strip(space, line)).value);
  }

  lemma {:induction false} HereLinesDo(t: Tests, space: char -> bool, st: State, lines: seq<string>)
    requires st.inHereDoc && forall l | l in lines :: GoesOn(t, space, st.hereString, l)
    ensures Does(t, space, st, lines, Passed(lines), st)
    decreases |lines|
  {
    hide Strip, Does, Passed;
    if lines == [] {
      DoesNothing(t, space, st);
      assert Passed([]) == [];
    } else {
      assert lines == [lines[0]] + lines[1..];
      assert GoesOn(t, space, st.hereString, lines[0]);
      HereLineDoes(t, space, st, lines[0]);
      assert st.(inHereDoc := true) == st;
      HereLinesDo(t, space, st, lines[1..]);
      DoesBoth(t, space, st, [lines[0]], [AsIs], st, lines[1..], Passed(lines[1..]), st);
      assert Passed(lines) == [AsIs] + Passed(lines[1..]);
    }
  }

  lemma QuotationStarts(t: Tests, space: char -> bool, st: State, line: string)
    requires !st.inHereDoc && !st.inExtQuote && !t.opensHere(TestOf(t, space, line)) && t.opensQuote(TestOf(t, space, line)) && st.tab >= 0
    requires Even(t, t.before(t.quoteOf(TestOf(t, space, line)), TestOf(t, space, line)), st.caseStack != [])
    ensures Does(t, space, st, [line], [Indented(st.tab)], st.(inExtQuote := true, extQuoteString := t.quoteOf(TestOf(t, space, line))))
  {
    hide Strip, Does, Counted, WithCase;
    var test := TestOf(t, space, line);
    var quote := t.quoteOf(test);
    AsideIsCounted(t, st.(extQuoteString := quote), t.before(quote, test));
    DoesOne(t, space, st, line, Step(t, st, Strip(space, line)).value);
  }

  lemma {:induction false} QuotedLinesDo(t: Tests, space: char -> bool, st: State, lines: seq<string>)
    requires st.inExtQuote && !st.inHereDoc && forall l | l in lines :: Quoted(t, space, st.extQuoteString, l)
    ensures Does(t, space, st, lines, Passed(lines), st)
    decreases |lines|
  {
    hide Strip, Does, Passed, Quoted;
    if lines == [] {
      DoesNothing(t, space, st);
      assert Passed([]) == [];
    } else {
      assert lines == [lines[0]] + lines[1..];
      assert Quoted(t, space, st.extQuoteString, lines[0]);
      QuotedLineDoes(t, space, st, lines[0]);
      QuotedLinesDo(t, space, st, lines[1..]);
      DoesBoth(t, space, st, [lines[0]], [AsIs], st, lines[1..], Passed(lines[1..]), st);
      assert Passed(lines) == [AsIs] + Passed(lines[1..]);
    }
  }

  lemma QuotedLineDoes(t: Tests, space: char -> bool, st: State, line: string)
    requires st.inExtQuote && !st.inHereDoc && Quoted(t, space, st.extQuoteString, line)
    ensures Does(t, space, st, [line], [AsIs], st)
  {
    hide Strip, Does, Counted;
    DoesOne(t, space, st, line, Step(t, st, Strip(space, line)).value);
  }

  lemma QuotationEnds(t: Tests, space: char -> bool, st: State, line: string)
    requires st.inExtQuote && !st.inHereDoc && !t.opensHere(TestOf(t, space, line)) && st.tab >= 0
    requires t.found(st.extQuoteString, TestOf(t, space, line)) == Some(true)
    requires Even(t, t.after(st.extQuoteString, TestOf(t, space, line)), st.caseStack != [])
    ensures Does(t, space, st, [line], [Indented(st.tab)], st.(inExtQuote := false))
  {
    hide Strip, Does, Counted, WithCase;
    AsideIsCounted(t, st.(inExtQuote := false), t.after(st.extQuoteString, TestOf(t, space, line)));
    DoesOne(t, space, st, line, Step(t, st, Strip(space, line)).value);
  }

  // ----- all of a script

  /** Items get the forms of their depth, and leave the depth and the open cases as they were. */
  lemma {:induction false} ItemsDo(t: Tests, space: char -> bool, st: State, items: seq<Item>, depth: nat) returns (after: State)
    requires Outright(st, depth, st.caseStack) && Fits(t, space, items, st.caseStack != [])
    ensures Outright(after, depth, st.caseStack) && Does(t, space, st, LinesOf(items), Forms(items, depth), after)
    decreases items, 1
  {
    hide Does, FitsItem, LinesOfItem, FormsOfItem;
    if items == [] {
      DoesNothing(t, space, st);
      after := st;
    } else {
      var mid := ItemDoes(t, space, st, items[0], depth);
      after := ItemsDo(t, space, mid, items[1..], depth);
      DoesBoth(t, space, st, LinesOfItem(items[0]), FormsOfItem(items[0], depth), mid, LinesOf(items[1..]), Forms(items[1..], depth), after);
    }
  }

  lemma {:induction false} ItemDoes(t: Tests, space: char -> bool, st: State, item: Item, depth: nat) returns (after: State)
    requires Outright(st, depth, st.caseStack) && FitsItem(t, space, item, st.caseStack != [])
    ensures Outright(after, depth, st.caseStack) && Does(t, space, st, LinesOfItem(item), FormsOfItem(item, depth), after)
    decreases item, 0
  {
    hide Does, Strip, TestOf, Ordinary, Fits, FitsArms, LinesOf, LinesOfArms, Forms, FormsOfArms, Passed, GoesOn, Quoted;
    match item
    case Line(text) =>
      AsideDoes(t, space, st, text);
      after := st;
    case Else(text) =>
      AsideDoes(t, space, st, text);
      after := st;
    case Group(open, body, close) =>
      AsideDoes(t, space, st, open);
      var inside := st.(tab := st.tab + 1);
      var inside' := ItemsDo(t, space, inside, body, depth + 1);
      AsideDoes(t, space, inside', close);
      after := inside'.(tab := inside'.tab - 1);
      DoesThree(t, space, st, open, Indented(depth), inside, LinesOf(body), Forms(body, depth + 1), inside', close, Indented(depth), after);
    case Case(head, arms, esac) =>
      after := CaseDoes(t, space, st, head, arms, esac, depth);
    case HereDoc(first, lines, last) =>
      HereStarts(t, space, st, first);
      var inside := st.(inHereDoc := true, hereString := t.hereWord(Strip(space, first)));
      HereLinesDo(t, space, inside, lines);
      HereLineDoes(t, space, inside, last);
      after := inside.(inHereDoc := false);
      DoesThree(t, space, st, first, AsIs, inside, lines, Passed(lines), inside, last, AsIs, after);
    case Quotation(first, lines, last) =>
      QuotationStarts(t, space, st, first);
      var inside := st.(inExtQuote := true, extQuoteString := t.quoteOf(TestOf(t, space, first)));
      QuotedLinesDo(t, space, inside, lines);
      QuotationEnds(t, space, inside, last);
      after := inside.(inExtQuote := false);
      DoesThree(t, space, st, first, Indented(depth), inside, lines, Passed(lines), inside, last, Indented(depth), after);
  }

  lemma {:induction false} CaseDoes(t: Tests, space: char -> bool, st: State, head: string, arms: seq<Arm>, esac: string, depth: nat) returns (after: State)
    requires Outright(st, depth, st.caseStack) && FitsItem(t, space, Case(head, arms, esac), st.caseStack != [])
    ensures Outright(after, depth, st.caseStack)
    ensures Does(t, space, st, LinesOfItem(Case(head, arms, esac)), FormsOfItem(Case(head, arms, esac), depth), after)
    decreases arms, 2
  {
    hide Does, Strip, TestOf, Ordinary, FitsArms, LinesOfArms, FormsOfArms, UnendedArms;
    HeadDoes(t, space, st, head);
    var inside := st.(tab := st.tab + 1, caseStack := st.caseStack + [0]);
    var inside' := ArmsDo(t, space, inside, arms, depth + 1, st.caseStack, 0);
    EsacDoes(t, space, inside', esac, st.caseStack, UnendedArms(arms));
    after := inside'.(tab := depth, caseStack := st.caseStack);
    DoesThree(t, space, st, head, Indented(depth), inside, LinesOfArms(arms), FormsOfArms(arms, depth + 1), inside', esac, Indented(depth), after);
  }

  /** Arms: the count on the stack is that of the arms not ended. */
  lemma {:induction false} ArmsDo(t: Tests, space: char -> bool, st: State, arms: seq<Arm>, depth: nat, stack: seq<int>, top: nat) returns (after: State)
    requires Outright(st, depth, stack + [top]) && FitsArms(t, space, arms)
    ensures Outright(after, depth + UnendedArms(arms), stack + [top + UnendedArms(arms)])
    ensures Does(t, space, st, LinesOfArms(arms), FormsOfArms(arms, depth), after)
    decreases arms, 1
  {
    hide Does, FitsArm, Fits;
    if arms == [] {
      DoesNothing(t, space, st);
      after := st;
    } else {
      var arm := arms[0];
      var more := if arm.end.Unended? then 1 else 0;
      var mid := ArmIsDone(t, space, st, arm, depth, stack, top);
      after := ArmsDo(t, space, mid, arms[1..], depth + more, stack, top + more);
      DoesBoth(t, space, st, LinesOfArm(arm), FormsOfArm(arm, depth), mid, LinesOfArms(arms[1..]), FormsOfArms(arms[1..], depth + more), after);
    }
  }

  function LinesOfArm(arm: Arm): seq<string> {
    [arm.head] + (LinesOf(arm.body) + LinesOfEnding(arm.end))
  }

  function FormsOfArm(arm: Arm, depth: nat): seq<Form> {
    [Indented(depth)] + (Forms(arm.body, if arm.end.AtOnce? then depth else depth + 1) + if arm.end.EndedBy? then [Indented(depth)] else [])
  }

  lemma {:induction false} ArmIsDone(t: Tests, space: char -> bool, st: State, arm: Arm, depth: nat, stack: seq<int>, top: nat) returns (after: State)
    requires Outright(st, depth, stack + [top]) && FitsArm(t, space, arm)
    ensures var more := if arm.end.Unended? then 1 else 0;
            Outright(after, depth + more, stack + [top + more]) && Does(t, space, st, LinesOfArm(arm), FormsOfArm(arm, depth), after)
    decreases arm, 0
  {
    hide Does, Strip, TestOf, Ordinary, Fits, LinesOf, Forms;
    ArmDoes(t, space, st, arm.head, stack, top);
    var inner := if arm.end.AtOnce? then depth else depth + 1;
    var count := if arm.end.AtOnce? then top else top + 1;
    var inside := st.(tab := inner, caseStack := stack + [count]);
    var inside' := ItemsDo(t, space, inside, arm.body, inner);
    if arm.end.EndedBy? {
      EndDoes(t, space, inside', arm.end.line, stack, count);
      after := inside'.(tab := depth, caseStack := stack + [top]);
      DoesBoth(t, space, inside, LinesOf(arm.body), Forms(arm.body, inner), inside', [arm.end.line], [Indented(depth)], after);
    } else {
      after := inside';
      assert LinesOf(arm.body) + [] == LinesOf(arm.body) && Forms(arm.body, inner) + [] == Forms(arm.body, inner);
    }
    DoesBoth(t, space, st, [arm.head], [Indented(depth)], inside, LinesOf(arm.body) + LinesOfEnding(arm.end),
             Forms(arm.body, inner) + if arm.end.EndedBy? then [Indented(depth)] else [], after);
  }

  /** A well-nested script comes out with every line indented by its depth, except those of
      here-documents and the inner ones of quotations, which are passed on; there is no error and
      nothing to complain of. */
  lemma NestedIsIndented(t: Tests, space: char -> bool, items: seq<Item>)
    requires space(' ') && Fits(t, space, items, false) && LinesOf(items) != [] && forall l | l in LinesOf(items) :: NoBreak(l)
    ensures |Forms(items, 0)| == |LinesOf(items)|
    ensures var out := Beautified(t, space, Joined(LinesOf(items)));
            && out.Some? && !out.value.error && out.value.complaints == []
            && Lines(out.value.text) == RenderedAs(space, Forms(items, 0), LinesOf(items))
  {
    hide Does, Fits, LinesOf, Forms, Run, Rendered, Complaints, Render, Lines, Joined, RenderedAs;
    var lines := LinesOf(items);
    var after := ItemsDo(t, space, START, items, 0);
    LinesOfJoined(lines);
    DoesMeans(t, space, START, lines, Forms(items, 0), after);
    var effects := Run(t, space, START, lines).value;
    NoComplaints(effects, 1);
    RenderedByForms(space, effects, lines);
    RenderedKeepsLines(space, effects, lines);
    LinesOfJoined(Rendered(space, effects, lines));
  }

  function RenderedAs(space: char -> bool, forms: seq<Form>, lines: seq<string>): seq<string>
    requires |forms| == |lines|
  {
    seq(|lines|, i requires 0 <= i < |lines| => Render(space, forms[i], lines[i]))
  }

  lemma RenderedByForms(space: char -> bool, effects: seq<Effect>, lines: seq<string>)
    requires |effects| == |lines|
    ensures Rendered(space, effects, lines) == RenderedAs(space, FormsIn(effects), lines)
  {
    hide Render, Rendered;
    forall i | 0 <= i < |lines| ensures Rendered(space, effects, lines)[i] == RenderedAs(space, FormsIn(effects), lines)[i] {
      RenderedAt(space, effects, lines, i);
    }
  }

  lemma DoesMeans(t: Tests, space: char -> bool, st: State, lines: seq<string>, forms: seq<Form>, after: State)
    requires Does(t, space, st, lines, forms, after)
    ensures var r := Run(t, space, st, lines);
            && r.Some? && |r.value| == |lines| == |forms| && FormsIn(r.value) == forms && After(st, r.value) == after
            && forall e | e in r.value :: !e.badEsac
  {
    hide Run;
  }

  lemma {:induction false} NoComplaints(effects: seq<Effect>, line: nat)
    requires forall e | e in effects :: !e.badEsac
    ensures Complaints(effects, line) == []
    decreases |effects|
  {
    if effects != [] {
      NoComplaints(effects[1..], line + 1);
    }
  }

  // ----- any script

  /** Which here-document or quotation is open. */
  datatype Context = Context(inHereDoc: bool, hereString: string, inExtQuote: bool, extQuoteString: string)

  /** How a line is read: as part of a here-document, as part of a quotation that goes on, or for what
      it opens and closes. */
  datatype Reading = Skipped | PassedOver(test: string) | Counts(test: string)

  function ContextOf(st: State): Context {
    Context(st.inHereDoc, st.hereString, st.inExtQuote, st.extQuoteString)
  }

  function ReadLine(t: Tests, c: Context, stripped: string): Option<(Context, Reading)> {
    var test := t.cleaned(stripped);
    var here := if !c.inHereDoc && t.opensHere(test) then c.(hereString := t.hereWord(stripped), inHereDoc := t.hereWord(stripped) != []) else c;
    if here.inHereDoc then
      var found := t.found(here.hereString, test);
      if found.None? then None else Some((here.(inHereDoc := !found.value || t.hasHereMark(test)), Skipped))
    else if here.inExtQuote then
      var found := t.found(here.extQuoteString, test);
      if found.None? then None
      else if found.value then Some((here.(inExtQuote := false), Counts(t.after(here.extQuoteString, test))))
      else Some((here, PassedOver(test)))
    else if t.opensQuote(test) then
      var quote := t.quoteOf(test);
      Some((here.(inExtQuote := true, extQuoteString := quote), Counts(t.before(quote, test))))
    else Some((here, Counts(test)))
  }

  function Readings(t: Tests, space: char -> bool, c: Context, lines: seq<string>): Option<seq<Reading>>
    decreases |lines|
  {
    if lines == [] then Some([])
    else
      var first := ReadLine(t, c, Strip(space, lines[0]));
      if first.None? then None
      else
        var rest := Readings(t, space, first.value.0, lines[1..]);
        if rest.None? then None else Some([first.value.1] + rest.value)
  }

  predicate SeesEsac(t: Tests, r: Reading) { r.Counts? && t.isEsac(r.test) }

  predicate SeesCase(t: Tests, r: Reading) { !r.Skipped? && t.isCase(r.test) }

  /** How many cases are open: each `case` opens one, and each `esac` that finds one open closes it. */
  function OpenCases(t: Tests, open: nat, rs: seq<Reading>): nat
    decreases |rs|
  {
    if rs == [] then open
    else OpenCases(t, (if SeesEsac(t, rs[0]) && open > 0 then open - 1 else open) + (if SeesCase(t, rs[0]) then 1 else 0), rs[1..])
  }

  /** The lines, counted from `line`, that hold an `esac` where no case is open. */
  function EarlyEsacs(t: Tests, open: nat, rs: seq<Reading>, line: nat): seq<Complaint>
    decreases |rs|
  {
    if rs == [] then []
    else
      (if SeesEsac(t, rs[0]) && open == 0 then [EsacBeforeCase(line)] else [])
      + EarlyEsacs(t, (if SeesEsac(t, rs[0]) && open > 0 then open - 1 else open) + (if SeesCase(t, rs[0]) then 1 else 0), rs[1..], line + 1)
  }

  lemma CountedCounts(t: Tests, st: State, test: string)
    ensures var e, open := WithCase(t, Counted(t, st, test), test), |st.caseStack|;
            && ContextOf(e.state) == ContextOf(st) && (e.badEsac <==> t.isEsac(test) && open == 0)
            && |e.state.caseStack| == (if t.isEsac(test) && open > 0 then open - 1 else open) + (if t.isCase(test) then 1 else 0)
  {
    hide Max, Min;
  }

  lemma StepCounts(t: Tests, st: State, stripped: string)
    ensures Step(t, st, stripped).Some? <==> ReadLine(t, ContextOf(st), stripped).Some?
    ensures Step(t, st, stripped).Some? ==>
              var e, r := Step(t, st, stripped).value, ReadLine(t, ContextOf(st), stripped).value;
              var open := |st.caseStack|;
              && ContextOf(e.state) == r.0 && (e.badEsac <==> SeesEsac(t, r.1) && open == 0)
              && |e.state.caseStack| == (if SeesEsac(t, r.1) && open > 0 then open - 1 else open) + (if SeesCase(t, r.1) then 1 else 0)
  {
    hide Max, Min, Counted, WithCase;
    var test := t.cleaned(stripped);
    var here := if !st.inHereDoc && t.opensHere(test) then st.(hereString := t.hereWord(stripped), inHereDoc := |t.hereWord(stripped)| > 0) else st;
    if !here.inHereDoc {
      if here.inExtQuote {
        CountedCounts(t, here.(inExtQuote := false), t.after(here.extQuoteString, test));
        PassedOverCounts(t, here, test);
      } else if t.opensQuote(test) {
        CountedCounts(t, here.(extQuoteString := t.quoteOf(test)), t.before(t.quoteOf(test), test));
      } else {
        CountedCounts(t, here, test);
      }
    }
  }

  lemma PassedOverCounts(t: Tests, st: State, test: string)
    ensures var e := WithCase(t, Effect(st, AsIs, 0, 0, false, false, false), test);
            ContextOf(e.state) == ContextOf(st) && !e.badEsac && |e.state.caseStack| == |st.caseStack| + if t.isCase(test) then 1 else 0
  {
  }

  /** In every text the depth of the stack is the number of cases open, and the `esac`s complained of
      are exactly those that find none. */
  lemma {:induction false} CasesAreCounted(t: Tests, space: char -> bool, st: State, lines: seq<string>, line: nat)
    ensures var rs := Readings(t, space, ContextOf(st), lines);
            var effects := Run(t, space, st, lines);
            && (effects.Some? <==> rs.Some?)
            && (effects.Some? ==>
                  && |After(st, effects.value).caseStack| == OpenCases(t, |st.caseStack|, rs.value)
                  && Complaints(effects.value, line) == EarlyEsacs(t, |st.caseStack|, rs.value, line))
    decreases |lines|
  {
    hide Strip, Step, ReadLine, SeesEsac, SeesCase;
    if lines != [] {
      StepCounts(t, st, Strip(space, lines[0]));
      var e := Step(t, st, Strip(space, lines[0]));
      if e.Some? {
        CasesAreCounted(t, space, e.value.state, lines[1..], line + 1);
        var rest := Run(t, space, e.value.state, lines[1..]);
        if rest.Some? {
          AfterCons(st, e.value, rest.value);
          assert ([e.value] + rest.value)[1..] == rest.value;
          var r := ReadLine(t, ContextOf(st), Strip(space, lines[0])).value;
          var more := Readings(t, space, r.0, lines[1..]).value;
          assert ([r.1] + more)[1..] == more;
        }
      }
    }
  }

  /** What beautify_string complains of: the `esac`s that find no case open, and a mismatch at the end. */
  lemma ComplaintsAreEarlyEsacs(t: Tests, space: char -> bool, data: string) returns (tab: int)
    ensures var rs := Readings(t, space, Context(false, "", false, ""), Lines(data));
            var out := Beautified(t, space, data);
            && (out.Some? <==> rs.Some?)
            && (out.Some? ==>
                  && out.value.complaints == EarlyEsacs(t, 0, rs.value, 1) + (if tab != 0 then [Mismatch(tab)] else [])
                  && (out.value.error <==> tab != 0))
  {
    hide Run, Lines, Joined, Rendered, Readings, EarlyEsacs, Complaints, After, OpenCases;
    CasesAreCounted(t, space, START, Lines(data), 1);
    var effects := Run(t, space, START, Lines(data));
    tab := if effects.Some? then After(START, effects.value).tab else 0;
  }
}
