/** BeautifyBash.beautify_string: the lines of a script are indented by what each of them opens and
    closes. What a line opens and closes is told by regular expressions, which are parameters. */
module Beautifier {
  import opened JsText

  /** The tests on a line. All of them see the stripped line or what is left of it. */
  datatype Tests = Tests(
    // the line without what is quoted, escaped or commented out
    cleaned: string -> string,
    // a here-document starts, the word that ends it, and a mark that one starts
    opensHere: string -> bool,
    hereWord: string -> string,
    hasHereMark: string -> bool,
    // a search for a pattern that an earlier line gave; nothing if it is not a pattern
    found: (string, string) -> Option<bool>,
    // a quotation that goes on over the end of the line: its mark, and the line before and after
    opensQuote: string -> bool,
    quoteOf: string -> string,
    before: (string, string) -> string,
    after: (string, string) -> string,
    // how much is opened and closed
    opens: string -> nat,
    closes: string -> nat,
    isEsac: string -> bool,
    isArm: string -> bool,
    endsArm: string -> bool,
    isElse: string -> bool,
    isCase: string -> bool
  )

  // ----- lines and white space

  predicate NoBreak(line: string) {
    '\n' !in line
  }

  /** Splitting a text at its line breaks. */
  function Lines(data: string): (r: seq<string>)
    ensures r != []
  {
    if data == [] then [[]]
    else if data[0] == '\n' then [[]] + Lines(data[1..])
    else
      var rest := Lines(data[1..]);
      [[data[0]] + rest[0]] + rest[1..]
  }

  lemma {:induction false} LinesHaveNoBreak(data: string)
    ensures forall l | l in Lines(data) :: NoBreak(l)
  {
    if data != [] {
      LinesHaveNoBreak(data[1..]);
      var rest := Lines(data[1..]);
      assert rest[0] in rest;
    }
  }

  function Joined(lines: seq<string>): string
    requires lines != []
  {
    if |lines| == 1 then lines[0] else lines[0] + "\n" + Joined(lines[1..])
  }

  /** The lines with a break between them are the text. */
  lemma {:induction false} JoinedOfLines(data: string)
    ensures Joined(Lines(data)) == data
  {
    if data != [] {
      JoinedOfLines(data[1..]);
      var rest := Lines(data[1..]);
      assert data == [data[0]] + data[1..];
      if data[0] == '\n' {
        assert ([[]] + rest)[1..] == rest;
        assert Joined([[]] + rest) == [] + "\n" + Joined(rest);
      } else {
        var first := [data[0]] + rest[0];
        assert ([first] + rest[1..])[1..] == rest[1..];
        assert |rest| > 1 ==> [data[0]] + (rest[0] + "\n" + Joined(rest[1..])) == first + "\n" + Joined(rest[1..]);
      }
    }
  }

  lemma {:induction false} LinesOfLine(line: string)
    requires NoBreak(line)
    ensures Lines(line) == [line]
  {
    if line != [] {
      LinesOfLine(line[1..]);
      assert line == [line[0]] + line[1..];
    }
  }

  lemma {:induction false} LinesAfterBreak(line: string, data: string)
    requires NoBreak(line)
    ensures Lines(line + "\n" + data) == [line] + Lines(data)
  {
    var s := line + "\n" + data;
    if line == [] {
      assert s[1..] == data;
    } else {
      LinesAfterBreak(line[1..], data);
      assert s[1..] == line[1..] + "\n" + data;
      assert line == [line[0]] + line[1..];
    }
  }

  lemma {:induction false} LinesOfJoined(lines: seq<string>)
    requires lines != [] && forall l | l in lines :: NoBreak(l)
    ensures Lines(Joined(lines)) == lines
  {
    if |lines| == 1 {
      LinesOfLine(lines[0]);
    } else {
      LinesOfJoined(lines[1..]);
      LinesAfterBreak(lines[0], Joined(lines[1..]));
    }
  }

  function LStrip(space: char -> bool, s: string): string {
    if s != [] && space(s[0]) then LStrip(space, s[1..]) else s
  }

  function RStrip(space: char -> bool, s: string): string {
    if s != [] && space(s[|s| - 1]) then RStrip(space, s[..|s| - 1]) else s
  }

  function Strip(space: char -> bool, s: string): string {
    LStrip(space, RStrip(space, s))
  }

  const TAB := "        "

  function Tabs(n: nat): string {
    if n == 0 then [] else Tabs(n - 1) + TAB
  }

  /** A tab stop is eight blanks wide. */
  lemma {:induction false} TabsAreBlank(n: nat)
    ensures |Tabs(n)| == 8 * n && forall c | c in Tabs(n) :: c == ' '
  {
    if n > 0 {
      TabsAreBlank(n - 1);
    }
  }

  lemma {:induction false} LStripIs(space: char -> bool, s: string)
    ensures var r := LStrip(space, s);
            && (r != [] ==> !space(r[0])) && (s != [] && r != [] ==> r[|r| - 1] == s[|s| - 1])
            && |r| <= |s| && forall c | c in r :: c in s
  {
    if s != [] && space(s[0]) {
      LStripIs(space, s[1..]);
    }
  }

  lemma {:induction false} RStripIs(space: char -> bool, s: string)
    ensures var r := RStrip(space, s);
            (r != [] ==> !space(r[|r| - 1])) && r <= s
  {
    if s != [] && space(s[|s| - 1]) {
      RStripIs(space, s[..|s| - 1]);
    }
  }

  lemma StripIs(space: char -> bool, s: string)
    ensures var r := Strip(space, s);
            && (r != [] ==> !space(r[0]) && !space(r[|r| - 1]))
            && forall c | c in r :: c in s
  {
    hide LStrip, RStrip;
    RStripIs(space, s);
    LStripIs(space, RStrip(space, s));
    assert forall c | c in RStrip(space, s) :: c in s;
  }

  lemma RStripOf(space: char -> bool, s: string)
    requires s != [] ==> !space(s[|s| - 1])
    ensures RStrip(space, s) == s
  {
  }

  lemma {:induction false} RStripBlank(space: char -> bool, s: string)
    requires forall c | c in s :: space(c)
    ensures RStrip(space, s) == []
  {
    if s != [] {
      assert s[|s| - 1] in s;
      RStripBlank(space, s[..|s| - 1]);
    }
  }

  lemma {:induction false} LStripBlankFirst(space: char -> bool, blank: string, s: string)
    requires (forall c | c in blank :: space(c)) && (s != [] ==> !space(s[0]))
    ensures LStrip(space, blank + s) == s
  {
    if blank == [] {
      assert blank + s == s;
    } else {
      assert (blank + s)[1..] == blank[1..] + s && blank[0] in blank;
      LStripBlankFirst(space, blank[1..], s);
    }
  }

  /** Only what surrounds it changes when a stripped line is indented. */
  lemma StripIndented(space: char -> bool, blank: string, s: string)
    requires forall c | c in blank :: space(c)
    ensures Strip(space, blank + Strip(space, s)) == Strip(space, s)
  {
    hide Strip, RStrip, LStrip;
    var t := Strip(space, s);
    StripIs(space, s);
    if t == [] {
      assert blank + t == blank;
      RStripBlank(space, blank);
      LStripBlankFirst(space, [], []);
      StripParts(space, blank);
      assert [] + t == t;
    } else {
      RStripOf(space, blank + t);
      LStripBlankFirst(space, blank, t);
      StripParts(space, blank + t);
    }
  }

  lemma StripParts(space: char -> bool, s: string)
    ensures Strip(space, s) == LStrip(space, RStrip(space, s))
  {
  }

  lemma StripRStripped(space: char -> bool, s: string)
    ensures RStrip(space, RStrip(space, s)) == RStrip(space, s)
    ensures Strip(space, RStrip(space, s)) == Strip(space, s)
  {
    hide RStrip, LStrip;
    RStripIs(space, s);
    RStripOf(space, RStrip(space, s));
  }

  // ----- one line

  /** What is carried from line to line. `tab` is the indentation after the line, in tab stops;
      `caseStack` counts, for each case that is open, its arms that are not ended. */
  datatype State = State(tab: int, caseStack: seq<int>, inHereDoc: bool, inExtQuote: bool, hereString: string, extQuoteString: string)

  const START := State(0, [], false, false, "", "")

  /** A line is passed on as it is, or indented. */
  datatype Form = AsIs | Indented(stops: nat)

  /** What a line does: the state after it, its form, what it opens more than it closes, with the
      arms of a case counted in and without, whether it starts such an arm, whether it is an `else`,
      and whether it holds an `esac` without a `case`. */
  datatype Effect = Effect(state: State, form: Form, net: int, raw: int, arm: bool, isElse: bool, badEsac: bool)

  datatype ArmCount = ArmCount(closed: int, stack: seq<int>, arm: bool, badEsac: bool)

  /** The arms of a case: the `)` behind the pattern of an arm closes nothing but opens the arm,
      `;;` closes it, and `esac` closes those that had no `;;`. */
  function CountArms(t: Tests, test: string, stack: seq<int>): ArmCount {
    var popped := t.isEsac(test) && stack != [];
    var left := if popped then stack[..|stack| - 1] else stack;
    var closed := t.closes(test) + if popped then stack[|stack| - 1] else 0;
    var arm := left != [] && t.isArm(test);
    var ends := left != [] && t.endsArm(test);
    ArmCount(closed - (if arm then 2 else 0) + (if ends then 1 else 0),
             if left == [] then left
             else left[..|left| - 1] + [left[|left| - 1] + (if arm then 1 else 0) - (if ends then 1 else 0)],
             arm, t.isEsac(test) && stack == [])
  }

  function SumOf(s: seq<int>): int {
    if s == [] then 0 else SumOf(s[..|s| - 1]) + s[|s| - 1]
  }

  function Max(a: int, b: int): int {
    if a < b then b else a
  }

  function Min(a: int, b: int): int {
    if a < b then a else b
  }

  /** A line that is indented by what it opens and closes. */
  function Counted(t: Tests, st: State, test: string): Effect {
    var arms := CountArms(t, test, st.caseStack);
    var net := t.opens(test) - arms.closed;
    var stops := Max(0, st.tab + Min(net, 0) - if t.isElse(test) then 1 else 0);
    Effect(st.(tab := st.tab + net, caseStack := arms.stack), Indented(stops), net, t.opens(test) - t.closes(test),
           arms.arm, t.isElse(test), arms.badEsac)
  }

  function WithCase(t: Tests, e: Effect, test: string): Effect {
    if t.isCase(test) then e.(state := e.state.(caseStack := e.state.caseStack + [0])) else e
  }

  /** A line outside of any here-document. */
  function Outside(t: Tests, st: State, test: string): Option<Effect> {
    if st.inExtQuote then
      var found := t.found(st.extQuoteString, test);
      if found.None? then None
      else if found.value then
        var later := t.after(st.extQuoteString, test);
        Some(WithCase(t, Counted(t, st.(inExtQuote := false), later), later))
      else
        Some(WithCase(t, Effect(st, AsIs, 0, 0, false, false, false), test))
    else if t.opensQuote(test) then
      var quote := t.quoteOf(test);
      var earlier := t.before(quote, test);
      var e := WithCase(t, Counted(t, st.(extQuoteString := quote), earlier), earlier);
      Some(e.(state := e.state.(inExtQuote := true)))
    else
      Some(WithCase(t, Counted(t, st, test), test))
  }

  /** A line: nothing if a pattern taken from an earlier line is not one, which is an exception. */
  function Step(t: Tests, st: State, stripped: string): Option<Effect> {
    var test := t.cleaned(stripped);
    var word := t.hereWord(stripped);
    var entered := if !st.inHereDoc && t.opensHere(test) then st.(hereString := word, inHereDoc := |word| > 0) else st;
    if entered.inHereDoc then
      var found := t.found(entered.hereString, test);
      if found.None? then None
      else Some(Effect(entered.(inHereDoc := !(found.value && !t.hasHereMark(test))), AsIs, 0, 0, false, false, false))
    else
      Outside(t, entered, test)
  }

  // ----- all lines

  /** What is said on the error stream. */
  datatype Complaint = EsacBeforeCase(line: nat) | Mismatch(tab: int)

  function Render(space: char -> bool, form: Form, line: string): string {
    if form.AsIs? then RStrip(space, line) else Tabs(form.stops) + Strip(space, line)
  }

  /** The effects of all lines. */
  function Run(t: Tests, space: char -> bool, st: State, lines: seq<string>): (r: Option<seq<Effect>>)
    ensures r.Some? ==> |r.value| == |lines|
    decreases |lines|
  {
    if lines == [] then Some([])
    else
      var e := Step(t, st, Strip(space, lines[0]));
      if e.None? then None
      else
        var rest := Run(t, space, e.value.state, lines[1..]);
        if rest.None? then None else Some([e.value] + rest.value)
  }

  function After(st: State, effects: seq<Effect>): State {
    if effects == [] then st else effects[|effects| - 1].state
  }

  function Rendered(space: char -> bool, effects: seq<Effect>, lines: seq<string>): (r: seq<string>)
    requires |effects| == |lines|
    ensures |r| == |lines|
  {
    if lines == [] then [] else [Render(space, effects[0].form, lines[0])] + Rendered(space, effects[1..], lines[1..])
  }

  function Complaints(effects: seq<Effect>, line: nat): seq<Complaint> {
    if effects == [] then []
    else (if effects[0].badEsac then [EsacBeforeCase(line)] else []) + Complaints(effects[1..], line + 1)
  }

  datatype Output = Output(text: string, error: bool, complaints: seq<Complaint>)

  /** beautify_string: nothing if it raises an exception. */
  function Beautified(t: Tests, space: char -> bool, data: string): Option<Output> {
    var lines := Lines(data);
    var effects := Run(t, space, START, lines);
    if effects.None? then None
    else
      var tab := After(START, effects.value).tab;
      Some(Output(Joined(Rendered(space, effects.value, lines)), tab != 0,
                  Complaints(effects.value, 1) + if tab != 0 then [Mismatch(tab)] else []))
  }

  // ----- nothing but the white space around the lines changes

  lemma RenderKeepsLine(space: char -> bool, form: Form, line: string)
    requires space(' ')
    ensures Strip(space, Render(space, form, line)) == Strip(space, line)
    ensures Render(space, form, Render(space, form, line)) == Render(space, form, line)
    ensures NoBreak(line) ==> NoBreak(Render(space, form, line))
  {
    hide Strip, RStrip;
    if form.AsIs? {
      StripRStripped(space, line);
      RStripIs(space, line);
      assert forall c | c in RStrip(space, line) :: c in line;
    } else {
      TabsAreBlank(form.stops);
      StripIndented(space, Tabs(form.stops), line);
      StripIs(space, line);
    }
  }

  predicate SameLines(space: char -> bool, a: seq<string>, b: seq<string>) {
    |a| == |b| && forall i | 0 <= i < |a| :: Strip(space, a[i]) == Strip(space, b[i])
  }

  /** What is decided about the lines depends on them only up to surrounding white space. */
  lemma {:induction false} RunSeesStripped(t: Tests, space: char -> bool, st: State, a: seq<string>, b: seq<string>)
    requires SameLines(space, a, b)
    ensures Run(t, space, st, a) == Run(t, space, st, b)
    decreases |a|
  {
    hide Strip, Step;
    if a != [] {
      var e := Step(t, st, Strip(space, a[0]));
      assert Strip(space, a[0]) == Strip(space, b[0]);
      if e.Some? {
        assert SameLines(space, a[1..], b[1..]) by {
          assert forall i | 0 <= i < |a| - 1 :: a[1..][i] == a[i + 1] && b[1..][i] == b[i + 1];
        }
        RunSeesStripped(t, space, e.value.state, a[1..], b[1..]);
      }
    }
  }

  lemma {:induction false} RenderedKeepsLines(space: char -> bool, effects: seq<Effect>, lines: seq<string>)
    requires |effects| == |lines| && space(' ')
    ensures SameLines(space, Rendered(space, effects, lines), lines)
    ensures Rendered(space, effects, Rendered(space, effects, lines)) == Rendered(space, effects, lines)
    ensures (forall l | l in lines :: NoBreak(l)) ==> forall l | l in Rendered(space, effects, lines) :: NoBreak(l)
    decreases |lines|
  {
    hide Strip, Render;
    if lines != [] {
      RenderKeepsLine(space, effects[0].form, lines[0]);
      RenderedKeepsLines(space, effects[1..], lines[1..]);
      var first, rest := Render(space, effects[0].form, lines[0]), Rendered(space, effects[1..], lines[1..]);
      assert ([first] + rest)[1..] == rest;
      assert lines[0] in lines && forall l | l in lines[1..] :: l in lines;
    }
  }

  ghost predicate AllSpace(space: char -> bool, s: string) {
    forall c | c in s :: space(c)
  }

  /** The line is `text` with white space around it. */
  ghost predicate Surrounded(space: char -> bool, line: string, before: string, text: string, behind: string) {
    && line == before + text + behind && AllSpace(space, before) && AllSpace(space, behind)
    && (text == [] ==> before == []) && (text != [] ==> !space(text[0]) && !space(text[|text| - 1]))
  }

  lemma {:induction false} LStripCuts(space: char -> bool, s: string) returns (before: string)
    ensures s == before + LStrip(space, s) && AllSpace(space, before)
  {
    before := [];
    if s != [] && space(s[0]) {
      var rest := LStripCuts(space, s[1..]);
      before := [s[0]] + rest;
      assert s == [s[0]] + s[1..];
    } else {
      assert s == [] + s;
    }
  }

  lemma {:induction false} RStripCuts(space: char -> bool, s: string) returns (behind: string)
    ensures s == RStrip(space, s) + behind && AllSpace(space, behind)
  {
    behind := [];
    if s != [] && space(s[|s| - 1]) {
      var rest := RStripCuts(space, s[..|s| - 1]);
      behind := rest + [s[|s| - 1]];
      assert s == s[..|s| - 1] + [s[|s| - 1]];
    } else {
      assert s == s + [];
    }
  }

  /** Stripping takes off the white space around a text and nothing else. */
  lemma StripCuts(space: char -> bool, s: string) returns (before: string, behind: string)
    ensures Surrounded(space, s, before, Strip(space, s), behind)
    ensures RStrip(space, s) == before + Strip(space, s)
  {
    hide LStrip, RStrip;
    behind := RStripCuts(space, s);
    before := LStripCuts(space, RStrip(space, s));
    StripIs(space, s);
    RStripIs(space, s);
    EndIsSpace(space, before);
    if Strip(space, s) == [] {
      assert RStrip(space, s) == before;
    }
  }

  lemma EndIsSpace(space: char -> bool, s: string)
    requires AllSpace(space, s)
    ensures s != [] ==> space(s[|s| - 1])
  {
  }

  /** A line as it was but for the white space behind it, or its text behind some tab stops. */
  ghost predicate Kept(space: char -> bool, result: string, line: string) {
    exists before, text, behind :: Surrounded(space, line, before, text, behind) && (result == before + text || IndentedText(result, text))
  }

  ghost predicate IndentedText(result: string, text: string) {
    && |result| >= |text| && (|result| - |text|) % 8 == 0 && result[|result| - |text|..] == text
    && forall i | 0 <= i < |result| - |text| :: result[i] == ' '
  }

  /** The text that comes out has the same number of lines as the one that goes in, and each of them
      is the same up to surrounding white space: as it was but for what is behind it, or indented. */
  lemma NonDestructive(t: Tests, space: char -> bool, data: string, lines: seq<string>, out: Output, result: seq<string>)
    requires space(' ') && Beautified(t, space, data) == Some(out) && lines == Lines(data) && result == Lines(out.text)
    ensures SameLines(space, result, lines)
    ensures forall i | 0 <= i < |result| :: Kept(space, result[i], lines[i])
  {
    hide Strip, RStrip, Render, Lines, Joined, Kept, Complaints, After;
    var effects := Run(t, space, START, lines).value;
    RenderedKeepsLines(space, effects, lines);
    LinesHaveNoBreak(data);
    LinesOfJoined(Rendered(space, effects, lines));
    forall i | 0 <= i < |lines| ensures Kept(space, result[i], lines[i]) {
      RenderedAt(space, effects, lines, i);
      RenderForms(space, effects[i].form, lines[i]);
    }
  }

  lemma RenderForms(space: char -> bool, form: Form, line: string)
    ensures Kept(space, Render(space, form, line), line)
  {
    hide Strip, RStrip, IndentedText, Surrounded;
    var before, behind := StripCuts(space, line);
    if form.Indented? {
      RenderIsIndented(space, form.stops, line);
    }
    assert Surrounded(space, line, before, Strip(space, line), behind);
  }

  /** An indented line is its text behind eight blanks for each stop. */
  lemma RenderIsIndented(space: char -> bool, stops: nat, line: string)
    ensures var result := Render(space, Indented(stops), line);
            IndentedText(result, Strip(space, line)) && |result| == 8 * stops + |Strip(space, line)|
  {
    hide Strip, Tabs;
    TabsAreBlank(stops);
    var tabs, text := Tabs(stops), Strip(space, line);
    assert forall i | 0 <= i < |tabs| :: tabs[i] in tabs;
    assert (tabs + text)[|tabs|..] == text;
  }

  lemma {:induction false} RenderedAt(space: char -> bool, effects: seq<Effect>, lines: seq<string>, i: nat)
    requires |effects| == |lines| && i < |lines|
    ensures Rendered(space, effects, lines)[i] == Render(space, effects[i].form, lines[i])
  {
    hide Render;
    if i > 0 {
      RenderedAt(space, effects[1..], lines[1..], i - 1);
    }
  }

  /** Beautifying what has been beautified changes nothing, and finds the same to complain of. */
  lemma Idempotent(t: Tests, space: char -> bool, data: string)
    requires space(' ') && Beautified(t, space, data).Some?
    ensures Beautified(t, space, Beautified(t, space, data).value.text) == Beautified(t, space, data)
  {
    hide Strip, RStrip, Render, Lines, Joined, Run, Rendered, Complaints, After;
    var lines := Lines(data);
    var effects := Run(t, space, START, lines).value;
    var rendered := Rendered(space, effects, lines);
    RenderedKeepsLines(space, effects, lines);
    LinesHaveNoBreak(data);
    LinesOfJoined(rendered);
    RunSeesStripped(t, space, START, rendered, lines);
  }

  // ----- the balance

  function SumNets(effects: seq<Effect>): int {
    if effects == [] then 0 else effects[0].net + SumNets(effects[1..])
  }

  /** What all lines open more than they close, each arm of a case counted as opened once. */
  function SumRaw(effects: seq<Effect>): int {
    if effects == [] then 0 else effects[0].raw + (if effects[0].arm then 1 else 0) + SumRaw(effects[1..])
  }

  lemma SumOfSnoc(s: seq<int>, x: int)
    ensures SumOf(s + [x]) == SumOf(s) + x
  {
    assert (s + [x])[..|s|] == s;
  }

  lemma SumOfLast(s: seq<int>)
    requires s != []
    ensures SumOf(s) == SumOf(s[..|s| - 1]) + s[|s| - 1]
  {
  }

  lemma CountArmsBalances(t: Tests, test: string, stack: seq<int>)
    ensures var r := CountArms(t, test, stack);
            SumOf(stack) - r.closed - SumOf(r.stack) == (if r.arm then 1 else 0) - t.closes(test)
  {
    hide SumOf;
    var popped := t.isEsac(test) && stack != [];
    var left := if popped then stack[..|stack| - 1] else stack;
    if popped {
      SumOfLast(stack);
    }
    if left != [] {
      SumOfLast(left);
      var r := CountArms(t, test, stack);
      SumOfSnoc(left[..|left| - 1], r.stack[|left| - 1]);
    }
  }

  /** Whether a here-document is open once the line has been looked at. */
  predicate InHereDoc(t: Tests, st: State, stripped: string) {
    st.inHereDoc || (t.opensHere(t.cleaned(stripped)) && t.hereWord(stripped) != [])
  }

  /** The white space in front of a line is left alone exactly in a here-document and in a quotation
      that goes on. The line that ends a quotation is indented, although what stands in front of it
      belongs to the quotation. */
  lemma PassedOn(t: Tests, st: State, stripped: string, e: Effect)
    requires Step(t, st, stripped) == Some(e)
    ensures e.form.AsIs? <==>
              InHereDoc(t, st, stripped) || (st.inExtQuote && t.found(st.extQuoteString, t.cleaned(stripped)) == Some(false))
  {
    hide CountArms, Max, Min;
  }

  /** What a line does to the indentation and to the count of the arms. */
  predicate Balances(st: State, e: Effect) {
    && e.state.tab == st.tab + e.net
    && e.net + SumOf(st.caseStack) - SumOf(e.state.caseStack) == e.raw + (if e.arm then 1 else 0)
    && match e.form
       case AsIs => e.net == 0
       case Indented(stops) => stops == Max(0, st.tab + Min(e.net, 0) - if e.isElse then 1 else 0)
  }

  lemma CountedBalances(t: Tests, st: State, test: string)
    ensures Balances(st, Counted(t, st, test))
  {
    hide SumOf, CountArms;
    CountArmsBalances(t, test, st.caseStack);
  }

  lemma WithCaseBalances(t: Tests, st: State, e: Effect, test: string)
    requires Balances(st, e)
    ensures Balances(st, WithCase(t, e, test))
  {
    hide SumOf;
    SumOfSnoc(e.state.caseStack, 0);
  }

  lemma StepBalances(t: Tests, st: State, stripped: string)
    requires Step(t, st, stripped).Some?
    ensures Balances(st, Step(t, st, stripped).value)
  {
    hide WithCase, Counted, SumOf, Max, Min;
    var test := t.cleaned(stripped);
    var entered := if !st.inHereDoc && t.opensHere(test) then st.(hereString := t.hereWord(stripped), inHereDoc := |t.hereWord(stripped)| > 0) else st;
    if !entered.inHereDoc {
      if entered.inExtQuote {
        var later := t.after(entered.extQuoteString, test);
        CountedBalances(t, entered.(inExtQuote := false), later);
        WithCaseBalances(t, entered, Counted(t, entered.(inExtQuote := false), later), later);
        WithCaseBalances(t, entered, Effect(entered, AsIs, 0, 0, false, false, false), test);
      } else if t.opensQuote(test) {
        var quote := t.quoteOf(test);
        var earlier := t.before(quote, test);
        CountedBalances(t, entered.(extQuoteString := quote), earlier);
        WithCaseBalances(t, entered, Counted(t, entered.(extQuoteString := quote), earlier), earlier);
      } else {
        CountedBalances(t, entered, test);
        WithCaseBalances(t, entered, Counted(t, entered, test), test);
      }
    }
  }

  lemma AfterCons(st: State, e: Effect, rest: seq<Effect>)
    ensures After(st, [e] + rest) == After(e.state, rest)
  {
  }

  lemma {:induction false} RunBalances(t: Tests, space: char -> bool, st: State, lines: seq<string>)
    requires Run(t, space, st, lines).Some?
    ensures var effects := Run(t, space, st, lines).value;
            && After(st, effects).tab == st.tab + SumNets(effects)
            && SumNets(effects) + SumOf(st.caseStack) - SumOf(After(st, effects).caseStack) == SumRaw(effects)
    decreases |lines|
  {
    hide Strip, Step, SumOf, Max, Min;
    if lines != [] {
      var e := Step(t, st, Strip(space, lines[0])).value;
      StepBalances(t, st, Strip(space, lines[0]));
      RunBalances(t, space, e.state, lines[1..]);
      var rest := Run(t, space, e.state, lines[1..]).value;
      AfterCons(st, e, rest);
      assert ([e] + rest)[1..] == rest;
    }
  }

  /** The error flag is set exactly if what the lines open and close does not cancel out. How many
      arms of a case are ended by `;;` plays no part in that once every case is closed: each arm
      counts as one that is opened. */
  lemma ErrorMeansUnbalanced(t: Tests, space: char -> bool, data: string)
    requires Beautified(t, space, data).Some?
    ensures var effects := Run(t, space, START, Lines(data)).value;
            && (Beautified(t, space, data).value.error <==> SumNets(effects) != 0)
            && SumNets(effects) == SumRaw(effects) + SumOf(After(START, effects).caseStack)
  {
    hide Run, Lines, Joined, Rendered, Complaints, After, SumRaw, SumNets;
    RunBalances(t, space, START, Lines(data));
  }

  // ----- texts in parts

  lemma {:induction false} RunConcat(t: Tests, space: char -> bool, st: State, a: seq<string>, b: seq<string>)
    ensures Run(t, space, st, a).None? ==> Run(t, space, st, a + b).None?
    ensures Run(t, space, st, a).Some? ==>
              var rest := Run(t, space, After(st, Run(t, space, st, a).value), b);
              Run(t, space, st, a + b) == if rest.None? then None else Some(Run(t, space, st, a).value + rest.value)
    decreases |a|
  {
    hide Strip, Step;
    if a == [] {
      assert a + b == b;
      var rest := Run(t, space, st, b);
      assert rest.Some? ==> [] + rest.value == rest.value;
    } else {
      assert (a + b)[1..] == a[1..] + b && (a + b)[0] == a[0];
      var e := Step(t, st, Strip(space, a[0]));
      if e.Some? {
        RunConcat(t, space, e.value.state, a[1..], b);
        var first := Run(t, space, e.value.state, a[1..]);
        if first.Some? {
          AfterCons(st, e.value, first.value);
          var rest := Run(t, space, After(e.value.state, first.value), b);
          if rest.Some? {
            Associates([e.value], first.value, rest.value);
          }
        }
      }
    }
  }

  lemma EffectAt(t: Tests, space: char -> bool, st: State, lines: seq<string>, k: nat, effects: seq<Effect>)
    requires Run(t, space, st, lines) == Some(effects) && k < |lines|
    ensures |effects| == |lines| && Balances(After(st, effects[..k]), effects[k])
    ensures After(st, effects[..k]).tab == st.tab + SumNets(effects[..k])
  {
    hide Strip, Step, SumNets, SumRaw, SumOf, Balances;
    var a, b := lines[..k], lines[k..];
    assert a + b == lines;
    RunConcat(t, space, st, a, b);
    var first := Run(t, space, st, a).value;
    assert effects[..k] == first;
    RunBalances(t, space, st, a);
    StepBalances(t, After(st, first), Strip(space, b[0]));
    assert effects[k] == Run(t, space, After(st, first), b).value[0];
  }

  /** A line that is not passed on as it is gets as many tab stops as the lines before it leave
      open, less what it closes itself, and one less if it is an `else`, but never less than none. */
  lemma IndentedByNets(t: Tests, space: char -> bool, data: string, lines: seq<string>, effects: seq<Effect>, out: Output, result: seq<string>, k: nat)
    requires space(' ') && Beautified(t, space, data) == Some(out)
    requires lines == Lines(data) && result == Lines(out.text) && Run(t, space, START, lines) == Some(effects)
    requires k < |effects| && effects[k].form.Indented?
    ensures |result| == |lines| == |effects|
    ensures result[k] == Tabs(Max(0, SumNets(effects[..k]) + Min(effects[k].net, 0) - if effects[k].isElse then 1 else 0)) + Strip(space, lines[k])
  {
    hide Strip, RStrip, Lines, Joined, Run, Rendered, SumNets, Complaints, After, SumOf, Tabs;
    EffectAt(t, space, START, lines, k, effects);
    RenderedKeepsLines(space, effects, lines);
    LinesHaveNoBreak(data);
    LinesOfJoined(Rendered(space, effects, lines));
    RenderedAt(space, effects, lines, k);
  }

  /** Nothing is open after a text: what follows is beautified as if it stood alone. */
  predicate Closed(st: State) {
    st.tab == 0 && st.caseStack == [] && !st.inHereDoc && !st.inExtQuote
  }

  /** States that differ in words that are not looked for any more. */
  predicate Alike(a: State, b: State) {
    && a.tab == b.tab && a.caseStack == b.caseStack
    && a.inHereDoc == b.inHereDoc && (a.inHereDoc ==> a.hereString == b.hereString)
    && a.inExtQuote == b.inExtQuote && (a.inExtQuote ==> a.extQuoteString == b.extQuoteString)
  }

  predicate AlikeEffects(a: seq<Effect>, b: seq<Effect>) {
    |a| == |b| && forall i | 0 <= i < |a| :: AlikeEffect(a[i], b[i])
  }

  predicate AlikeEffect(a: Effect, b: Effect) {
    Alike(a.state, b.state) && a.form == b.form && a.badEsac == b.badEsac
  }

  lemma CountedAlike(t: Tests, a: State, b: State, test: string)
    requires Alike(a, b)
    ensures AlikeEffect(WithCase(t, Counted(t, a, test), test), WithCase(t, Counted(t, b, test), test))
    ensures forall st | st == a || st == b :: WithCase(t, Counted(t, st, test), test).state.extQuoteString == st.extQuoteString
  {
    hide CountArms;
  }

  lemma OutsideAlike(t: Tests, a: State, b: State, test: string)
    requires Alike(a, b)
    ensures Outside(t, a, test).Some? <==> Outside(t, b, test).Some?
    ensures Outside(t, a, test).Some? ==> AlikeEffect(Outside(t, a, test).value, Outside(t, b, test).value)
  {
    hide Counted;
    if a.inExtQuote {
      var later := t.after(a.extQuoteString, test);
      CountedAlike(t, a.(inExtQuote := false), b.(inExtQuote := false), later);
    } else if t.opensQuote(test) {
      var quote := t.quoteOf(test);
      CountedAlike(t, a.(extQuoteString := quote), b.(extQuoteString := quote), t.before(quote, test));
    } else {
      CountedAlike(t, a, b, test);
    }
  }

  lemma StepAlike(t: Tests, a: State, b: State, stripped: string)
    requires Alike(a, b)
    ensures Step(t, a, stripped).Some? <==> Step(t, b, stripped).Some?
    ensures Step(t, a, stripped).Some? ==> AlikeEffect(Step(t, a, stripped).value, Step(t, b, stripped).value)
  {
    hide Outside;
    var test, word := t.cleaned(stripped), t.hereWord(stripped);
    var x := if !a.inHereDoc && t.opensHere(test) then a.(hereString := word, inHereDoc := |word| > 0) else a;
    var y := if !b.inHereDoc && t.opensHere(test) then b.(hereString := word, inHereDoc := |word| > 0) else b;
    OutsideAlike(t, x, y, test);
  }

  lemma {:induction false} RunAlike(t: Tests, space: char -> bool, a: State, b: State, lines: seq<string>)
    requires Alike(a, b)
    ensures Run(t, space, a, lines).Some? <==> Run(t, space, b, lines).Some?
    ensures Run(t, space, a, lines).Some? ==> AlikeEffects(Run(t, space, a, lines).value, Run(t, space, b, lines).value)
    decreases |lines|
  {
    hide Strip, Step;
    if lines != [] {
      var x, y := Step(t, a, Strip(space, lines[0])), Step(t, b, Strip(space, lines[0]));
      StepAlike(t, a, b, Strip(space, lines[0]));
      if x.Some? {
        RunAlike(t, space, x.value.state, y.value.state, lines[1..]);
      }
    }
  }

  lemma LinesCons(c: char, s: string)
    ensures Lines([c] + s) == if c == '\n' then [[]] + Lines(s) else [[c] + Lines(s)[0]] + Lines(s)[1..]
  {
    assert ([c] + s)[1..] == s;
  }

  lemma {:induction false} LinesOfTwo(a: string, b: string)
    ensures Lines(a + "\n" + b) == Lines(a) + Lines(b)
  {
    hide Lines;
    if a == [] {
      LinesCons('\n', b);
      LinesOfLine("");
      assert a + "\n" + b == ['\n'] + b;
    } else {
      LinesOfTwo(a[1..], b);
      assert a == [a[0]] + a[1..];
      assert a + "\n" + b == [a[0]] + (a[1..] + "\n" + b);
      LinesCons(a[0], a[1..] + "\n" + b);
      LinesCons(a[0], a[1..]);
      FirstLine(a[0], Lines(a[1..]), Lines(b));
    }
  }

  lemma FirstLine(c: char, first: seq<string>, second: seq<string>)
    requires first != []
    ensures [[]] + (first + second) == ([[]] + first) + second
    ensures [[c] + (first + second)[0]] + (first + second)[1..] == ([[c] + first[0]] + first[1..]) + second
  {
  }

  lemma {:induction false} JoinedTwo(a: seq<string>, b: seq<string>)
    requires a != [] && b != []
    ensures Joined(a + b) == Joined(a) + "\n" + Joined(b)
  {
    if |a| == 1 {
      assert (a + b)[1..] == b;
    } else {
      JoinedTwo(a[1..], b);
      assert (a + b)[1..] == a[1..] + b;
    }
  }

  lemma RenderedCons(space: char -> bool, e: Effect, effects: seq<Effect>, line: string, lines: seq<string>)
    requires |effects| == |lines|
    ensures Rendered(space, [e] + effects, [line] + lines) == [Render(space, e.form, line)] + Rendered(space, effects, lines)
  {
    assert ([line] + lines)[1..] == lines && ([e] + effects)[1..] == effects;
  }

  lemma {:induction false} RenderedTwo(space: char -> bool, e: seq<Effect>, a: seq<string>, f: seq<Effect>, b: seq<string>)
    requires |e| == |a| && |f| == |b|
    ensures Rendered(space, e + f, a + b) == Rendered(space, e, a) + Rendered(space, f, b)
    decreases |a|
  {
    hide Render, Rendered;
    if a == [] {
      assert a + b == b && e + f == f;
      RenderedNone(space);
      assert [] + Rendered(space, f, b) == Rendered(space, f, b);
    } else {
      RenderedTwo(space, e[1..], a[1..], f, b);
      assert a == [a[0]] + a[1..] && e == [e[0]] + e[1..];
      Associates([a[0]], a[1..], b);
      Associates([e[0]], e[1..], f);
      RenderedCons(space, e[0], e[1..], a[0], a[1..]);
      RenderedCons(space, e[0], e[1..] + f, a[0], a[1..] + b);
      Associates([Render(space, e[0].form, a[0])], Rendered(space, e[1..], a[1..]), Rendered(space, f, b));
    }
  }

  lemma RenderedNone(space: char -> bool)
    ensures Rendered(space, [], []) == []
  {
  }

  lemma {:induction false} RenderedAlike(space: char -> bool, e: seq<Effect>, f: seq<Effect>, lines: seq<string>)
    requires AlikeEffects(e, f) && |e| == |lines|
    ensures Rendered(space, e, lines) == Rendered(space, f, lines)
    decreases |lines|
  {
    hide Render, Alike;
    if lines != [] {
      assert AlikeEffects(e[1..], f[1..]) by {
        assert forall i | 0 <= i < |e| - 1 :: e[1..][i] == e[i + 1] && f[1..][i] == f[i + 1];
      }
      RenderedAlike(space, e[1..], f[1..], lines[1..]);
    }
  }

  /** Behind a text that leaves nothing open a second one is beautified just as it is alone. */
  lemma PartsAlone(t: Tests, space: char -> bool, a: string, b: string, effects: seq<Effect>, first: Output)
    requires Run(t, space, START, Lines(a)) == Some(effects) && Closed(After(START, effects))
    requires Beautified(t, space, a) == Some(first)
    ensures !first.error
    ensures var whole, second := Beautified(t, space, a + "\n" + b), Beautified(t, space, b);
            && (whole.Some? <==> second.Some?)
            && (whole.Some? ==>
                  whole.value.text == first.text + "\n" + second.value.text && whole.value.error == second.value.error)
  {
    hide Strip, Render, Lines, Joined, Run, Rendered, Complaints;
    LinesOfTwo(a, b);
    RunConcat(t, space, START, Lines(a), Lines(b));
    RunAlike(t, space, After(START, effects), START, Lines(b));
    if Run(t, space, START, Lines(b)).Some? {
      var here, alone := Run(t, space, After(START, effects), Lines(b)).value, Run(t, space, START, Lines(b)).value;
      RenderedTwo(space, effects, Lines(a), here, Lines(b));
      RenderedAlike(space, here, alone, Lines(b));
      JoinedTwo(Rendered(space, effects, Lines(a)), Rendered(space, alone, Lines(b)));
      assert After(START, effects + here).tab == After(START, alone).tab;
    }
  }

  lemma TopOfStack(left: seq<int>, y: int)
    ensures (left + [y])[..|left|] == left && (left + [y])[|left|] == y
  {
  }

  /** What a line closes, in a case that may be open. */
  method CountClosed(t: Tests, test: string, caseStack0: seq<int>) returns (outc: int, caseStack: seq<int>, esacBeforeCase: bool)
    ensures var arms := CountArms(t, test, caseStack0);
            outc == arms.closed && caseStack == arms.stack && esacBeforeCase == arms.badEsac
  {
    outc, caseStack, esacBeforeCase := t.closes(test), caseStack0, false;
    if t.isEsac(test) {
      if |caseStack| == 0 {
        esacBeforeCase := true;
      } else {
        outc := outc + caseStack[|caseStack| - 1];
        caseStack := caseStack[..|caseStack| - 1];
      }
    }
    if |caseStack| > 0 {
      ghost var left, top := caseStack[..|caseStack| - 1], caseStack[|caseStack| - 1];
      assert caseStack == left + [top];
      if t.isArm(test) {
        outc := outc - 2;
        TopOfStack(left, top);
        caseStack := caseStack[..|caseStack| - 1] + [caseStack[|caseStack| - 1] + 1];
        TopOfStack(left, top + 1);
      }
      if t.endsArm(test) {
        outc := outc + 1;
        caseStack := caseStack[..|caseStack| - 1] + [caseStack[|caseStack| - 1] - 1];
      }
    }
  }

  /** How far a line is indented, and the lines after it. */
  method Indent(t: Tests, test: string, tab0: int, net: int) returns (tab: int, extab: nat)
    ensures tab == tab0 + net && extab == Max(0, tab0 + Min(net, 0) - if t.isElse(test) then 1 else 0)
  {
    var elseCase := if t.isElse(test) then -1 else 0;
    tab := tab0 + Min(net, 0);
    extab := Max(0, tab + elseCase);
    tab := tab + Max(net, 0);
  }

  /** The body of the loop for a line outside of any here-document; `form` says how it is passed on. */
  method BeautifyOutside(t: Tests, test: string, tab0: int, caseStack0: seq<int>, inExtQuote0: bool, extQuoteString0: string, ghost hereString: string)
    returns (failed: bool, tab: int, caseStack: seq<int>, inExtQuote: bool, extQuoteString: string, form: Form, esacBeforeCase: bool)
    ensures var step := Outside(t, State(tab0, caseStack0, false, inExtQuote0, hereString, extQuoteString0), test);
            && failed == step.None?
            && (step.Some? ==>
                  && step.value.state == State(tab, caseStack, false, inExtQuote, hereString, extQuoteString)
                  && step.value.form == form && step.value.badEsac == esacBeforeCase)
  {
    hide CountArms, Min, Max;
    var testRecord := test;
    failed, tab, caseStack, inExtQuote, extQuoteString := false, tab0, caseStack0, inExtQuote0, extQuoteString0;
    form, esacBeforeCase := AsIs, false;
    var deferExtQuote := false;
    if inExtQuote {
      var found := t.found(extQuoteString, testRecord);
      if found.None? {
        failed := true;
        return;
      }
      if found.value {
        testRecord := t.after(extQuoteString, testRecord);
        inExtQuote := false;
      }
    } else if t.opensQuote(testRecord) {
      deferExtQuote := true;
      extQuoteString := t.quoteOf(testRecord);
      testRecord := t.before(extQuoteString, testRecord);
    }
    if !inExtQuote {
      var outc, extab;
      outc, caseStack, esacBeforeCase := CountClosed(t, testRecord, caseStack);
      tab, extab := Indent(t, testRecord, tab, t.opens(testRecord) - outc);
      form := Indented(extab);
    }
    if deferExtQuote {
      inExtQuote := true;
      deferExtQuote := false;
    }
    if t.isCase(testRecord) {
      caseStack := caseStack + [0];
    }
  }

  /** What has been done and what is still to be done make up the whole. */
  predicate Leads(goal: Option<seq<Effect>>, done: seq<Effect>, remaining: Option<seq<Effect>>) {
    goal == if remaining.None? then None else Some(done + remaining.value)
  }

  lemma LeadsStep(t: Tests, space: char -> bool, goal: Option<seq<Effect>>, done: seq<Effect>, st: State, lines: seq<string>, i: nat)
    requires i < |lines| && Leads(goal, done, Run(t, space, st, lines[i..]))
    ensures var e := Step(t, st, Strip(space, lines[i]));
            (e.None? ==> goal.None?) && (e.Some? ==> Leads(goal, done + [e.value], Run(t, space, e.value.state, lines[i + 1..])))
  {
    hide Step, Strip;
    assert lines[i..][0] == lines[i] && lines[i..][1..] == lines[i + 1..];
    var e := Step(t, st, Strip(space, lines[i]));
    if e.Some? {
      var rest := Run(t, space, e.value.state, lines[i + 1..]);
      if rest.Some? {
        Associates(done, [e.value], rest.value);
      }
    }
  }

  lemma RenderedGrows(space: char -> bool, done: seq<Effect>, e: Effect, lines: seq<string>, i: nat)
    requires i < |lines| && |done| == i
    ensures Rendered(space, done + [e], lines[..i + 1]) == Rendered(space, done, lines[..i]) + [Render(space, e.form, lines[i])]
  {
    hide Render, Rendered;
    assert lines[..i + 1] == lines[..i] + [lines[i]];
    RenderedTwo(space, done, lines[..i], [e], [lines[i]]);
    RenderedCons(space, e, [], lines[i], []);
    RenderedNone(space);
    assert [e] + [] == [e] && [lines[i]] + [] == [lines[i]] && [Render(space, e.form, lines[i])] + [] == [Render(space, e.form, lines[i])];
  }

  lemma {:induction false} ComplaintsGrow(done: seq<Effect>, e: Effect, line: nat)
    ensures Complaints(done + [e], line) == Complaints(done, line) + if e.badEsac then [EsacBeforeCase(line + |done|)] else []
    decreases |done|
  {
    if done == [] {
      assert done + [e] == [e] && [e][1..] == [];
    } else {
      ComplaintsGrow(done[1..], e, line + 1);
      assert (done + [e])[1..] == done[1..] + [e];
    }
  }

  /** A line, in a here-document or not. */
  method BeautifyLine(t: Tests, stripped: string, tab0: int, caseStack0: seq<int>, inHereDoc0: bool, inExtQuote0: bool, hereString0: string, extQuoteString0: string)
    returns (failed: bool, tab: int, caseStack: seq<int>, inHereDoc: bool, inExtQuote: bool, hereString: string, extQuoteString: string, form: Form, esacBeforeCase: bool)
    ensures var step := Step(t, State(tab0, caseStack0, inHereDoc0, inExtQuote0, hereString0, extQuoteString0), stripped);
            && failed == step.None?
            && (step.Some? ==>
                  && step.value.state == State(tab, caseStack, inHereDoc, inExtQuote, hereString, extQuoteString)
                  && step.value.form == form && step.value.badEsac == esacBeforeCase)
  {
    hide Outside;
    failed, tab, caseStack, inExtQuote, extQuoteString := false, tab0, caseStack0, inExtQuote0, extQuoteString0;
    inHereDoc, hereString := inHereDoc0, hereString0;
    form, esacBeforeCase := AsIs, false;
    var testRecord := t.cleaned(stripped);
    if !inHereDoc {
      if t.opensHere(testRecord) {
        hereString := t.hereWord(stripped);
        inHereDoc := |hereString| > 0;
      }
    }
    if inHereDoc {
      var found := t.found(hereString, testRecord);
      if found.None? {
        failed := true;
      } else if found.value && !t.hasHereMark(testRecord) {
        inHereDoc := false;
      }
    } else {
      failed, tab, caseStack, inExtQuote, extQuoteString, form, esacBeforeCase :=
        BeautifyOutside(t, testRecord, tab, caseStack, inExtQuote, extQuoteString, hereString);
    }
  }

  /** The loop over the lines; `effects` records what each of them did. */
  method BeautifyLines(t: Tests, space: char -> bool, lines: seq<string>)
    returns (failed: bool, output: seq<string>, complaints: seq<Complaint>, tab: int, ghost effects: seq<Effect>)
    ensures failed <==> Run(t, space, START, lines).None?
    ensures !failed ==>
              && Run(t, space, START, lines) == Some(effects) && |effects| == |lines|
              && output == Rendered(space, effects, lines) && complaints == Complaints(effects, 1) && tab == After(START, effects).tab
  {
    hide Step, Strip, RStrip, Render, Run, Rendered, Complaints, Leads, After, Tabs;
    var caseStack, inHereDoc, inExtQuote, extQuoteString, hereString := [], false, false, "", "";
    failed, output, complaints, tab, effects := false, [], [], 0, [];
    ghost var goal := Run(t, space, START, lines);
    LeadsStart(t, space, lines);
    for i := 0 to |lines|
      invariant |effects| == i && After(START, effects) == State(tab, caseStack, inHereDoc, inExtQuote, hereString, extQuoteString)
      invariant Leads(goal, effects, Run(t, space, After(START, effects), lines[i..]))
      invariant output == Rendered(space, effects, lines[..i])
      invariant complaints == Complaints(effects, 1)
    {
      var record := RStrip(space, lines[i]);
      var stripped := Strip(space, record);
      StripRStripped(space, lines[i]);
      LeadsStep(t, space, goal, effects, After(START, effects), lines, i);
      var form, esacBeforeCase;
      ghost var e := Step(t, After(START, effects), stripped);
      failed, tab, caseStack, inHereDoc, inExtQuote, hereString, extQuoteString, form, esacBeforeCase :=
        BeautifyLine(t, stripped, tab, caseStack, inHereDoc, inExtQuote, hereString, extQuoteString);
      if failed {
        return;
      }
      RenderedGrows(space, effects, e.value, lines, i);
      ComplaintsGrow(effects, e.value, 1);
      AfterSnoc(START, effects, e.value);
      effects := effects + [e.value];
      output := output + [if form.AsIs? then record else Tabs(form.stops) + stripped];
      RenderIs(space, form, lines[i]);
      if esacBeforeCase {
        complaints := complaints + [EsacBeforeCase(i + 1)];
      }
    }
    LeadsEnd(t, space, goal, effects, After(START, effects), lines);
    assert lines[..|lines|] == lines;
  }

  lemma AfterSnoc(st: State, effects: seq<Effect>, e: Effect)
    ensures After(st, effects + [e]) == e.state
  {
  }

  /** beautify_string. */
  method BeautifyString(t: Tests, space: char -> bool, data: string) returns (result: Option<Output>)
    ensures result == Beautified(t, space, data)
  {
    hide Run, Rendered, Complaints, Joined, Lines, After;
    ghost var effects;
    var failed, output, complaints, tab;
    failed, output, complaints, tab, effects := BeautifyLines(t, space, Lines(data));
    if failed {
      return None;
    }
    var error := tab != 0;
    if error {
      complaints := complaints + [Mismatch(tab)];
    }
    assert Complaints(effects, 1) + [] == Complaints(effects, 1);
    return Some(Output(Joined(output), error, complaints));
  }

  lemma RenderIs(space: char -> bool, form: Form, line: string)
    ensures Render(space, form, line) == if form.AsIs? then RStrip(space, line) else Tabs(form.stops) + Strip(space, line)
  {
  }

  lemma NothingYet(space: char -> bool)
    ensures Complaints([], 1) == [] && After(START, []) == START
  {
    hide START;
  }

  lemma LeadsStart(t: Tests, space: char -> bool, lines: seq<string>)
    ensures Leads(Run(t, space, START, lines), [], Run(t, space, After(START, []), lines[0..]))
    ensures Rendered(space, [], lines[..0]) == [] && Complaints([], 1) == [] && After(START, []) == START
  {
    hide Run, Rendered, Complaints, START, After;
    assert lines[0..] == lines && lines[..0] == [];
    RenderedNone(space);
    NothingYet(space);
    var r := Run(t, space, START, lines);
    assert r.Some? ==> [] + r.value == r.value;
  }

  lemma LeadsEnd(t: Tests, space: char -> bool, goal: Option<seq<Effect>>, done: seq<Effect>, st: State, lines: seq<string>)
    requires Leads(goal, done, Run(t, space, st, lines[|lines|..]))
    ensures goal == Some(done)
  {
    assert lines[|lines|..] == [] && done + [] == done;
  }
}
