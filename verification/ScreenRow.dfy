/** A terminal row as hterm keeps it: runs of equally styled text. What is seen of it is a
    sequence of cells. All text here is made of characters one column wide. */
module ScreenRow {
  import opened JsText

  const SPACE: CodeUnit := 32

  /** CSS colour; empty is the default. */
  type Color = Text

  datatype Style = Style(foreground: Color, background: Color, bold: bool, slanted: bool, underline: bool, strikethrough: bool)

  const PLAIN := Style([], [], false, false, false, false)

  /** hterm.TextAttributes, reduced to what it makes of a container, and to what it would make
      of one with inverse video off. */
  datatype Attributes = Attributes(isDefault: bool, style: Style, eraseDefault: bool, eraseStyle: Style)

  predicate Consistent(attrs: Attributes) {
    && (attrs.isDefault ==> attrs.style == PLAIN && attrs.eraseDefault)
    && (attrs.eraseDefault ==> attrs.eraseStyle == PLAIN)
  }

  /** A text node or a span. */
  datatype Run = Run(text: Text, span: Option<Style>)

  function StyleOf(run: Run): Style {
    if run.span.None? then PLAIN else run.span.value
  }

  /** createContainer. */
  function Container(attrs: Attributes, str: Text): Run {
    Run(str, if attrs.isDefault then None else Some(attrs.style))
  }

  /** What clearing puts into a row: nothing, or blanks that show the erase colours. */
  function ClearRun(attrs: Attributes, columnCount: nat): Run {
    Run(if attrs.isDefault then [] else Whitespace(columnCount), if attrs.eraseDefault then None else Some(attrs.eraseStyle))
  }

  function ClearCells(attrs: Attributes, columnCount: nat): seq<Cell> {
    if attrs.isDefault then [] else CellsOf(Whitespace(columnCount), attrs.eraseStyle)
  }

  /** matchesContainer. */
  predicate Matches(attrs: Attributes, run: Run) {
    if run.span.None? then attrs.isDefault else attrs.style == run.span.value
  }

  /** True if blanks in this style can be told from the row's background. */
  predicate Decorated(style: Style) { style.underline || style.strikethrough || style.background != [] }

  /** substr. */
  function Substr(s: Text, start: nat, length: nat): Text {
    if start >= |s| then [] else if start + length >= |s| then s[start..] else s[start..start + length]
  }

  function SubstrFrom(s: Text, start: nat): Text {
    if start >= |s| then [] else s[start..]
  }

  // ----- cells

  /** One column: its character and what can be seen of its style. */
  datatype Cell = Cell(c: CodeUnit, style: Style)

  const BLANK := Cell(SPACE, PLAIN)

  /** On a blank only the background and the lines show. */
  function Shown(c: CodeUnit, style: Style): Cell {
    Cell(c, if c == SPACE then style.(foreground := [], bold := false, slanted := false) else style)
  }

  function CellsOf(s: Text, style: Style): (r: seq<Cell>)
    ensures |r| == |s| && forall i | 0 <= i < |s| :: r[i] == Shown(s[i], style)
  {
    seq(|s|, i requires 0 <= i < |s| => Shown(s[i], style))
  }

  function RunCells(run: Run): (r: seq<Cell>)
    ensures |r| == |run.text|
  {
    CellsOf(run.text, StyleOf(run))
  }

  function Cells(runs: seq<Run>): seq<Cell> {
    if runs == [] then [] else RunCells(runs[0]) + Cells(runs[1..])
  }

  function Blanks(n: nat): (r: seq<Cell>)
    ensures |r| == n && forall i | 0 <= i < n :: r[i] == BLANK
  {
    seq(n, _ => BLANK)
  }

  function Whitespace(n: nat): (r: Text)
    ensures |r| == n && forall i | 0 <= i < n :: r[i] == SPACE
  {
    seq(n, _ => SPACE)
  }

  // ----- what the operations mean on cells

  function Padded(cells: seq<Cell>, column: nat): (r: seq<Cell>)
    ensures |r| == if |cells| < column then column else |cells|
  {
    if |cells| < column then cells + Blanks(column - |cells|) else cells
  }

  /** The new cells are put in front of the cell at `column`, after padding up to there. */
  function Inserted(cells: seq<Cell>, column: nat, added: seq<Cell>): seq<Cell> {
    var padded := Padded(cells, column);
    padded[..column] + added + padded[column..]
  }

  function Deleted(cells: seq<Cell>, column: nat, count: nat): seq<Cell> {
    if column >= |cells| then cells
    else if column + count >= |cells| then cells[..column]
    else cells[..column] + cells[column + count..]
  }

  function Overwritten(cells: seq<Cell>, column: nat, added: seq<Cell>, limit: nat): seq<Cell>
    requires column <= limit
  {
    Inserted(Deleted(cells, column, if |added| <= limit - column then |added| else limit - column), column, added)
  }

  function Clipped(cells: seq<Cell>, limit: nat): seq<Cell> {
    if |cells| <= limit then cells else cells[..limit]
  }

  // ----- cells of parts

  lemma CellsOfNothing()
    ensures Cells([]) == [] && forall style :: CellsOf([], style) == []
  {
  }

  lemma CellsCons(run: Run, runs: seq<Run>)
    ensures Cells([run] + runs) == RunCells(run) + Cells(runs)
  {
    assert ([run] + runs)[1..] == runs;
  }

  lemma CellsOne(run: Run)
    ensures Cells([run]) == RunCells(run)
  {
    hide RunCells;
    CellsCons(run, []);
    CellsOfNothing();
    assert [run] + [] == [run];
  }

  lemma {:induction false} CellsConcat(a: seq<Run>, b: seq<Run>)
    ensures Cells(a + b) == Cells(a) + Cells(b)
  {
    hide *;
    CellsOfNothing();
    if a == [] {
      assert a + b == b;
    } else {
      CellsConcat(a[1..], b);
      CellsCons(a[0], a[1..]);
      CellsCons(a[0], a[1..] + b);
      assert a == [a[0]] + a[1..] && a + b == [a[0]] + (a[1..] + b);
    }
  }

  lemma SlicesAround<T>(s: seq<T>, i: nat)
    requires i < |s|
    ensures s[..i + 1] == s[..i] + [s[i]] && s[i..] == [s[i]] + s[i + 1..]
    ensures s == s[..i] + s[i..]
  {
  }

  lemma CellsAround(runs: seq<Run>, i: nat)
    requires i < |runs|
    ensures Cells(runs) == Cells(runs[..i]) + RunCells(runs[i]) + Cells(runs[i + 1..])
    ensures Cells(runs[..i + 1]) == Cells(runs[..i]) + RunCells(runs[i])
    ensures Cells(runs[i..]) == RunCells(runs[i]) + Cells(runs[i + 1..])
  {
    hide *;
    SlicesAround(runs, i);
    CellsOne(runs[i]);
    CellsConcat(runs[..i], [runs[i]]);
    CellsCons(runs[i], runs[i + 1..]);
    CellsConcat(runs[..i], runs[i..]);
    Associates(Cells(runs[..i]), RunCells(runs[i]), Cells(runs[i + 1..]));
  }

  lemma CellsSplit(runs: seq<Run>, i: nat)
    requires i <= |runs|
    ensures Cells(runs) == Cells(runs[..i]) + Cells(runs[i..])
  {
    hide *;
    CellsConcat(runs[..i], runs[i..]);
    assert runs == runs[..i] + runs[i..];
  }

  lemma CellsOfConcat(a: Text, b: Text, style: Style)
    ensures CellsOf(a + b, style) == CellsOf(a, style) + CellsOf(b, style)
  {
    hide Shown;
  }

  lemma MatchingStyle(attrs: Attributes, run: Run)
    requires Consistent(attrs) && Matches(attrs, run)
    ensures StyleOf(run) == attrs.style
  {
  }

  lemma ContainerStyle(attrs: Attributes, str: Text)
    requires Consistent(attrs)
    ensures RunCells(Container(attrs, str)) == CellsOf(str, attrs.style)
  {
    hide CellsOf;
  }

  lemma ContainerText(attrs: Attributes, str: Text)
    ensures Container(attrs, str).text == str
  {
  }

  lemma BlanksIn(n: nat, style: Style)
    requires !Decorated(style)
    ensures CellsOf(Whitespace(n), style) == Blanks(n)
  {
  }

  // ----- the cached cursor

  /** The cursor's run and the offset in it stand for `column`; only in the last run may the
      offset lie beyond the text. */
  predicate Cached(runs: seq<Run>, node: nat, offset: nat, column: nat) {
    && node < |runs|
    && |Cells(runs[..node])| + offset == column
    && (node + 1 == |runs| || offset <= |runs[node].text|)
  }

  /** No span is empty. */
  predicate Settled(runs: seq<Run>) {
    forall i | 0 <= i < |runs| :: runs[i].text == [] ==> runs[i].span.None?
  }

  // ----- inserting

  lemma InsertedBetween(p: seq<Cell>, q: seq<Cell>, s: seq<Cell>)
    ensures Inserted(p + q, |p|, s) == p + s + q
  {
    assert (p + q)[..|p|] == p && (p + q)[|p|..] == q;
  }

  /** Text is put into the cursor's own run. */
  lemma InsertHere(runs: seq<Run>, k: nat, o: nat, str: Text, column: nat)
    requires Cached(runs, k, o, column) && o <= |runs[k].text|
    ensures var run := runs[k].(text := runs[k].text[..o] + str + runs[k].text[o..]);
            var grown := runs[k := run];
            && Cells(grown) == Inserted(Cells(runs), column, CellsOf(str, StyleOf(runs[k])))
            && Cached(grown, k, o + |str|, column + |str|)
            && (Settled(runs) ==> Settled(grown))
  {
    hide Cells, CellsOf, Inserted, StyleOf;
    var style := StyleOf(runs[k]);
    var left, right := runs[k].text[..o], runs[k].text[o..];
    var run := runs[k].(text := left + str + right);
    var grown := runs[k := run];
    var before, after := Cells(runs[..k]), Cells(runs[k + 1..]);
    assert grown[..k] == runs[..k] && grown[k + 1..] == runs[k + 1..];
    assert runs[k].text == left + right;
    SameStyle(runs[k], run.text);
    CellsAround(runs, k);
    CellsAround(grown, k);
    CellsOfConcat(left, right, style);
    CellsOfConcat(left + str, right, style);
    CellsOfConcat(left, str, style);
    var l, s, r := CellsOf(left, style), CellsOf(str, style), CellsOf(right, style);
    InsertedBetween(before + l, r + after, s);
    Regroup(before, l, s, r, after);
  }

  lemma SameStyle(run: Run, text: Text)
    ensures RunCells(run) == CellsOf(run.text, StyleOf(run))
    ensures RunCells(run.(text := text)) == CellsOf(text, StyleOf(run))
  {
    hide CellsOf;
  }

  lemma Regroup(before: seq<Cell>, l: seq<Cell>, s: seq<Cell>, r: seq<Cell>, after: seq<Cell>)
    ensures before + (l + r) + after == (before + l) + (r + after)
    ensures before + (l + s + r) + after == (before + l) + s + (r + after)
  {
  }

  /** A run is put between two others, or at an end. */
  lemma InsertRun(runs: seq<Run>, i: nat, run: Run, column: nat)
    requires i <= |runs| && |Cells(runs[..i])| == column
    ensures var grown := runs[..i] + [run] + runs[i..];
            && Cells(grown) == Inserted(Cells(runs), column, RunCells(run))
            && Cached(grown, i, |run.text|, column + |run.text|)
            && (Settled(runs) && run.text != [] ==> Settled(grown))
  {
    hide Cells, RunCells, Inserted;
    var grown := runs[..i] + [run] + runs[i..];
    assert grown[..i] == runs[..i] && grown[i] == run && grown[i + 1..] == runs[i..];
    CellsAround(grown, i);
    CellsSplit(runs, i);
    InsertedBetween(Cells(runs[..i]), Cells(runs[i..]), RunCells(run));
  }

  /** Text is put at the end of a run. */
  lemma InsertAtEnd(runs: seq<Run>, i: nat, str: Text, column: nat)
    requires i < |runs| && |Cells(runs[..i + 1])| == column
    ensures var grown := runs[i := runs[i].(text := runs[i].text + str)];
            && Cells(grown) == Inserted(Cells(runs), column, CellsOf(str, StyleOf(runs[i])))
            && Cached(grown, i, |runs[i].text + str|, column + |str|)
            && (Settled(runs) ==> Settled(grown))
  {
    hide Cells, RunCells, Inserted, CellsOf, StyleOf;
    CellsAround(runs, i);
    var w := |runs[i].text|;
    assert Cached(runs, i, w, column);
    InsertHere(runs, i, w, str, column);
    assert runs[i].text[..w] + str + runs[i].text[w..] == runs[i].text + str;
  }

  /** Text is put at the start of a run. */
  lemma InsertAtStart(runs: seq<Run>, i: nat, str: Text, column: nat)
    requires i < |runs| && |Cells(runs[..i])| == column
    ensures var grown := runs[i := runs[i].(text := str + runs[i].text)];
            && Cells(grown) == Inserted(Cells(runs), column, CellsOf(str, StyleOf(runs[i])))
            && Cached(grown, i, |str|, column + |str|)
            && (Settled(runs) ==> Settled(grown))
  {
    hide Cells, RunCells, Inserted, CellsOf, StyleOf, Settled;
    InsertHere(runs, i, 0, str, column);
    assert runs[i].text[..0] + str + runs[i].text[0..] == str + runs[i].text;
  }

  /** The halves of a run; an empty half is left out. */
  function Split(runs: seq<Run>, k: nat, o: nat): seq<Run>
    requires k < |runs| && o <= |runs[k].text|
  {
    var left := runs[k].(text := runs[k].text[..o]);
    var right := runs[k].(text := runs[k].text[o..]);
    runs[..k] + (if left.text == [] then [] else [left]) + (if right.text == [] then [] else [right]) + runs[k + 1..]
  }

  /** Splitting a run leaves the cells as they are. */
  lemma SplitKeepsCells(runs: seq<Run>, k: nat, o: nat)
    requires k < |runs| && 0 < o < |runs[k].text|
    ensures var halves := Split(runs, k, o);
            && |halves| == |runs| + 1 && Cells(halves) == Cells(runs)
            && |Cells(halves[..k + 1])| == |Cells(runs[..k])| + o
            && (Settled(runs) ==> Settled(halves))
  {
    hide Cells, CellsOf, StyleOf, Settled;
    var style := StyleOf(runs[k]);
    var left := runs[k].(text := runs[k].text[..o]);
    var right := runs[k].(text := runs[k].text[o..]);
    var halves := Split(runs, k, o);
    assert halves == runs[..k] + [left, right] + runs[k + 1..];
    assert halves[..k] == runs[..k] && halves[k] == left && halves[k + 1] == right;
    assert halves[k + 1..] == [right] + runs[k + 1..];
    CellsAround(runs, k);
    CellsAround(halves, k);
    CellsCons(right, runs[k + 1..]);
    SameStyle(runs[k], left.text);
    SameStyle(runs[k], right.text);
    assert runs[k].text == left.text + right.text;
    CellsOfConcat(left.text, right.text, style);
    var b, l, r, a := Cells(runs[..k]), CellsOf(left.text, style), CellsOf(right.text, style), Cells(runs[k + 1..]);
    Associates(b, l, r);
    Associates(b + l, r, a);
    if Settled(runs) {
      SettledSplit(runs, k, o);
    }
  }

  lemma SettledSplit(runs: seq<Run>, k: nat, o: nat)
    requires k < |runs| && 0 < o < |runs[k].text| && Settled(runs)
    ensures Settled(Split(runs, k, o))
  {
  }

  /** A run is put into another one, which is split for it. */
  lemma InsertInside(runs: seq<Run>, k: nat, o: nat, run: Run, column: nat)
    requires Cached(runs, k, o, column) && 0 < o < |runs[k].text|
    ensures var halves := Split(runs, k, o);
            var grown := halves[..k + 1] + [run] + halves[k + 1..];
            && Cells(grown) == Inserted(Cells(runs), column, RunCells(run))
            && Cached(grown, k + 1, |run.text|, column + |run.text|)
            && (Settled(runs) && run.text != [] ==> Settled(grown))
  {
    hide Cells, RunCells, Inserted, Split, Settled;
    SplitKeepsCells(runs, k, o);
    InsertRun(Split(runs, k, o), k + 1, run, column);
  }

  // ----- padding

  lemma PaddedTwice(cells: seq<Cell>, column: nat, s: seq<Cell>)
    ensures Inserted(Padded(cells, column), column, s) == Inserted(cells, column, s)
  {
  }

  /** Missing blanks go to the last run if they do not show there. */
  lemma PadHere(runs: seq<Run>, k: nat, o: nat, column: nat)
    requires Cached(runs, k, o, column) && o > |runs[k].text| && !Decorated(StyleOf(runs[k]))
    ensures var run := runs[k].(text := runs[k].text + Whitespace(o - |runs[k].text|));
            var grown := runs[k := run];
            Cells(grown) == Padded(Cells(runs), column) && Cached(grown, k, o, column) && |run.text| == o
  {
    hide Cells, CellsOf, StyleOf, Decorated;
    var ws := Whitespace(o - |runs[k].text|);
    var run := runs[k].(text := runs[k].text + ws);
    var grown := runs[k := run];
    assert grown[..k] == runs[..k] && grown[k + 1..] == runs[k + 1..] == [];
    CellsAround(runs, k);
    CellsAround(grown, k);
    CellsOfNothing();
    SameStyle(runs[k], run.text);
    CellsOfConcat(runs[k].text, ws, StyleOf(runs[k]));
    BlanksIn(|ws|, StyleOf(runs[k]));
    assert Cells(grown) == Cells(runs) + Blanks(|ws|);
  }

  /** Otherwise they go to a text node of their own. */
  lemma PadAfter(runs: seq<Run>, k: nat, o: nat, column: nat)
    requires Cached(runs, k, o, column) && o > |runs[k].text|
    ensures var ws := Whitespace(o - |runs[k].text|);
            var grown := runs[..k + 1] + [Run(ws, None)] + runs[k + 1..];
            Cells(grown) == Padded(Cells(runs), column) && Cached(grown, k + 1, |ws|, column)
  {
    hide Cells, CellsOf;
    var ws := Whitespace(o - |runs[k].text|);
    var run := Run(ws, None);
    var grown := runs[..k + 1] + [run] + runs[k + 1..];
    assert runs[..k + 1] == runs && runs[k + 1..] == [] && grown == runs + [run];
    CellsAround(runs, k);
    CellsOfNothing();
    CellsConcat(runs, [run]);
    CellsOne(run);
    BlanksIn(|ws|, PLAIN);
    assert grown[..k + 1] == runs;
  }

  lemma PaddedAlready(runs: seq<Run>, k: nat, o: nat, column: nat)
    requires Cached(runs, k, o, column) && o <= |runs[k].text|
    ensures Padded(Cells(runs), column) == Cells(runs)
  {
    hide Cells;
    CellsAround(runs, k);
  }

  lemma PlainIsUndecorated()
    ensures !Decorated(PLAIN)
  {
  }

  // ----- deleting

  lemma DeletedParts(b: seq<Cell>, n: seq<Cell>, a: seq<Cell>, o: nat, count: nat)
    requires o <= |n|
    ensures o + count <= |n| ==> Deleted(b + n + a, |b| + o, count) == b + (n[..o] + n[o + count..]) + a
    ensures o + count >= |n| ==> Deleted(b + n + a, |b| + o, count) == Deleted(b + n[..o] + a, |b| + o, count - (|n| - o))
  {
    var whole := b + n + a;
    assert whole[..|b| + o] == b + n[..o];
    if o + count <= |n| {
      assert whole[|b| + o + count..] == n[o + count..] + a;
    } else {
      var rest := b + n[..o] + a;
      assert rest[..|b| + o] == b + n[..o];
      if o + count < |n| + |a| {
        assert whole[|b| + o + count..] == a[o + count - |n|..] == rest[|b| + o + (count - (|n| - o))..];
      }
    }
  }

  lemma DeletedNothing(cells: seq<Cell>, column: nat, count: nat)
    requires count == 0 || column >= |cells|
    ensures Deleted(cells, column, count) == cells
  {
  }

  /** A run's text without `count` characters from `o` on. */
  function Cut(text: Text, o: nat, count: nat): (r: Text)
    ensures |text| - count <= |r| <= |text|
  {
    Substr(text, 0, o) + SubstrFrom(text, o + count)
  }

  lemma CutCells(text: Text, o: nat, count: nat, style: Style)
    ensures var n := CellsOf(text, style);
            CellsOf(Cut(text, o, count), style)
            == if o > |n| then n else n[..o] + (if o + count <= |n| then n[o + count..] else [])
  {
    hide Shown;
  }

  /** Cutting one run does part of the deletion; the rest starts with the next run. */
  lemma CutRun(runs: seq<Run>, k: nat, o: nat, count: nat)
    requires k < |runs| && (k + 1 == |runs| || o <= |runs[k].text|)
    ensures var run := runs[k].(text := Cut(runs[k].text, o, count));
            var shorter := runs[k := run];
            var deleted := |runs[k].text| - |run.text|;
            && deleted <= count
            && Deleted(Cells(runs), |Cells(runs[..k])| + o, count)
               == Deleted(Cells(shorter), |Cells(shorter[..k + 1])|, count - deleted)
  {
    hide Cells, CellsOf, StyleOf, Cut, Deleted;
    var style := StyleOf(runs[k]);
    var run := runs[k].(text := Cut(runs[k].text, o, count));
    var shorter := runs[k := run];
    var b, n, a := Cells(runs[..k]), CellsOf(runs[k].text, style), Cells(runs[k + 1..]);
    assert shorter[..k] == runs[..k] && shorter[k + 1..] == runs[k + 1..];
    CellsAround(runs, k);
    CellsAround(shorter, k);
    SameStyle(runs[k], run.text);
    CutCells(runs[k].text, o, count, style);
    if o > |n| {
      CellsOfNothing();
      assert runs[k + 1..] == [];
      DeletedNothing(Cells(runs), |b| + o, count);
      DeletedNothing(Cells(shorter), |Cells(shorter[..k + 1])|, count);
    } else {
      DeletedParts(b, n, a, o, count);
      if o + count <= |n| {
        DeletedNothing(Cells(shorter), |Cells(shorter[..k + 1])|, 0);
      } else {
        assert n[..o] + [] == n[..o];
      }
    }
  }

  lemma RemoveEmpty(runs: seq<Run>, k: nat)
    requires k < |runs| && runs[k].text == []
    ensures Cells(runs[..k] + runs[k + 1..]) == Cells(runs)
    ensures |Cells(runs[..k + 1])| == |Cells(runs[..k])|
  {
    hide Cells;
    CellsAround(runs, k);
    CellsConcat(runs[..k], runs[k + 1..]);
  }

  // ----- clipping

  /** Cutting a row off after the cursor's cell. */
  lemma ClipAfterCursor(runs: seq<Run>, k: nat, o: nat, column: nat)
    requires Cached(runs, k, o, column) && column < |Cells(runs)|
    requires k + 1 == |runs| || o < |runs[k].text|
    ensures o < |runs[k].text|
    ensures var clipped := runs[..k] + [runs[k].(text := runs[k].text[..o + 1])];
            Cells(clipped) == Cells(runs)[..column + 1] && Cached(clipped, k, o, column)
  {
    hide Cells, CellsOf, StyleOf;
    CellsAround(runs, k);
    CellsOfNothing();
    if k + 1 == |runs| {
      assert runs[k + 1..] == [];
    }
    var run := runs[k].(text := runs[k].text[..o + 1]);
    var clipped := runs[..k] + [run];
    assert clipped[..k] == runs[..k] && clipped[k + 1..] == [];
    CellsAround(clipped, k);
    SameStyle(runs[k], run.text);
    var b, n := Cells(runs[..k]), RunCells(runs[k]);
    assert CellsOf(run.text, StyleOf(runs[k])) == n[..o + 1];
    assert (b + n + Cells(runs[k + 1..]))[..column + 1] == b + n[..o + 1];
  }

  /** Every run but the cursor's is settled. */
  predicate SettledBut(runs: seq<Run>, k: nat) {
    forall i | 0 <= i < |runs| && i != k :: runs[i].text == [] ==> runs[i].span.None?
  }

  /** An empty span under the cursor is removed; the cursor goes to the end of the run before it,
      else to the start of the run after it, else to a new text node. */
  function WithoutCursorRun(runs: seq<Run>, k: nat): (seq<Run>, nat, nat)
    requires k < |runs|
  {
    var others := runs[..k] + runs[k + 1..];
    if k > 0 then (others, k - 1, |runs[k - 1].text|)
    else if |runs| > 1 then (others, 0, 0)
    else ([Run([], None)], 0, 0)
  }

  /** Removing it keeps the cursor's column exactly if the cursor was not beyond it. */
  lemma CursorRunRemoved(runs: seq<Run>, k: nat, o: nat, column: nat)
    requires Cached(runs, k, o, column) && runs[k].text == [] && SettledBut(runs, k)
    ensures var (others, node, offset) := WithoutCursorRun(runs, k);
            Cells(others) == Cells(runs) && Settled(others) && (Cached(others, node, offset, column) <==> o == 0)
  {
    hide Cells;
    RemoveEmpty(runs, k);
    var others := runs[..k] + runs[k + 1..];
    CellsOfNothing();
    if k > 0 {
      assert others[..k - 1] == runs[..k - 1] && others[k - 1] == runs[k - 1];
      CellsAround(runs, k - 1);
    } else if |runs| > 1 {
      assert others[..0] == [] && runs[..0] == [];
    } else {
      assert others == [] && runs[..0] == [];
      CellsOne(Run([], None));
      assert [Run([], None)][..0] == [];
    }
  }

  /** Where the text to be written already stands, writing it changes no cell. */
  lemma AlreadyThere(runs: seq<Run>, k: nat, o: nat, column: nat, str: Text, limit: nat)
    requires Cached(runs, k, o, column) && column < limit && SubstrFrom(runs[k].text, o) == str && str != []
    ensures var written := Overwritten(Cells(runs), column, CellsOf(str, StyleOf(runs[k])), limit);
            && Clipped(written, limit) == Clipped(Cells(runs), limit) && |Cells(runs)| <= |written|
            && (|Cells(runs)| <= limit ==> written == Cells(runs))
    ensures Cached(runs, k, o + |str|, column + |str|)
  {
    hide Cells, CellsOf, StyleOf, Overwritten, Clipped, SubstrFrom;
    var style := StyleOf(runs[k]);
    var front := TextAtCursor(runs, k, o, column, str);
    OverwrittenBySame(front, CellsOf(str, style), Cells(runs[k + 1..]), limit);
  }

  /** The cells from the cursor to the end of its run. */
  lemma TextAtCursor(runs: seq<Run>, k: nat, o: nat, column: nat, str: Text) returns (front: seq<Cell>)
    requires Cached(runs, k, o, column) && SubstrFrom(runs[k].text, o) == str && str != []
    ensures Cells(runs) == front + CellsOf(str, StyleOf(runs[k])) + Cells(runs[k + 1..]) && |front| == column
    ensures Cached(runs, k, o + |str|, column + |str|)
  {
    hide Cells, CellsOf, StyleOf;
    var style := StyleOf(runs[k]);
    var before := runs[k].text[..o];
    assert runs[k].text == before + str;
    front := Cells(runs[..k]) + CellsOf(before, style);
    CellsAround(runs, k);
    SameStyle(runs[k], []);
    CellsOfConcat(before, str, style);
    Associates(Cells(runs[..k]), CellsOf(before, style), CellsOf(str, style));
  }

  lemma OverwrittenBySame(front: seq<Cell>, s: seq<Cell>, a: seq<Cell>, limit: nat)
    requires |front| < limit && s != []
    ensures var cells := front + s + a;
            var written := Overwritten(cells, |front|, s, limit);
            && Clipped(written, limit) == Clipped(cells, limit) && |cells| <= |written|
            && (|cells| <= limit ==> written == cells)
  {
    var cells := front + s + a;
    var count := if |s| <= limit - |front| then |s| else limit - |front|;
    var rest := if |front| + count >= |cells| then [] else cells[|front| + count..];
    assert cells[..|front|] == front;
    assert Deleted(cells, |front|, count) == front + rest;
    InsertedBetween(front, rest, s);
    assert count == |s| ==> rest == a;
    assert (front + s + rest)[..|front| + |s|] == front + s == cells[..|front| + |s|];
    if count < |s| {
      assert (front + s + rest)[..limit] == (front + s)[..limit] == cells[..limit];
    }
  }

  lemma SettledAfterAll(runs: seq<Run>, k: nat)
    requires k < |runs| && SettledBut(runs, k) && (runs[k].text == [] ==> runs[k].span.None?)
    ensures Settled(runs)
  {
  }

  lemma SettledClipped(runs: seq<Run>, k: nat, run: Run)
    requires k < |runs| && run.text != []
    ensures Settled(runs) ==> Settled(runs[..k] + [run])
  {
  }

  lemma CutFacts(text: Text, o: nat, count: nat)
    ensures o <= |text| ==> o <= |Cut(text, o, count)|
    ensures o > |text| ==> Cut(text, o, count) == text
  {
  }

  lemma ClearedRow(attrs: Attributes, columnCount: nat)
    requires Consistent(attrs) && columnCount > 0
    ensures var runs := [ClearRun(attrs, columnCount)];
            Cells(runs) == ClearCells(attrs, columnCount) && Settled(runs) && Cached(runs, 0, 0, 0)
  {
    hide Cells, CellsOf;
    var run := ClearRun(attrs, columnCount);
    CellsOne(run);
    SameStyle(run, []);
    CellsOfNothing();
    assert [run][..0] == [];
  }

  /** A cleared row shows a space in the erase style in each of its columns, whether blanks were
      written or left out. */
  lemma ClearedShows(attrs: Attributes, columnCount: nat, column: nat)
    requires Consistent(attrs) && column < columnCount
    ensures var cells := ClearCells(attrs, columnCount);
            |cells| <= columnCount && (if column < |cells| then cells[column] else BLANK) == Shown(SPACE, attrs.eraseStyle)
  {
  }

  // ----- text

  /** textContent of a row. */
  function TextContent(runs: seq<Run>): Text {
    if runs == [] then [] else runs[0].text + TextContent(runs[1..])
  }

  function Chars(cells: seq<Cell>): (r: Text)
    ensures |r| == |cells| && forall i | 0 <= i < |r| :: r[i] == cells[i].c
  {
    seq(|cells|, i requires 0 <= i < |cells| => cells[i].c)
  }

  lemma CharsConcat(a: seq<Cell>, b: seq<Cell>)
    ensures Chars(a + b) == Chars(a) + Chars(b)
  {
  }

  lemma CharsOf(s: Text, style: Style)
    ensures Chars(CellsOf(s, style)) == s
  {
  }

  /** The text of a row is what its cells show. */
  lemma {:induction false} TextIsChars(runs: seq<Run>)
    ensures TextContent(runs) == Chars(Cells(runs))
  {
    hide CellsOf, Chars;
    if runs == [] {
      assert |Chars([])| == 0;
    } else {
      TextIsChars(runs[1..]);
      CharsConcat(RunCells(runs[0]), Cells(runs[1..]));
      CharsOf(runs[0].text, StyleOf(runs[0]));
    }
  }
}
