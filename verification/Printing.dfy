/** What printing does to a grid of cells: text fills rows, wraps at the right margin and starts
    new rows at the bottom. */
module Printing {
  import opened JsText
  import opened ScreenRow

  /** All rows from the start of the scrollback, and the cursor in them. */
  datatype Grid = Grid(rows: seq<seq<Cell>>, row: nat, column: nat, overflow: bool)

  /** The first and the last row of a scroll region. */
  datatype Region = Region(top: nat, bottom: nat)

  /** How text is put: the attributes' style and the terminal's modes, what a new row shows, and
      the scroll region. */
  datatype Mode = Mode(width: nat, style: Style, wraparound: bool, insertMode: bool, blank: seq<Cell>, region: Option<Region>)

  predicate InGrid(g: Grid, mode: Mode) {
    && g.row < |g.rows| && g.column < mode.width
    && (mode.region.Some? ==> mode.region.value.top <= mode.region.value.bottom < |g.rows|)
  }

  /** The first row of the region is lost, and a new one comes in at its end. */
  function Scrolled(rows: seq<seq<Cell>>, region: Region, blank: seq<Cell>): (r: seq<seq<Cell>>)
    requires region.top <= region.bottom < |rows|
    ensures |r| == |rows|
  {
    rows[..region.top] + rows[region.top + 1..region.bottom + 1] + [blank] + rows[region.bottom + 1..]
  }

  /** Where the row comes from that stands at `i` after scrolling. */
  function Source(region: Region, i: nat): nat {
    if region.top <= i < region.bottom then i + 1 else i
  }

  lemma ScrolledOne(rows: seq<seq<Cell>>, region: Region, blank: seq<Cell>, i: nat)
    requires region.top <= region.bottom < |rows| && i < |rows|
    ensures Source(region, i) < |rows|
    ensures Scrolled(rows, region, blank)[i] == if i == region.bottom then blank else rows[Source(region, i)]
  {
  }

  /** newLine. */
  function NextRow(g: Grid, mode: Mode): (r: Grid)
    requires InGrid(g, mode)
    ensures InGrid(r, mode) && r.column == 0 && !r.overflow
    ensures mode.region.None? ==> r.row == g.row + 1
  {
    match mode.region
    case None => Grid(if g.row + 1 == |g.rows| then g.rows + [mode.blank] else g.rows, g.row + 1, 0, false)
    case Some(region) =>
      if g.row == region.bottom then Grid(Scrolled(g.rows, region, mode.blank), g.row, 0, false)
      else Grid(g.rows, if g.row + 1 == |g.rows| then g.row else g.row + 1, 0, false)
  }

  lemma NextIsScrolled(g: Grid, mode: Mode, next: Grid)
    requires InGrid(g, mode) && mode.region.Some? && g.row == mode.region.value.bottom
    requires next == Grid(Scrolled(g.rows, mode.region.value, mode.blank), g.row, 0, false)
    ensures next == NextRow(g, mode)
  {
  }

  lemma NextIsBelow(g: Grid, mode: Mode, next: Grid)
    requires InGrid(g, mode) && mode.region.Some? && g.row != mode.region.value.bottom
    requires next == Grid(g.rows, if g.row + 1 == |g.rows| then g.row else g.row + 1, 0, false)
    ensures next == NextRow(g, mode)
  {
  }

  /** A pending wrap is carried out before the next character. */
  function Wrapped(g: Grid, mode: Mode): (r: Grid)
    requires InGrid(g, mode)
    ensures InGrid(r, mode)
  {
    if mode.wraparound && g.overflow then NextRow(g, mode) else g
  }

  /** How many characters one step takes from `rest`. */
  function Taken(g: Grid, mode: Mode, rest: Text): (n: nat)
    requires InGrid(g, mode) && rest != []
    ensures 1 <= n <= |rest|
  {
    if g.column + |rest| >= mode.width && mode.wraparound then mode.width - g.column else |rest|
  }

  /** What it writes: without wraparound, the last character takes the last column. */
  function Piece(g: Grid, mode: Mode, rest: Text): (s: Text)
    requires InGrid(g, mode) && rest != []
    ensures s != [] && g.column + |s| <= mode.width
  {
    if g.column + |rest| < mode.width then rest
    else
      var count := mode.width - g.column;
      if mode.wraparound then rest[..count] else rest[..count - 1] + [rest[|rest| - 1]]
  }

  /** The piece and the rest in terms of substrings of the whole text. */
  lemma PieceOf(g: Grid, mode: Mode, str: Text, start: nat)
    requires InGrid(g, mode) && start < |str|
    ensures var rest := str[start..];
            var over := g.column + |rest| >= mode.width;
            var count := if over then mode.width - g.column else |rest|;
            if over && !mode.wraparound then
              && Substr(str, start, count - 1) + SubstrFrom(str, |str| - 1) == Piece(g, mode, rest)
              && SubstrFrom(str, start + |str|) == rest[Taken(g, mode, rest)..]
            else
              && Substr(str, start, count) == Piece(g, mode, rest)
              && SubstrFrom(str, start + count) == rest[Taken(g, mode, rest)..]
  {
    hide Substr, SubstrFrom;
    var rest := str[start..];
    var over := g.column + |rest| >= mode.width;
    var count := if over then mode.width - g.column else |rest|;
    if over && !mode.wraparound {
      SubstrParts(str, start, count - 1);
      SubstrLast(str);
      SubstrBeyond(str, start);
      assert rest[|rest| - 1] == str[|str| - 1] && rest[|rest|..] == [];
    } else {
      SubstrParts(str, start, count);
      assert rest[..|rest|] == rest;
    }
  }

  lemma SubstrParts(str: Text, start: nat, count: nat)
    requires start + count <= |str|
    ensures Substr(str, start, count) == str[start..][..count] && SubstrFrom(str, start + count) == str[start..][count..]
  {
    assert str[start..][..count] == str[start..start + count] && str[start..][count..] == str[start + count..];
  }

  lemma SubstrLast(str: Text)
    requires str != []
    ensures SubstrFrom(str, |str| - 1) == [str[|str| - 1]]
  {
  }

  lemma SubstrBeyond(str: Text, start: nat)
    ensures SubstrFrom(str, start + |str|) == []
  {
  }

  /** The row's cells before they are clipped. */
  function PutCells(cells: seq<Cell>, column: nat, mode: Mode, s: Text): seq<Cell>
    requires column < mode.width
  {
    if mode.insertMode then Inserted(cells, column, CellsOf(s, mode.style))
    else Overwritten(cells, column, CellsOf(s, mode.style), mode.width)
  }

  function Put(g: Grid, mode: Mode, s: Text): (r: Grid)
    requires InGrid(g, mode)
    ensures r.row == g.row && |r.rows| == |g.rows|
  {
    var cells := PutCells(g.rows[g.row], g.column, mode, s);
    var column := g.column + |s|;
    Grid(g.rows[g.row := Clipped(cells, mode.width)], g.row,
         if column >= mode.width then mode.width - 1 else column,
         column >= mode.width || (g.overflow && |cells| <= mode.width))
  }

  lemma StaysInGrid(g: Grid, mode: Mode, s: Text)
    requires InGrid(g, mode)
    ensures InGrid(Wrapped(g, mode), mode) && InGrid(Put(g, mode, s), mode)
  {
  }

  function Printed(g: Grid, mode: Mode, str: Text): (r: Grid)
    requires InGrid(g, mode)
    ensures InGrid(r, mode)
    decreases |str|
  {
    if str == [] then g
    else
      StaysInGrid(g, mode, []);
      var wrapped := Wrapped(g, mode);
      StaysInGrid(wrapped, mode, Piece(wrapped, mode, str));
      Printed(Put(wrapped, mode, Piece(wrapped, mode, str)), mode, str[Taken(wrapped, mode, str)..])
  }

  lemma PrintedNothing(g: Grid, mode: Mode)
    requires InGrid(g, mode)
    ensures Printed(g, mode, []) == g
  {
  }

  // ----- printing on blank rows

  /** The text in pieces of `width` characters; the last may be shorter. */
  function Chunks(str: Text, width: nat): (r: seq<Text>)
    requires width > 0
    ensures r != []
    decreases |str|
  {
    if |str| <= width then [str] else [str[..width]] + Chunks(str[width..], width)
  }

  function ChunkCells(chunks: seq<Text>, style: Style): (r: seq<seq<Cell>>)
    ensures |r| == |chunks| && forall i | 0 <= i < |r| :: r[i] == CellsOf(chunks[i], style)
  {
    seq(|chunks|, i requires 0 <= i < |chunks| => CellsOf(chunks[i], style))
  }

  predicate BlankFrom(g: Grid) {
    forall k | g.row <= k < |g.rows| :: g.rows[k] == []
  }

  lemma PutOnBlank(g: Grid, mode: Mode, s: Text)
    requires InGrid(g, mode) && g.column == 0 && !g.overflow && !mode.insertMode
    requires g.rows[g.row] == [] && s != [] && |s| <= mode.width
    ensures Put(g, mode, s) == Grid(g.rows[g.row := CellsOf(s, mode.style)], g.row,
                                    if |s| == mode.width then mode.width - 1 else |s|, |s| == mode.width)
  {
    var cells := CellsOf(s, mode.style);
    assert [][..0] + cells + [][0..] == cells;
    assert Inserted([], 0, cells) == cells;
  }

  /** On blank rows every row gets its piece of the text. */
  lemma {:induction false} PrintedOnBlank(g: Grid, mode: Mode, str: Text)
    requires InGrid(g, mode) && g.column == 0 && !g.overflow && BlankFrom(g)
    requires mode.wraparound && !mode.insertMode && mode.blank == [] && mode.region.None? && str != []
    ensures var p := Printed(g, mode, str);
            var chunks := Chunks(str, mode.width);
            && p.row + 1 == g.row + |chunks| && p.row < |p.rows| && p.rows[..g.row] == g.rows[..g.row]
            && p.rows[g.row..p.row + 1] == ChunkCells(chunks, mode.style)
    decreases |str|
  {
    hide CellsOf, Put;
    var w := mode.width;
    PrintedStep(g, mode, str);
    if |str| <= w {
      assert Piece(g, mode, str) == str;
      PutOnBlank(g, mode, str);
      var q := Put(g, mode, str);
      assert str[|str|..] == [];
      assert q.rows[g.row..g.row + 1] == [CellsOf(str, mode.style)];
    } else {
      var first, rest := str[..w], str[w..];
      assert Piece(g, mode, str) == first && Taken(g, mode, str) == w;
      PutOnBlank(g, mode, first);
      var q := Put(g, mode, first);
      var n := NextRow(q, mode);
      WrapsFirst(q, mode, rest);
      PrintedOnBlank(n, mode, rest);
      FirstChunk(g, q, n, Printed(q, mode, str[w..]), mode, str);
    }
  }

  lemma PrintedStep(g: Grid, mode: Mode, str: Text)
    requires InGrid(g, mode) && str != []
    ensures InGrid(Wrapped(g, mode), mode)
    ensures var wrapped := Wrapped(g, mode);
            && InGrid(Put(wrapped, mode, Piece(wrapped, mode, str)), mode)
            && Printed(g, mode, str)
               == Printed(Put(wrapped, mode, Piece(wrapped, mode, str)), mode, str[Taken(wrapped, mode, str)..])
  {
    hide Put, Piece, Taken, Wrapped;
    StaysInGrid(g, mode, []);
    StaysInGrid(Wrapped(g, mode), mode, Piece(Wrapped(g, mode), mode, str));
  }

  /** Printing with a wrap pending is printing from the start of the next row. */
  lemma WrapsFirst(g: Grid, mode: Mode, str: Text)
    requires InGrid(g, mode) && g.overflow && mode.wraparound && str != []
    ensures InGrid(NextRow(g, mode), mode) && Printed(g, mode, str) == Printed(NextRow(g, mode), mode, str)
  {
    hide Put, Piece, Taken;
    PrintedStep(g, mode, str);
    PrintedStep(NextRow(g, mode), mode, str);
  }

  /** Putting the first piece in front of what the other rows get. */
  lemma FirstChunk(g: Grid, q: Grid, n: Grid, p: Grid, mode: Mode, str: Text)
    requires InGrid(g, mode) && |str| > mode.width && mode.blank == [] && mode.region.None?
    requires q.rows == g.rows[g.row := CellsOf(str[..mode.width], mode.style)] && q.row == g.row && InGrid(q, mode) && n == NextRow(q, mode)
    requires var chunks := Chunks(str[mode.width..], mode.width);
             && p.row + 1 == n.row + |chunks| && p.row < |p.rows| && p.rows[..n.row] == n.rows[..n.row]
             && p.rows[n.row..p.row + 1] == ChunkCells(chunks, mode.style)
    ensures var chunks := Chunks(str, mode.width);
            && p.row + 1 == g.row + |chunks| && p.rows[..g.row] == g.rows[..g.row]
            && p.rows[g.row..p.row + 1] == ChunkCells(chunks, mode.style)
  {
    hide CellsOf;
    var chunks := Chunks(str[mode.width..], mode.width);
    var first := CellsOf(str[..mode.width], mode.style);
    assert n.rows[..n.row] == g.rows[..g.row] + [first];
    assert p.rows[g.row] == p.rows[..n.row][g.row] == first;
    assert p.rows[..g.row] == p.rows[..n.row][..g.row];
    assert p.rows[g.row..p.row + 1] == [first] + p.rows[n.row..p.row + 1];
    assert ChunkCells([str[..mode.width]] + chunks, mode.style) == [first] + ChunkCells(chunks, mode.style);
  }

  /** The pieces make up the text again. */
  lemma {:induction false} ChunksMakeText(str: Text, width: nat)
    requires width > 0
    ensures Concat(Chunks(str, width)) == str
    decreases |str|
  {
    if |str| <= width {
      assert Chunks(str, width)[1..] == [];
    } else {
      ChunksMakeText(str[width..], width);
      assert Chunks(str, width)[1..] == Chunks(str[width..], width);
      assert str == str[..width] + str[width..];
    }
  }

  // ----- what stands in the rows afterwards

  function Larger(a: nat, b: nat): nat { if a < b then b else a }

  function Smaller(a: nat, b: nat): nat { if a < b then a else b }

  /** How long the row would be if it were not cut off at the margin. */
  function LengthWith(before: seq<Cell>, column: nat, s: Text, mode: Mode): nat {
    if mode.insertMode then Larger(|before|, column) + |s| else Larger(|before|, column + |s|)
  }

  /** What stands at column `i` after `s` has been put at `column`: what was in front of it, with
      blanks where nothing was; the characters of `s` in the current style; and behind them the old
      cell of that column, or in insert mode the one that has moved there. */
  predicate CellShows(cell: Cell, i: nat, before: seq<Cell>, column: nat, s: Text, mode: Mode)
    requires i < LengthWith(before, column, s, mode)
  {
    if i < column then cell == if i < |before| then before[i] else BLANK
    else if i < column + |s| then cell == Shown(s[i - column], mode.style)
    else cell == before[if mode.insertMode then i - |s| else i]
  }

  /** All of the row, of which nothing stands beyond the margin. */
  predicate Shows(row: seq<Cell>, before: seq<Cell>, column: nat, s: Text, mode: Mode) {
    && |row| == Smaller(mode.width, LengthWith(before, column, s, mode))
    && forall i | 0 <= i < |row| :: CellShows(row[i], i, before, column, s, mode)
  }

  lemma InsertedAt(before: seq<Cell>, column: nat, added: seq<Cell>, i: nat)
    requires i < Larger(|before|, column) + |added|
    ensures |Inserted(before, column, added)| == Larger(|before|, column) + |added|
    ensures Inserted(before, column, added)[i]
            == if i < column then (if i < |before| then before[i] else BLANK)
               else if i < column + |added| then added[i - column] else before[i - |added|]
  {
  }

  lemma DeletedAt(before: seq<Cell>, column: nat, count: nat, i: nat)
    requires i < |Deleted(before, column, count)|
    ensures (if i < column then i else i + count) < |before|
    ensures Deleted(before, column, count)[i] == before[if i < column then i else i + count]
  {
  }

  lemma DeletedLength(before: seq<Cell>, column: nat, count: nat)
    ensures |Deleted(before, column, count)|
            == if column >= |before| then |before| else if column + count >= |before| then column else |before| - count
  {
  }

  lemma OverwrittenIs(before: seq<Cell>, column: nat, added: seq<Cell>, limit: nat)
    requires column + |added| <= limit
    ensures Overwritten(before, column, added, limit) == Inserted(Deleted(before, column, |added|), column, added)
  {
    hide Inserted, Deleted;
  }

  lemma OverwrittenAt(before: seq<Cell>, column: nat, added: seq<Cell>, limit: nat, i: nat)
    requires column + |added| <= limit && i < Larger(|before|, column + |added|)
    ensures |Overwritten(before, column, added, limit)| == Larger(|before|, column + |added|)
    ensures Overwritten(before, column, added, limit)[i]
            == if i < column then (if i < |before| then before[i] else BLANK)
               else if i < column + |added| then added[i - column] else before[i]
  {
    hide Inserted, Deleted, Overwritten;
    var left := Deleted(before, column, |added|);
    OverwrittenIs(before, column, added, limit);
    DeletedLength(before, column, |added|);
    InsertedAt(left, column, added, i);
    if i < column {
      if i < |left| {
        DeletedAt(before, column, |added|, i);
      }
    } else if i >= column + |added| {
      DeletedAt(before, column, |added|, i - |added|);
    }
  }

  lemma PutCellsLength(before: seq<Cell>, column: nat, mode: Mode, s: Text)
    requires column < mode.width && column + |s| <= mode.width
    ensures |PutCells(before, column, mode, s)| == LengthWith(before, column, s, mode)
  {
    hide Deleted;
    OverwrittenIs(before, column, CellsOf(s, mode.style), mode.width);
    DeletedLength(before, column, |s|);
  }

  lemma PutCellAt(before: seq<Cell>, column: nat, mode: Mode, s: Text, i: nat)
    requires column < mode.width && column + |s| <= mode.width && i < LengthWith(before, column, s, mode)
    ensures |PutCells(before, column, mode, s)| == LengthWith(before, column, s, mode)
    ensures CellShows(PutCells(before, column, mode, s)[i], i, before, column, s, mode)
  {
    hide Inserted, Overwritten;
    PutCellsLength(before, column, mode, s);
    if mode.insertMode {
      InsertedAt(before, column, CellsOf(s, mode.style), i);
    } else {
      OverwrittenAt(before, column, CellsOf(s, mode.style), mode.width, i);
    }
  }

  lemma PutCellsShow(before: seq<Cell>, column: nat, mode: Mode, s: Text)
    requires column < mode.width && column + |s| <= mode.width
    ensures |PutCells(before, column, mode, s)| == LengthWith(before, column, s, mode)
    ensures Shows(Clipped(PutCells(before, column, mode, s), mode.width), before, column, s, mode)
  {
    hide PutCells, CellShows, LengthWith;
    PutCellsLength(before, column, mode, s);
    forall i | 0 <= i < LengthWith(before, column, s, mode)
      ensures CellShows(PutCells(before, column, mode, s)[i], i, before, column, s, mode)
    {
      PutCellAt(before, column, mode, s, i);
    }
  }

  /** Putting a piece into the cursor's row. */
  lemma PutShows(g: Grid, mode: Mode, s: Text)
    requires InGrid(g, mode) && g.column + |s| <= mode.width
    ensures var r := Put(g, mode, s);
            && Shows(r.rows[g.row], g.rows[g.row], g.column, s, mode)
            && |r.rows| == |g.rows| && (forall k | 0 <= k < |g.rows| && k != g.row :: r.rows[k] == g.rows[k])
            && r.row == g.row && r.column == Smaller(g.column + |s|, mode.width - 1)
            && r.overflow == (g.column + |s| >= mode.width
                              || (g.overflow && LengthWith(g.rows[g.row], g.column, s, mode) <= mode.width))
  {
    hide PutCells, Clipped, Shows, LengthWith;
    PutCellsShow(g.rows[g.row], g.column, mode, s);
  }

  /** The text in the pieces that go into one row each: the first has `first` columns. */
  function Pieces(str: Text, first: nat, width: nat): (r: seq<Text>)
    requires width > 0
    ensures r != []
  {
    if |str| <= first then [str] else [str[..first]] + Chunks(str[first..], width)
  }

  /** Where the text starts: with a wrap pending, in the next row. */
  function StartRow(g: Grid): nat { if g.overflow then g.row + 1 else g.row }

  function StartColumn(g: Grid): nat { if g.overflow then 0 else g.column }

  function RowBefore(g: Grid, mode: Mode, k: nat): seq<Cell> {
    if k < |g.rows| then g.rows[k] else mode.blank
  }

  /** After printing with wraparound each row from the start on shows its piece of the text over, or
      in insert mode in front of, what it showed before; there are as many rows as that takes, no
      other row has changed, and the cursor stands behind the text. */
  predicate ShowsText(g: Grid, mode: Mode, str: Text, p: Grid)
    requires InGrid(g, mode)
  {
    var row, column := StartRow(g), StartColumn(g);
    var pieces := Pieces(str, mode.width - column, mode.width);
    var last := pieces[|pieces| - 1];
    && p.row + 1 == row + |pieces| && |p.rows| == Larger(|g.rows|, p.row + 1)
    && (forall k | row <= k <= p.row ::
          Shows(p.rows[k], RowBefore(g, mode, k), if k == row then column else 0, pieces[k - row], mode))
    && (forall k | 0 <= k < |p.rows| && !(row <= k <= p.row) :: p.rows[k] == g.rows[k])
    && var end := |last| + if |pieces| == 1 then column else 0;
       p.column == Smaller(end, mode.width - 1) && (p.overflow <==> end == mode.width)
  }

  lemma PiecesFit(str: Text, first: nat, width: nat)
    requires 0 < first <= width
    ensures var ps := Pieces(str, first, width);
            |ps[0]| <= first && (|ps| == 1 <==> |str| <= first) && (|ps| > 1 ==> |ps[0]| == first && ps[1..] == Chunks(str[first..], width))
  {
    hide Chunks;
  }

  lemma ChunksArePieces(str: Text, width: nat)
    requires width > 0
    ensures Chunks(str, width) == Pieces(str, width, width)
  {
    hide Pieces;
    assert Pieces(str, width, width) == if |str| <= width then [str] else [str[..width]] + Chunks(str[width..], width) by { PiecesIs(str, width, width); }
  }

  lemma PiecesIs(str: Text, first: nat, width: nat)
    requires width > 0
    ensures Pieces(str, first, width) == if |str| <= first then [str] else [str[..first]] + Chunks(str[first..], width)
  {
    hide Chunks;
  }

  /** The text of every grid, over whatever it showed. */
  lemma {:induction false} PrintedShows(g: Grid, mode: Mode, str: Text)
    requires InGrid(g, mode) && mode.wraparound && mode.region.None? && str != []
    ensures ShowsText(g, mode, str, Printed(g, mode, str))
    decreases |str|, if g.overflow then 1 else 0
  {
    hide Put, Pieces, Printed, ShowsText, Shows;
    if g.overflow {
      WrapsFirst(g, mode, str);
      var n := NextRow(g, mode);
      PrintedShows(n, mode, str);
      ShowsFromNext(g, mode, str, Printed(n, mode, str));
    } else {
      var first := mode.width - g.column;
      PrintedStep(g, mode, str);
      PiecesFit(str, first, mode.width);
      if |str| <= first {
        assert Piece(g, mode, str) == str;
        assert str[Taken(g, mode, str)..] == [];
        PutShows(g, mode, str);
        PrintedNothing(Put(g, mode, str), mode);
        ShowsOne(g, mode, str, Put(g, mode, str));
      } else {
        var piece := str[..first];
        assert Piece(g, mode, str) == piece && Taken(g, mode, str) == first;
        PutShows(g, mode, piece);
        var q := Put(g, mode, piece);
        PrintedShows(q, mode, str[first..]);
        ShowsMore(g, q, mode, str, Printed(q, mode, str[first..]));
      }
    }
  }

  lemma ShowsFromNext(g: Grid, mode: Mode, str: Text, p: Grid)
    requires InGrid(g, mode) && mode.region.None? && g.overflow
    requires ShowsText(NextRow(g, mode), mode, str, p)
    ensures ShowsText(g, mode, str, p)
  {
    hide Pieces, Shows;
    var n := NextRow(g, mode);
    var row, pieces := g.row + 1, Pieces(str, mode.width, mode.width);
    forall k | row <= k <= p.row ensures Shows(p.rows[k], RowBefore(g, mode, k), if k == row then 0 else 0, pieces[k - row], mode) {
      assert RowBefore(g, mode, k) == RowBefore(n, mode, k);
    }
  }

  lemma ShowsOne(g: Grid, mode: Mode, str: Text, p: Grid)
    requires InGrid(g, mode) && !g.overflow && g.column + |str| <= mode.width
    requires |p.rows| == |g.rows| && (forall k | 0 <= k < |g.rows| && k != g.row :: p.rows[k] == g.rows[k])
    requires Shows(p.rows[g.row], g.rows[g.row], g.column, str, mode)
    requires p.row == g.row && p.column == Smaller(g.column + |str|, mode.width - 1) && p.overflow == (g.column + |str| >= mode.width)
    ensures ShowsText(g, mode, str, p)
  {
    hide Shows, Pieces;
    PiecesIs(str, mode.width - g.column, mode.width);
  }

  lemma MorePieces(str: Text, first: nat, width: nat)
    requires width > 0 && |str| > first
    ensures Pieces(str, first, width) == [str[..first]] + Pieces(str[first..], width, width)
  {
    hide Pieces, Chunks;
    PiecesIs(str, first, width);
    ChunksArePieces(str[first..], width);
  }

  lemma ShowsMore(g: Grid, q: Grid, mode: Mode, str: Text, p: Grid)
    requires InGrid(g, mode) && InGrid(q, mode) && mode.region.None? && !g.overflow && |str| > mode.width - g.column
    requires |q.rows| == |g.rows| && (forall k | 0 <= k < |g.rows| && k != g.row :: q.rows[k] == g.rows[k])
    requires Shows(q.rows[g.row], g.rows[g.row], g.column, str[..mode.width - g.column], mode)
    requires q.row == g.row && q.overflow && ShowsText(q, mode, str[mode.width - g.column..], p)
    ensures ShowsText(g, mode, str, p)
  {
    hide Shows, Pieces;
    var first := mode.width - g.column;
    MorePieces(str, first, mode.width);
    var pieces, more := Pieces(str, first, mode.width), Pieces(str[first..], mode.width, mode.width);
    assert |pieces| == 1 + |more| && pieces[|pieces| - 1] == more[|more| - 1];
    forall k | g.row <= k <= p.row
      ensures Shows(p.rows[k], RowBefore(g, mode, k), if k == g.row then g.column else 0, pieces[k - g.row], mode)
    {
      RowOfMore(g, q, mode, str[..first], more, p, k);
    }
  }

  lemma RowOfMore(g: Grid, q: Grid, mode: Mode, first: Text, more: seq<Text>, p: Grid, k: nat)
    requires |q.rows| == |g.rows| && g.row < |g.rows| && (forall k | 0 <= k < |g.rows| && k != g.row :: q.rows[k] == g.rows[k])
    requires g.row <= k < |p.rows| && k - g.row <= |more|
    requires k == g.row ==> p.rows[k] == q.rows[k] && Shows(q.rows[k], g.rows[k], g.column, first, mode)
    requires k > g.row ==> Shows(p.rows[k], RowBefore(q, mode, k), 0, more[k - g.row - 1], mode)
    ensures Shows(p.rows[k], RowBefore(g, mode, k), if k == g.row then g.column else 0, ([first] + more)[k - g.row], mode)
  {
    hide Shows;
  }

  /** What goes into the row without wraparound: text that does not fit loses its middle, and its
      last character takes the last column. */
  function FittedText(str: Text, room: nat): Text
    requires room > 0 && str != []
  {
    if |str| < room then str else str[..room - 1] + [str[|str| - 1]]
  }

  /** Without wraparound only the cursor's row changes. */
  predicate ShowsFitted(g: Grid, mode: Mode, str: Text, p: Grid)
    requires InGrid(g, mode) && str != []
  {
    var s := FittedText(str, mode.width - g.column);
    && |p.rows| == |g.rows| && p.row == g.row && Shows(p.rows[g.row], g.rows[g.row], g.column, s, mode)
    && (forall k | 0 <= k < |g.rows| && k != g.row :: p.rows[k] == g.rows[k])
    && p.column == Smaller(g.column + |s|, mode.width - 1)
  }

  lemma UnwrappedShows(g: Grid, mode: Mode, str: Text)
    requires InGrid(g, mode) && !mode.wraparound && str != []
    ensures ShowsFitted(g, mode, str, Printed(g, mode, str))
  {
    hide Put, Printed, Shows;
    PrintedStep(g, mode, str);
    var s := FittedText(str, mode.width - g.column);
    assert Piece(g, mode, str) == s;
    PutShows(g, mode, s);
    assert str[Taken(g, mode, str)..] == [];
    PrintedNothing(Put(g, mode, s), mode);
  }

  // ----- printing with a scroll region

  /** What is left to see of a roll of rows that grows at its end, when all rows that do not fit
      leave from row `top` on; `below` are the rows below the region. */
  function View(roll: Grid, region: Region, below: seq<seq<Cell>>): (g: Grid)
    requires Rolls(roll, region)
    ensures g.row <= region.bottom < |g.rows|
  {
    var k := |roll.rows| - (region.bottom + 1);
    Grid(roll.rows[..region.top] + roll.rows[region.top + k..] + below, roll.row - k, roll.column, roll.overflow)
  }

  predicate Rolls(roll: Grid, region: Region) {
    && region.top <= region.bottom < |roll.rows| && roll.row < |roll.rows|
    && (|roll.rows| == region.bottom + 1 || roll.row == |roll.rows| - 1)
  }

  lemma ViewAt(roll: Grid, region: Region, below: seq<seq<Cell>>)
    requires Rolls(roll, region)
    ensures var g := View(roll, region, below);
            var k := |roll.rows| - (region.bottom + 1);
            && |g.rows| == region.bottom + 1 + |below| && g.row == roll.row - k
            && g.column == roll.column && g.overflow == roll.overflow
            && (forall i | 0 <= i < region.top :: g.rows[i] == roll.rows[i])
            && (forall i | region.top <= i <= region.bottom :: g.rows[i] == roll.rows[i + k])
            && (forall i | region.bottom < i < |g.rows| :: g.rows[i] == below[i - (region.bottom + 1)])
            && g.rows[g.row] == roll.rows[roll.row]
  {
  }

  lemma ScrolledAt(rows: seq<seq<Cell>>, region: Region, blank: seq<Cell>)
    requires region.top <= region.bottom < |rows|
    ensures var r := Scrolled(rows, region, blank);
            && (forall i | 0 <= i < |rows| && !(region.top <= i <= region.bottom) :: r[i] == rows[i])
            && (forall i | region.top <= i < region.bottom :: r[i] == rows[i + 1]) && r[region.bottom] == blank
  {
  }

  lemma ViewNextRow(roll: Grid, mode: Mode, region: Region, below: seq<seq<Cell>>)
    requires Rolls(roll, region) && InGrid(roll, mode) && mode.region.None?
    ensures Rolls(NextRow(roll, mode), region)
    ensures var scrolling := mode.(region := Some(region));
            InGrid(View(roll, region, below), scrolling)
            && View(NextRow(roll, mode), region, below) == NextRow(View(roll, region, below), scrolling)
  {
    hide View, Scrolled;
    var g, next := View(roll, region, below), NextRow(roll, mode);
    ViewAt(roll, region, below);
    ViewAt(next, region, below);
    if roll.row == |roll.rows| - 1 {
      ScrolledAt(g.rows, region, mode.blank);
      assert View(next, region, below).rows == Scrolled(g.rows, region, mode.blank);
    } else {
      assert View(next, region, below).rows == g.rows;
    }
  }

  lemma ViewPut(roll: Grid, mode: Mode, region: Region, below: seq<seq<Cell>>, s: Text)
    requires Rolls(roll, region) && InGrid(roll, mode) && mode.region.None?
    ensures Rolls(Put(roll, mode, s), region)
    ensures var scrolling := mode.(region := Some(region));
            InGrid(View(roll, region, below), scrolling)
            && View(Put(roll, mode, s), region, below) == Put(View(roll, region, below), scrolling, s)
  {
    hide PutCells, Clipped, View;
    var g := View(roll, region, below);
    var scrolling := mode.(region := Some(region));
    ViewAt(roll, region, below);
    ViewAt(Put(roll, mode, s), region, below);
    SameCells(roll.rows[roll.row], roll.column, mode, scrolling, s);
    assert View(Put(roll, mode, s), region, below).rows == Put(g, scrolling, s).rows;
  }

  lemma SameCells(cells: seq<Cell>, column: nat, m: Mode, n: Mode, s: Text)
    requires column < m.width && m.width == n.width && m.insertMode == n.insertMode && m.style == n.style
    ensures PutCells(cells, column, m, s) == PutCells(cells, column, n, s)
  {
  }

  /** Printing with the cursor above the region's end is printing on an endless roll, of which
      the region goes on showing the last rows. */
  lemma {:induction false} PrintedOnRoll(roll: Grid, mode: Mode, region: Region, below: seq<seq<Cell>>, str: Text)
    requires Rolls(roll, region) && InGrid(roll, mode) && mode.region.None?
    ensures var scrolling := mode.(region := Some(region));
            && Rolls(Printed(roll, mode, str), region) && InGrid(View(roll, region, below), scrolling)
            && Printed(View(roll, region, below), scrolling, str) == View(Printed(roll, mode, str), region, below)
    decreases |str|
  {
    hide Put, Piece, Taken, Printed, NextRow, View;
    var scrolling := mode.(region := Some(region));
    var g := View(roll, region, below);
    ViewNextRow(roll, mode, region, below);
    if str == [] {
      PrintedNothing(roll, mode);
      PrintedNothing(g, scrolling);
    } else {
      PrintedStep(roll, mode, str);
      PrintedStep(g, scrolling, str);
      var wrapped := Wrapped(roll, mode);
      ViewAt(roll, region, below);
      assert Wrapped(g, scrolling) == View(wrapped, region, below);
      ViewAt(wrapped, region, below);
      SamePiece(wrapped, View(wrapped, region, below), mode, scrolling, str);
      ViewPut(wrapped, mode, region, below, Piece(wrapped, mode, str));
      PrintedOnRoll(Put(wrapped, mode, Piece(wrapped, mode, str)), mode, region, below, str[Taken(wrapped, mode, str)..]);
    }
  }

  lemma SamePiece(a: Grid, b: Grid, m: Mode, n: Mode, rest: Text)
    requires InGrid(a, m) && InGrid(b, n) && a.column == b.column && rest != []
    requires m.width == n.width && m.wraparound == n.wraparound
    ensures Piece(a, m, rest) == Piece(b, n, rest) && Taken(a, m, rest) == Taken(b, n, rest)
  {
  }

  /** The rows down to the region's end as such a roll. */
  function Roll(g: Grid, region: Region): Grid
    requires region.bottom < |g.rows|
  {
    g.(rows := g.rows[..region.bottom + 1])
  }

  lemma PrintedInRegion(g: Grid, mode: Mode, str: Text)
    requires InGrid(g, mode) && mode.region.Some? && g.row <= mode.region.value.bottom
    ensures var region := mode.region.value;
            var free := mode.(region := None);
            && InGrid(Roll(g, region), free) && Rolls(Printed(Roll(g, region), free, str), region)
            && Printed(g, mode, str) == View(Printed(Roll(g, region), free, str), region, g.rows[region.bottom + 1..])
  {
    hide Printed;
    var region := mode.region.value;
    var free := mode.(region := None);
    var below := g.rows[region.bottom + 1..];
    var roll := Roll(g, region);
    assert roll.rows[..region.top] + roll.rows[region.top..] + below == g.rows;
    assert View(roll, region, below) == g;
    assert free.(region := Some(region)) == mode;
    PrintedOnRoll(roll, free, region, below, str);
  }

  /** Rows above the cursor stay as they are. */
  lemma {:induction false} PrintedKeepsAbove(g: Grid, mode: Mode, str: Text)
    requires InGrid(g, mode) && (mode.region.Some? ==> g.row > mode.region.value.bottom)
    ensures var p := Printed(g, mode, str);
            && p.row >= g.row && |p.rows| >= |g.rows| && p.rows[..g.row] == g.rows[..g.row]
            && (mode.region.Some? ==> |p.rows| == |g.rows|)
    decreases |str|
  {
    hide Put, Piece, Taken, Printed;
    if str == [] {
      PrintedNothing(g, mode);
    } else {
      PrintedStep(g, mode, str);
      var wrapped := Wrapped(g, mode);
      assert wrapped.rows[..g.row] == g.rows[..g.row];
      var piece := Piece(wrapped, mode, str);
      PutKeepsAbove(wrapped, mode, piece);
      var put := Put(wrapped, mode, piece);
      PrintedKeepsAbove(put, mode, str[Taken(wrapped, mode, str)..]);
      var p := Printed(g, mode, str);
      assert p.rows[..g.row] == p.rows[..put.row][..g.row] && put.rows[..put.row][..g.row] == put.rows[..g.row];
      assert wrapped.rows[..wrapped.row][..g.row] == wrapped.rows[..g.row];
    }
  }

  lemma PutKeepsAbove(g: Grid, mode: Mode, s: Text)
    requires InGrid(g, mode)
    ensures var r := Put(g, mode, s);
            InGrid(r, mode) && r.row == g.row && |r.rows| == |g.rows| && r.rows[..g.row] == g.rows[..g.row]
  {
    hide PutCells, Clipped;
  }

  /** With the cursor in the region, rows outside of it stay as they are, and the cursor stays in it. */
  lemma OutsideStays(g: Grid, mode: Mode, str: Text)
    requires InGrid(g, mode) && mode.region.Some? && mode.region.value.top <= g.row <= mode.region.value.bottom
    ensures var region := mode.region.value;
            var p := Printed(g, mode, str);
            && region.top <= p.row <= region.bottom && |p.rows| == |g.rows|
            && p.rows[..region.top] == g.rows[..region.top] && p.rows[region.bottom + 1..] == g.rows[region.bottom + 1..]
  {
    hide Printed, View;
    var region := mode.region.value;
    var free := mode.(region := None);
    var roll, below := Roll(g, region), g.rows[region.bottom + 1..];
    PrintedInRegion(g, mode, str);
    PrintedKeepsAbove(roll, free, str);
    var r := Printed(roll, free, str);
    ViewAt(r, region, below);
    ViewOutside(r, region, below);
    assert r.rows[..region.top] == r.rows[..g.row][..region.top] == roll.rows[..g.row][..region.top] == g.rows[..region.top];
  }

  /** On blank rows the region goes on showing the last pieces of the text, as many as it has room for. */
  lemma RegionShowsLast(g: Grid, mode: Mode, str: Text)
    requires InGrid(g, mode) && mode.region.Some? && mode.region.value.top <= g.row <= mode.region.value.bottom
    requires g.column == 0 && !g.overflow && BlankFrom(Roll(g, mode.region.value))
    requires mode.wraparound && !mode.insertMode && mode.blank == [] && str != []
    ensures var region := mode.region.value;
            var p := Printed(g, mode, str);
            var chunks := Chunks(str, mode.width);
            var n := Visible(|chunks|, p.row, region.top);
            && n <= p.row + 1 <= |p.rows|
            && p.rows[p.row + 1 - n..p.row + 1] == ChunkCells(chunks[|chunks| - n..], mode.style)
  {
    hide Printed, Chunks, ChunkCells, View, Rolls, Roll, BlankFrom, Visible;
    var region := mode.region.value;
    var free, roll, below := mode.(region := None), Roll(g, region), g.rows[region.bottom + 1..];
    RollIs(g, region);
    PrintedInRegion(g, mode, str);
    PrintedOnBlank(roll, free, str);
    var r := Printed(roll, free, str);
    var chunks := Chunks(str, mode.width);
    ViewShowsLast(r, region, below, g.row, ChunkCells(chunks, mode.style));
    LastCells(chunks, Visible(|chunks|, View(r, region, below).row, region.top), mode.style);
  }

  lemma RollIs(g: Grid, region: Region)
    requires region.bottom < |g.rows|
    ensures Roll(g, region) == Grid(g.rows[..region.bottom + 1], g.row, g.column, g.overflow)
  {
  }

  /** How many of the pieces the rows from `top` to `row` have room for. */
  function Visible(pieces: nat, row: nat, top: nat): nat {
    if pieces <= row + 1 - top then pieces else if top <= row then row + 1 - top else 0
  }

  lemma LastCells(chunks: seq<Text>, n: nat, style: Style)
    requires n <= |chunks|
    ensures ChunkCells(chunks, style)[|chunks| - n..] == ChunkCells(chunks[|chunks| - n..], style)
  {
    hide CellsOf;
  }

  lemma SliceFrom<T>(s: seq<T>, t: seq<T>, c: nat, d: int)
    requires c <= |t| && 0 <= c + d && |t| + d <= |s| && forall j | c <= j < |t| :: s[j + d] == t[j]
    ensures s[c + d..|t| + d] == t[c..]
  {
    assert forall j | 0 <= j < |t| - c :: t[c..][j] == t[j + c] && s[c + d..|t| + d][j] == s[j + c + d];
  }

  lemma ViewOutside(r: Grid, region: Region, below: seq<seq<Cell>>)
    requires Rolls(r, region)
    ensures var g := View(r, region, below);
            g.rows[..region.top] == r.rows[..region.top] && g.rows[region.bottom + 1..] == below
  {
    hide View;
    ViewAt(r, region, below);
  }

  lemma ViewShowsLast(r: Grid, region: Region, below: seq<seq<Cell>>, start: nat, pieces: seq<seq<Cell>>)
    requires Rolls(r, region) && region.top <= start && r.row + 1 == start + |pieces| && pieces != []
    requires r.rows[start..r.row + 1] == pieces
    ensures var g := View(r, region, below);
            var n := Visible(|pieces|, g.row, region.top);
            && n <= |pieces| && n <= g.row + 1 && g.row < |g.rows|
            && g.rows[g.row + 1 - n..g.row + 1] == pieces[|pieces| - n..]
  {
    hide View, Rolls;
    ViewShape(r, region, below);
    var g := View(r, region, below);
    var n := Visible(|pieces|, g.row, region.top);
    var d := g.row + 1 - |pieces|;
    forall j | |pieces| - n <= j < |pieces| ensures g.rows[j + d] == pieces[j] {
      ViewRow(r, region, below, j + d);
      assert pieces[j] == r.rows[start..r.row + 1][j] == r.rows[start + j];
    }
    SliceFrom(g.rows, pieces, |pieces| - n, d);
  }

  lemma ViewShape(r: Grid, region: Region, below: seq<seq<Cell>>)
    requires Rolls(r, region)
    ensures var g := View(r, region, below);
            && |g.rows| == region.bottom + 1 + |below| && region.bottom < |r.rows|
            && g.row == r.row + region.bottom + 1 - |r.rows| && g.row <= region.bottom
  {
  }

  lemma ViewRow(r: Grid, region: Region, below: seq<seq<Cell>>, i: nat)
    requires Rolls(r, region) && region.top <= i <= region.bottom
    ensures View(r, region, below).rows[i] == r.rows[i + |r.rows| - (region.bottom + 1)]
  {
  }

  /** Below the region text is printed as if there were none, as far as the screen has room for it. */
  lemma {:induction false} PrintedBelow(g: Grid, mode: Mode, str: Text)
    requires InGrid(g, mode) && mode.wraparound && mode.region.Some? && g.row > mode.region.value.bottom && str != []
    requires StartRow(g) + |Pieces(str, mode.width - StartColumn(g), mode.width)| <= |g.rows|
    ensures Printed(g, mode, str) == Printed(g, mode.(region := None), str)
    decreases |str|, if g.overflow then 1 else 0
  {
    hide Put, Pieces, Printed, Piece, Taken, NextRow;
    var free := mode.(region := None);
    PiecesIs(str, mode.width - StartColumn(g), mode.width);
    if g.overflow {
      WrapsFirst(g, mode, str);
      WrapsFirst(g, free, str);
      NextBelow(g, mode);
      PrintedBelow(NextRow(g, mode), mode, str);
    } else {
      var first := mode.width - g.column;
      PrintedStep(g, mode, str);
      PrintedStep(g, free, str);
      SamePiece(g, g, mode, free, str);
      TakesFirst(g, mode, str);
      var q := Put(g, mode, Piece(g, mode, str));
      PutFree(g, mode, Piece(g, mode, str));
      if |str| <= first {
        PrintedNothing(q, mode);
        PrintedNothing(q, free);
      } else {
        MorePieces(str, first, mode.width);
        PutShows(g, mode, Piece(g, mode, str));
        PrintedBelow(q, mode, str[first..]);
      }
    }
  }

  lemma NextBelow(g: Grid, mode: Mode)
    requires InGrid(g, mode) && mode.region.Some? && g.row > mode.region.value.bottom && g.row + 1 < |g.rows|
    ensures NextRow(g, mode) == NextRow(g, mode.(region := None)) == Grid(g.rows, g.row + 1, 0, false)
  {
  }

  lemma TakesFirst(g: Grid, mode: Mode, str: Text)
    requires InGrid(g, mode) && mode.wraparound && str != []
    ensures var first := mode.width - g.column;
            if |str| <= first then str[Taken(g, mode, str)..] == [] else Taken(g, mode, str) == first && Piece(g, mode, str) == str[..first]
  {
  }

  lemma PutFree(g: Grid, mode: Mode, s: Text)
    requires InGrid(g, mode)
    ensures Put(g, mode, s) == Put(g, mode.(region := None), s)
  {
    hide PutCells, Clipped;
    SameCells(g.rows[g.row], g.column, mode, mode.(region := None), s);
  }

  /** What print leaves on the grid, in every mode: the text in its rows, without wraparound in one
      row; with a region that has room to scroll, the last rows of such a text. */
  ghost predicate PrintShows(g: Grid, mode: Mode, str: Text, p: Grid)
    requires InGrid(g, mode) && str != []
  {
    if !mode.wraparound then ShowsFitted(g, mode, str, p)
    else
      match mode.region
      case None => ShowsText(g, mode, str, p)
      case Some(region) =>
        var free := mode.(region := None);
        if g.row <= region.bottom then
          exists roll :: Rolls(roll, region) && ShowsText(Roll(g, region), free, str, roll) && p == View(roll, region, g.rows[region.bottom + 1..])
        else
          && |p.rows| == |g.rows| && p.rows[..g.row] == g.rows[..g.row]
          && (StartRow(g) + |Pieces(str, mode.width - StartColumn(g), mode.width)| <= |g.rows| ==> ShowsText(g, free, str, p))
  }

  lemma PrintedMeans(g: Grid, mode: Mode, str: Text)
    requires InGrid(g, mode) && str != []
    ensures PrintShows(g, mode, str, Printed(g, mode, str))
  {
    hide Printed, ShowsFitted, ShowsText, View, Rolls, Pieces;
    var free := mode.(region := None);
    if !mode.wraparound {
      UnwrappedShows(g, mode, str);
    } else if mode.region.None? {
      PrintedShows(g, mode, str);
    } else if g.row <= mode.region.value.bottom {
      PrintedInRegion(g, mode, str);
      PrintedShows(Roll(g, mode.region.value), free, str);
    } else {
      PrintedKeepsAbove(g, mode, str);
      if StartRow(g) + |Pieces(str, mode.width - StartColumn(g), mode.width)| <= |g.rows| {
        PrintedBelow(g, mode, str);
        PrintedShows(g, free, str);
      }
    }
  }

  // ----- continued rows

  /** Between the rows `from` and `to` every row is marked as continued; those above keep their marks. */
  predicate Continued(before: seq<bool>, after: seq<bool>, from: nat, to: nat) {
    && from <= to <= |after| && from <= |before| && after[..from] == before[..from]
    && forall k | from <= k < to :: after[k]
  }

  lemma ContinuedHere(marks: seq<bool>, row: nat)
    requires row < |marks|
    ensures Continued(marks, marks, row, row)
  {
  }

  lemma ContinuedOn(a: seq<bool>, b: seq<bool>, c: seq<bool>, from: nat, mid: nat, to: nat)
    requires Continued(a, b, from, mid) && Continued(b, c, mid, to)
    ensures Continued(a, c, from, to)
  {
    assert c[..from] == c[..mid][..from];
    forall k | from <= k < to ensures c[k] {
      if k < mid {
        assert c[k] == c[..mid][k] == b[..mid][k];
      }
    }
  }

  /** getRowsText: the rows' text, with line breaks except after rows that are continued. */
  function RowsText(rows: seq<seq<Cell>>, marks: seq<bool>, start: nat, end: nat): Text
    requires end <= |rows| && |rows| == |marks|
    decreases end - start
  {
    if start >= end then []
    else Chars(rows[start]) + (if start + 1 < end && !marks[start] then [10] else []) + RowsText(rows, marks, start + 1, end)
  }

  lemma RowsTextStep(rows: seq<seq<Cell>>, marks: seq<bool>, i: nat, end: nat, text: Text)
    requires end <= |rows| && |rows| == |marks|
    ensures i >= end ==> text + RowsText(rows, marks, i, end) == text
    ensures i < end ==>
              var line := text + Chars(rows[i]);
              text + RowsText(rows, marks, i, end)
              == (if i + 1 < end && !marks[i] then line + [10] else line) + RowsText(rows, marks, i + 1, end)
  {
    hide Chars;
    if i < end {
      var rest := RowsText(rows, marks, i + 1, end);
      var lf: Text := if i + 1 < end && !marks[i] then [10] else [];
      Associates(text, Chars(rows[i]), lf);
      Associates(text, Chars(rows[i]) + lf, rest);
      assert text + Chars(rows[i]) + [] == text + Chars(rows[i]);
    }
  }

  /** Continued rows are read as one line. */
  lemma {:induction false} ContinuedText(rows: seq<seq<Cell>>, marks: seq<bool>, start: nat, chunks: seq<Text>, style: Style)
    requires start + |chunks| <= |rows| == |marks| && rows[start..start + |chunks|] == ChunkCells(chunks, style)
    requires forall k | start <= k < start + |chunks| - 1 :: marks[k]
    ensures RowsText(rows, marks, start, start + |chunks|) == Concat(chunks)
    decreases |chunks|
  {
    hide *;
    ConcatCons(chunks);
    if chunks == [] {
      RowsTextEnd(rows, marks, start);
    } else {
      FirstOfChunks(rows, start, chunks, style);
      CharsOf(chunks[0], style);
      ContinuedText(rows, marks, start + 1, chunks[1..], style);
      RowsTextUnbroken(rows, marks, start, start + |chunks|);
    }
  }

  lemma RowsTextEnd(rows: seq<seq<Cell>>, marks: seq<bool>, end: nat)
    requires end <= |rows| && |rows| == |marks|
    ensures RowsText(rows, marks, end, end) == []
  {
  }

  lemma RowsTextUnbroken(rows: seq<seq<Cell>>, marks: seq<bool>, i: nat, end: nat)
    requires i < end <= |rows| && |rows| == |marks| && (i + 1 < end ==> marks[i])
    ensures RowsText(rows, marks, i, end) == Chars(rows[i]) + RowsText(rows, marks, i + 1, end)
  {
    hide Chars;
  }

  lemma FirstOfChunks(rows: seq<seq<Cell>>, start: nat, chunks: seq<Text>, style: Style)
    requires start + |chunks| <= |rows| && rows[start..start + |chunks|] == ChunkCells(chunks, style) && chunks != []
    ensures rows[start] == CellsOf(chunks[0], style)
    ensures rows[start + 1..start + |chunks|] == ChunkCells(chunks[1..], style)
  {
    hide CellsOf;
    var part := rows[start..start + |chunks|];
    assert rows[start] == part[0] && rows[start + 1..start + |chunks|] == part[1..];
  }

  /** Text printed on blank rows reads back exactly, across wraps and rows added at the bottom. */
  lemma PrintedTextReadsBack(g: Grid, mode: Mode, str: Text, before: seq<bool>, after: seq<bool>)
    requires InGrid(g, mode) && g.column == 0 && !g.overflow && BlankFrom(g) && mode.wraparound && !mode.insertMode && str != []
    requires mode.blank == [] && mode.region.None?
    requires |after| == |Printed(g, mode, str).rows| && Continued(before, after, g.row, Printed(g, mode, str).row)
    ensures RowsText(Printed(g, mode, str).rows, after, g.row, Printed(g, mode, str).row + 1) == str
  {
    hide Printed, Chunks, ChunkCells, RowsText;
    PrintedOnBlank(g, mode, str);
    ChunksMakeText(str, mode.width);
    ContinuedText(Printed(g, mode, str).rows, after, g.row, Chunks(str, mode.width), mode.style);
  }
}
