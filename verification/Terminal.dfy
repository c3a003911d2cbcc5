/** hterm.Terminal: rows that scroll off the screen go to the scrollback; every row knows its
    index in the two together. */
module Terminal {
  import opened JsText
  import opened ScreenRow
  import opened RowMoves
  import S = Screen
  import P = Printing

  type RowNode = S.RowNode

  /** Rows with at least one run, and no empty span. */
  ghost predicate Proper(rows: seq<RowNode>)
    reads rows`runs
  {
    forall r | r in rows :: r.runs != [] && Settled(r.runs)
  }

  /** Row indices count up from `base`. */
  ghost predicate NumberedFrom(rows: seq<RowNode>, base: int)
    reads rows`rowIndex
  {
    forall k | 0 <= k < |rows| :: rows[k].rowIndex == base + k
  }

  ghost predicate Blank(r: RowNode)
    reads r
  {
    r.runs == [Run([], None)] && !r.lineOverflow
  }

  function ClampTo(n: int, low: int, high: int): (r: int)
    ensures low <= high ==> low <= r <= high && (r == n || (n < low && r == low) || (n > high && r == high))
  {
    if n < low then low else if n > high then high else n
  }

  function Least(a: nat, b: nat): (r: nat)
    ensures r <= a && r <= b && (r == a || r == b)
  {
    if a <= b then a else b
  }

  class Terminal {
    const primaryScreen: S.Screen
    const alternateScreen: S.Screen
    var screen: S.Screen
    var scrollbackRows: seq<RowNode>
    // screenSize
    var width: nat
    var height: nat
    // the scroll region, if there is one
    var vtScrollTop: Option<nat>
    var vtScrollBottom: Option<nat>
    // options
    var wraparound: bool
    var insertMode: bool

    ghost function Other(): S.Screen
      reads `screen
    {
      if screen == primaryScreen then alternateScreen else primaryScreen
    }

    /** All rows, in the order of the provider's indices. */
    ghost function Rows(): seq<RowNode>
      reads `screen, `scrollbackRows, screen`rowsArray
    {
      scrollbackRows + screen.rowsArray
    }

    ghost predicate Shape()
      reads `screen, `width, `height
      reads primaryScreen`columnCount, primaryScreen`textAttributes, alternateScreen`columnCount, alternateScreen`textAttributes
    {
      && primaryScreen != alternateScreen && (screen == primaryScreen || screen == alternateScreen)
      && primaryScreen.Valid() && alternateScreen.Valid()
      && width > 0 && height > 0 && screen.columnCount == width
    }

    /** No row is listed twice. */
    ghost predicate Apart()
      reads `screen, `scrollbackRows, screen`rowsArray, Other()`rowsArray
    {
      && Distinct(Rows()) && Distinct(Other().rowsArray)
      && forall r | r in Rows() :: r !in Other().rowsArray
    }

    /** The other screen keeps a consistent cursor and consecutive row indices. */
    ghost predicate OtherReady()
      reads `screen, Other(), Other().rowsArray, Other().cursorRowNode
    {
      && (if Other().rowsArray == [] then Other().cursorRowNode == null && Other().column == 0
          else Other().InPlace() && NumberedFrom(Other().rowsArray, Other().rowsArray[0].rowIndex))
      && Proper(Other().rowsArray)
    }

    /** What holds even in the middle of an operation. */
    ghost predicate Sound()
      reads this, primaryScreen, alternateScreen, scrollbackRows, primaryScreen.rowsArray, alternateScreen.rowsArray
      reads primaryScreen.cursorRowNode, alternateScreen.cursorRowNode
    {
      && Shape() && Apart() && OtherReady() && Proper(Rows())
      && (screen.cursorRowNode == null || screen.Placed())
    }

    ghost predicate Valid()
      reads this, primaryScreen, alternateScreen, scrollbackRows, primaryScreen.rowsArray, alternateScreen.rowsArray
      reads primaryScreen.cursorRowNode, alternateScreen.cursorRowNode
    {
      && Sound() && screen.InPlace() && screen.column < width
      && NumberedFrom(Rows(), 0) && |screen.rowsArray| == height
      && (vtScrollTop.Some? <==> vtScrollBottom.Some?)
      && (vtScrollTop.Some? ==> vtScrollTop.value <= vtScrollBottom.value < height)
    }

    /** Rows come with the first call of realizeHeight_. */
    constructor (width: nat, height: nat, attributes: Attributes)
      requires width > 0 && height > 0 && Consistent(attributes)
      ensures Sound() && Rows() == [] && NumberedFrom(Rows(), 0)
    {
      var primary := new S.Screen(width, attributes);
      var alternate := new S.Screen(width, attributes);
      primaryScreen, alternateScreen, screen := primary, alternate, primary;
      scrollbackRows := [];
      this.width, this.height := width, height;
      vtScrollTop, vtScrollBottom := None, None;
      wraparound, insertMode := true, false;
    }

    function GetVTScrollTop(): nat
      reads `vtScrollTop
    {
      if vtScrollTop.Some? then vtScrollTop.value else 0
    }

    function GetVTScrollBottom(): int
      reads `vtScrollBottom, `height
    {
      if vtScrollBottom.Some? then vtScrollBottom.value else height - 1
    }

    // ----- row provider

    function GetRowNode(index: nat): RowNode
      requires index < |scrollbackRows| + |screen.rowsArray|
      reads this, screen
    {
      if index < |scrollbackRows| then scrollbackRows[index] else screen.rowsArray[index - |scrollbackRows|]
    }

    function GetRowText(index: nat): Text
      requires index < |scrollbackRows| + |screen.rowsArray|
      reads this, screen, GetRowNode(index)
    {
      TextContent(GetRowNode(index).runs)
    }

    // ----- cursor

    method SetAbsoluteCursorPosition(row: int, column: int)
      requires Sound() && screen.rowsArray != []
      modifies screen`row, screen`column, screen`overflow, screen`cursorRowNode, screen`cursorNode, screen`cursorOffset
      ensures Sound() && screen.InPlace() && !screen.overflow
      ensures screen.row == Least(ClampTo(row, 0, height - 1), |screen.rowsArray| - 1)
      ensures screen.column == ClampTo(column, 0, width - 1)
    {
      hide Distinct, NumberedFrom, Cells, Settled, Cached, OtherReady;
      screen.SetCursorPosition(ClampTo(row, 0, height - 1), ClampTo(column, 0, width - 1));
    }

    method RestoreCursor(row: int, column: int, overflow: bool)
      requires Sound() && screen.rowsArray != []
      modifies screen`row, screen`column, screen`overflow, screen`cursorRowNode, screen`cursorNode, screen`cursorOffset
      ensures Sound() && screen.InPlace()
      ensures screen.row == Least(ClampTo(row, 0, height - 1), |screen.rowsArray| - 1)
      ensures screen.column == ClampTo(column, 0, width - 1)
      ensures screen.overflow == (column >= width || (column >= 0 && overflow))
    {
      hide Distinct, NumberedFrom, Cells, Settled, Cached, OtherReady;
      SetAbsoluteCursorPosition(row, column);
      if column > screen.column || (column == screen.column && overflow) {
        screen.overflow := true;
      }
    }

    // ----- new rows

    /** Creates a row below the others. */
    method PushBlankRow(rowIndex: nat) returns (row: RowNode)
      requires Sound() && NumberedFrom(Rows(), 0) && rowIndex == |Rows()|
      modifies screen`rowsArray
      ensures Sound() && NumberedFrom(Rows(), 0)
      ensures screen.rowsArray == old(screen.rowsArray) + [row] && Rows() == old(Rows()) + [row]
      ensures fresh(row) && Blank(row)
    {
      hide Distinct, Proper, NumberedFrom, Cells, Settled, Blank, Cached, OtherReady;
      row := new S.RowNode(rowIndex);
      row.runs := [Run([], None)];
      ghost var rows := Rows();
      AppendedRow(rows, row);
      Associates(scrollbackRows, screen.rowsArray, [row]);
      screen.PushRow(row);
    }

    /** The loop of appendRows_. */
    method PushBlankRows(count: nat)
      requires Sound() && NumberedFrom(Rows(), 0)
      modifies screen`rowsArray
      ensures Sound() && NumberedFrom(Rows(), 0)
      ensures |screen.rowsArray| == old(|screen.rowsArray|) + count
      ensures |Rows()| == |old(Rows())| + count && Rows()[..|old(Rows())|] == old(Rows())
      ensures forall k | |old(Rows())| <= k < |Rows()| :: fresh(Rows()[k]) && Blank(Rows()[k])
    {
      hide Distinct, Proper, NumberedFrom, Cells, Settled, Blank, Cached, Sound;
      var offset := |scrollbackRows| + |screen.rowsArray|;
      ghost var before := Rows();
      assert Rows()[..offset] == before;
      for i := 0 to count
        invariant Sound() && NumberedFrom(Rows(), 0)
        invariant |screen.rowsArray| == old(|screen.rowsArray|) + i && |Rows()| == offset + i
        invariant Rows()[..offset] == before
        invariant forall k | offset <= k < |Rows()| :: fresh(Rows()[k]) && Blank(Rows()[k])
      {
        var row := PushBlankRow(offset + i);
      }
    }

    /** Rows go from the top of the screen to the end of the scrollback. */
    method ScrollOff(count: nat)
      requires Sound() && count <= |screen.rowsArray|
      modifies `scrollbackRows, screen`rowsArray
      ensures Sound() && Rows() == old(Rows()) && |screen.rowsArray| == old(|screen.rowsArray|) - count
    {
      hide Distinct, Proper, NumberedFrom, Cells, Settled, Cached, OtherReady;
      var ary := screen.ShiftRows(count);
      Associates(scrollbackRows, ary, screen.rowsArray);
      scrollbackRows := scrollbackRows + ary;
    }

    /** appendRows_: rows that no longer fit on the screen go to the scrollback. */
    method AppendRows(count: nat)
      requires Sound() && NumberedFrom(Rows(), 0) && |screen.rowsArray| + count > 0
      modifies this`scrollbackRows, screen
      ensures Sound() && screen.InPlace() && NumberedFrom(Rows(), 0)
      ensures |Rows()| == |old(Rows())| + count && Rows()[..|old(Rows())|] == old(Rows())
      ensures forall k | |old(Rows())| <= k < |Rows()| :: fresh(Rows()[k]) && Blank(Rows()[k])
      ensures |screen.rowsArray| == Least(old(|screen.rowsArray|) + count, height)
      ensures screen.row == Least(old(|screen.rowsArray|), |screen.rowsArray| - 1) && screen.column == 0 && !screen.overflow
      ensures unchanged(screen`columnCount) && unchanged(screen`textAttributes)
    {
      hide Distinct, Proper, NumberedFrom, Cells, Settled, Blank, Cached, OtherReady;
      var cursorRow := |screen.rowsArray|;
      PushBlankRows(count);
      var extraRows := |screen.rowsArray| - height;
      if extraRows > 0 {
        ScrollOff(extraRows);
      }
      if cursorRow >= |screen.rowsArray| {
        cursorRow := |screen.rowsArray| - 1;
      }
      SetAbsoluteCursorPosition(cursorRow, 0);
    }
  
    // ----- height

    /** Empty rows are dropped from the bottom, but not the cursor's row or a row above it. */
    method PopEmptyRows(cursorRow: nat, limit: nat) returns (popped: nat)
      requires Sound() && NumberedFrom(Rows(), 0) && cursorRow < |screen.rowsArray| && limit < |screen.rowsArray|
      modifies screen`rowsArray
      ensures Sound() && NumberedFrom(Rows(), 0)
      ensures popped <= limit && |screen.rowsArray| + popped == old(|screen.rowsArray|) && cursorRow < |screen.rowsArray|
      ensures |Rows()| + popped == |old(Rows())| && Rows() == old(Rows())[..|Rows()|]
      ensures forall k | |Rows()| <= k < |old(Rows())| ::
                k > |scrollbackRows| + cursorRow && TextContent(old(Rows())[k].runs) == []
      ensures popped < limit ==> |screen.rowsArray| == cursorRow + 1 || TextContent(Rows()[|Rows()| - 1].runs) != []
    {
      hide Distinct, Proper, NumberedFrom, Cells, Settled, Cached, OtherReady, TextContent;
      popped := 0;
      ghost var before := Rows();
      assert Rows() == before[..|Rows()|];
      while popped < limit
        invariant Sound() && NumberedFrom(Rows(), 0) && screen == old(screen)
        invariant popped <= limit && |screen.rowsArray| + popped == old(|screen.rowsArray|) && cursorRow < |screen.rowsArray|
        invariant |Rows()| + popped == |before| && Rows() == before[..|Rows()|]
        invariant forall k | |Rows()| <= k < |before| ::
                    k > |scrollbackRows| + cursorRow && TextContent(before[k].runs) == []
      {
        var lastRow := |scrollbackRows| + |screen.rowsArray| - 1;
        if lastRow - |scrollbackRows| == cursorRow {
          break;
        }
        if GetRowText(lastRow) != [] {
          break;
        }
        PopRow();
        popped := popped + 1;
      }
    }

    method PopRow()
      requires Sound() && NumberedFrom(Rows(), 0) && screen.rowsArray != []
      modifies screen`rowsArray
      ensures Sound() && NumberedFrom(Rows(), 0)
      ensures |screen.rowsArray| + 1 == old(|screen.rowsArray|)
      ensures |Rows()| + 1 == |old(Rows())| && Rows() == old(Rows())[..|Rows()|]
    {
      hide Distinct, Proper, NumberedFrom, Cells, Settled, Cached, OtherReady;
      var popped := screen.PopRow();
      Associates(scrollbackRows, screen.rowsArray, [popped]);
      FewerRows(Rows(), popped);
    }

    /** Rows come back from the end of the scrollback to the top of the screen. */
    method ScrollBack(count: nat)
      requires Sound() && count <= |scrollbackRows|
      modifies `scrollbackRows, screen`rowsArray
      ensures Sound() && Rows() == old(Rows()) && |screen.rowsArray| == old(|screen.rowsArray|) + count
    {
      hide Distinct, Proper, NumberedFrom, Cells, Settled, Cached, OtherReady;
      var rows := scrollbackRows[|scrollbackRows| - count..];
      assert scrollbackRows == scrollbackRows[..|scrollbackRows| - count] + rows;
      Associates(scrollbackRows[..|scrollbackRows| - count], rows, screen.rowsArray);
      scrollbackRows := scrollbackRows[..|scrollbackRows| - count];
      screen.UnshiftRows(rows);
    }

    /** The first part of realizeHeight_: the screen gets smaller. Empty rows below the cursor
        are dropped first; what is still too much goes to the scrollback. */
    method Shrink(deltaRows: nat, cursorRow: nat) returns (newCursorRow: nat)
      requires Sound() && NumberedFrom(Rows(), 0) && cursorRow < |screen.rowsArray| && deltaRows < |screen.rowsArray|
      modifies `scrollbackRows, screen`rowsArray
      ensures Sound() && NumberedFrom(Rows(), 0) && |screen.rowsArray| == old(|screen.rowsArray|) - deltaRows
      ensures |scrollbackRows| >= old(|scrollbackRows|)
      ensures Shrunk(old(Rows()), Rows(), old(|scrollbackRows|) + cursorRow, |scrollbackRows| > old(|scrollbackRows|))
      ensures newCursorRow <= cursorRow
      ensures |scrollbackRows| <= old(|scrollbackRows|) + cursorRow ==>
                && newCursorRow + |scrollbackRows| == old(|scrollbackRows|) + cursorRow
                && newCursorRow < |screen.rowsArray| && screen.rowsArray[newCursorRow] == old(screen.rowsArray[cursorRow])
    {
      hide Distinct, Proper, NumberedFrom, Cells, Settled, Cached, OtherReady, TextContent;
      var popped := PopEmptyRows(cursorRow, deltaRows);
      ScrollOff(deltaRows - popped);
      newCursorRow := if cursorRow >= deltaRows - popped then cursorRow - (deltaRows - popped) else 0;
      assert old(|scrollbackRows|) + cursorRow < |Rows()|;
      assert Rows()[old(|scrollbackRows|) + cursorRow] == old(Rows())[old(|scrollbackRows|) + cursorRow];
    }

    /** The second part: the screen gets larger, by rows from the scrollback if there are enough,
        otherwise by new ones. */
    method Enlarge(deltaRows: nat, cursorRow: nat) returns (newCursorRow: nat)
      requires Sound() && NumberedFrom(Rows(), 0) && height == |screen.rowsArray| + deltaRows && deltaRows > 0
      modifies `scrollbackRows, screen
      ensures Sound() && NumberedFrom(Rows(), 0) && |screen.rowsArray| == old(|screen.rowsArray|) + deltaRows
      ensures Enlarged(old(Rows()), Rows(), if deltaRows <= old(|scrollbackRows|) then 0 else deltaRows)
      ensures newCursorRow + |scrollbackRows| == old(|scrollbackRows|) + cursorRow
      ensures cursorRow < old(|screen.rowsArray|) ==>
                newCursorRow < |screen.rowsArray| && screen.rowsArray[newCursorRow] == old(screen.rowsArray[cursorRow])
    {
      hide Distinct, Proper, NumberedFrom, Cells, Settled, Cached, Sound;
      newCursorRow := cursorRow;
      assert cursorRow < |screen.rowsArray| ==> Rows()[|scrollbackRows| + cursorRow] == screen.rowsArray[cursorRow];
      if deltaRows <= |scrollbackRows| {
        ScrollBack(deltaRows);
        newCursorRow := newCursorRow + deltaRows;
      } else {
        AppendRows(deltaRows);
      }
    }

    /** The rows after realizeHeight_, and the cursor's row among them. */
    method Resize(rowCount: nat) returns (cursorRow: nat)
      requires Sound() && NumberedFrom(Rows(), 0) && rowCount > 0
      requires screen.rowsArray == [] || screen.InPlace()
      modifies `height, `scrollbackRows, screen
      ensures Sound() && NumberedFrom(Rows(), 0) && |screen.rowsArray| == rowCount == height
      ensures Resized(old(Rows()), Rows(), old(|screen.rowsArray|), rowCount, old(|scrollbackRows|), old(screen.row))
      ensures |scrollbackRows| + rowCount == |Rows()|
      ensures old(screen.rowsArray) != [] && |scrollbackRows| <= old(|scrollbackRows| + screen.row) ==>
                && |scrollbackRows| + cursorRow == old(|scrollbackRows| + screen.row)
                && cursorRow < rowCount && screen.rowsArray[cursorRow] == old(screen.cursorRowNode)
    {
      hide Distinct, Proper, NumberedFrom, Cells, Settled, Cached, OtherReady, Shrunk, Enlarged;
      var deltaRows := rowCount - |screen.rowsArray|;
      height := rowCount;
      cursorRow := screen.row;
      if deltaRows < 0 {
        cursorRow := Shrink(-deltaRows, cursorRow);
      } else if deltaRows > 0 {
        cursorRow := Enlarge(deltaRows, cursorRow);
      } else {
        NothingLost(Rows(), |scrollbackRows| + cursorRow);
      }
    }

    /** realizeHeight_. */
    method RealizeHeight(rowCount: nat)
      requires Sound() && NumberedFrom(Rows(), 0) && rowCount > 0
      requires screen.rowsArray == [] || screen.InPlace()
      modifies this, screen
      ensures Valid() && height == rowCount && vtScrollTop == None
      ensures unchanged(`screen) && unchanged(`width) && unchanged(`wraparound) && unchanged(`insertMode)
      ensures Resized(old(Rows()), Rows(), old(|screen.rowsArray|), rowCount, old(|scrollbackRows|), old(screen.row))
      // the cursor stays in its row unless that was scrolled off
      ensures old(screen.rowsArray) != [] && |scrollbackRows| <= old(|scrollbackRows| + screen.row) ==>
                && |scrollbackRows| + screen.row == old(|scrollbackRows| + screen.row)
                && screen.cursorRowNode == old(screen.cursorRowNode)
      ensures screen.column == ClampTo(old(screen.column), 0, width - 1)
    {
      hide Distinct, Proper, NumberedFrom, Cells, Settled, Cached, OtherReady, Resized;
      var cursorColumn, cursorOverflow := screen.column, screen.overflow;
      var cursorRow := Resize(rowCount);
      vtScrollTop, vtScrollBottom := None, None;
      RestoreCursor(cursorRow, cursorColumn, cursorOverflow);
    }

    // ----- screens

    /** The loop of renumberRows_ and of setAlternateMode. */
    method RenumberRows(start: nat, end: nat)
      requires start <= end <= |screen.rowsArray| && Distinct(screen.rowsArray)
      modifies screen.rowsArray`rowIndex
      ensures forall i | start <= i < end :: screen.rowsArray[i].rowIndex == |scrollbackRows| + i
      ensures forall i | 0 <= i < |screen.rowsArray| && !(start <= i < end) :: screen.rowsArray[i].rowIndex == old(screen.rowsArray[i].rowIndex)
    {
      var offset := |scrollbackRows|;
      for i := start to end
        invariant forall k | start <= k < i :: screen.rowsArray[k].rowIndex == offset + k
        invariant forall k | 0 <= k < |screen.rowsArray| && !(start <= k < i) :: screen.rowsArray[k].rowIndex == old(screen.rowsArray[k].rowIndex)
      {
        screen.rowsArray[i].rowIndex := offset + i;
      }
    }

    /** What holds when the screens have changed places, before the new one got its width. */
    ghost predicate Swapped()
      reads this, primaryScreen, alternateScreen, scrollbackRows, primaryScreen.rowsArray, alternateScreen.rowsArray
      reads primaryScreen.cursorRowNode, alternateScreen.cursorRowNode
    {
      && primaryScreen != alternateScreen && (screen == primaryScreen || screen == alternateScreen)
      && primaryScreen.Valid() && alternateScreen.Valid() && width > 0 && height > 0
      && Apart() && OtherReady() && Proper(Rows())
      && (if screen.rowsArray == [] then screen.cursorRowNode == null && screen.column == 0 else screen.InPlace())
    }

    method SwapScreens(target: S.Screen)
      requires Valid() && (target == primaryScreen || target == alternateScreen)
      modifies `screen
      ensures screen == target && Swapped() && NumberedFrom(scrollbackRows, 0)
      ensures screen.rowsArray == [] || NumberedFrom(screen.rowsArray, screen.rowsArray[0].rowIndex)
    {
      hide Proper, NumberedFrom, Cells, Settled, Cached, Distinct;
      PartsNumbered(scrollbackRows, screen.rowsArray);
      PartsProper(scrollbackRows, screen.rowsArray);
      PartsDistinct(scrollbackRows, screen.rowsArray);
      NumberingIsKnown(screen.rowsArray, |scrollbackRows|);
      if target != screen {
        PartsTogether(scrollbackRows, screen.rowsArray, target.rowsArray);
      }
      ProperTogether(scrollbackRows, target.rowsArray);
      screen := target;
    }

    /** If the screen's first row is not numbered right, its rows are numbered anew. */
    method RenumberScreen()
      requires Swapped() && NumberedFrom(scrollbackRows, 0)
      requires screen.rowsArray == [] || NumberedFrom(screen.rowsArray, screen.rowsArray[0].rowIndex)
      modifies screen.rowsArray`rowIndex
      ensures Swapped() && NumberedFrom(Rows(), 0)
    {
      hide Proper, NumberedFrom, Cells, Settled, Cached, Distinct;
      PartsDistinct(scrollbackRows, screen.rowsArray);
      NumberingIsKnown(screen.rowsArray, |scrollbackRows|);
      RowsOfOthers(scrollbackRows, screen.rowsArray, Other().rowsArray);
      if |screen.rowsArray| > 0 && screen.rowsArray[0].rowIndex != |scrollbackRows| {
        RenumberStretch(0, |screen.rowsArray|, Other().rowsArray, if Other().rowsArray == [] then 0 else Other().rowsArray[0].rowIndex);
      }
      NumberedTogether(scrollbackRows, screen.rowsArray);
    }

    /** Numbering a stretch of rows completes the numbering of the screen if the rest is right;
        the rows of the scrollback and `others` stay as they are. */
    method RenumberStretch(start: nat, end: nat, ghost others: seq<RowNode>, ghost base: int)
      requires Distinct(screen.rowsArray) && start <= end <= |screen.rowsArray|
      requires forall k | 0 <= k < |screen.rowsArray| && !(start <= k < end) :: screen.rowsArray[k].rowIndex == |scrollbackRows| + k
      requires (forall r | r in scrollbackRows :: r !in screen.rowsArray) && NumberedFrom(scrollbackRows, 0)
      requires forall k | 0 <= k < |others| :: others[k] !in screen.rowsArray
      requires others == [] || NumberedFrom(others, base)
      modifies screen.rowsArray`rowIndex
      ensures NumberedFrom(screen.rowsArray, |scrollbackRows|) && NumberedFrom(scrollbackRows, 0)
      ensures others == [] || (NumberedFrom(others, base) && others[0].rowIndex == old(others[0].rowIndex))
    {
      hide NumberedFrom;
      NumberingMeans(others, base);
      NumberingMeans(scrollbackRows, 0);
      RenumberRows(start, end);
      NumberingIsDone(screen.rowsArray, |scrollbackRows|);
      if others != [] {
        NumberingIsDone(others, base);
      }
      assert forall k | 0 <= k < |scrollbackRows| :: scrollbackRows[k] !in screen.rowsArray;
      NumberingIsDone(scrollbackRows, 0);
    }

    method RealizeWidth(columnCount: nat)
      requires Swapped() && columnCount > 0
      modifies `width, screen`columnCount, screen`row, screen`column, screen`overflow
      modifies screen`cursorRowNode, screen`cursorNode, screen`cursorOffset
      ensures Sound() && width == screen.columnCount == columnCount
      ensures unchanged(screen`row) && unchanged(screen`cursorRowNode)
      ensures screen.rowsArray == [] || screen.InPlace()
    {
      hide Proper, NumberedFrom, Cells, Settled, Cached, Distinct, OtherReady;
      width := columnCount;
      screen.SetColumnCount(columnCount);
    }

    method SetAlternateMode(state: bool)
      requires Valid()
      modifies this, (if state then alternateScreen else primaryScreen), (if state then alternateScreen else primaryScreen).rowsArray`rowIndex
      ensures Valid() && screen == (if state then alternateScreen else primaryScreen)
      ensures unchanged(`width) && unchanged(`height)
      ensures var shown := screen;
              Resized(old(scrollbackRows + shown.rowsArray), Rows(), old(|shown.rowsArray|), height, old(|scrollbackRows|),
                      old(shown.row))
      ensures var shown := screen;
              scrollbackRows == old(scrollbackRows) <==>
                old(LeavesScrollback(scrollbackRows + shown.rowsArray, |shown.rowsArray|, height, |scrollbackRows|, shown.row))
    {
      hide Distinct, Proper, NumberedFrom, Cells, Settled, Cached, OtherReady, Resized, Swapped, Apart, LeavesScrollback;
      var row, column, overflow := screen.row, screen.column, screen.overflow;
      var target := if state then alternateScreen else primaryScreen;
      ShowScreen(target);
      RestoreCursor(row, column, overflow);
      ScrollbackLeft(old(scrollbackRows), old(target.rowsArray), scrollbackRows, screen.rowsArray, old(target.row));
    }

    /** setAlternateMode, but for the cursor. */
    method ShowScreen(target: S.Screen)
      requires Valid() && (target == primaryScreen || target == alternateScreen)
      modifies this, target, target.rowsArray`rowIndex
      ensures Valid() && screen == target && unchanged(`width) && unchanged(`height)
      ensures Resized(old(scrollbackRows + target.rowsArray), Rows(), old(|target.rowsArray|), height, old(|scrollbackRows|),
                      old(target.row))
    {
      hide Distinct, Proper, NumberedFrom, Cells, Settled, Cached, OtherReady, Resized, Swapped, Apart;
      SwapScreens(target);
      RenumberScreen();
      RealizeWidth(width);
      RealizeHeight(height);
    }

    // ----- moving lines

    /** removeRows and insertRows: the indices outside the stretch concerned stay right. */
    method TakeOut(fromIndex: nat, count: nat, toIndex: nat)
      requires Sound() && NumberedFrom(Rows(), 0)
      requires fromIndex + count <= |screen.rowsArray| && toIndex + count <= |screen.rowsArray|
      modifies screen`rowsArray
      ensures Sound() && NumberedFrom(scrollbackRows, 0)
      ensures screen.rowsArray == Moved(old(screen.rowsArray), fromIndex, count, toIndex)
      ensures forall k | 0 <= k < |screen.rowsArray| :: screen.rowsArray[k] in old(screen.rowsArray)
      ensures var start := if fromIndex < toIndex then fromIndex else toIndex;
              var end := (if fromIndex < toIndex then toIndex else fromIndex) + count;
              forall k | 0 <= k < |screen.rowsArray| && !(start <= k < end) :: screen.rowsArray[k].rowIndex == |scrollbackRows| + k
    {
      hide Proper, NumberedFrom, Cells, Settled, Cached, Distinct, OtherReady;
      ghost var rows := screen.rowsArray;
      PartsNumbered(scrollbackRows, rows);
      NumberingMeans(rows, |scrollbackRows|);
      RowsMoved(scrollbackRows, rows, fromIndex, count, toIndex);
      ProperMembers(scrollbackRows + rows, scrollbackRows + Moved(rows, fromIndex, count, toIndex));
      MovedOutsideAt(rows, fromIndex, count, toIndex);
      var ary := screen.RemoveRows(fromIndex, count);
      screen.InsertRows(toIndex, ary);
    }

    /** Numbering the stretch concerned makes all indices right. */
    method RenumberMoved(start: nat, end: nat)
      requires Sound() && NumberedFrom(scrollbackRows, 0) && start <= end <= |screen.rowsArray|
      requires forall k | 0 <= k < |screen.rowsArray| && !(start <= k < end) :: screen.rowsArray[k].rowIndex == |scrollbackRows| + k
      modifies screen.rowsArray`rowIndex
      ensures Sound() && NumberedFrom(Rows(), 0)
    {
      hide Proper, NumberedFrom, Cells, Settled, Cached, Distinct;
      PartsDistinct(scrollbackRows, screen.rowsArray);
      RowsOfOthers(scrollbackRows, screen.rowsArray, Other().rowsArray);
      RenumberStretch(start, end, Other().rowsArray, if Other().rowsArray == [] then 0 else Other().rowsArray[0].rowIndex);
      NumberedTogether(scrollbackRows, screen.rowsArray);
    }

    /** moveRows_: a block of the screen's rows changes place; every index is put right. */
    method MoveRows(fromIndex: nat, count: nat, toIndex: nat)
      requires Sound() && NumberedFrom(Rows(), 0)
      requires fromIndex + count <= |screen.rowsArray| && toIndex + count <= |screen.rowsArray|
      modifies screen`rowsArray, screen.rowsArray`rowIndex
      ensures Sound() && NumberedFrom(Rows(), 0)
      ensures screen.rowsArray == Moved(old(screen.rowsArray), fromIndex, count, toIndex)
      ensures forall k | 0 <= k < |screen.rowsArray| :: screen.rowsArray[k] in old(screen.rowsArray)
    {
      hide NumberedFrom, Sound, Moved;
      TakeOut(fromIndex, count, toIndex);
      var start, end := fromIndex, toIndex + count;
      if !(fromIndex < toIndex) {
        start, end := toIndex, fromIndex + count;
      }
      RenumberMoved(start, end);
    }

    /** The row is as clearing leaves it. */
    ghost predicate Cleared(r: RowNode)
      reads `screen, screen`textAttributes, screen`columnCount, r`runs, r`lineOverflow
    {
      Cells(r.runs) == ClearCells(screen.textAttributes, screen.columnCount) && !r.lineOverflow
    }

    /** The body of the loops that clear lines. */
    method ClearLine(row: nat)
      requires Sound() && row < |screen.rowsArray| <= height
      modifies screen`row, screen`column, screen`overflow, screen`cursorRowNode, screen`cursorNode, screen`cursorOffset
      modifies GetRowNode(|scrollbackRows| + row)`runs, GetRowNode(|scrollbackRows| + row)`lineOverflow
      ensures Sound() && screen.InPlace() && screen.row == row && screen.column == 0 && !screen.overflow
      ensures Cleared(screen.rowsArray[row])
    {
      hide Cells, Settled, Cached, Distinct, ClearCells, NumberedFrom;
      PartsDistinct(scrollbackRows, screen.rowsArray);
      RowsOfOthers(scrollbackRows, screen.rowsArray, Other().rowsArray);
      SetAbsoluteCursorPosition(row, 0);
      screen.ClearCursorRow();
    }

    /** Of `rows`, those from `from` up to `to` are cleared, and no other. */
    twostate predicate OnlyCleared(rows: seq<RowNode>, from: nat, to: nat)
      requires from <= to <= |rows|
      reads `screen, screen`textAttributes, screen`columnCount, rows`runs, rows`lineOverflow
    {
      && (forall k | from <= k < to :: Cleared(rows[k]))
      && (forall k | 0 <= k < |rows| && !(from <= k < to) :: Kept(rows[k]))
    }

    /** The loop of insertLines, from the bottom up. */
    method ClearLinesUp(from: nat, count: nat)
      requires Sound() && NumberedFrom(Rows(), 0) && from + count <= |screen.rowsArray| <= height
      modifies screen`row, screen`column, screen`overflow, screen`cursorRowNode, screen`cursorNode, screen`cursorOffset
      modifies screen.rowsArray`runs, screen.rowsArray`lineOverflow
      ensures Sound() && NumberedFrom(Rows(), 0) && OnlyCleared(screen.rowsArray, from, from + count)
      ensures count == 0 ==> unchanged(screen)
      ensures count > 0 ==> screen.InPlace() && screen.row == from && screen.column == 0
    {
      hide Sound, NumberedFrom, Cleared;
      ApartRows();
      ghost var rows := screen.rowsArray;
      for i := count downto 0
        invariant Sound() && NumberedFrom(Rows(), 0)
        invariant forall k | from + i <= k < from + count :: Cleared(rows[k])
        invariant forall k | 0 <= k < |rows| && !(from + i <= k < from + count) :: Kept(rows[k])
        invariant i == count ==> unchanged(screen)
        invariant i < count ==> screen.InPlace() && screen.row == from + i && screen.column == 0
      {
        ClearLine(from + i);
      }
    }

    /** The loop of deleteLines, from the top down. */
    method ClearLinesDown(from: nat, count: nat)
      requires Sound() && NumberedFrom(Rows(), 0) && from + count <= |screen.rowsArray| <= height
      modifies screen`row, screen`column, screen`overflow, screen`cursorRowNode, screen`cursorNode, screen`cursorOffset
      modifies screen.rowsArray`runs, screen.rowsArray`lineOverflow
      ensures Sound() && NumberedFrom(Rows(), 0) && OnlyCleared(screen.rowsArray, from, from + count)
    {
      hide Sound, NumberedFrom, Cleared;
      ApartRows();
      for i := 0 to count
        invariant Sound() && NumberedFrom(Rows(), 0)
        invariant OnlyCleared(screen.rowsArray, from, from + i)
      {
        ClearLine(from + i);
      }
    }

    lemma ApartRows()
      requires Sound()
      ensures forall i, j | 0 <= i < j < |screen.rowsArray| :: screen.rowsArray[i] != screen.rowsArray[j]
    {
      PartsDistinct(scrollbackRows, screen.rowsArray);
    }

    /** The moves of insertLines and deleteLines. */
    method ShiftDown(from: nat, to: nat, count: nat)
      requires Sound() && NumberedFrom(Rows(), 0) && from + count <= to <= |screen.rowsArray|
      modifies screen`rowsArray, screen.rowsArray`rowIndex
      ensures Sound() && NumberedFrom(Rows(), 0)
      ensures screen.rowsArray == ShiftedDown(old(screen.rowsArray), from, to, count)
      ensures forall k | 0 <= k < |screen.rowsArray| :: screen.rowsArray[k] in old(screen.rowsArray)
    {
      hide Sound, NumberedFrom, Moved, ShiftedDown;
      MoveShiftsDown(screen.rowsArray, from, to, count);
      MoveRows(from, to - from - count, from + count);
    }

    method ShiftUp(from: nat, to: nat, count: nat)
      requires Sound() && NumberedFrom(Rows(), 0) && from + count <= to <= |screen.rowsArray|
      modifies screen`rowsArray, screen.rowsArray`rowIndex
      ensures Sound() && NumberedFrom(Rows(), 0)
      ensures screen.rowsArray == ShiftedUp(old(screen.rowsArray), from, to, count)
      ensures forall k | 0 <= k < |screen.rowsArray| :: screen.rowsArray[k] in old(screen.rowsArray)
    {
      hide Sound, NumberedFrom, Moved, ShiftedUp;
      MoveShiftsUp(screen.rowsArray, from, to, count);
      WholeShift(screen.rowsArray, from, to);
      if count != to - from {
        MoveRows(from, count, to - count);
      }
    }

    /** How many rows inserting or deleting `count` lines at `row` concerns. */
    ghost function InsertCount(count: nat, row: nat): (n: nat)
      requires row <= GetVTScrollBottom()
      reads `vtScrollBottom, `height
      ensures n <= count && row + n <= GetVTScrollBottom() && (n == count || row + n == GetVTScrollBottom())
    {
      Least(count, GetVTScrollBottom() - row)
    }

    ghost function DeleteCount(count: nat, row: nat): (n: nat)
      requires row <= GetVTScrollBottom()
      reads `vtScrollBottom, `height
      ensures n <= count && row + n <= GetVTScrollBottom() + 1 && (n == count || row + n == GetVTScrollBottom() + 1)
    {
      Least(count, GetVTScrollBottom() - row + 1)
    }

    /** insertLines: rows of the scroll region move down from the cursor's row, and cleared ones
        appear there. The last row of the region is never cleared. With the cursor below the region
        the count is negative: the cursor's row moves up to the last row of the region, those in
        between move down, and the cursor is left with a row that is not at its position. */
    method InsertLines(count: nat)
      requires Valid()
      modifies screen, screen.rowsArray
      ensures Sound() && NumberedFrom(Rows(), 0) && unchanged(screen`textAttributes) && unchanged(screen`columnCount)
      ensures Valid() <==> old(screen.row) <= GetVTScrollBottom()
      ensures forall k | 0 <= k < |screen.rowsArray| :: screen.rowsArray[k] in old(screen.rowsArray)
      ensures screen.row == old(screen.row)
      ensures old(screen.row) <= GetVTScrollBottom() ==>
                && screen.rowsArray == ShiftedDown(old(screen.rowsArray), old(screen.row), GetVTScrollBottom() + 1, InsertCount(count, old(screen.row)))
                && OnlyCleared(screen.rowsArray, old(screen.row), old(screen.row) + InsertCount(count, old(screen.row)))
                && screen.column == if InsertCount(count, old(screen.row)) > 0 then 0 else old(screen.column)
      ensures old(screen.row) > GetVTScrollBottom() ==>
                && screen.rowsArray == Moved(old(screen.rowsArray), old(screen.row), 1, GetVTScrollBottom())
                && OnlyCleared(screen.rowsArray, 0, 0) && unchanged(screen`column) && unchanged(screen`cursorRowNode)
    {
      hide Sound, NumberedFrom, ShiftedDown, Cleared, Moved;
      var cursorRow := screen.row;
      var bottom := GetVTScrollBottom();
      if cursorRow <= bottom {
        AddLines(cursorRow, bottom + 1, Least(count, bottom - cursorRow));
      } else {
        var n := bottom - cursorRow;
        var moveCount := bottom - cursorRow - n + 1;
        ApartRows();
        RowLeavesCursor(screen.rowsArray, cursorRow, bottom);
        MoveRows(cursorRow, moveCount, cursorRow + n);
      }
    }

    lemma RowLeavesCursor(rows: seq<RowNode>, row: nat, bottom: nat)
      requires bottom < row < |rows| && forall i, j | 0 <= i < j < |rows| :: rows[i] != rows[j]
      ensures Moved(rows, row, 1, bottom)[row] != rows[row]
    {
      assert Moved(rows, row, 1, bottom)[row] == rows[row - 1];
    }

    /** The rows' part of insertLines. */
    method AddLines(from: nat, to: nat, count: nat)
      requires Sound() && NumberedFrom(Rows(), 0) && from + count <= to <= |screen.rowsArray| <= height
      modifies screen`row, screen`column, screen`overflow, screen`cursorRowNode, screen`cursorNode, screen`cursorOffset
      modifies screen`rowsArray, screen.rowsArray
      ensures Sound() && NumberedFrom(Rows(), 0)
      ensures screen.rowsArray == ShiftedDown(old(screen.rowsArray), from, to, count)
      ensures forall k | 0 <= k < |screen.rowsArray| :: screen.rowsArray[k] in old(screen.rowsArray)
      ensures OnlyCleared(screen.rowsArray, from, from + count)
      ensures if count == 0 then unchanged(screen) else screen.InPlace() && screen.row == from && screen.column == 0
    {
      hide Sound, NumberedFrom, ShiftedDown, Cleared;
      WholeShift(screen.rowsArray, from, to);
      ShiftDown(from, to, count);
      ClearLinesUp(from, count);
    }

    method ClearCursorOverflow()
      requires Sound()
      modifies screen`overflow
      ensures Sound() && !screen.overflow
    {
      hide Cells, Settled, Cached, Distinct, NumberedFrom, Proper;
      screen.overflow := false;
    }

    /** deleteLines: rows of the scroll region move up to the cursor's row, and cleared ones
        appear at the bottom of the region. Below the region no row changes. */
    method DeleteLines(count: nat)
      requires Valid()
      modifies screen, screen.rowsArray
      ensures Valid() && unchanged(screen`textAttributes) && unchanged(screen`columnCount)
      ensures forall k | 0 <= k < |screen.rowsArray| :: screen.rowsArray[k] in old(screen.rowsArray)
      ensures screen.row == old(screen.row) && screen.column == old(screen.column) && !screen.overflow
      ensures old(screen.row) <= GetVTScrollBottom() ==>
                && screen.rowsArray == ShiftedUp(old(screen.rowsArray), old(screen.row), GetVTScrollBottom() + 1, DeleteCount(count, old(screen.row)))
                && OnlyCleared(screen.rowsArray, GetVTScrollBottom() + 1 - DeleteCount(count, old(screen.row)), GetVTScrollBottom() + 1)
      ensures old(screen.row) > GetVTScrollBottom() ==> unchanged(screen`rowsArray) && OnlyCleared(screen.rowsArray, 0, 0)
    {
      hide Sound, NumberedFrom, ShiftedUp, Cleared;
      var row, column, overflow := screen.row, screen.column, screen.overflow;
      var bottom := GetVTScrollBottom();
      if row > bottom {
        RestoreCursorInText(row, column, overflow);
        return;
      }
      RemoveLines(row, bottom + 1, Least(count, bottom - row + 1));
      RestoreCursorInText(row, column, overflow);
    }

    /** restoreCursor followed by clearCursorOverflow. */
    method RestoreCursorInText(row: int, column: int, overflow: bool)
      requires Sound() && screen.rowsArray != []
      modifies screen`row, screen`column, screen`overflow, screen`cursorRowNode, screen`cursorNode, screen`cursorOffset
      ensures Sound() && screen.InPlace() && !screen.overflow
      ensures screen.row == Least(ClampTo(row, 0, height - 1), |screen.rowsArray| - 1)
      ensures screen.column == ClampTo(column, 0, width - 1)
    {
      hide Sound;
      RestoreCursor(row, column, overflow);
      ClearCursorOverflow();
    }

    /** The rows' part of deleteLines. */
    method RemoveLines(from: nat, to: nat, count: nat)
      requires Sound() && NumberedFrom(Rows(), 0) && from + count <= to <= |screen.rowsArray| <= height
      modifies screen`row, screen`column, screen`overflow, screen`cursorRowNode, screen`cursorNode, screen`cursorOffset
      modifies screen`rowsArray, screen.rowsArray
      ensures Sound() && NumberedFrom(Rows(), 0)
      ensures screen.rowsArray == ShiftedUp(old(screen.rowsArray), from, to, count)
      ensures forall k | 0 <= k < |screen.rowsArray| :: screen.rowsArray[k] in old(screen.rowsArray)
      ensures OnlyCleared(screen.rowsArray, to - count, to)
    {
      hide Sound, NumberedFrom, ShiftedUp, Cleared;
      ShiftUp(from, to, count);
      ClearLinesDown(to - count, count);
    }

    /** vtScrollUp: the scroll region moves up; the cursor stays where it is. */
    method VtScrollUp(count: nat)
      requires Valid()
      modifies screen, screen.rowsArray
      ensures Valid() && unchanged(screen`textAttributes) && unchanged(screen`columnCount)
      ensures unchanged(screen`row) && unchanged(screen`column) && unchanged(screen`overflow)
      ensures screen.rowsArray == ShiftedUp(old(screen.rowsArray), GetVTScrollTop(), GetVTScrollBottom() + 1, DeleteCount(count, GetVTScrollTop()))
      ensures forall k | 0 <= k < |screen.rowsArray| :: screen.rowsArray[k] in old(screen.rowsArray)
      ensures OnlyCleared(screen.rowsArray, GetVTScrollBottom() + 1 - DeleteCount(count, GetVTScrollTop()), GetVTScrollBottom() + 1)
    {
      hide Sound, NumberedFrom, ShiftedUp, Cleared;
      var row, column, overflow := screen.row, screen.column, screen.overflow;
      DeleteFromTop(count);
      RestoreCursor(row, column, overflow);
    }

    method DeleteFromTop(count: nat)
      requires Valid()
      modifies screen, screen.rowsArray
      ensures Valid() && unchanged(screen`textAttributes) && unchanged(screen`columnCount)
      ensures screen.rowsArray == ShiftedUp(old(screen.rowsArray), GetVTScrollTop(), GetVTScrollBottom() + 1, DeleteCount(count, GetVTScrollTop()))
      ensures forall k | 0 <= k < |screen.rowsArray| :: screen.rowsArray[k] in old(screen.rowsArray)
      ensures OnlyCleared(screen.rowsArray, GetVTScrollBottom() + 1 - DeleteCount(count, GetVTScrollTop()), GetVTScrollBottom() + 1)
    {
      hide Sound, NumberedFrom, ShiftedUp, Cleared;
      SetAbsoluteCursorPosition(GetVTScrollTop(), screen.column);
      DeleteLines(count);
    }

    /** vtScrollDown: the scroll region moves down; the cursor stays where it is. */
    method VtScrollDown(count: nat)
      requires Valid()
      modifies screen, screen.rowsArray
      ensures Valid() && unchanged(screen`textAttributes) && unchanged(screen`columnCount)
      ensures unchanged(screen`row) && unchanged(screen`column) && unchanged(screen`overflow)
      ensures screen.rowsArray == ShiftedDown(old(screen.rowsArray), GetVTScrollTop(), GetVTScrollBottom() + 1, InsertCount(count, GetVTScrollTop()))
      ensures forall k | 0 <= k < |screen.rowsArray| :: screen.rowsArray[k] in old(screen.rowsArray)
      ensures OnlyCleared(screen.rowsArray, GetVTScrollTop(), GetVTScrollTop() + InsertCount(count, GetVTScrollTop()))
    {
      hide Sound, NumberedFrom, ShiftedDown, Cleared;
      var row, column, overflow := screen.row, screen.column, screen.overflow;
      InsertFromTop(count);
      RestoreCursor(row, column, overflow);
    }

    method InsertFromTop(count: nat)
      requires Valid()
      modifies screen, screen.rowsArray
      ensures Valid() && unchanged(screen`textAttributes) && unchanged(screen`columnCount)
      ensures screen.rowsArray == ShiftedDown(old(screen.rowsArray), GetVTScrollTop(), GetVTScrollBottom() + 1, InsertCount(count, GetVTScrollTop()))
      ensures forall k | 0 <= k < |screen.rowsArray| :: screen.rowsArray[k] in old(screen.rowsArray)
      ensures OnlyCleared(screen.rowsArray, GetVTScrollTop(), GetVTScrollTop() + InsertCount(count, GetVTScrollTop()))
    {
      hide Sound, NumberedFrom, ShiftedDown, Cleared;
      SetAbsoluteCursorPosition(GetVTScrollTop(), 0);
      InsertLines(count);
    }

    /** newLine, with a scroll region: the region moves up if the cursor is in its last row. */
    method NewLineInRegion()
      requires Valid() && vtScrollBottom.Some?
      modifies screen, screen.rowsArray
      ensures Valid() && unchanged(screen`textAttributes) && unchanged(screen`columnCount)
      ensures screen.column == 0 && !screen.overflow
      ensures forall k | 0 <= k < |screen.rowsArray| :: screen.rowsArray[k] in old(screen.rowsArray)
      ensures old(screen.row) != vtScrollBottom.value ==>
                && screen.row == Least(old(screen.row) + 1, height - 1)
                && screen.rowsArray == old(screen.rowsArray) && OnlyCleared(screen.rowsArray, 0, 0)
      ensures old(screen.row) == vtScrollBottom.value ==>
                && screen.row == old(screen.row)
                && screen.rowsArray == ShiftedUp(old(screen.rowsArray), vtScrollTop.value, vtScrollBottom.value + 1, 1)
                && OnlyCleared(screen.rowsArray, vtScrollBottom.value, vtScrollBottom.value + 1)
      ensures ModeNow() == old(ModeNow())
      ensures P.InGrid(old(GridNow()), ModeNow()) && GridNow() == P.NextRow(old(GridNow()), ModeNow())
    {
      hide Sound, NumberedFrom, ShiftedUp, Cleared, Distinct, GridNow, ModeNow, P.InGrid, P.NextRow;
      if screen.row == vtScrollBottom.value {
        ScrollRegion();
      } else if screen.row == |screen.rowsArray| - 1 {
        StartOfRow(screen.row);
      } else {
        StartOfRow(screen.row + 1);
      }
    }

    /** vtScrollUp(1), row by row. */
    method ScrollUpRows()
      requires Valid() && vtScrollBottom.Some?
      modifies screen, screen.rowsArray
      ensures Valid() && unchanged(screen`textAttributes) && unchanged(screen`columnCount)
      ensures unchanged(screen`row) && unchanged(screen`column) && unchanged(screen`overflow)
      ensures vtScrollTop.Some? && vtScrollTop.value < vtScrollBottom.value + 1 <= |old(screen.rowsArray)|
      ensures screen.rowsArray == ShiftedUp(old(screen.rowsArray), vtScrollTop.value, vtScrollBottom.value + 1, 1)
      ensures forall k | 0 <= k < |screen.rowsArray| :: screen.rowsArray[k] in old(screen.rowsArray)
      ensures OnlyCleared(screen.rowsArray, vtScrollBottom.value, vtScrollBottom.value + 1)
      ensures ModeNow() == old(ModeNow())
      ensures RunsOf(scrollbackRows) == old(RunsOf(scrollbackRows))
      ensures ShiftedRuns(screen.rowsArray, old(RunsOf(screen.rowsArray)), P.Region(vtScrollTop.value, vtScrollBottom.value), BlankNow())
    {
      hide Valid, Cells, CellRows, ShiftedUp, ClearCells, RunsOf, P.Source;
      RegionFits();
      ghost var rows := screen.rowsArray;
      ghost var region := P.Region(vtScrollTop.value, vtScrollBottom.value);
      ApartFromScrollback();
      VtScrollUp(1);
      assert forall k | 0 <= k < |scrollbackRows| :: scrollbackRows[k].runs == old(scrollbackRows[k].runs);
      assert Cleared(screen.rowsArray[region.bottom]);
      forall k | 0 <= k < |screen.rowsArray| && k != region.bottom
        ensures P.Source(region, k) < |rows| && screen.rowsArray[k].runs == old(RunsOf(screen.rowsArray))[P.Source(region, k)]
      {
        RegionRowAt(rows, region.top, region.bottom, k);
        assert Kept(screen.rowsArray[k]);
      }
    }

    /** The same, in terms of what all rows show. */
    method ScrollUpOne()
      requires Valid() && vtScrollBottom.Some?
      modifies screen, screen.rowsArray
      ensures Valid() && unchanged(screen`textAttributes) && unchanged(screen`columnCount)
      ensures unchanged(screen`row) && unchanged(screen`column) && unchanged(screen`overflow)
      ensures vtScrollTop.Some? && vtScrollTop.value < vtScrollBottom.value + 1 <= |old(screen.rowsArray)|
      ensures screen.rowsArray == ShiftedUp(old(screen.rowsArray), vtScrollTop.value, vtScrollBottom.value + 1, 1)
      ensures forall k | 0 <= k < |screen.rowsArray| :: screen.rowsArray[k] in old(screen.rowsArray)
      ensures OnlyCleared(screen.rowsArray, vtScrollBottom.value, vtScrollBottom.value + 1)
      ensures ModeNow() == old(ModeNow())
      ensures CellRows(Rows()) == P.Scrolled(old(CellRows(Rows())), RegionNow().value, BlankNow())
    {
      hide *;
      RegionInRows();
      ghost var before, runs, scrollbackRuns := CellRows(Rows()), RunsOf(screen.rowsArray), RunsOf(scrollbackRows);
      CellsOfRuns(scrollbackRows, screen.rowsArray, before);
      ScrollUpRows();
      RegionInRows();
      ShiftedGrid(scrollbackRows, screen.rowsArray, scrollbackRuns, runs, before, P.Region(vtScrollTop.value, vtScrollBottom.value), BlankNow());
    }

    lemma RegionInRows()
      requires Valid() && vtScrollBottom.Some?
      ensures Rows() == scrollbackRows + screen.rowsArray
      ensures vtScrollTop.Some? && vtScrollTop.value < vtScrollBottom.value + 1 <= |screen.rowsArray|
      ensures RegionNow() == Some(P.Region(|scrollbackRows| + vtScrollTop.value, |scrollbackRows| + vtScrollBottom.value))
    {
      hide Sound, NumberedFrom;
    }

    lemma ApartFromScrollback()
      requires Valid()
      ensures forall k | 0 <= k < |scrollbackRows| :: scrollbackRows[k] !in screen.rowsArray
    {
      hide NumberedFrom;
      PartsDistinct(scrollbackRows, screen.rowsArray);
    }

    /** The cursor is in the last row of the region. */
    method ScrollRegion()
      requires Valid() && vtScrollBottom.Some? && screen.row == vtScrollBottom.value
      modifies screen, screen.rowsArray
      ensures Valid() && unchanged(screen`textAttributes) && unchanged(screen`columnCount)
      ensures screen.row == old(screen.row) && screen.column == 0 && !screen.overflow
      ensures forall k | 0 <= k < |screen.rowsArray| :: screen.rowsArray[k] in old(screen.rowsArray)
      ensures screen.rowsArray == ShiftedUp(old(screen.rowsArray), vtScrollTop.value, vtScrollBottom.value + 1, 1)
      ensures OnlyCleared(screen.rowsArray, vtScrollBottom.value, vtScrollBottom.value + 1)
      ensures ModeNow() == old(ModeNow())
      ensures P.InGrid(old(GridNow()), ModeNow()) && GridNow() == P.NextRow(old(GridNow()), ModeNow())
    {
      hide *;
      RegionInRows();
      GridIs();
      ghost var g := GridNow();
      ScrollUpOne();
      RegionInRows();
      GridIs();
      ToStartOfRow(screen.row);
      GridIs();
      P.NextIsScrolled(g, ModeNow(), GridNow());
    }

    lemma GridIs()
      requires Valid()
      ensures GridNow() == P.Grid(CellRows(Rows()), |scrollbackRows| + screen.row, screen.column, screen.overflow)
      ensures ModeNow().region == RegionNow() && ModeNow().blank == BlankNow()
      ensures P.InGrid(GridNow(), ModeNow()) && screen.row < height == |screen.rowsArray| && |GridNow().rows| == |scrollbackRows| + height
    {
      hide Sound, NumberedFrom, CellRows;
      CursorIsInRows();
    }

    method ToStartOfRow(row: nat)
      requires Valid() && row < height
      modifies screen`row, screen`column, screen`overflow, screen`cursorRowNode, screen`cursorNode, screen`cursorOffset
      ensures Valid() && screen.row == row && screen.column == 0 && !screen.overflow
      ensures ModeNow() == old(ModeNow())
      ensures CellRows(Rows()) == old(CellRows(Rows()))
    {
      hide Sound, NumberedFrom, CellRows;
      RowsFit();
      SetAbsoluteCursorPosition(row, 0);
    }

    lemma RowsFit()
      requires Valid()
      ensures |screen.rowsArray| == height > 0 && width > 0
    {
      hide NumberedFrom;
    }

    /** Anywhere else the cursor only moves. */
    method StartOfRow(row: nat)
      requires Valid() && vtScrollBottom.Some? && screen.row != vtScrollBottom.value
      requires row == if screen.row + 1 == height then screen.row else screen.row + 1
      modifies screen`row, screen`column, screen`overflow, screen`cursorRowNode, screen`cursorNode, screen`cursorOffset
      ensures Valid() && screen.row == row && screen.column == 0 && !screen.overflow
      ensures ModeNow() == old(ModeNow())
      ensures P.InGrid(old(GridNow()), ModeNow()) && GridNow() == P.NextRow(old(GridNow()), ModeNow())
    {
      hide *;
      RegionInRows();
      GridIs();
      ghost var g := GridNow();
      ToStartOfRow(row);
      GridIs();
      P.NextIsBelow(g, ModeNow(), GridNow());
    }

    /** newLine, without one: the cursor goes to the next row; at the end of the screen that is a
        new row, and the first row of the screen goes to the scrollback. */
    method NewLineFreely()
      requires Valid() && vtScrollBottom.None?
      modifies `scrollbackRows, screen
      ensures Valid() && unchanged(screen`textAttributes) && unchanged(screen`columnCount)
      ensures screen.column == 0 && !screen.overflow
      ensures |scrollbackRows| + screen.row == old(|scrollbackRows| + screen.row) + 1
      ensures |old(Rows())| <= |Rows()| && Rows()[..|old(Rows())|] == old(Rows())
      ensures forall k | 0 <= k < |screen.rowsArray| :: screen.rowsArray[k] in old(screen.rowsArray) || fresh(screen.rowsArray[k])
      ensures if old(screen.row) + 1 < height then |Rows()| == |old(Rows())|
              else |Rows()| == |old(Rows())| + 1 && fresh(Rows()[|old(Rows())|]) && Blank(Rows()[|old(Rows())|])
      ensures ModeNow() == old(ModeNow())
      ensures P.InGrid(old(GridNow()), ModeNow()) && GridNow() == P.NextRow(old(GridNow()), ModeNow())
      ensures P.Continued(old(Marks(Rows())), Marks(Rows()), GridNow().row, GridNow().row)
    {
      hide Sound, NumberedFrom, Blank, CellRows, Marks, P.Continued;
      CursorIsInRows();
      ghost var g, marks := GridNow(), Marks(Rows());
      if screen.row == |screen.rowsArray| - 1 {
        AppendLine();
        MarksExtended(marks, [false], g.row + 1);
        assert GridNow() == P.NextRow(g, ModeNow());
      } else {
        SetAbsoluteCursorPosition(screen.row + 1, 0);
        P.ContinuedHere(marks, g.row + 1);
        assert GridNow() == P.NextRow(g, ModeNow());
      }
    }

    /** appendRows_(1) at the end of the screen. */
    method AppendLine()
      requires Valid() && screen.row + 1 == height
      modifies `scrollbackRows, screen
      ensures Valid() && unchanged(screen`textAttributes) && unchanged(screen`columnCount)
      ensures screen.column == 0 && !screen.overflow && screen.row == old(screen.row)
      ensures |Rows()| == |old(Rows())| + 1 && Rows()[..|old(Rows())|] == old(Rows())
      ensures fresh(Rows()[|old(Rows())|]) && Blank(Rows()[|old(Rows())|])
      ensures forall k | 0 <= k < |screen.rowsArray| :: screen.rowsArray[k] in old(screen.rowsArray) || fresh(screen.rowsArray[k])
      ensures CellRows(Rows()) == old(CellRows(Rows())) + [[]] && Marks(Rows()) == old(Marks(Rows())) + [false]
    {
      hide Sound, NumberedFrom, Blank, CellRows, Marks;
      ghost var rows, offset := Rows(), |scrollbackRows|;
      AppendRows(1);
      assert forall k | 0 <= k < |screen.rowsArray| :: screen.rowsArray[k] in old(screen.rowsArray) || fresh(screen.rowsArray[k]) by {
        LaterRows(rows, offset, Rows(), |scrollbackRows|);
        assert rows[offset..] == old(screen.rowsArray);
        assert forall k | 0 <= k < |screen.rowsArray| :: screen.rowsArray[k] == Rows()[|scrollbackRows| + k];
      }
      assert CellRows(Rows()) == CellRows(rows) + [[]] && Marks(Rows()) == Marks(rows) + [false] by {
        RowsExtended(CellRows(rows), rows, Rows());
      }
    }

    /** newLine. */
    method NewLine()
      requires Valid()
      modifies `scrollbackRows, screen, screen.rowsArray
      ensures Valid() && unchanged(screen`textAttributes) && unchanged(screen`columnCount)
      ensures screen.column == 0 && !screen.overflow
      ensures vtScrollBottom.None? ==>
                && |old(Rows())| <= |Rows()| && Rows()[..|old(Rows())|] == old(Rows())
                && (|Rows()| > |old(Rows())| <==> old(screen.row) + 1 >= height)
                && P.Continued(old(Marks(Rows())), Marks(Rows()), GridNow().row, GridNow().row)
      ensures vtScrollBottom.Some? ==>
                && unchanged(`scrollbackRows) && vtScrollTop.Some? && vtScrollTop.value < vtScrollBottom.value + 1 <= |old(screen.rowsArray)|
                && (forall k | 0 <= k < |screen.rowsArray| :: screen.rowsArray[k] in old(screen.rowsArray))
                && (if old(screen.row) != vtScrollBottom.value then
                      && screen.row == Least(old(screen.row) + 1, height - 1)
                      && screen.rowsArray == old(screen.rowsArray) && OnlyCleared(screen.rowsArray, 0, 0)
                    else
                      && screen.row == old(screen.row)
                      && screen.rowsArray == ShiftedUp(old(screen.rowsArray), vtScrollTop.value, vtScrollBottom.value + 1, 1)
                      && OnlyCleared(screen.rowsArray, vtScrollBottom.value, vtScrollBottom.value + 1))
      ensures forall k | 0 <= k < |screen.rowsArray| :: screen.rowsArray[k] in old(screen.rowsArray) || fresh(screen.rowsArray[k])
      ensures ModeNow() == old(ModeNow())
      ensures P.InGrid(old(GridNow()), ModeNow()) && GridNow() == P.NextRow(old(GridNow()), ModeNow())
    {
      hide Valid, Sound, NumberedFrom, Blank, Cleared, OnlyCleared, ShiftedUp, Distinct, CellRows, Marks, GridNow, ModeNow, P.InGrid, P.NextRow, P.Continued;
      if vtScrollBottom.Some? {
        RegionFits();
        NewLineInRegion();
      } else {
        NewLineFreely();
      }
    }

    lemma RegionFits()
      requires Valid() && vtScrollBottom.Some?
      ensures vtScrollTop.Some? && vtScrollTop.value < vtScrollBottom.value + 1 <= |screen.rowsArray|
    {
      hide Sound, NumberedFrom;
    }

    // ----- printing

    ghost function ModeNow(): P.Mode
      reads `screen, `width, `wraparound, `insertMode, screen`textAttributes, screen`columnCount
      reads `scrollbackRows, `vtScrollTop, `vtScrollBottom
    {
      P.Mode(width, screen.textAttributes.style, wraparound, insertMode, BlankNow(), RegionNow())
    }

    /** What a row that printing adds or clears shows. */
    ghost function BlankNow(): seq<Cell>
      reads `screen, screen`textAttributes, screen`columnCount, `vtScrollTop, `vtScrollBottom
    {
      if RegionSet() then ClearCells(screen.textAttributes, screen.columnCount) else []
    }

    ghost predicate RegionSet()
      reads `vtScrollTop, `vtScrollBottom
    {
      vtScrollTop.Some? && vtScrollBottom.Some?
    }

    /** The scroll region in terms of all rows. */
    ghost function RegionNow(): Option<P.Region>
      reads `scrollbackRows, `vtScrollTop, `vtScrollBottom
    {
      if RegionSet() then Some(P.Region(|scrollbackRows| + vtScrollTop.value, |scrollbackRows| + vtScrollBottom.value)) else None
    }

    /** What all rows show, and the cursor in them. */
    ghost function GridNow(): P.Grid
      reads `screen, `scrollbackRows, screen`rowsArray, screen`row, screen`column, screen`overflow
      reads Rows()`runs
    {
      P.Grid(CellRows(Rows()), |scrollbackRows| + screen.row, screen.column, screen.overflow)
    }

    /** One step of print puts its piece of the text; no other row changes. */
    method PutInRow(substr: Text)
      requires Valid() && substr != []
      modifies screen`row, screen`column, screen`overflow, screen`cursorRowNode, screen`cursorNode, screen`cursorOffset
      modifies screen.rowsArray`runs, screen.rowsArray`lineOverflow
      ensures Valid() && screen.row == old(screen.row) && screen.cursorRowNode == old(screen.cursorRowNode)
      ensures screen.column == S.Screen.Clamp(old(screen.column) + |substr|, width)
      ensures var cells := P.PutCells(old(Cells(screen.cursorRowNode.runs)), old(screen.column), ModeNow(), substr);
              && Cells(screen.cursorRowNode.runs) == Clipped(cells, width)
              && screen.overflow == (old(screen.column) + |substr| >= width || (old(screen.overflow) && |cells| <= width))
      ensures forall r | r in old(Rows()) && r != screen.cursorRowNode :: r.runs == old(r.runs) && r.lineOverflow == old(r.lineOverflow)
    {
      hide Cells, Settled, Cached, Distinct, NumberedFrom, Clipped, Inserted, Overwritten;
      RowsOfOthers(scrollbackRows, screen.rowsArray, Other().rowsArray);
      screen.PutString(substr, insertMode);
    }

    lemma CursorIsInRows()
      requires Valid()
      ensures |scrollbackRows| + screen.row < |Rows()| && Rows()[|scrollbackRows| + screen.row] == screen.cursorRowNode
      ensures forall k | 0 <= k < |Rows()| && k != |scrollbackRows| + screen.row :: Rows()[k] in Rows() && Rows()[k] != screen.cursorRowNode
      ensures P.InGrid(GridNow(), ModeNow()) && GridNow().row == |scrollbackRows| + screen.row < |Marks(Rows())|
    {
      hide Cells, CellRows, Marks;
    }

    /** The same, as a step on the grid. */
    method PutText(substr: Text)
      requires Valid() && substr != []
      modifies screen`row, screen`column, screen`overflow, screen`cursorRowNode, screen`cursorNode, screen`cursorOffset
      modifies screen.rowsArray`runs, screen.rowsArray`lineOverflow
      ensures Valid() && P.InGrid(old(GridNow()), ModeNow()) && GridNow() == P.Put(old(GridNow()), ModeNow(), substr)
      ensures unchanged(screen`row)
      ensures P.Continued(old(Marks(Rows())), Marks(Rows()), GridNow().row, GridNow().row)
    {
      hide Valid, Cells, Clipped, P.PutCells, P.Continued, Marks, CellRows;
      CursorIsInRows();
      ghost var before, marks := CellRows(Rows()), Marks(Rows());
      PutInRow(substr);
      CursorIsInRows();
      MarksAbove(marks, Rows(), |scrollbackRows| + screen.row);
      OneRowChanged(before, CellRows(Rows()), |scrollbackRows| + screen.row);
    }

    lemma NoRegion()
      requires Valid() && vtScrollBottom.None?
      ensures ModeNow().region.None? && ModeNow().blank == []
    {
      hide Sound, NumberedFrom;
    }

    /** A pending wrap: the row is marked as continued in the next one, where the cursor goes. */
    method WrapLine()
      requires Valid()
      modifies `scrollbackRows, screen, screen.rowsArray
      ensures Valid() && unchanged(screen`textAttributes)
      ensures forall k | 0 <= k < |screen.rowsArray| :: screen.rowsArray[k] in old(screen.rowsArray) || fresh(screen.rowsArray[k])
      ensures ModeNow() == old(ModeNow())
      ensures P.InGrid(old(GridNow()), ModeNow()) && GridNow() == P.NextRow(old(GridNow()), ModeNow())
      ensures vtScrollBottom.None? ==> P.Continued(old(Marks(Rows())), Marks(Rows()), old(GridNow()).row, GridNow().row)
    {
      hide Valid, CellRows, Marks, GridNow, ModeNow, P.Continued, P.InGrid, P.NextRow;
      CursorIsInRows();
      ghost var marks, g := Marks(Rows()), GridNow();
      CommitLineOverflow();
      ghost var committed := Marks(Rows());
      assert P.Continued(marks, committed, g.row, g.row + 1) by {
        MarksAbove(marks, Rows(), g.row);
      }
      NewLine();
      if vtScrollBottom.None? {
        NoRegion();
        P.ContinuedOn(marks, committed, Marks(Rows()), g.row, g.row + 1, g.row + 1);
      }
    }

    /** The test at the head of print's loop. */
    method WrapIfPending()
      requires Valid()
      modifies `scrollbackRows, screen, screen.rowsArray
      ensures Valid() && ModeNow() == old(ModeNow())
      ensures forall k | 0 <= k < |screen.rowsArray| :: screen.rowsArray[k] in old(screen.rowsArray) || fresh(screen.rowsArray[k])
      ensures P.InGrid(old(GridNow()), ModeNow()) && GridNow() == P.Wrapped(old(GridNow()), ModeNow())
      ensures vtScrollBottom.None? ==> P.Continued(old(Marks(Rows())), Marks(Rows()), old(GridNow()).row, GridNow().row)
    {
      hide Valid, CellRows, Marks, Rows;
      CursorIsInRows();
      if wraparound && screen.overflow {
        WrapLine();
      }
    }

    method CommitLineOverflow()
      requires Valid()
      modifies screen.cursorRowNode`lineOverflow
      ensures Valid() && screen.cursorRowNode.lineOverflow
    {
      hide Cells, Settled, Cached, Distinct, NumberedFrom;
      screen.CommitLineOverflow();
    }

    /** The body of print's loop: what it takes of the text, from `startOffset` on. */
    method PrintStep(str: Text, startOffset: nat) returns (count: nat)
      requires Valid() && startOffset < |str|
      modifies `scrollbackRows, screen, screen.rowsArray
      ensures Valid() && ModeNow() == old(ModeNow()) && count > 0
      ensures forall k | 0 <= k < |screen.rowsArray| :: screen.rowsArray[k] in old(screen.rowsArray) || fresh(screen.rowsArray[k])
      ensures P.InGrid(old(GridNow()), ModeNow())
      ensures var wrapped := P.Wrapped(old(GridNow()), ModeNow());
              && GridNow() == P.Put(wrapped, ModeNow(), P.Piece(wrapped, ModeNow(), str[startOffset..]))
              && SubstrFrom(str, startOffset + count) == str[startOffset..][P.Taken(wrapped, ModeNow(), str[startOffset..])..]
      ensures vtScrollBottom.None? ==> P.Continued(old(Marks(Rows())), Marks(Rows()), old(GridNow()).row, GridNow().row)
    {
      hide Valid, CellRows, Marks, Rows, GridNow, ModeNow, P.InGrid, P.Put, P.Piece, P.Taken, P.Wrapped, P.Continued;
      ghost var marks := Marks(Rows());
      WrapIfPending();
      CursorIsInRows();
      ghost var g, wrappedMarks := GridNow(), Marks(Rows());
      var substr;
      substr, count := ChoosePiece(str, startOffset);
      PutText(substr);
      if vtScrollBottom.None? {
        P.ContinuedOn(marks, wrappedMarks, Marks(Rows()), old(GridNow()).row, g.row, g.row);
      }
    }

    /** How much of the text fits into the row, and which text is put there. */
    method ChoosePiece(str: Text, startOffset: nat) returns (substr: Text, count: nat)
      requires Valid() && startOffset < |str|
      ensures P.InGrid(GridNow(), ModeNow()) && count > 0
      ensures substr == P.Piece(GridNow(), ModeNow(), str[startOffset..])
      ensures SubstrFrom(str, startOffset + count) == str[startOffset..][P.Taken(GridNow(), ModeNow(), str[startOffset..])..]
    {
      hide Valid, CellRows, Marks, P.Piece, P.Taken, Substr, SubstrFrom;
      CursorIsInRows();
      P.PieceOf(GridNow(), ModeNow(), str, startOffset);
      var strWidth := |str|;
      count := strWidth - startOffset;
      var didOverflow := false;
      if screen.column + count >= width {
        didOverflow := true;
        count := width - screen.column;
      }
      if didOverflow && !wraparound {
        substr := Substr(str, startOffset, count - 1) + SubstrFrom(str, strWidth - 1);
        count := strWidth;
      } else {
        substr := Substr(str, startOffset, count);
      }
    }

    /** print. */
    method Print(str: Text)
      requires Valid()
      modifies `scrollbackRows, screen, screen.rowsArray
      ensures Valid() && ModeNow() == old(ModeNow())
      // what the grid shows, and without a scroll region which rows are marked as continued
      ensures P.InGrid(old(GridNow()), ModeNow()) && GridNow() == P.Printed(old(GridNow()), ModeNow(), str)
      ensures str != [] ==> P.PrintShows(old(GridNow()), ModeNow(), str, GridNow())
      ensures vtScrollBottom.None? ==> P.Continued(old(Marks(Rows())), Marks(Rows()), old(GridNow()).row, GridNow().row)
      // on blank rows, getRowsText then reads the text back
      ensures vtScrollBottom.None? && str != [] && ModeNow().wraparound && !ModeNow().insertMode ==>
                P.BlankFrom(old(GridNow())) && old(GridNow()).column == 0 && !old(GridNow()).overflow ==>
                  && GridNow().row < |Rows()|
                  && P.RowsText(CellRows(Rows()), Marks(Rows()), old(GridNow()).row, GridNow().row + 1) == str
    {
      hide Valid, CellRows, Marks, Rows, P.Put, P.Piece, P.Taken, P.Wrapped, P.Continued, P.Printed, GridNow, P.InGrid, P.BlankFrom, P.RowsText, P.PrintShows;
      var startOffset := 0;
      var strWidth := |str|;
      ghost var mode := ModeNow();
      CursorIsInRows();
      assert SubstrFrom(str, 0) == str;
      P.ContinuedHere(Marks(Rows()), GridNow().row);
      while startOffset < strWidth
        invariant Valid() && ModeNow() == mode
        invariant forall k | 0 <= k < |screen.rowsArray| :: screen.rowsArray[k] in old(screen.rowsArray) || fresh(screen.rowsArray[k])
        invariant P.InGrid(GridNow(), mode) && P.InGrid(old(GridNow()), mode)
        invariant P.Printed(GridNow(), mode, SubstrFrom(str, startOffset)) == P.Printed(old(GridNow()), mode, str)
        invariant vtScrollBottom.None? ==> P.Continued(old(Marks(Rows())), Marks(Rows()), old(GridNow()).row, GridNow().row)
        decreases strWidth - startOffset
      {
        ghost var g, marks := GridNow(), Marks(Rows());
        CursorIsInRows();
        P.PrintedStep(g, mode, str[startOffset..]);
        var count := PrintStep(str, startOffset);
        if vtScrollBottom.None? {
          P.ContinuedOn(old(Marks(Rows())), marks, Marks(Rows()), old(GridNow()).row, g.row, GridNow().row);
        }
        startOffset := startOffset + count;
      }
      CursorIsInRows();
      P.PrintedNothing(GridNow(), mode);
      ReadsBack(old(GridNow()), str, old(Marks(Rows())));
      if str != [] {
        P.PrintedMeans(old(GridNow()), mode, str);
      }
    }

    lemma ReadsBack(g: P.Grid, str: Text, before: seq<bool>)
      requires P.InGrid(g, ModeNow()) && GridNow() == P.Printed(g, ModeNow(), str)
      requires vtScrollBottom.None? ==> P.Continued(before, Marks(Rows()), g.row, GridNow().row)
      ensures Valid() && vtScrollBottom.None? && str != [] && ModeNow().wraparound && !ModeNow().insertMode ==>
                P.BlankFrom(g) && g.column == 0 && !g.overflow ==>
                  && GridNow().row < |Rows()|
                  && P.RowsText(CellRows(Rows()), Marks(Rows()), g.row, GridNow().row + 1) == str
    {
      hide Valid, CellRows, Marks, P.Printed, P.Continued, P.BlankFrom, P.RowsText;
      if Valid() && vtScrollBottom.None? && str != [] && ModeNow().wraparound && !ModeNow().insertMode {
        if P.BlankFrom(g) && g.column == 0 && !g.overflow {
          P.PrintedTextReadsBack(g, ModeNow(), str, before, Marks(Rows()));
        }
      }
    }

    /** getRowsText. */
    method GetRowsText(start: nat, end: nat) returns (text: Text)
      requires end <= |scrollbackRows| + |screen.rowsArray|
      ensures text == P.RowsText(CellRows(Rows()), Marks(Rows()), start, end)
    {
      hide CellRows, Marks, P.RowsText, Chars, TextContent;
      text := [];
      var i := start;
      ghost var cells, marks := CellRows(Rows()), Marks(Rows());
      while i < end
        invariant start <= i
        invariant P.RowsText(cells, marks, start, end) == text + P.RowsText(cells, marks, i, end)
      {
        var node := GetRowNode(i);
        TextIsChars(node.runs);
        P.RowsTextStep(cells, marks, i, end, text);
        text := text + TextContent(node.runs);
        if i < end - 1 && !node.lineOverflow {
          text := text + [10];
        }
        i := i + 1;
      }
      P.RowsTextStep(cells, marks, i, end, text);
    }
  }

  lemma RegionRowAt(rows: seq<RowNode>, top: nat, bottom: nat, k: nat)
    requires top <= bottom < |rows| && k < |rows| && k != bottom
    ensures P.Source(P.Region(top, bottom), k) < |rows|
    ensures ShiftedUp(rows, top, bottom + 1, 1)[k] == rows[P.Source(P.Region(top, bottom), k)]
  {
  }

  ghost function RunsOf(rows: seq<RowNode>): (r: seq<seq<Run>>)
    reads rows`runs
    ensures |r| == |rows| && forall k | 0 <= k < |rows| :: r[k] == rows[k].runs
  {
    if rows == [] then [] else [rows[0].runs] + RunsOf(rows[1..])
  }

  lemma CellsOfRuns(scrollback: seq<RowNode>, rows: seq<RowNode>, before: seq<seq<Cell>>)
    requires before == CellRows(scrollback + rows)
    ensures ShownBefore(RunsOf(scrollback), RunsOf(rows), before)
  {
    hide Cells, CellRows, RunsOf;
    assert forall k | 0 <= k < |scrollback| :: (scrollback + rows)[k] == scrollback[k];
    assert forall k | 0 <= k < |rows| :: (scrollback + rows)[|scrollback| + k] == rows[k];
  }

  predicate ShownBefore(above: seq<seq<Run>>, runs: seq<seq<Run>>, before: seq<seq<Cell>>) {
    && |before| == |above| + |runs| && (forall k | 0 <= k < |above| :: before[k] == Cells(above[k]))
    && forall k | 0 <= k < |runs| :: before[|above| + k] == Cells(runs[k])
  }

  /** The rows of the screen hold the runs from before, shifted up, and the cleared row. */
  ghost predicate ShiftedRuns(after: seq<RowNode>, runs: seq<seq<Run>>, region: P.Region, blank: seq<Cell>)
    reads after`runs
  {
    && region.top <= region.bottom < |runs| == |after| && Cells(after[region.bottom].runs) == blank
    && forall k | 0 <= k < |after| && k != region.bottom :: P.Source(region, k) < |after| && after[k].runs == runs[P.Source(region, k)]
  }

  lemma ShiftedGrid(scrollback: seq<RowNode>, after: seq<RowNode>, above: seq<seq<Run>>, runs: seq<seq<Run>>, before: seq<seq<Cell>>,
                    region: P.Region, blank: seq<Cell>)
    requires ShownBefore(above, runs, before) && RunsOf(scrollback) == above && ShiftedRuns(after, runs, region, blank)
    ensures CellRows(scrollback + after)
            == P.Scrolled(before, P.Region(|scrollback| + region.top, |scrollback| + region.bottom), blank)
  {
    hide Cells, CellRows, RunsOf, P.Scrolled, P.Source;
    RowsShifted(after, above, runs, before, region, blank);
    RegionShifted(scrollback, after, before, region, blank);
  }

  lemma RowsShifted(after: seq<RowNode>, above: seq<seq<Run>>, runs: seq<seq<Run>>, before: seq<seq<Cell>>, region: P.Region, blank: seq<Cell>)
    requires ShownBefore(above, runs, before) && ShiftedRuns(after, runs, region, blank)
    ensures forall k | 0 <= k < |after| :: ShowsShifted(after[k], k, before, |above|, region, blank)
  {
    hide Cells;
  }

  /** Row `k` of the screen shows what one of the rows before showed, or is the one cleared. */
  ghost predicate ShowsShifted(r: RowNode, k: nat, before: seq<seq<Cell>>, offset: nat, region: P.Region, blank: seq<Cell>)
    reads r`runs
  {
    && offset + P.Source(region, k) < |before|
    && Cells(r.runs) == if k == region.bottom then blank else before[offset + P.Source(region, k)]
  }

  lemma RegionShiftedAt(scrollback: seq<RowNode>, after: seq<RowNode>, before: seq<seq<Cell>>, region: P.Region, blank: seq<Cell>, i: nat)
    requires |before| == |scrollback| + |after| && region.top <= region.bottom < |after| && i < |before|
    requires i < |scrollback| ==> Cells(scrollback[i].runs) == before[i]
    requires i >= |scrollback| ==> ShowsShifted(after[i - |scrollback|], i - |scrollback|, before, |scrollback|, region, blank)
    ensures var whole := P.Region(|scrollback| + region.top, |scrollback| + region.bottom);
            CellRows(scrollback + after)[i] == P.Scrolled(before, whole, blank)[i]
  {
    hide Cells, CellRows, P.Scrolled;
    P.ScrolledOne(before, P.Region(|scrollback| + region.top, |scrollback| + region.bottom), blank, i);
    assert (scrollback + after)[i] == if i < |scrollback| then scrollback[i] else after[i - |scrollback|];
  }

  lemma RegionShifted(scrollback: seq<RowNode>, after: seq<RowNode>, before: seq<seq<Cell>>, region: P.Region, blank: seq<Cell>)
    requires |before| == |scrollback| + |after| && region.top <= region.bottom < |after|
    requires forall k | 0 <= k < |scrollback| :: Cells(scrollback[k].runs) == before[k]
    requires forall k | 0 <= k < |after| :: ShowsShifted(after[k], k, before, |scrollback|, region, blank)
    ensures var whole := P.Region(|scrollback| + region.top, |scrollback| + region.bottom);
            CellRows(scrollback + after) == P.Scrolled(before, whole, blank)
  {
    hide *;
    var whole := P.Region(|scrollback| + region.top, |scrollback| + region.bottom);
    var a, b := CellRows(scrollback + after), P.Scrolled(before, whole, blank);
    forall i | 0 <= i < |before| ensures a[i] == b[i] {
      RegionShiftedAt(scrollback, after, before, region, blank, i);
    }
  }

  /** The rows of a later screen are rows of the earlier one or come after them. */
  lemma LaterRows(before: seq<RowNode>, offset: nat, after: seq<RowNode>, later: nat)
    requires offset <= later <= |after| && |before| <= |after| && after[..|before|] == before
    ensures forall k | later <= k < |after| :: k < |before| ==> after[k] in before[offset..]
  {
  }

  lemma BlankCells(r: RowNode)
    requires Blank(r)
    ensures Cells(r.runs) == [] && !r.lineOverflow
  {
    CellsOne(Run([], None));
  }

  /** Rows that keep their cells, and perhaps a blank one below them. */
  lemma RowsExtended(before: seq<seq<Cell>>, rows: seq<RowNode>, after: seq<RowNode>)
    requires |before| == |rows| <= |after| <= |rows| + 1 && after[..|rows|] == rows && before == CellRows(rows)
    requires |after| > |rows| ==> Blank(after[|rows|])
    ensures CellRows(after) == before + if |after| > |rows| then [[]] else []
    ensures Marks(after) == Marks(rows) + if |after| > |rows| then [false] else []
  {
    hide *;
    assert forall k | 0 <= k < |rows| :: after[k] == rows[k];
    if |after| > |rows| {
      BlankCells(after[|rows|]);
      assert CellRows(after)[..|rows|] == before && Marks(after)[..|rows|] == Marks(rows);
      assert CellRows(after) == CellRows(after)[..|rows|] + [CellRows(after)[|rows|]];
      assert Marks(after) == Marks(after)[..|rows|] + [Marks(after)[|rows|]];
    } else {
      assert CellRows(after) == before + [] && Marks(after) == Marks(rows) + [];
    }
  }

  /** The marks of rows above row `i` are the old ones. */
  lemma MarksAbove(before: seq<bool>, rows: seq<RowNode>, i: nat)
    requires i <= |before| && i <= |rows| && forall k | 0 <= k < i :: rows[k].lineOverflow == before[k]
    ensures P.Continued(before, Marks(rows), i, i)
    ensures i < |rows| && rows[i].lineOverflow ==> P.Continued(before, Marks(rows), i, i + 1)
  {
    hide Marks;
    assert Marks(rows)[..i] == before[..i];
  }

  lemma MarksExtended(marks: seq<bool>, more: seq<bool>, i: nat)
    requires i <= |marks|
    ensures P.Continued(marks, marks + more, i, i)
  {
  }

  lemma OneRowChanged(before: seq<seq<Cell>>, after: seq<seq<Cell>>, i: nat)
    requires |before| == |after| && i < |after|
    requires forall k | 0 <= k < |after| && k != i :: after[k] == before[k]
    ensures after == before[i := after[i]]
  {
  }

  /** The line-overflow attribute of each row. */
  ghost function Marks(rows: seq<RowNode>): (r: seq<bool>)
    reads rows`lineOverflow
    ensures |r| == |rows| && forall k | 0 <= k < |rows| :: r[k] == rows[k].lineOverflow
  {
    if rows == [] then [] else [rows[0].lineOverflow] + Marks(rows[1..])
  }

  /** What each row shows. */
  ghost function CellRows(rows: seq<RowNode>): (r: seq<seq<Cell>>)
    reads rows`runs
    ensures |r| == |rows| && forall k | 0 <= k < |rows| :: r[k] == Cells(rows[k].runs)
  {
    if rows == [] then [] else [Cells(rows[0].runs)] + CellRows(rows[1..])
  }

  twostate predicate Kept(r: RowNode)
    reads r`runs, r`lineOverflow
  {
    r.runs == old(r.runs) && r.lineOverflow == old(r.lineOverflow)
  }

  /** Moving rows of the screen keeps all rows distinct, and keeps none out or in. */
  lemma RowsMoved(scrollback: seq<RowNode>, rows: seq<RowNode>, from: nat, count: nat, to: nat)
    requires from + count <= |rows| && to + count <= |rows| && Distinct(scrollback + rows)
    ensures var moved := Moved(rows, from, count, to);
            && Distinct(scrollback + moved)
            && (forall r | r in moved :: r in rows) && forall r | r in scrollback + moved :: r in scrollback + rows
  {
    hide Moved;
    var moved := Moved(rows, from, count, to);
    PartsDistinct(scrollback, rows);
    MovedStaysDistinct(rows, from, count, to);
    MovedIsPermutation(rows, from, count, to);
    forall r | r in moved ensures r in rows {
      assert r in multiset(moved);
      assert r in multiset(rows);
    }
    assert forall r | r in scrollback + moved :: r in scrollback || r in moved;
    DistinctTogether(scrollback, moved);
  }

  lemma ProperMembers(rows: seq<RowNode>, moved: seq<RowNode>)
    requires Proper(rows) && forall r | r in moved :: r in rows
    ensures Proper(moved)
  {
  }

  lemma DistinctTogether(scrollback: seq<RowNode>, rows: seq<RowNode>)
    requires Distinct(scrollback) && Distinct(rows) && forall r | r in rows :: r !in scrollback
    ensures Distinct(scrollback + rows)
  {
    var all := scrollback + rows;
    forall i, j | 0 <= i < j < |all| ensures all[i] != all[j] {
      assert all[i] == if i < |scrollback| then scrollback[i] else rows[i - |scrollback|];
      assert all[j] == if j < |scrollback| then scrollback[j] else rows[j - |scrollback|];
      assert j >= |scrollback| ==> rows[j - |scrollback|] in rows;
    }
  }

  lemma PartsProper(scrollback: seq<RowNode>, rows: seq<RowNode>)
    requires Proper(scrollback + rows)
    ensures Proper(scrollback) && Proper(rows)
  {
  }

  lemma ProperTogether(scrollback: seq<RowNode>, rows: seq<RowNode>)
    requires Proper(scrollback) && Proper(rows)
    ensures Proper(scrollback + rows)
  {
  }

  lemma PartsDistinct(scrollback: seq<RowNode>, rows: seq<RowNode>)
    requires Distinct(scrollback + rows)
    ensures Distinct(scrollback) && Distinct(rows)
    ensures forall r | r in scrollback :: r !in rows
  {
    assert forall k | 0 <= k < |scrollback| :: (scrollback + rows)[k] == scrollback[k];
    assert forall k | 0 <= k < |rows| :: (scrollback + rows)[|scrollback| + k] == rows[k];
  }

  /** The rows of two screens, one of them shown below the scrollback, can change places. */
  lemma PartsTogether(scrollback: seq<RowNode>, rows: seq<RowNode>, others: seq<RowNode>)
    requires Distinct(scrollback + rows) && Distinct(others) && forall r | r in scrollback + rows :: r !in others
    ensures Distinct(scrollback + others) && forall r | r in scrollback + others :: r !in rows
  {
    PartsDistinct(scrollback, rows);
    assert forall r | r in scrollback || r in rows :: r in scrollback + rows;
    assert forall r | r in scrollback + others :: r in scrollback || r in others;
    DistinctTogether(scrollback, others);
  }

  lemma NumberingIsKnown(rows: seq<RowNode>, base: nat)
    ensures rows == [] || (rows[0].rowIndex == base && NumberedFrom(rows, rows[0].rowIndex)) ==> NumberedFrom(rows, base)
    ensures rows != [] && NumberedFrom(rows, base) ==> NumberedFrom(rows, rows[0].rowIndex)
  {
  }

  lemma RowsOfOthers(scrollback: seq<RowNode>, rows: seq<RowNode>, others: seq<RowNode>)
    requires forall r | r in scrollback + rows :: r !in others
    ensures forall k | 0 <= k < |others| :: others[k] !in rows
    ensures forall k | 0 <= k < |rows| :: rows[k] !in others
  {
    assert forall r | r in rows :: r in scrollback + rows;
  }

  lemma NumberingMeans(rows: seq<RowNode>, base: int)
    ensures NumberedFrom(rows, base) ==> forall i | 0 <= i < |rows| :: rows[i].rowIndex == base + i
  {
  }

  lemma NumberingIsDone(rows: seq<RowNode>, base: int)
    requires forall i | 0 <= i < |rows| :: rows[i].rowIndex == base + i
    ensures NumberedFrom(rows, base)
  {
  }

  lemma NumberedTogether(scrollback: seq<RowNode>, rows: seq<RowNode>)
    requires NumberedFrom(scrollback, 0) && NumberedFrom(rows, |scrollback|)
    ensures NumberedFrom(scrollback + rows, 0)
  {
  }

  lemma PartsNumbered(scrollback: seq<RowNode>, rows: seq<RowNode>)
    requires NumberedFrom(scrollback + rows, 0)
    ensures NumberedFrom(scrollback, 0) && NumberedFrom(rows, |scrollback|)
  {
    assert forall k | 0 <= k < |scrollback| :: (scrollback + rows)[k] == scrollback[k];
    assert forall k | 0 <= k < |rows| :: (scrollback + rows)[|scrollback| + k] == rows[k];
  }

  /** What a change of height from `oldHeight` to `newHeight` does to the rows, when `scrollback`
      of them were off the screen and the cursor was in row `cursorRow` of it. */
  ghost predicate Resized(before: seq<RowNode>, after: seq<RowNode>, oldHeight: nat, newHeight: nat, scrollback: nat, cursorRow: nat)
    reads before`runs, after
  {
    if newHeight <= oldHeight then
      |after| >= scrollback + newHeight && Shrunk(before, after, scrollback + cursorRow, |after| > scrollback + newHeight)
    else Enlarged(before, after, if newHeight - oldHeight <= scrollback then 0 else newHeight - oldHeight)
  }

  /** From the bottom, empty rows below row `cursor` are lost, and nothing else; if rows `scroll`
      off nevertheless, the last row left is not empty or is row `cursor`. */
  ghost predicate Shrunk(before: seq<RowNode>, after: seq<RowNode>, cursor: nat, scroll: bool)
    reads before`runs, after`runs
  {
    && |after| <= |before| && after == before[..|after|]
    && (forall k | |after| <= k < |before| :: k > cursor && TextContent(before[k].runs) == [])
    && (scroll ==> after != [] && (|after| == cursor + 1 || TextContent(after[|after| - 1].runs) != []))
  }

  /** `added` blank rows come after the old ones. */
  ghost predicate Enlarged(before: seq<RowNode>, after: seq<RowNode>, added: nat)
    reads after
  {
    && |after| == |before| + added && after[..|before|] == before
    && forall k | |before| <= k < |after| :: Blank(after[k])
  }

  /** A change of height that takes no row from the scrollback and puts none there: the screen
      grows by more rows than the scrollback has, or all the rows that do not fit are empty and
      below the cursor. With an empty scrollback every growth is such a change. */
  ghost predicate LeavesScrollback(before: seq<RowNode>, oldHeight: nat, newHeight: nat, scrollback: nat, cursorRow: nat)
    requires |before| == scrollback + oldHeight
    reads before`runs
  {
    if newHeight > oldHeight then newHeight - oldHeight > scrollback
    else forall k | scrollback + newHeight <= k < scrollback + oldHeight ::
           k > scrollback + cursorRow && TextContent(before[k].runs) == []
  }

  lemma ScrollbackLeft(scrollback: seq<RowNode>, shown: seq<RowNode>, later: seq<RowNode>, laterShown: seq<RowNode>, cursorRow: nat)
    requires Resized(scrollback + shown, later + laterShown, |shown|, |laterShown|, |scrollback|, cursorRow)
    ensures later == scrollback <==> LeavesScrollback(scrollback + shown, |shown|, |laterShown|, |scrollback|, cursorRow)
  {
    hide Shrunk, Enlarged, LeavesScrollback;
    if |laterShown| <= |shown| {
      LeftByShrinking(scrollback, shown, later, laterShown, cursorRow);
    } else {
      LeftByGrowing(scrollback, shown, later, laterShown, cursorRow);
    }
  }

  lemma LeftByShrinking(scrollback: seq<RowNode>, shown: seq<RowNode>, later: seq<RowNode>, laterShown: seq<RowNode>, cursorRow: nat)
    requires |laterShown| <= |shown| && |later| >= |scrollback|
    requires Shrunk(scrollback + shown, later + laterShown, |scrollback| + cursorRow, |later| > |scrollback|)
    ensures later == scrollback <==> LeavesScrollback(scrollback + shown, |shown|, |laterShown|, |scrollback|, cursorRow)
  {
    hide Shrunk, LeavesScrollback;
    ShrunkLeaves(scrollback + shown, later + laterShown, |shown|, |laterShown|, |scrollback|, cursorRow);
    if |later| == |scrollback| {
      SamePrefix(later, laterShown, scrollback, shown);
    }
  }

  lemma ShrunkLeaves(before: seq<RowNode>, after: seq<RowNode>, oldHeight: nat, newHeight: nat, scrollback: nat, cursorRow: nat)
    requires |before| == scrollback + oldHeight && newHeight <= oldHeight && |after| >= scrollback + newHeight
    requires Shrunk(before, after, scrollback + cursorRow, |after| > scrollback + newHeight)
    ensures after <= before
    ensures |after| == scrollback + newHeight <==> LeavesScrollback(before, oldHeight, newHeight, scrollback, cursorRow)
  {
    hide TextContent;
    if |after| > scrollback + newHeight {
      var last := |after| - 1;
      assert after[last] == before[last];
      assert !(last > scrollback + cursorRow && TextContent(before[last].runs) == []);
    }
  }

  lemma LeftByGrowing(scrollback: seq<RowNode>, shown: seq<RowNode>, later: seq<RowNode>, laterShown: seq<RowNode>, cursorRow: nat)
    requires |laterShown| > |shown|
    requires Enlarged(scrollback + shown, later + laterShown,
                      if |laterShown| - |shown| <= |scrollback| then 0 else |laterShown| - |shown|)
    ensures later == scrollback <==> LeavesScrollback(scrollback + shown, |shown|, |laterShown|, |scrollback|, cursorRow)
  {
    hide Blank, TextContent;
    var before, after := scrollback + shown, later + laterShown;
    assert |after| == |later| + |laterShown| && |before| == |scrollback| + |shown| && after[..|before|] == before;
    if |later| == |scrollback| {
      SamePrefix(scrollback, shown, later, laterShown);
    }
  }

  lemma SamePrefix(a: seq<RowNode>, b: seq<RowNode>, c: seq<RowNode>, d: seq<RowNode>)
    requires |a| == |c| && a + b <= c + d
    ensures a == c
  {
    assert forall k | 0 <= k < |a| :: (a + b)[k] == a[k] && (c + d)[k] == c[k];
  }

  lemma NothingLost(rows: seq<RowNode>, cursor: nat)
    ensures Shrunk(rows, rows, cursor, false)
  {
  }

  lemma FewerRows(rows: seq<RowNode>, row: RowNode)
    requires Distinct(rows + [row]) && Proper(rows + [row]) && NumberedFrom(rows + [row], 0)
    ensures Distinct(rows) && Proper(rows) && NumberedFrom(rows, 0) && (rows + [row])[..|rows|] == rows
    ensures forall r | r in rows :: r in rows + [row]
  {
    assert forall i | 0 <= i < |rows| :: (rows + [row])[i] == rows[i];
  }

  lemma AppendedRow(rows: seq<RowNode>, row: RowNode)
    requires Distinct(rows) && row !in rows && Proper(rows) && NumberedFrom(rows, 0)
    requires row.runs == [Run([], None)] && !row.lineOverflow && row.rowIndex == |rows|
    ensures Distinct(rows + [row]) && Proper(rows + [row]) && NumberedFrom(rows + [row], 0) && Blank(row)
  {
  }
}
