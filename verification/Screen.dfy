/** hterm.Screen: rows of text with a cursor. Where the cursor's run is and how far into it the
    cursor stands is cached, and kept up to date by every operation. */
module Screen {
  import opened JsText
  import opened ScreenRow
  import P = Printing

  /** A row's DOM node. `rowIndex` belongs to the terminal. */
  class RowNode {
    var runs: seq<Run>
    var lineOverflow: bool
    var rowIndex: int

    constructor (rowIndex: int)
      ensures runs == [] && !lineOverflow && this.rowIndex == rowIndex
    {
      runs := [];
      lineOverflow := false;
      this.rowIndex := rowIndex;
    }
  }

  class Screen {
    var rowsArray: seq<RowNode>
    var columnCount: nat
    var textAttributes: Attributes
    // cursorPosition
    var row: nat
    var column: nat
    var overflow: bool
    // the cursor's row, the number of its run, and the offset in it
    var cursorRowNode: RowNode?
    var cursorNode: nat
    var cursorOffset: nat

    ghost predicate Valid()
      reads `columnCount, `textAttributes
    {
      columnCount > 0 && Consistent(textAttributes)
    }

    /** The cursor stands in some row, and the cache agrees with its column. */
    ghost predicate Placed()
      reads `column, `cursorRowNode, `cursorNode, `cursorOffset, cursorRowNode
    {
      cursorRowNode != null && Cached(cursorRowNode.runs, cursorNode, cursorOffset, column)
    }

    /** The row is the one at the cursor's position. */
    ghost predicate InPlace()
      reads `rowsArray, `row, `column, `cursorRowNode, `cursorNode, `cursorOffset, cursorRowNode
    {
      Placed() && row < |rowsArray| && rowsArray[row] == cursorRowNode
    }

    constructor (columnCount: nat, attributes: Attributes)
      requires columnCount > 0 && Consistent(attributes)
      ensures Valid() && rowsArray == [] && cursorRowNode == null && this.columnCount == columnCount
      ensures row == column == 0 && !overflow && textAttributes == attributes
    {
      rowsArray := [];
      this.columnCount := columnCount;
      textAttributes := attributes;
      row, column, overflow := 0, 0, false;
      cursorRowNode, cursorNode, cursorOffset := null, 0, 0;
    }

    static function Clamp(n: int, count: nat): (r: nat)
      requires count > 0
    {
      if n >= count then count - 1 else if n < 0 then 0 else n
    }

    method SetColumnCount(count: nat)
      requires Valid() && count > 0 && (if cursorRowNode == null then column == 0 else InPlace())
      modifies `columnCount, `row, `column, `overflow, `cursorRowNode, `cursorNode, `cursorOffset
      ensures Valid() && columnCount == count && unchanged(`row) && unchanged(`cursorRowNode)
      ensures cursorRowNode == null ==> unchanged(`column)
      ensures cursorRowNode != null ==>
                && InPlace()
                && column == (if old(column) >= count then count - 1 else old(column))
    {
      columnCount := count;
      if column >= count {
        SetCursorPosition(row, count - 1);
      }
    }

    // ----- rows

    method ShiftRows(count: nat) returns (shifted: seq<RowNode>)
      requires count <= |rowsArray|
      modifies `rowsArray
      ensures shifted + rowsArray == old(rowsArray) && |shifted| == count
    {
      shifted := rowsArray[..count];
      rowsArray := rowsArray[count..];
    }

    method UnshiftRows(rows: seq<RowNode>)
      modifies `rowsArray
      ensures rowsArray == rows + old(rowsArray)
    {
      rowsArray := rows + rowsArray;
    }

    method PopRow() returns (popped: RowNode)
      requires rowsArray != []
      modifies `rowsArray
      ensures rowsArray + [popped] == old(rowsArray)
    {
      popped := rowsArray[|rowsArray| - 1];
      rowsArray := rowsArray[..|rowsArray| - 1];
    }

    method PushRow(pushed: RowNode)
      modifies `rowsArray
      ensures rowsArray == old(rowsArray) + [pushed]
    {
      rowsArray := rowsArray + [pushed];
    }

    method InsertRows(index: nat, rows: seq<RowNode>)
      requires index <= |rowsArray|
      modifies `rowsArray
      ensures rowsArray == old(rowsArray)[..index] + rows + old(rowsArray)[index..]
    {
      for i := 0 to |rows|
        invariant rowsArray == old(rowsArray)[..index] + rows[..i] + old(rowsArray)[index..]
      {
        ghost var before, after := old(rowsArray)[..index] + rows[..i], old(rowsArray)[index..];
        assert rowsArray[..index + i] == before && rowsArray[index + i..] == after;
        rowsArray := rowsArray[..index + i] + [rows[i]] + rowsArray[index + i..];
      }
    }

    method RemoveRows(index: nat, count: nat) returns (removed: seq<RowNode>)
      requires index + count <= |rowsArray|
      modifies `rowsArray
      ensures removed == old(rowsArray)[index..index + count]
      ensures rowsArray == old(rowsArray)[..index] + old(rowsArray)[index + count..]
    {
      removed := rowsArray[index..index + count];
      rowsArray := rowsArray[..index] + rowsArray[index + count..];
    }

    method ClearCursorRow()
      requires Valid() && cursorRowNode != null
      modifies `column, `overflow, `cursorNode, `cursorOffset, cursorRowNode`runs, cursorRowNode`lineOverflow
      ensures Placed() && column == 0 && !overflow && !cursorRowNode.lineOverflow
      ensures Cells(cursorRowNode.runs) == ClearCells(textAttributes, columnCount)
      ensures cursorRowNode.runs != [] && Settled(cursorRowNode.runs)
    {
      hide Cells;
      ClearedRow(textAttributes, columnCount);
      cursorRowNode.lineOverflow := false;
      cursorOffset, column, overflow := 0, 0, false;
      cursorRowNode.runs := [ClearRun(textAttributes, columnCount)];
      cursorNode := 0;
    }

    method CommitLineOverflow()
      requires cursorRowNode != null
      modifies cursorRowNode`lineOverflow
      ensures cursorRowNode.lineOverflow
    {
      cursorRowNode.lineOverflow := true;
    }

    // ----- cursor

    /** The row that setCursorPosition goes to, if a text node has to be added to it. */
    ghost function Target(row: int): set<RowNode>
      reads this, rowsArray
    {
      if rowsArray == [] || rowsArray[Clamp(row, |rowsArray|)].runs != [] then {}
      else {rowsArray[Clamp(row, |rowsArray|)]}
    }

    method SetCursorPosition(row: int, column: int)
      requires Valid() && (cursorRowNode == null || Placed())
      modifies `row, `column, `overflow, `cursorRowNode, `cursorNode, `cursorOffset
      modifies Target(row)
      ensures rowsArray == [] ==> unchanged(this)
      ensures rowsArray != [] ==>
                && InPlace() && !overflow
                && this.row == Clamp(row, |rowsArray|) && this.column == Clamp(column, columnCount)
                && (cursorNode + 1 == |cursorRowNode.runs| || cursorOffset < |cursorRowNode.runs[cursorNode].text|)
      ensures rowsArray != [] ==>
                var runs := old(rowsArray[Clamp(row, |rowsArray|)].runs);
                && cursorRowNode.runs == (if runs == [] then [Run([], None)] else runs)
                && unchanged(cursorRowNode`lineOverflow) && unchanged(cursorRowNode`rowIndex)
    {
      if |rowsArray| == 0 {
        return;
      }
      hide Cells;
      var newRow := Clamp(row, |rowsArray|);
      var newColumn := Clamp(column, columnCount);
      overflow := false;
      var rowNode := rowsArray[newRow];
      var node := 0;
      if rowNode.runs == [] {
        rowNode.runs := [Run([], None)];
      }
      var currentColumn := 0;
      CellsOfNothing();
      if rowNode == cursorRowNode {
        if newColumn >= this.column - cursorOffset {
          node := cursorNode;
          currentColumn := this.column - cursorOffset;
        }
      } else {
        cursorRowNode := rowNode;
      }
      this.row, this.column := newRow, newColumn;
      cursorNode, cursorOffset := Seek(rowNode.runs, node, currentColumn, newColumn);
    }

    /** The loop of setCursorPosition: the run that holds `column`, or the last one. */
    static method Seek(runs: seq<Run>, start: nat, startColumn: nat, column: nat) returns (node: nat, offset: nat)
      requires start < |runs| && |Cells(runs[..start])| == startColumn <= column
      ensures Cached(runs, node, offset, column)
      ensures node + 1 == |runs| || offset < |runs[node].text|
    {
      hide Cells;
      node := start;
      var currentColumn := startColumn;
      while node + 1 < |runs| && |runs[node].text| <= column - currentColumn
        invariant node < |runs| && |Cells(runs[..node])| == currentColumn <= column
      {
        CellsAround(runs, node);
        currentColumn := currentColumn + |runs[node].text|;
        node := node + 1;
      }
      offset := column - currentColumn;
    }

    // ----- inserting

    /** splitNode_: an empty half is not kept. */
    method SplitNode(k: nat, offset: nat)
      requires cursorRowNode != null && k < |cursorRowNode.runs| && offset <= |cursorRowNode.runs[k].text|
      modifies cursorRowNode`runs
      ensures cursorRowNode.runs == Split(old(cursorRowNode.runs), k, offset)
    {
      var runs := cursorRowNode.runs;
      var textContent := runs[k].text;
      var afterNode := runs[k].(text := SubstrFrom(textContent, offset));
      var node := runs[k].(text := Substr(textContent, 0, offset));
      assert node.text == textContent[..offset] && afterNode.text == textContent[offset..];
      var rest := runs[k + 1..];
      if afterNode.text != [] {
        rest := [afterNode] + rest;
      }
      if node.text == [] {
        cursorRowNode.runs := runs[..k] + rest;
      } else {
        cursorRowNode.runs := runs[..k] + [node] + rest;
      }
    }

    /** The part of insertString that fills up the row to the cursor. */
    method PadToCursor()
      requires Valid() && Placed()
      modifies `cursorNode, `cursorOffset, cursorRowNode`runs
      ensures Placed() && cursorOffset <= |cursorRowNode.runs[cursorNode].text|
      ensures Cells(cursorRowNode.runs) == Padded(old(Cells(cursorRowNode.runs)), column)
      ensures old(Settled(cursorRowNode.runs)) ==> Settled(cursorRowNode.runs)
    {
      hide Cells, Padded, Decorated;
      var runs := cursorRowNode.runs;
      var k := cursorNode;
      if cursorOffset <= |runs[k].text| {
        PaddedAlready(runs, k, cursorOffset, column);
        return;
      }
      var missing := cursorOffset - |runs[k].text|;
      var ws := Whitespace(missing);
      if runs[k].span.None? || !Decorated(runs[k].span.value) {
        PlainIsUndecorated();
        PadHere(runs, k, cursorOffset, column);
        cursorRowNode.runs := runs[k := runs[k].(text := runs[k].text + ws)];
      } else {
        PadAfter(runs, k, cursorOffset, column);
        cursorRowNode.runs := runs[..k + 1] + [Run(ws, None)] + runs[k + 1..];
        cursorNode := k + 1;
        cursorOffset := missing;
      }
    }

    method InsertString(str: Text)
      requires Valid() && Placed()
      modifies `column, `cursorNode, `cursorOffset, cursorRowNode`runs, cursorRowNode`lineOverflow
      ensures Placed() && column == old(column) + |str| && !cursorRowNode.lineOverflow
      ensures Cells(cursorRowNode.runs)
              == Inserted(old(Cells(cursorRowNode.runs)), old(column), CellsOf(str, textAttributes.style))
      ensures str != [] && old(Settled(cursorRowNode.runs)) ==> Settled(cursorRowNode.runs)
    {
      hide Cells, CellsOf, Inserted, Padded, Matches, StyleOf, Settled;
      ghost var was := Cells(cursorRowNode.runs);
      cursorRowNode.lineOverflow := false;
      PadToCursor();
      PaddedTwice(was, column, CellsOf(str, textAttributes.style));
      if !Matches(textAttributes, cursorRowNode.runs[cursorNode]) {
        InsertBeside(str);
        return;
      }
      // the cursor's run takes the text
      var runs, k, offset := cursorRowNode.runs, cursorNode, cursorOffset;
      var reverseOffset := |runs[k].text| - offset;
      var text := if reverseOffset == 0 then runs[k].text + str
                  else if offset == 0 then str + runs[k].text
                  else Substr(runs[k].text, 0, offset) + str + SubstrFrom(runs[k].text, offset);
      assert text == runs[k].text[..offset] + str + runs[k].text[offset..];
      InsertHere(runs, k, offset, str, column);
      MatchingStyle(textAttributes, runs[k]);
      cursorRowNode.runs := runs[k := runs[k].(text := text)];
      column := column + |str|;
      cursorOffset := cursorOffset + |str|;
    }

    /** The rest of insertString: the cursor's run has the wrong style, so the text goes to a
        neighbour of the right style or to a run of its own. */
    method InsertBeside(str: Text)
      requires Valid() && Placed() && cursorOffset <= |cursorRowNode.runs[cursorNode].text|
      modifies `column, `cursorNode, `cursorOffset, cursorRowNode`runs
      ensures Placed() && column == old(column) + |str|
      ensures Cells(cursorRowNode.runs)
              == Inserted(old(Cells(cursorRowNode.runs)), old(column), CellsOf(str, textAttributes.style))
      ensures str != [] && old(Settled(cursorRowNode.runs)) ==> Settled(cursorRowNode.runs)
    {
      hide Cells, CellsOf, Inserted, Matches, Container, StyleOf, Settled;
      var strWidth := |str|;
      ghost var at := column;
      column := column + strWidth;
      var runs, k, offset := cursorRowNode.runs, cursorNode, cursorOffset;
      var reverseOffset := |runs[k].text| - offset;
      CellsAround(runs, k);
      var newNode := Container(textAttributes, str);
      ContainerStyle(textAttributes, str);
      ContainerText(textAttributes, str);

      if offset == 0 {
        if k > 0 && Matches(textAttributes, runs[k - 1]) {
          InsertAtEnd(runs, k - 1, str, at);
          MatchingStyle(textAttributes, runs[k - 1]);
          cursorRowNode.runs := runs[k - 1 := runs[k - 1].(text := runs[k - 1].text + str)];
          cursorNode := k - 1;
          cursorOffset := |cursorRowNode.runs[k - 1].text|;
        } else {
          InsertRun(runs, k, newNode, at);
          cursorRowNode.runs := runs[..k] + [newNode] + runs[k..];
          cursorNode := k;
          cursorOffset := strWidth;
        }
      } else if reverseOffset == 0 {
        if k + 1 < |runs| && Matches(textAttributes, runs[k + 1]) {
          InsertAtStart(runs, k + 1, str, at);
          MatchingStyle(textAttributes, runs[k + 1]);
          cursorRowNode.runs := runs[k + 1 := runs[k + 1].(text := str + runs[k + 1].text)];
          cursorNode := k + 1;
          cursorOffset := |str|;
        } else {
          InsertRun(runs, k + 1, newNode, at);
          cursorRowNode.runs := runs[..k + 1] + [newNode] + runs[k + 1..];
          cursorNode := k + 1;
          cursorOffset := |newNode.text|;
        }
      } else {
        InsertInside(runs, k, offset, newNode, at);
        SplitNode(k, offset);
        runs := cursorRowNode.runs;
        cursorRowNode.runs := runs[..k + 1] + [newNode] + runs[k + 1..];
        cursorNode := k + 1;
        cursorOffset := strWidth;
      }
    }

    // ----- deleting

    method DeleteChars(count: nat) returns (rv: nat)
      requires Valid() && Placed() && column <= columnCount && Settled(cursorRowNode.runs)
      modifies `cursorNode, `cursorOffset, cursorRowNode`runs
      ensures rv == if count <= columnCount - column then count else columnCount - column
      ensures Placed() && Settled(cursorRowNode.runs)
      ensures Cells(cursorRowNode.runs) == Deleted(old(Cells(cursorRowNode.runs)), column, rv)
    {
      hide Cells, Settled, Deleted;
      rv := if count <= columnCount - column then count else columnCount - column;
      if rv == 0 {
        DeletedNothing(Cells(cursorRowNode.runs), column, 0);
        return;
      }
      var runs := CutRuns(cursorRowNode.runs, cursorNode, cursorOffset, column, rv);
      if runs[cursorNode].span.Some? && runs[cursorNode].text == [] {
        CursorRunRemoved(runs, cursorNode, cursorOffset, column);
        var (others, node, offset) := WithoutCursorRun(runs, cursorNode);
        cursorRowNode.runs := others;
        cursorNode := node;
        cursorOffset := offset;
      } else {
        SettledAfterAll(runs, cursorNode);
        cursorRowNode.runs := runs;
      }
    }

    /** The loop of deleteChars: runs are cut and, once empty, removed, except the cursor's. */
    static method CutRuns(start: seq<Run>, k: nat, o: nat, column: nat, total: nat) returns (runs: seq<Run>)
      requires Cached(start, k, o, column) && Settled(start)
      ensures Cached(runs, k, o, column) && SettledBut(runs, k)
      ensures runs[k].span == start[k].span && (runs[k].span.Some? && runs[k].text == [] ==> o == 0)
      ensures Cells(runs) == Deleted(Cells(start), column, total)
    {
      hide Cells, Deleted, Cut;
      runs := start;
      var node: nat, offset: nat, count: nat := k, o, total;
      ghost var goal := Deleted(Cells(start), column, total);
      while node < |runs| && count > 0
        invariant k <= node <= |runs| && Cached(runs, k, o, column) && SettledBut(runs, k)
        invariant if node == k then runs == start && offset == o else offset == 0
        invariant runs[k].span == start[k].span && (runs[k].span.Some? && runs[k].text == [] ==> o == 0)
        invariant Deleted(Cells(runs), |Cells(runs[..node])| + offset, count) == goal
        decreases |runs| - node
      {
        CutRun(runs, node, offset, count);
        CutFacts(runs[node].text, offset, count);
        var text := Cut(runs[node].text, offset, count);
        count := count - (|runs[node].text| - |text|);
        ghost var uncut := runs;
        runs := runs[node := runs[node].(text := text)];
        assert runs[..k] == uncut[..k];
        if text == [] && node != k {
          RemoveEmpty(runs, node);
          ghost var cut := runs;
          runs := runs[..node] + runs[node + 1..];
          assert runs[..k] == cut[..k] && runs[..node] == cut[..node];
        } else {
          node := node + 1;
        }
        offset := 0;
      }
      assert node == |runs| ==> runs[..node] == runs;
      DeletedNothing(Cells(runs), |Cells(runs[..node])| + offset, count);
    }

    // ----- overwriting

    /** The text to be written is what stands from the cursor to the end of its run already. */
    ghost predicate StandsThere(str: Text)
      requires Placed()
      reads `column, `cursorRowNode, `cursorNode, `cursorOffset, `textAttributes, cursorRowNode
    {
      Matches(textAttributes, cursorRowNode.runs[cursorNode]) && SubstrFrom(cursorRowNode.runs[cursorNode].text, cursorOffset) == str
    }

    /** Returns the text if the cursor is past the last column. */
    method OverwriteString(str: Text) returns (refused: Option<Text>)
      requires Valid() && Placed() && column <= columnCount && Settled(cursorRowNode.runs)
      modifies `column, `cursorNode, `cursorOffset, cursorRowNode`runs, cursorRowNode`lineOverflow
      ensures refused == if old(column) == columnCount then Some(str) else None
      ensures Placed() && (str != [] ==> Settled(cursorRowNode.runs))
      ensures cursorRowNode.lineOverflow ==> old(cursorRowNode.lineOverflow)
      ensures column == old(column) + if refused.Some? then 0 else |str|
      ensures refused.Some? ==> cursorRowNode.runs == old(cursorRowNode.runs)
      ensures refused.None? && str != [] ==>
                var written := Overwritten(old(Cells(cursorRowNode.runs)), old(column), CellsOf(str, textAttributes.style), columnCount);
                && Clipped(Cells(cursorRowNode.runs), columnCount) == Clipped(written, columnCount)
                && (|Cells(cursorRowNode.runs)| <= columnCount <==> |written| <= columnCount)
                && (old(|Cells(cursorRowNode.runs)|) <= columnCount ==> Cells(cursorRowNode.runs) == written)
                && Cells(cursorRowNode.runs) == if old(StandsThere(str)) then old(Cells(cursorRowNode.runs)) else written
    {
      hide Cells, Settled, Deleted, Inserted, Matches, CellsOf, Clipped;
      var maxLength := columnCount - column;
      if maxLength == 0 {
        return Some(str);
      }
      refused := None;
      var width := |str|;
      var run := cursorRowNode.runs[cursorNode];
      if Matches(textAttributes, run) && SubstrFrom(run.text, cursorOffset) == str {
        // only the cursor moves
        if str != [] {
          AlreadyThere(cursorRowNode.runs, cursorNode, cursorOffset, column, str, columnCount);
          MatchingStyle(textAttributes, run);
        }
        cursorOffset := cursorOffset + width;
        column := column + width;
        return;
      }
      var deleted := DeleteChars(if width <= maxLength then width else maxLength);
      InsertString(str);
    }

    // ----- clipping

    /** Text is cut off at the last column and the cursor clamped to it. */
    method MaybeClipCurrentRow()
      requires Valid() && InPlace()
      modifies `column, `row, `overflow, `cursorRowNode, `cursorNode, `cursorOffset, cursorRowNode`runs
      ensures InPlace() && row == old(row) && cursorRowNode == old(cursorRowNode)
      ensures column == Clamp(old(column), columnCount)
      ensures overflow == (old(column) >= columnCount || (old(overflow) && |old(Cells(cursorRowNode.runs))| <= columnCount))
      ensures Cells(cursorRowNode.runs) == Clipped(old(Cells(cursorRowNode.runs)), columnCount)
      ensures old(Settled(cursorRowNode.runs)) ==> Settled(cursorRowNode.runs)
      ensures unchanged(cursorRowNode`lineOverflow) && unchanged(cursorRowNode`rowIndex)
    {
      hide Cells, Settled;
      var width := |Cells(cursorRowNode.runs)|;
      if width <= columnCount {
        if column >= columnCount {
          SetCursorPosition(row, columnCount - 1);
          overflow := true;
        }
        return;
      }
      var currentColumn := column;
      SetCursorPosition(row, columnCount - 1);
      var runs := cursorRowNode.runs;
      ClipAfterCursor(runs, cursorNode, cursorOffset, column);
      var run := runs[cursorNode];
      if cursorOffset < |run.text| - 1 {
        run := run.(text := Substr(run.text, 0, cursorOffset + 1));
      }
      assert run.text == runs[cursorNode].text[..cursorOffset + 1];
      cursorRowNode.runs := runs[..cursorNode] + [run];
      SettledClipped(runs, cursorNode, run);
      if currentColumn < columnCount {
        SetCursorPosition(row, currentColumn);
      } else {
        overflow := true;
      }
    }

    /** What one step of the terminal's print does with its piece of the text. */
    method PutString(str: Text, insertMode: bool)
      requires Valid() && InPlace() && column < columnCount && Settled(cursorRowNode.runs) && str != []
      modifies `row, `column, `overflow, `cursorRowNode, `cursorNode, `cursorOffset, cursorRowNode`runs, cursorRowNode`lineOverflow
      ensures InPlace() && row == old(row) && cursorRowNode == old(cursorRowNode)
      ensures cursorRowNode.runs != [] && Settled(cursorRowNode.runs)
      ensures column == Clamp(old(column) + |str|, columnCount)
      ensures var mode := P.Mode(columnCount, textAttributes.style, true, insertMode, [], None);
              var cells := P.PutCells(old(Cells(cursorRowNode.runs)), old(column), mode, str);
              && Cells(cursorRowNode.runs) == Clipped(cells, columnCount)
              && overflow == (old(column) + |str| >= columnCount || (old(overflow) && |cells| <= columnCount))
              && (old(column) + |str| <= columnCount ==> P.Shows(Cells(cursorRowNode.runs), old(Cells(cursorRowNode.runs)), old(column), str, mode))
    {
      hide Cells, CellsOf, Settled, Inserted, Overwritten, Clipped, P.Shows;
      if column + |str| <= columnCount {
        P.PutCellsShow(Cells(cursorRowNode.runs), column, P.Mode(columnCount, textAttributes.style, true, insertMode, [], None), str);
      }
      if insertMode {
        InsertString(str);
      } else {
        var refused := OverwriteString(str);
      }
      MaybeClipCurrentRow();
    }
  }
}
