/** Scrolling the terminal's cell buffer in place (extlib/libvterm/vterm.c, screen.c). The buffer is
    indexed by row and column; memmove is a simultaneous assignment. */
module Screen {

  datatype Rect = Rect(startRow: int, endRow: int, startCol: int, endCol: int)

  /** The parts of a pen that erasing treats one by one, and the rest. */
  datatype Pen = Pen(attributes: nat, protectedCell: bool, dwl: bool, dhl: nat)

  /** The first character of a cell, its combining characters, and its pen. */
  datatype Cell = Cell(first: nat, combining: seq<nat>, pen: Pen)

  datatype LineInfo = LineInfo(doublewidth: bool, doubleheight: nat)

  predicate In(r: Rect, row: int, col: int) { r.startRow <= row < r.endRow && r.startCol <= col < r.endCol }

  predicate Within(r: Rect, rows: nat, cols: nat) {
    0 <= r.startRow <= r.endRow <= rows && 0 <= r.startCol <= r.endCol <= cols
  }

  function Abs(x: int): nat { if x < 0 then -x else x }

  predicate TooFar(rect: Rect, downward: int, rightward: int) {
    Abs(downward) >= rect.endRow - rect.startRow || Abs(rightward) >= rect.endCol - rect.startCol
  }

  function DestOf(rect: Rect, downward: int, rightward: int): Rect {
    Rect(if downward >= 0 then rect.startRow else rect.startRow - downward,
         if downward >= 0 then rect.endRow - downward else rect.endRow,
         if rightward >= 0 then rect.startCol else rect.startCol - rightward,
         if rightward >= 0 then rect.endCol - rightward else rect.endCol)
  }

  /** The rectangle that vterm_scroll_rect erases after the move. */
  function ExposedOf(rect: Rect, downward: int, rightward: int): Rect {
    Rect(if downward > 0 then rect.endRow - downward else rect.startRow,
         if downward < 0 then rect.startRow - downward else rect.endRow,
         if rightward > 0 then rect.endCol - rightward else rect.startCol,
         if rightward < 0 then rect.startCol - rightward else rect.endCol)
  }

  /** A proper scroll moves what stays in the rectangle and exposes exactly the rest. */
  ghost predicate Exact(rect: Rect, downward: int, rightward: int) {
    forall row, col | In(rect, row, col) ::
      In(ExposedOf(rect, downward, rightward), row, col) <==> !In(DestOf(rect, downward, rightward), row, col)
  }

  /** That is so exactly for a scroll along one axis. Along both, only the corner is erased and the
      rest of the two strips keeps old cells; by nothing at all, the whole rectangle is erased. */
  lemma ExactIffOneAxis(rect: Rect, downward: int, rightward: int)
    requires !TooFar(rect, downward, rightward)
    ensures Exact(rect, downward, rightward) <==> (downward == 0) != (rightward == 0)
  {
    var d, x := DestOf(rect, downward, rightward), ExposedOf(rect, downward, rightward);
    if downward == 0 && rightward == 0 {
      assert In(rect, rect.startRow, rect.startCol) && In(d, rect.startRow, rect.startCol) && In(x, rect.startRow, rect.startCol);
    } else if downward != 0 && rightward != 0 {
      var row := if downward > 0 then rect.endRow - 1 else rect.startRow;
      var col := if rightward > 0 then rect.startCol else rect.endCol - 1;
      assert In(rect, row, col) && !In(d, row, col) && !In(x, row, col);
    }
  }

  /** Which cells are moved to and which are erased, one by one: those whose new content comes from
      inside, and those for which it does not on any axis that is scrolled. */
  lemma ScrolledCell(rect: Rect, downward: int, rightward: int, r: int, c: int)
    ensures In(rect, r, c) <==> rect.startRow <= r < rect.endRow && rect.startCol <= c < rect.endCol
    ensures var height, width := rect.endRow - rect.startRow, rect.endCol - rect.startCol;
            TooFar(rect, downward, rightward) <==> !(-height < downward < height && -width < rightward < width)
    ensures var rowIn, colIn := rect.startRow <= r + downward < rect.endRow, rect.startCol <= c + rightward < rect.endCol;
            if TooFar(rect, downward, rightward) then
              (downward == 0) != (rightward == 0) && In(rect, r, c) ==> !(rowIn && colIn)
            else
              && (In(DestOf(rect, downward, rightward), r, c) <==> In(rect, r, c) && rowIn && colIn)
              && (In(ExposedOf(rect, downward, rightward), r, c) <==>
                  In(rect, r, c) && (downward == 0 || !rowIn) && (rightward == 0 || !colIn))
  {
  }

  class VTermScreen {
    const rows: nat
    const cols: nat
    const buffer: array2<Cell>
    var pen: Pen
    var lineinfo: seq<LineInfo>

    ghost predicate Valid()
      reads this
    {
      buffer.Length0 == rows && buffer.Length1 == cols && |lineinfo| == rows
    }

    constructor (rows: nat, cols: nat, pen: Pen)
      ensures Valid() && fresh(buffer) && this.rows == rows && this.cols == cols
    {
      this.rows, this.cols, this.pen := rows, cols, pen;
      lineinfo := seq(rows, _ => LineInfo(false, 0));
      buffer := new Cell[rows, cols]((_, _) => Cell(0, [], pen));
    }

    /** What erasing makes of a cell of a row. */
    ghost function Erased(c: Cell, row: int): Cell
      requires 0 <= row < |lineinfo|
      reads this
    {
      Cell(0, c.combining, pen.(dwl := lineinfo[row].doublewidth, dhl := lineinfo[row].doubleheight))
    }

    /** erase_internal. */
    method Erase(rect: Rect, selective: bool)
      requires Valid() && Within(rect, rows, cols)
      modifies buffer
      ensures forall r, c {:trigger buffer[r, c]} | 0 <= r < rows && 0 <= c < cols ::
                buffer[r, c] == if In(rect, r, c) && !(selective && old(buffer[r, c]).pen.protectedCell)
                                then Cell(0, old(buffer[r, c]).combining, pen.(dwl := lineinfo[r].doublewidth, dhl := lineinfo[r].doubleheight))
                                else old(buffer[r, c])
    {
      var row := rect.startRow;
      while row < rows && row < rect.endRow
        invariant rect.startRow <= row <= rect.endRow
        invariant forall r, c {:trigger buffer[r, c]} | 0 <= r < rows && 0 <= c < cols ::
                    buffer[r, c] == if r < row && In(rect, r, c) && !(selective && old(buffer[r, c]).pen.protectedCell)
                                    then Erased(old(buffer[r, c]), r) else old(buffer[r, c])
      {
        var info := lineinfo[row];
        var col := rect.startCol;
        while col < rect.endCol
          invariant rect.startCol <= col <= rect.endCol
          invariant forall r, c {:trigger buffer[r, c]} | 0 <= r < rows && 0 <= c < cols ::
                      buffer[r, c] == if (r < row || (r == row && c < col)) && In(rect, r, c)
                                         && !(selective && old(buffer[r, c]).pen.protectedCell)
                                      then Erased(old(buffer[r, c]), r) else old(buffer[r, c])
        {
          var cell := buffer[row, col];
          if !(selective && cell.pen.protectedCell) {
            buffer[row, col] := Cell(0, cell.combining, pen.(dwl := info.doublewidth, dhl := info.doubleheight));
          }
          col := col + 1;
        }
        row := row + 1;
      }
    }

    /** memmove of part of a row. */
    method MoveRow(row: int, col: int, srcRow: int, srcCol: int, count: nat)
      requires Valid() && 0 <= row < rows && 0 <= srcRow < rows && 0 <= col <= col + count <= cols && 0 <= srcCol <= srcCol + count <= cols
      modifies buffer
      ensures forall r, c {:trigger buffer[r, c]} | 0 <= r < rows && 0 <= c < cols ::
                buffer[r, c] == if r == row && col <= c < col + count then old(buffer[srcRow, c - col + srcCol]) else old(buffer[r, c])
    {
      forall c | col <= c < col + count {
        buffer[row, c] := buffer[srcRow, c - col + srcCol];
      }
    }

    /** moverect_internal without the scrollback callback: rows in the order that reads every source
        row before it is overwritten. */
    method MoveRect(dest: Rect, src: Rect)
      requires Valid() && Within(dest, rows, cols) && Within(src, rows, cols)
      requires src.endRow - src.startRow == dest.endRow - dest.startRow && src.endCol - src.startCol == dest.endCol - dest.startCol
      modifies buffer
      ensures forall r, c {:trigger buffer[r, c]} | 0 <= r < rows && 0 <= c < cols ::
                buffer[r, c] == if In(dest, r, c) then old(buffer[r + (src.startRow - dest.startRow), c + (src.startCol - dest.startCol)])
                                else old(buffer[r, c])
    {
      var count := src.endCol - src.startCol;
      var downward := src.startRow - dest.startRow;
      ghost var rightward := src.startCol - dest.startCol;
      var row, test, inc := dest.startRow, dest.endRow, 1;
      if downward < 0 {
        row, test, inc := dest.endRow - 1, dest.startRow - 1, -1;
      }
      while row != test
        invariant dest.startRow - 1 <= row <= dest.endRow && (if inc > 0 then row <= test else row >= test)
        invariant forall r, c {:trigger buffer[r, c]} | 0 <= r < rows && 0 <= c < cols ::
                    buffer[r, c] == if In(dest, r, c) && (if inc > 0 then r < row else r > row)
                                    then old(buffer[r + downward, c + rightward]) else old(buffer[r, c])
        decreases Abs(test - row)
      {
        MoveRow(row, dest.startCol, row + downward, src.startCol, count);
        row := row + inc;
      }
    }

    /** vterm_scroll_rect with these two as callbacks. Along one axis every cell of the rectangle gets
        the cell that the shift brings to it, and is erased when that one lies outside. In general the
        whole rectangle is erased when either shift is too long, and otherwise only the cells for which
        every axis that is scrolled, or no axis at all, brings something from outside. */
    method ScrollRect(rect0: Rect, downward: int, rightward: int)
      requires Valid() && Within(rect0, rows, cols)
      modifies buffer
      ensures (downward == 0) != (rightward == 0) ==>
                forall r, c {:trigger buffer[r, c]} | 0 <= r < rows && 0 <= c < cols ::
                  buffer[r, c] ==
                  if !(rect0.startRow <= r < rect0.endRow && rect0.startCol <= c < rect0.endCol) then old(buffer[r, c])
                  else if rect0.startRow <= r + downward < rect0.endRow && rect0.startCol <= c + rightward < rect0.endCol
                  then old(buffer[r + downward, c + rightward])
                  else Cell(0, old(buffer[r, c]).combining, pen.(dwl := lineinfo[r].doublewidth, dhl := lineinfo[r].doubleheight))
      ensures var height, width := rect0.endRow - rect0.startRow, rect0.endCol - rect0.startCol;
              forall r, c {:trigger buffer[r, c]} | 0 <= r < rows && 0 <= c < cols ::
                var rowIn, colIn := rect0.startRow <= r + downward < rect0.endRow, rect0.startCol <= c + rightward < rect0.endCol;
                buffer[r, c] ==
                if !(rect0.startRow <= r < rect0.endRow && rect0.startCol <= c < rect0.endCol) then old(buffer[r, c])
                else if !(-height < downward < height && -width < rightward < width)
                        || ((downward == 0 || !rowIn) && (rightward == 0 || !colIn))
                then Cell(0, old(buffer[r, c]).combining, pen.(dwl := lineinfo[r].doublewidth, dhl := lineinfo[r].doubleheight))
                else if rowIn && colIn then old(buffer[r + downward, c + rightward]) else old(buffer[r, c])
    {
      hide In, TooFar, DestOf, ExposedOf;
      if TooFar(rect0, downward, rightward) {
        Erase(rect0, false);
      } else {
        var dest, src := Regions(rect0, downward, rightward);
        MoveRect(dest, src);
        var exposed := Exposed(rect0, downward, rightward);
        Erase(exposed, false);
      }
      ghost var height, width := rect0.endRow - rect0.startRow, rect0.endCol - rect0.startCol;
      forall r, c {:trigger buffer[r, c]} | 0 <= r < rows && 0 <= c < cols
        ensures var rowIn, colIn := rect0.startRow <= r + downward < rect0.endRow, rect0.startCol <= c + rightward < rect0.endCol;
                buffer[r, c] ==
                if !(rect0.startRow <= r < rect0.endRow && rect0.startCol <= c < rect0.endCol) then old(buffer[r, c])
                else if !(-height < downward < height && -width < rightward < width) || ((downward == 0 || !rowIn) && (rightward == 0 || !colIn))
                then Cell(0, old(buffer[r, c]).combining, pen.(dwl := lineinfo[r].doublewidth, dhl := lineinfo[r].doubleheight))
                else if rowIn && colIn then old(buffer[r + downward, c + rightward]) else old(buffer[r, c])
      {
        ScrolledCell(rect0, downward, rightward, r, c);
      }
    }

    static method Regions(rect: Rect, downward: int, rightward: int) returns (dest: Rect, src: Rect)
      requires !TooFar(rect, downward, rightward)
      ensures forall rows, cols | Within(rect, rows, cols) :: Within(dest, rows, cols) && Within(src, rows, cols)
      ensures dest == DestOf(rect, downward, rightward)
      ensures src == Rect(dest.startRow + downward, dest.endRow + downward, dest.startCol + rightward, dest.endCol + rightward)
    {
      dest, src := rect, rect;
      if rightward >= 0 {
        dest := dest.(endCol := rect.endCol - rightward);
        src := src.(startCol := rect.startCol + rightward);
      } else {
        dest := dest.(startCol := rect.startCol - rightward);
        src := src.(endCol := rect.endCol + rightward);
      }
      if downward >= 0 {
        dest := dest.(endRow := rect.endRow - downward);
        src := src.(startRow := rect.startRow + downward);
      } else {
        dest := dest.(startRow := rect.startRow - downward);
        src := src.(endRow := rect.endRow + downward);
      }
    }

    static method Exposed(rect0: Rect, downward: int, rightward: int) returns (rect: Rect)
      requires !TooFar(rect0, downward, rightward)
      ensures forall rows, cols | Within(rect0, rows, cols) :: Within(rect, rows, cols)
      ensures rect == ExposedOf(rect0, downward, rightward)
    {
      rect := rect0;
      if downward > 0 { rect := rect.(startRow := rect.endRow - downward); }
      else if downward < 0 { rect := rect.(endRow := rect.startRow - downward); }
      if rightward > 0 { rect := rect.(startCol := rect.endCol - rightward); }
      else if rightward < 0 { rect := rect.(endCol := rect.startCol - rightward); }
    }

    /** vterm_copy_cells with a callback that copies one cell: every cell of dest gets the old value of
        its source, however the two overlap. */
    method CopyCells(dest: Rect, src: Rect)
      requires Valid() && Within(dest, rows, cols) && Within(src, rows, cols)
      requires src.endRow - src.startRow == dest.endRow - dest.startRow && src.endCol - src.startCol == dest.endCol - dest.startCol
      modifies buffer
      ensures forall r, c {:trigger buffer[r, c]} | 0 <= r < rows && 0 <= c < cols ::
                buffer[r, c] == if In(dest, r, c) then old(buffer[r + (src.startRow - dest.startRow), c + (src.startCol - dest.startCol)])
                                else old(buffer[r, c])
    {
      var downward, rightward := src.startRow - dest.startRow, src.startCol - dest.startCol;
      var initRow, testRow, incRow := dest.startRow, dest.endRow, 1;
      if downward < 0 { initRow, testRow, incRow := dest.endRow - 1, dest.startRow - 1, -1; }
      var initCol, testCol, incCol := dest.startCol, dest.endCol, 1;
      if rightward < 0 { initCol, testCol, incCol := dest.endCol - 1, dest.startCol - 1, -1; }
      var row := initRow;
      while row != testRow
        invariant dest.startRow - 1 <= row <= dest.endRow && (if incRow > 0 then row <= testRow else row >= testRow)
        invariant forall r, c {:trigger buffer[r, c]} | 0 <= r < rows && 0 <= c < cols ::
                    buffer[r, c] == if In(dest, r, c) && (if incRow > 0 then r < row else r > row)
                                    then old(buffer[r + downward, c + rightward]) else old(buffer[r, c])
        decreases Abs(testRow - row)
      {
        var col := initCol;
        while col != testCol
          invariant dest.startCol - 1 <= col <= dest.endCol && (if incCol > 0 then col <= testCol else col >= testCol)
          invariant forall r, c {:trigger buffer[r, c]} | 0 <= r < rows && 0 <= c < cols ::
                      buffer[r, c] == if In(dest, r, c) && ((if incRow > 0 then r < row else r > row)
                                                            || (r == row && if incCol > 0 then c < col else c > col))
                                      then old(buffer[r + downward, c + rightward]) else old(buffer[r, c])
          decreases Abs(testCol - col)
        {
          buffer[row, col] := buffer[row + downward, col + rightward];
          col := col + incCol;
        }
        row := row + incRow;
      }
    }
  }
}
