/**
 * draw_frame from lesson1/main.py: copies a multi-line text block onto a
 * rows × columns character grid, clipping at every edge, skipping space
 * glyphs and never touching the bottom-right cell (where curses' addch
 * fails). In erase mode it writes ' ' to the same cells.
 */
module Canvas {
  import Frames

  /** The cell (r, c) of the text placed at (startRow, startColumn), if the text has one there. */
  predicate Covers(lines: seq<string>, startRow: int, startColumn: int, r: int, c: int)
  {
    startRow <= r < startRow + |lines| && startColumn <= c < startColumn + |lines[r - startRow]|
  }

  /**
   * True when draw_frame writes cell (r, c): it is on the grid, it is not the
   * bottom-right cell, and the text has a glyph other than ' ' there.
   */
  predicate Touches(rows: int, columns: int, lines: seq<string>, startRow: int, startColumn: int, r: int, c: int)
  {
    && 0 <= r < rows && 0 <= c < columns
    && !(r == rows - 1 && c == columns - 1)
    && Covers(lines, startRow, startColumn, r, c)
    && lines[r - startRow][c - startColumn] != ' '
  }

  /** What cell (r, c) holds after draw_frame, given what it held before. */
  function CellAfter(before: char, rows: int, columns: int, lines: seq<string>,
                     startRow: int, startColumn: int, negative: bool, r: int, c: int): char
  {
    if Touches(rows, columns, lines, startRow, startColumn, r, c) then
      (if negative then ' ' else lines[r - startRow][c - startColumn])
    else before
  }

  /**
   * draw_frame(canvas, start_row, start_column, text, negative). The loops
   * follow the source: rows before the grid are skipped, the first row past it
   * ends the drawing; likewise for columns within a line.
   */
  method DrawFrame(canvas: array2<char>, startRow: int, startColumn: int, text: string, negative: bool)
    modifies canvas
    ensures forall r, c :: 0 <= r < canvas.Length0 && 0 <= c < canvas.Length1 ==>
      canvas[r, c] == CellAfter(old(canvas[r, c]), canvas.Length0, canvas.Length1,
                                Frames.Lines(text), startRow, startColumn, negative, r, c)
  {
    var rowsNumber, columnsNumber := canvas.Length0, canvas.Length1;
    var lines := Frames.Lines(text);
    for i := 0 to |lines|
      invariant forall r, c :: 0 <= r < rowsNumber && 0 <= c < columnsNumber ==>
        canvas[r, c] == if r < startRow + i
          then CellAfter(old(canvas[r, c]), rowsNumber, columnsNumber, lines, startRow, startColumn, negative, r, c)
          else old(canvas[r, c])
    {
      var row := startRow + i;
      if row < 0 {
        continue;
      }
      if row >= rowsNumber {
        break;
      }
      var line := lines[i];
      for j := 0 to |line|
        invariant forall r, c :: 0 <= r < rowsNumber && 0 <= c < columnsNumber ==>
          canvas[r, c] == if r < row || (r == row && c < startColumn + j)
            then CellAfter(old(canvas[r, c]), rowsNumber, columnsNumber, lines, startRow, startColumn, negative, r, c)
            else old(canvas[r, c])
      {
        var column := startColumn + j;
        if column < 0 {
          continue;
        }
        if column >= columnsNumber {
          break;
        }
        var symbol := line[j];
        if symbol == ' ' {
          continue;
        }
        if row == rowsNumber - 1 && column == columnsNumber - 1 {
          continue;
        }
        symbol := if negative then ' ' else symbol;
        canvas[row, column] := symbol;
      }
    }
  }

  /**
   * Erasing writes blanks to exactly the cells drawing writes: drawing a frame
   * and then erasing it at the same place blanks those cells and leaves every
   * other cell as it was.
   */
  lemma EraseUndoesDraw(before: char, rows: int, columns: int, lines: seq<string>,
                        startRow: int, startColumn: int, r: int, c: int)
    ensures var drawn := CellAfter(before, rows, columns, lines, startRow, startColumn, false, r, c);
      CellAfter(drawn, rows, columns, lines, startRow, startColumn, true, r, c)
        == if Touches(rows, columns, lines, startRow, startColumn, r, c) then ' ' else before
  {
  }

  /**
   * Every cell draw_frame writes lies in the frame's bounding box:
   * get_frame_size(text) rows and columns from the start position.
   */
  lemma TouchedCellsInFrameBox(rows: int, columns: int, text: string, startRow: int, startColumn: int, r: int, c: int)
    requires Touches(rows, columns, Frames.Lines(text), startRow, startColumn, r, c)
    ensures text != ""
    ensures var size := Frames.GetFrameSize(text);
      startRow <= r < startRow + size.0 && startColumn <= c < startColumn + size.1
  {
    var lines := Frames.Lines(text);
    assert lines[r - startRow] in lines;
  }

  /** The animation pattern of every entity: draw a frame, let a tic pass, erase it. */
  method DrawThenErase(canvas: array2<char>, startRow: int, startColumn: int, text: string)
    modifies canvas
    ensures forall r, c :: 0 <= r < canvas.Length0 && 0 <= c < canvas.Length1 ==>
      canvas[r, c] == if Touches(canvas.Length0, canvas.Length1, Frames.Lines(text), startRow, startColumn, r, c)
                      then ' ' else old(canvas[r, c])
  {
    DrawFrame(canvas, startRow, startColumn, text, false);
    DrawFrame(canvas, startRow, startColumn, text, true);
  }
}
