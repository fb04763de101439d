/**
 * What the coroutines of lesson1/main.py see of the curses window: its size
 * (getmaxyx), the queue of pending key codes (getch) and the log of drawing
 * calls made so far (addstr, draw_frame, beep).
 */
module Surface {
  /** Width of the border kept clear of drawing; 0 disables borders. */
  const BORDERS: int := 0

  /** The curses attribute of an addstr call: none, A_DIM or A_BOLD. */
  datatype Style = Normal | Dim | Bold

  datatype DrawOp =
    | AddStr(row: int, column: int, text: string, style: Style)
    | DrawFrame(row: int, column: int, frame: string, negative: bool)
    | Beep

  datatype World = World(rows: int, columns: int, keys: seq<int>, ops: seq<DrawOp>)

  /** The world after one more drawing call. */
  function Emit(w: World, op: DrawOp): World
  {
    w.(ops := w.ops + [op])
  }
}
