/**
 * animate_spaceship(coroutines, canvas, start_row, start_column, frames) from
 * lesson1/main.py as a step machine. Each resumption erases the frame drawn
 * on the previous one, reads the controls, moves the ship within the border,
 * draws the next frame of the cycle and, on space, appends a shot to the
 * coroutine list. update_speed is a parameter.
 */
module Spaceship {
  import opened Utils
  import opened Frames
  import opened Controls
  import opened Scheduler
  import opened Surface
  import Fire

  /** The ship's frames: get_frame_size(frames[0]) needs a first frame with at least one line. */
  type ShipFrames = fs: seq<string> | |fs| > 0 && fs[0] != "" witness ["^"]

  /** validate_rows: the same clamp as validate_value. */
  function ValidateRows(rows: int, rowsMin: int, rowsMax: int): (r: int)
    ensures r == ValidateValue(rows, rowsMin, rowsMax)
  {
    if rows < rowsMin then rowsMin else if rows > rowsMax then rowsMax else rows
  }

  /** validate_columns: the same clamp as validate_value. */
  function ValidateColumns(columns: int, columnsMin: int, columnsMax: int): (r: int)
    ensures r == ValidateValue(columns, columnsMin, columnsMax)
  {
    if columns < columnsMin then columnsMin else if columns > columnsMax then columnsMax else columns
  }

  /** The sizes read once at the start: get_frame_size(frames[0]) and getmaxyx(). */
  datatype Geometry = Geometry(frameRows: nat, frameColumns: nat, maxRow: int, maxColumn: int)

  /** Before the first resumption, or suspended after drawing frame n of the cycle at (row, column). */
  datatype Phase =
    | Start(startRow: int, startColumn: int)
    | Shown(g: Geometry, n: nat, row: int, column: int, rowsSpeed: int, columnsSpeed: int)

  datatype Ship = Ship(frames: ShipFrames, phase: Phase)

  /** What one resumption does: the ship's outcome, the shots it appended to the list, the world after it. */
  datatype ShipResumed = ShipResumed(outcome: Outcome<Ship>, fired: seq<Fire.Shot>, world: World)

  /** animate_spaceship(coroutines, canvas, start_row, start_column, frames), not yet started. */
  function Animate(frames: ShipFrames, startRow: int, startColumn: int): Ship
  {
    Ship(frames, Start(startRow, startColumn))
  }

  /** The highest row and column the ship's top-left corner may take. */
  function RowLimit(g: Geometry): int { g.maxRow - g.frameRows - BORDERS }
  function ColumnLimit(g: Geometry): int { g.maxColumn - g.frameColumns - BORDERS }

  /** The body of the frame loop up to its await: read the controls, move, draw frame n, fire on space. */
  function Show(frames: ShipFrames, g: Geometry, n: nat, row: int, column: int, rowsSpeed: int, columnsSpeed: int,
                updateSpeed: SpeedUpdate, w: World): (r: ShipResumed)
    ensures r.outcome.Suspended? && r.outcome.state.frames == frames && r.outcome.state.phase.Shown?
    ensures var p := r.outcome.state.phase;
      var c := ControlsOf(Pending(w.keys).0);
      var speeds := updateSpeed(rowsSpeed, columnsSpeed, c.rowsDirection, c.columnsDirection, SPEED, SPEED);
      && p.g == g && p.n == n
      && (p.rowsSpeed, p.columnsSpeed) == speeds
      && p.row == ValidateValue(row + speeds.0, BORDERS, RowLimit(g))
      && p.column == ValidateValue(column + speeds.1, BORDERS, ColumnLimit(g))
      && r.world.keys == Pending(w.keys).1 && r.world.rows == w.rows && r.world.columns == w.columns
      && r.world.ops == w.ops + [DrawFrame(p.row, p.column, CycleWithRepeat(frames, 2, n), false)]
      && (|r.fired| == 1 <==> c.spacePressed)
      && |r.fired| <= 1
      && (|r.fired| == 1 ==> r.fired[0] == Fire.Launch(p.row, p.column + g.frameColumns / 2, -1, 0))
  {
    var pending := Pending(w.keys);
    var c := ControlsOf(pending.0);
    var speeds := updateSpeed(rowsSpeed, columnsSpeed, c.rowsDirection, c.columnsDirection, SPEED, SPEED);
    var row' := ValidateRows(row + speeds.0, BORDERS, RowLimit(g));
    var column' := ValidateColumns(column + speeds.1, BORDERS, ColumnLimit(g));
    var drawn := Emit(w.(keys := pending.1), DrawFrame(row', column', CycleWithRepeat(frames, 2, n), false));
    var fired := if c.spacePressed then [Fire.Launch(row', column' + g.frameColumns / 2, -1, 0)] else [];
    ShipResumed(Suspended(Ship(frames, Shown(g, n, row', column', speeds.0, speeds.1))), fired, drawn)
  }

  /** The first resumption: sizes are read, the first frame is centred on the start point, the speeds are zero. */
  function Begin(frames: ShipFrames, startRow: int, startColumn: int, updateSpeed: SpeedUpdate, w: World): (r: ShipResumed)
    ensures r.outcome.Suspended? && r.outcome.state.phase.Shown?
    ensures var size := GetFrameSize(frames[0]);
      var p := r.outcome.state.phase;
      var c := ControlsOf(Pending(w.keys).0);
      var speeds := updateSpeed(0, 0, c.rowsDirection, c.columnsDirection, SPEED, SPEED);
      && p.n == 0
      && p.g == Geometry(size.0, size.1, w.rows, w.columns)
      && (p.rowsSpeed, p.columnsSpeed) == speeds
      && p.row == ValidateValue(startRow - size.0 / 2 + speeds.0, BORDERS, RowLimit(p.g))
      && p.column == ValidateValue(startColumn - size.1 / 2 + speeds.1, BORDERS, ColumnLimit(p.g))
  {
    var size := GetFrameSize(frames[0]);
    var g := Geometry(size.0, size.1, w.rows, w.columns);
    Show(frames, g, 0, startRow - size.0 / 2, startColumn - size.1 / 2, 0, 0, updateSpeed, w)
  }

  /**
   * One send(None). The ship never finishes; the keys up to the first -1 are
   * consumed; the new position is the old one moved by update_speed's result
   * and clamped into [BORDERS, max - frame size - BORDERS] on each axis; the
   * frame drawn is item n of cycle_with_repeat(frames, 2), after the previous
   * one has been erased where it was drawn; a shot leaves from the middle of
   * the ship's top edge exactly when a space was pressed.
   */
  function ShipStep(updateSpeed: SpeedUpdate, s: Ship, w: World): (r: ShipResumed)
    ensures r.outcome.Suspended? && r.outcome.state.frames == s.frames && r.outcome.state.phase.Shown?
    ensures var p := r.outcome.state.phase;
      && p.n == (if s.phase.Start? then 0 else s.phase.n + 1)
      && p.g == (if s.phase.Start? then
                   Geometry(GetFrameSize(s.frames[0]).0, GetFrameSize(s.frames[0]).1, w.rows, w.columns)
                 else s.phase.g)
      && (BORDERS <= RowLimit(p.g) ==> BORDERS <= p.row <= RowLimit(p.g))
      && (BORDERS <= ColumnLimit(p.g) ==> BORDERS <= p.column <= ColumnLimit(p.g))
      && r.world.keys == Pending(w.keys).1 && r.world.rows == w.rows && r.world.columns == w.columns
      && r.world.ops == w.ops
           + (if s.phase.Start? then []
              else [DrawFrame(s.phase.row, s.phase.column, CycleWithRepeat(s.frames, 2, s.phase.n), true)])
           + [DrawFrame(p.row, p.column, CycleWithRepeat(s.frames, 2, p.n), false)]
      && (|r.fired| == 1 <==> SPACE_KEY_CODE in Pending(w.keys).0)
      && |r.fired| <= 1
      && (|r.fired| == 1 ==> r.fired[0] == Fire.Launch(p.row, p.column + p.g.frameColumns / 2, -1, 0))
  {
    SpaceAnywhereFires(Pending(w.keys).0);
    match s.phase
    case Start(startRow, startColumn) =>
      Begin(s.frames, startRow, startColumn, updateSpeed, w)
    case Shown(g, n, row, column, rowsSpeed, columnsSpeed) =>
      var erased := Emit(w, DrawFrame(row, column, CycleWithRepeat(s.frames, 2, n), true));
      Show(s.frames, g, n + 1, row, column, rowsSpeed, columnsSpeed, updateSpeed, erased)
  }

  /**
   * The ship's move is update_speed applied to the directions of the keys read,
   * and from the second resumption on it starts from where the ship was.
   */
  lemma ShipMoves(updateSpeed: SpeedUpdate, s: Ship, w: World)
    requires s.phase.Shown?
    ensures var p := ShipStep(updateSpeed, s, w).outcome.state.phase;
      var c := ControlsOf(Pending(w.keys).0);
      var speeds := updateSpeed(s.phase.rowsSpeed, s.phase.columnsSpeed, c.rowsDirection, c.columnsDirection, SPEED, SPEED);
      && (p.rowsSpeed, p.columnsSpeed) == speeds
      && p.row == ValidateValue(s.phase.row + speeds.0, BORDERS, RowLimit(s.phase.g))
      && p.column == ValidateValue(s.phase.column + speeds.1, BORDERS, ColumnLimit(s.phase.g))
  {
  }
}
