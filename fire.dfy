/**
 * fire(canvas, start_row, start_column, rows_speed, columns_speed) from
 * lesson1/main.py as a step machine: each resumption runs the generator up
 * to its next `await asyncio.sleep(0)` or to its end.
 */
module Fire {
  import opened Scheduler
  import opened Surface

  /**
   * Where the generator is suspended: before its first line, after the '*'
   * flash, after the 'O' flash, or inside the flight loop (with the limits
   * computed from getmaxyx once the flashes are over).
   */
  datatype Phase = Start | Flashed | Ringed | Flying(maxRow: int, maxColumn: int)

  datatype Shot = Shot(phase: Phase, row: int, column: int, rowsSpeed: int, columnsSpeed: int)

  /** fire(canvas, start_row, start_column, rows_speed, columns_speed), not yet started. */
  function Launch(startRow: int, startColumn: int, rowsSpeed: int, columnsSpeed: int): Shot
  {
    Shot(Start, startRow, startColumn, rowsSpeed, columnsSpeed)
  }

  /** '-' for a shot with a horizontal component, '|' otherwise. */
  function Symbol(columnsSpeed: int): string
  {
    if columnsSpeed != 0 then "-" else "|"
  }

  /** The condition of the flight loop. */
  predicate Inside(row: int, column: int, maxRow: int, maxColumn: int)
  {
    BORDERS < row < maxRow && BORDERS < column < maxColumn
  }

  function Pos(start: int, speed: int, k: int): int
  {
    start + k * speed
  }

  /** The k-th point of the trajectory passes the loop condition in a window the size of w. */
  predicate InsideAt(s: Shot, w: World, k: int)
  {
    Inside(Pos(s.row, s.rowsSpeed, k), Pos(s.column, s.columnsSpeed, k), w.rows - 1 - BORDERS, w.columns - 1 - BORDERS)
  }

  /** The loop test, and when it passes the draw before the loop's await. */
  function Fly(s: Shot, w: World): Resumed<Shot, World>
    requires s.phase.Flying?
  {
    if Inside(s.row, s.column, s.phase.maxRow, s.phase.maxColumn) then
      Resumed(Suspended(s), [], Emit(w, AddStr(s.row, s.column, Symbol(s.columnsSpeed), Normal)))
    else
      Resumed(Stopped, [], w)
  }

  /** One send(None). */
  function FireStep(s: Shot, w: World): Resumed<Shot, World>
  {
    match s.phase
    case Start =>
      Resumed(Suspended(s.(phase := Flashed)), [], Emit(w, AddStr(s.row, s.column, "*", Normal)))
    case Flashed =>
      Resumed(Suspended(s.(phase := Ringed)), [], Emit(w, AddStr(s.row, s.column, "O", Normal)))
    case Ringed =>
      var erased := Emit(w, AddStr(s.row, s.column, " ", Normal));
      var moved := s.(row := s.row + s.rowsSpeed, column := s.column + s.columnsSpeed,
                      phase := Flying(w.rows - 1 - BORDERS, w.columns - 1 - BORDERS));
      Fly(moved, Emit(erased, Beep))
    case Flying(_, _) =>
      var erased := Emit(w, AddStr(s.row, s.column, " ", Normal));
      Fly(s.(row := s.row + s.rowsSpeed, column := s.column + s.columnsSpeed), erased)
  }

  /** The two flashes at the start cell, the erase of the start cell and the beep. */
  function Intro(s: Shot): seq<DrawOp>
  {
    [AddStr(s.row, s.column, "*", Normal), AddStr(s.row, s.column, "O", Normal),
     AddStr(s.row, s.column, " ", Normal), Beep]
  }

  /** The drawing calls of the first n flight steps: each point is drawn, then erased before the next one is drawn. */
  function Trail(s: Shot, n: nat): seq<DrawOp>
  {
    if n == 0 then []
    else
      var row, column := Pos(s.row, s.rowsSpeed, n), Pos(s.column, s.columnsSpeed, n);
      var erase := if n == 1 then [] else
        [AddStr(Pos(s.row, s.rowsSpeed, n - 1), Pos(s.column, s.columnsSpeed, n - 1), " ", Normal)];
      Trail(s, n - 1) + erase + [AddStr(row, column, Symbol(s.columnsSpeed), Normal)]
  }

  function Limits(w: World): Phase
  {
    Flying(w.rows - 1 - BORDERS, w.columns - 1 - BORDERS)
  }

  lemma MoveOnce(start: int, speed: int, n: nat)
    ensures Pos(start, speed, n) + speed == Pos(start, speed, n + 1)
  {
  }

  /** The first three resumptions: the two flashes, then the erase, the beep and the first loop test. */
  lemma Opening(s: Shot, w: World)
    requires s.phase == Start
    ensures var w2 := Emit(Emit(w, AddStr(s.row, s.column, "*", Normal)), AddStr(s.row, s.column, "O", Normal));
      var moved := s.(phase := Limits(w), row := s.row + s.rowsSpeed, column := s.column + s.columnsSpeed);
      var r := Fly(moved, Emit(Emit(w2, AddStr(s.row, s.column, " ", Normal)), Beep));
      Drive(s, w, FireStep, 3) == (r.outcome, r.world)
  {
    var w1 := Emit(w, AddStr(s.row, s.column, "*", Normal));
    var w2 := Emit(w1, AddStr(s.row, s.column, "O", Normal));
    assert Drive(s, w, FireStep, 3) == Drive(s.(phase := Flashed), w1, FireStep, 2);
    assert Drive(s.(phase := Flashed), w1, FireStep, 2) == Drive(s.(phase := Ringed), w2, FireStep, 1);
  }

  /**
   * While the first n points of the trajectory start + k * speed (k >= 1)
   * satisfy the loop condition, resumption n + 2 leaves the shot suspended at
   * point n, after the flashes and the trail up to that point.
   */
  lemma {:induction false} FireFlies(s: Shot, w: World, n: nat)
    requires s.phase == Start && n >= 1
    requires forall k :: 1 <= k <= n ==> InsideAt(s, w, k)
    ensures Drive(s, w, FireStep, n + 2)
      == (Suspended(s.(phase := Limits(w), row := Pos(s.row, s.rowsSpeed, n), column := Pos(s.column, s.columnsSpeed, n))),
          w.(ops := w.ops + Intro(s) + Trail(s, n)))
  {
    if n == 1 {
      assert InsideAt(s, w, 1);
      FirstPoint(s, w);
    } else {
      FireFlies(s, w, n - 1);
      DriveSplit(s, w, FireStep, n + 1, 1);
      var v := w.(ops := w.ops + Intro(s) + Trail(s, n - 1));
      FlightStep(s, w, n - 1, v);
      var erase := AddStr(Pos(s.row, s.rowsSpeed, n - 1), Pos(s.column, s.columnsSpeed, n - 1), " ", Normal);
      var draw := AddStr(Pos(s.row, s.rowsSpeed, n), Pos(s.column, s.columnsSpeed, n), Symbol(s.columnsSpeed), Normal);
      assert w.ops + Intro(s) + Trail(s, n - 1) + [erase, draw] == w.ops + Intro(s) + Trail(s, n);
    }
  }

  /** The third resumption draws point 1 when it passes the loop test. */
  lemma FirstPoint(s: Shot, w: World)
    requires s.phase == Start && InsideAt(s, w, 1)
    ensures Drive(s, w, FireStep, 3)
      == (Suspended(s.(phase := Limits(w), row := Pos(s.row, s.rowsSpeed, 1), column := Pos(s.column, s.columnsSpeed, 1))),
          w.(ops := w.ops + Intro(s) + Trail(s, 1)))
  {
    Opening(s, w);
    var moved := s.(phase := Limits(w), row := s.row + s.rowsSpeed, column := s.column + s.columnsSpeed);
    var w3 := Emit(Emit(Emit(Emit(w, AddStr(s.row, s.column, "*", Normal)), AddStr(s.row, s.column, "O", Normal)),
                        AddStr(s.row, s.column, " ", Normal)), Beep);
    var draw := AddStr(moved.row, moved.column, Symbol(s.columnsSpeed), Normal);
    assert moved.row == Pos(s.row, s.rowsSpeed, 1) && moved.column == Pos(s.column, s.columnsSpeed, 1);
    assert Inside(moved.row, moved.column, moved.phase.maxRow, moved.phase.maxColumn);
    assert Fly(moved, w3) == Resumed(Suspended(moved), [], Emit(w3, draw));
    assert Trail(s, 1) == [draw];
    assert Emit(w3, draw).ops == w.ops + Intro(s) + Trail(s, 1);
  }

  /** One resumption in flight, at point n, when point n + 1 passes the loop test: erase point n, draw point n + 1. */
  lemma FlightStep(s: Shot, w: World, n: nat, v: World)
    requires v.rows == w.rows && v.columns == w.columns && InsideAt(s, w, n + 1)
    ensures var at := s.(phase := Limits(w), row := Pos(s.row, s.rowsSpeed, n), column := Pos(s.column, s.columnsSpeed, n));
      Drive(at, v, FireStep, 1)
        == (Suspended(at.(row := Pos(s.row, s.rowsSpeed, n + 1), column := Pos(s.column, s.columnsSpeed, n + 1))),
            v.(ops := v.ops + [AddStr(at.row, at.column, " ", Normal),
                               AddStr(Pos(s.row, s.rowsSpeed, n + 1), Pos(s.column, s.columnsSpeed, n + 1), Symbol(s.columnsSpeed), Normal)]))
  {
    var at := s.(phase := Limits(w), row := Pos(s.row, s.rowsSpeed, n), column := Pos(s.column, s.columnsSpeed, n));
    var row, column := Pos(s.row, s.rowsSpeed, n + 1), Pos(s.column, s.columnsSpeed, n + 1);
    MoveOnce(s.row, s.rowsSpeed, n);
    MoveOnce(s.column, s.columnsSpeed, n);
    var next := at.(row := row, column := column);
    var erased := Emit(v, AddStr(at.row, at.column, " ", Normal));
    assert next == at.(row := at.row + at.rowsSpeed, column := at.column + at.columnsSpeed);
    assert Inside(row, column, next.phase.maxRow, next.phase.maxColumn);
    assert FireStep(at, v) == Fly(next, erased);
    var drawn := Emit(erased, AddStr(row, column, Symbol(s.columnsSpeed), Normal));
    assert Fly(next, erased) == Resumed(Suspended(next), [], drawn);
    assert drawn.ops == v.ops + [AddStr(at.row, at.column, " ", Normal), AddStr(row, column, Symbol(s.columnsSpeed), Normal)];
  }

  /**
   * If point n + 1 is the first one that fails the loop condition, the shot
   * raises StopIteration on resumption n + 3, having erased point n.
   */
  lemma {:induction false} FireLeaves(s: Shot, w: World, n: nat)
    requires s.phase == Start
    requires forall k :: 1 <= k <= n ==> InsideAt(s, w, k)
    requires !InsideAt(s, w, n + 1)
    ensures Drive(s, w, FireStep, n + 3)
      == (Stopped, w.(ops := w.ops + Intro(s) + Trail(s, n)
                     + if n == 0 then [] else [AddStr(Pos(s.row, s.rowsSpeed, n), Pos(s.column, s.columnsSpeed, n), " ", Normal)]))
  {
    var limits := Limits(w);
    if n == 0 {
      assert !InsideAt(s, w, 1);
      Opening(s, w);
      assert w.ops + Intro(s) + Trail(s, 0) + [] == w.ops + [AddStr(s.row, s.column, "*", Normal)]
        + [AddStr(s.row, s.column, "O", Normal)] + [AddStr(s.row, s.column, " ", Normal)] + [Beep];
    } else {
      FireFlies(s, w, n);
      DriveSplit(s, w, FireStep, n + 2, 1);
      MoveOnce(s.row, s.rowsSpeed, n);
      MoveOnce(s.column, s.columnsSpeed, n);
    }
  }

  /** Every call of the trail is at a trajectory point k with 1 <= k <= n, drawing the symbol or erasing. */
  lemma {:induction false} TrailOnTrajectory(s: Shot, n: nat, i: nat)
    requires i < |Trail(s, n)|
    ensures Trail(s, n)[i].AddStr? && Trail(s, n)[i].style == Normal
    ensures Trail(s, n)[i].text == Symbol(s.columnsSpeed) || Trail(s, n)[i].text == " "
    ensures exists k :: 1 <= k <= n && Trail(s, n)[i].row == Pos(s.row, s.rowsSpeed, k)
                                    && Trail(s, n)[i].column == Pos(s.column, s.columnsSpeed, k)
  {
    var prefix := Trail(s, n - 1);
    if i < |prefix| {
      TrailOnTrajectory(s, n - 1, i);
      assert Trail(s, n)[i] == prefix[i];
    } else if n > 1 && i == |prefix| {
      assert Trail(s, n)[i] == AddStr(Pos(s.row, s.rowsSpeed, n - 1), Pos(s.column, s.columnsSpeed, n - 1), " ", Normal);
    }
  }
}
