/**
 * fly_garbage(canvas, column, garbage_frame, speed) from lesson1/main.py as
 * a step machine: the column is clamped once, the frame then falls from row
 * BORDERS by `speed` rows per resumption while it is above the last row.
 */
module Garbage {
  import opened Utils
  import opened Scheduler
  import opened Surface

  /** Before the first resumption, or inside the fall loop with the window height read at the start. */
  datatype Phase = Start | Falling(rowsNumber: int)

  datatype Debris = Debris(phase: Phase, column: int, frame: string, speed: int, row: int)

  /** fly_garbage(canvas, column, garbage_frame, speed), not yet started. */
  function Launch(column: int, frame: string, speed: int): Debris
  {
    Debris(Start, column, frame, speed, BORDERS)
  }

  /**
   * max(column, BORDERS), then min with the last column inside the border.
   * On a window too narrow for the border the minimum wins.
   */
  function ClampColumn(column: int, columnsNumber: int): (c: int)
    ensures c <= columnsNumber - 1 - BORDERS
    ensures BORDERS <= columnsNumber - 1 - BORDERS ==>
      BORDERS <= c && c == ValidateValue(column, BORDERS, columnsNumber - 1 - BORDERS)
    ensures BORDERS <= column <= columnsNumber - 1 - BORDERS ==> c == column
  {
    var atLeast := if column < BORDERS then BORDERS else column;
    if atLeast < columnsNumber - 1 - BORDERS then atLeast else columnsNumber - 1 - BORDERS
  }

  /** The loop test, and when it passes the draw before the loop's await. */
  function Fall(d: Debris, w: World): Resumed<Debris, World>
    requires d.phase.Falling?
  {
    if d.row < d.phase.rowsNumber - 1 then
      Resumed(Suspended(d), [], Emit(w, DrawFrame(d.row, d.column, d.frame, false)))
    else
      Resumed(Stopped, [], w)
  }

  /** One send(None). */
  function GarbageStep(d: Debris, w: World): Resumed<Debris, World>
  {
    match d.phase
    case Start =>
      Fall(d.(phase := Falling(w.rows), column := ClampColumn(d.column, w.columns), row := BORDERS), w)
    case Falling(_) =>
      Fall(d.(row := d.row + d.speed), Emit(w, DrawFrame(d.row, d.column, d.frame, true)))
  }

  /** The row of the k-th draw (counted from 0). */
  function Row(speed: int, k: int): int
  {
    BORDERS + k * speed
  }

  /** The k-th draw passes the loop condition in a window the size of w. */
  predicate AboveBottom(speed: int, w: World, k: int)
  {
    Row(speed, k) < w.rows - 1
  }

  /** The drawing calls of the first n draws of a frame in a fixed column: each is erased just before the next. */
  function Track(column: int, frame: string, speed: int, n: nat): seq<DrawOp>
  {
    if n == 0 then []
    else
      var erase := if n == 1 then [] else [DrawFrame(Row(speed, n - 2), column, frame, true)];
      Track(column, frame, speed, n - 1) + erase + [DrawFrame(Row(speed, n - 1), column, frame, false)]
  }

  lemma MoveOnce(speed: int, k: int)
    ensures Row(speed, k) + speed == Row(speed, k + 1)
  {
  }

  /**
   * While the first n rows are above the bottom line, resumption n leaves the
   * frame drawn at row BORDERS + (n - 1) * speed in the clamped column.
   */
  lemma {:induction false} GarbageFalls(d: Debris, w: World, n: nat)
    requires d.phase == Start && n >= 1
    requires forall k :: 0 <= k < n ==> AboveBottom(d.speed, w, k)
    ensures var column := ClampColumn(d.column, w.columns);
      Drive(d, w, GarbageStep, n)
        == (Suspended(d.(phase := Falling(w.rows), column := column, row := Row(d.speed, n - 1))),
            w.(ops := w.ops + Track(column, d.frame, d.speed, n)))
  {
    var column := ClampColumn(d.column, w.columns);
    if n == 1 {
      assert AboveBottom(d.speed, w, 0);
      assert Track(column, d.frame, d.speed, 1) == [DrawFrame(BORDERS, column, d.frame, false)];
    } else {
      GarbageFalls(d, w, n - 1);
      DriveSplit(d, w, GarbageStep, n - 1, 1);
      assert AboveBottom(d.speed, w, n - 1);
      MoveOnce(d.speed, n - 2);
      var erase := DrawFrame(Row(d.speed, n - 2), column, d.frame, true);
      var draw := DrawFrame(Row(d.speed, n - 1), column, d.frame, false);
      assert w.ops + Track(column, d.frame, d.speed, n - 1) + [erase] + [draw]
        == w.ops + Track(column, d.frame, d.speed, n);
    }
  }

  /** If draw n is the first that would reach the bottom line, resumption n + 1 erases the last frame and stops. */
  lemma {:induction false} GarbageLands(d: Debris, w: World, n: nat)
    requires d.phase == Start
    requires forall k :: 0 <= k < n ==> AboveBottom(d.speed, w, k)
    requires !AboveBottom(d.speed, w, n)
    ensures var column := ClampColumn(d.column, w.columns);
      Drive(d, w, GarbageStep, n + 1)
        == (Stopped, w.(ops := w.ops + Track(column, d.frame, d.speed, n)
                       + if n == 0 then [] else [DrawFrame(Row(d.speed, n - 1), column, d.frame, true)]))
  {
    var column := ClampColumn(d.column, w.columns);
    if n == 0 {
      assert w.ops + Track(column, d.frame, d.speed, 0) + [] == w.ops;
    } else {
      GarbageFalls(d, w, n);
      DriveSplit(d, w, GarbageStep, n, 1);
      MoveOnce(d.speed, n - 1);
    }
  }

  /** The number of draws a frame falling at a positive speed makes before it reaches the bottom line. */
  function Drops(speed: int, rowsNumber: int): nat
    requires speed > 0
  {
    if BORDERS < rowsNumber - 1 then (rowsNumber - 2 - BORDERS) / speed + 1 else 0
  }

  /** Exactly the first Drops(speed, rows) draws are above the bottom line. */
  lemma DropsCount(speed: int, w: World, k: nat)
    requires speed > 0
    ensures AboveBottom(speed, w, k) <==> k < Drops(speed, w.rows)
  {
    if BORDERS < w.rows - 1 {
      var x := w.rows - 2 - BORDERS;
      var q := x / speed;
      if k <= q {
        MulMonotone(k, q, speed);
      } else {
        MulMonotone(q + 1, k, speed);
      }
    } else {
      assert k * speed >= 0;
    }
  }

  /**
   * Falling at a positive speed, fly_garbage stops on resumption
   * Drops(speed, rows) + 1 and is suspended on every earlier one.
   */
  lemma GarbageTerminates(d: Debris, w: World, n: nat)
    requires d.phase == Start && d.speed > 0
    ensures Drive(d, w, GarbageStep, n).0.Stopped? <==> n > Drops(d.speed, w.rows)
  {
    var drops := Drops(d.speed, w.rows);
    forall k | 0 <= k
      ensures AboveBottom(d.speed, w, k) <==> k < drops
    {
      DropsCount(d.speed, w, k);
    }
    if n > drops {
      GarbageLands(d, w, drops);
      DriveSplit(d, w, GarbageStep, drops + 1, n - drops - 1);
    } else if n > 0 {
      GarbageFalls(d, w, n);
    }
  }
}
