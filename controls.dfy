/**
 * read_controls from lesson1/main.py: drains the curses key queue until
 * getch() reports -1, keeping the last arrow key on each axis and noting
 * whether the space bar was pressed anywhere. The speeds are then passed
 * through update_speed, whose module is not part of this model: it is a
 * parameter here.
 */
module Controls {
  const SPACE_KEY_CODE: int := 32
  const LEFT_KEY_CODE: int := 260
  const RIGHT_KEY_CODE: int := 261
  const UP_KEY_CODE: int := 259
  const DOWN_KEY_CODE: int := 258
  /** getch() in no-delay mode returns -1 once no key is pending. */
  const NO_KEY: int := -1
  /** The per-axis speed limit handed to update_speed. */
  const SPEED: int := 5

  /**
   * update_speed(row_speed, column_speed, rows_direction, columns_direction,
   * row_speed_limit, column_speed_limit) returns the new (row, column) speeds.
   */
  type SpeedUpdate = (int, int, int, int, int, int) -> (int, int)

  datatype Controls = Controls(rowsDirection: int, columnsDirection: int, spacePressed: bool)

  /** The effect of one key code on the controls, as the chain of ifs in read_controls. */
  function Press(c: Controls, code: int): Controls
  {
    var c1 := if code == UP_KEY_CODE then c.(rowsDirection := -1) else c;
    var c2 := if code == DOWN_KEY_CODE then c1.(rowsDirection := 1) else c1;
    var c3 := if code == RIGHT_KEY_CODE then c2.(columnsDirection := 1) else c2;
    var c4 := if code == LEFT_KEY_CODE then c3.(columnsDirection := -1) else c3;
    if code == SPACE_KEY_CODE then c4.(spacePressed := true) else c4
  }

  /** The controls after the codes have been read in order, starting from no direction and no fire. */
  function ControlsOf(codes: seq<int>): Controls
  {
    if codes == [] then Controls(0, 0, false)
    else Press(ControlsOf(codes[..|codes| - 1]), codes[|codes| - 1])
  }

  predicate IsVertical(code: int) { code == UP_KEY_CODE || code == DOWN_KEY_CODE }
  predicate IsHorizontal(code: int) { code == LEFT_KEY_CODE || code == RIGHT_KEY_CODE }

  /** The direction an arrow key stands for on its own axis. */
  function RowStep(code: int): int { if code == UP_KEY_CODE then -1 else 1 }
  function ColumnStep(code: int): int { if code == LEFT_KEY_CODE then -1 else 1 }

  /** Each direction is -1, 0 or 1. */
  lemma {:induction false} DirectionsAreUnit(codes: seq<int>)
    ensures -1 <= ControlsOf(codes).rowsDirection <= 1
    ensures -1 <= ControlsOf(codes).columnsDirection <= 1
  {
    if codes != [] {
      DirectionsAreUnit(codes[..|codes| - 1]);
    }
  }

  /** The last UP or DOWN code read decides the row direction. */
  lemma {:induction false} LastVerticalKeyWins(codes: seq<int>, i: nat)
    requires i < |codes| && IsVertical(codes[i])
    requires forall j :: i < j < |codes| ==> !IsVertical(codes[j])
    ensures ControlsOf(codes).rowsDirection == RowStep(codes[i])
    decreases |codes|
  {
    if i < |codes| - 1 {
      LastVerticalKeyWins(codes[..|codes| - 1], i);
    }
  }

  /** The last LEFT or RIGHT code read decides the column direction. */
  lemma {:induction false} LastHorizontalKeyWins(codes: seq<int>, i: nat)
    requires i < |codes| && IsHorizontal(codes[i])
    requires forall j :: i < j < |codes| ==> !IsHorizontal(codes[j])
    ensures ControlsOf(codes).columnsDirection == ColumnStep(codes[i])
    decreases |codes|
  {
    if i < |codes| - 1 {
      LastHorizontalKeyWins(codes[..|codes| - 1], i);
    }
  }

  /** Without an arrow key on an axis, that axis' direction stays 0 (no key means "no change" for update_speed). */
  lemma {:induction false} NoArrowNoDirection(codes: seq<int>)
    ensures (forall j :: 0 <= j < |codes| ==> !IsVertical(codes[j])) ==> ControlsOf(codes).rowsDirection == 0
    ensures (forall j :: 0 <= j < |codes| ==> !IsHorizontal(codes[j])) ==> ControlsOf(codes).columnsDirection == 0
  {
    if codes != [] {
      NoArrowNoDirection(codes[..|codes| - 1]);
    }
  }

  /** Fire is requested exactly when the space bar code occurs among the codes read. */
  lemma {:induction false} SpaceAnywhereFires(codes: seq<int>)
    ensures ControlsOf(codes).spacePressed <==> SPACE_KEY_CODE in codes
  {
    if codes != [] {
      var init := codes[..|codes| - 1];
      SpaceAnywhereFires(init);
      assert codes == init + [codes[|codes| - 1]];
    }
  }

  /** The codes getch() delivers before the first -1, and what is left in the queue after it. */
  function Pending(queue: seq<int>): (seq<int>, seq<int>)
  {
    if queue == [] then ([], [])
    else if queue[0] == NO_KEY then ([], queue[1..])
    else
      var rest := Pending(queue[1..]);
      ([queue[0]] + rest.0, rest.1)
  }

  /**
   * Pending splits the queue at its first -1; a queue without one is
   * delivered whole (getch() reports -1 once it is empty).
   */
  lemma {:induction false} PendingSplitsAtFirstNoKey(queue: seq<int>)
    ensures NO_KEY !in Pending(queue).0
    ensures NO_KEY in queue ==> queue == Pending(queue).0 + [NO_KEY] + Pending(queue).1
    ensures NO_KEY !in queue ==> Pending(queue) == (queue, [])
  {
    if queue != [] && queue[0] != NO_KEY {
      PendingSplitsAtFirstNoKey(queue[1..]);
      assert queue == [queue[0]] + queue[1..];
    }
  }

  /**
   * read_controls(canvas, row_speed, column_speed) over a key queue that holds
   * a -1. `calls` is the number of getch() calls: everything up to and
   * including the first -1 is consumed.
   */
  method ReadControls(queue: seq<int>, rowSpeed: int, columnSpeed: int, updateSpeed: SpeedUpdate)
    returns (rowsSpeed: int, columnsSpeed: int, spacePressed: bool, calls: nat)
    requires NO_KEY in queue
    ensures 0 < calls <= |queue| && queue[calls - 1] == NO_KEY && NO_KEY !in queue[..calls - 1]
    ensures queue[..calls - 1] == Pending(queue).0 && queue[calls..] == Pending(queue).1
    ensures var c := ControlsOf(queue[..calls - 1]);
      (rowsSpeed, columnsSpeed) == updateSpeed(rowSpeed, columnSpeed, c.rowsDirection, c.columnsDirection, SPEED, SPEED)
      && spacePressed == c.spacePressed
  {
    var rowsDirection, columnsDirection := 0, 0;
    spacePressed := false;
    calls := 0;
    assert queue[..0] == [] && queue[0..] == queue;
    while true
      invariant calls <= |queue| && NO_KEY !in queue[..calls]
      invariant Controls(rowsDirection, columnsDirection, spacePressed) == ControlsOf(queue[..calls])
      invariant Pending(queue).0 == queue[..calls] + Pending(queue[calls..]).0
      invariant Pending(queue).1 == Pending(queue[calls..]).1
      decreases |queue| - calls
    {
      if calls == |queue| {
        assert false;
      }
      var pressedKeyCode := queue[calls];
      PendingFrom(queue, calls);
      if pressedKeyCode == NO_KEY {
        calls := calls + 1;
        break;
      }
      ReadKey(queue, calls);
      calls := calls + 1;
      ghost var before := Controls(rowsDirection, columnsDirection, spacePressed);
      if pressedKeyCode == UP_KEY_CODE {
        rowsDirection := -1;
      }
      if pressedKeyCode == DOWN_KEY_CODE {
        rowsDirection := 1;
      }
      if pressedKeyCode == RIGHT_KEY_CODE {
        columnsDirection := 1;
      }
      if pressedKeyCode == LEFT_KEY_CODE {
        columnsDirection := -1;
      }
      if pressedKeyCode == SPACE_KEY_CODE {
        spacePressed := true;
      }
      assert Controls(rowsDirection, columnsDirection, spacePressed) == Press(before, pressedKeyCode);
    }
    var speeds := updateSpeed(rowSpeed, columnSpeed, rowsDirection, columnsDirection, SPEED, SPEED);
    rowsSpeed, columnsSpeed := speeds.0, speeds.1;
  }

  /** Reading one code that is not -1 moves it from the pending part to the part already read. */
  lemma ReadKey(queue: seq<int>, calls: nat)
    requires calls < |queue| && queue[calls] != NO_KEY && NO_KEY !in queue[..calls]
    ensures NO_KEY !in queue[..calls + 1]
    ensures ControlsOf(queue[..calls + 1]) == Press(ControlsOf(queue[..calls]), queue[calls])
    ensures queue[..calls] + Pending(queue[calls..]).0 == queue[..calls + 1] + Pending(queue[calls + 1..]).0
    ensures Pending(queue[calls..]).1 == Pending(queue[calls + 1..]).1
  {
    PendingFrom(queue, calls);
    assert queue[..calls + 1] == queue[..calls] + [queue[calls]];
    assert queue[..calls + 1][..calls] == queue[..calls];
  }

  /** One getch() call as Pending sees it. */
  lemma PendingFrom(queue: seq<int>, calls: nat)
    requires calls < |queue|
    ensures queue[calls] == NO_KEY ==> Pending(queue[calls..]) == ([], queue[calls + 1..])
    ensures queue[calls] != NO_KEY ==>
      Pending(queue[calls..]).0 == [queue[calls]] + Pending(queue[calls + 1..]).0
      && Pending(queue[calls..]).1 == Pending(queue[calls + 1..]).1
  {
    assert queue[calls..][1..] == queue[calls + 1..];
  }
}
