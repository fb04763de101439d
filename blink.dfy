/**
 * blink(canvas, row, column, symbol) from lesson1/main.py as a step machine:
 * after asleep(offset) with a random offset, the star cycles forever through
 * A_DIM for 20 tics, normal for 3, A_BOLD for 5 and normal for 3. The offset
 * is a parameter.
 */
module Blink {
  import opened Wrappers
  import opened Utils
  import opened Scheduler
  import opened Surface

  /**
   * `stage` 0 is the initial asleep(offset); stage k in 1..4 is the asleep
   * after the k-th addstr of the loop body. `nap` is that asleep coroutine.
   */
  datatype Star = Star(row: int, column: int, symbol: char, stage: nat, nap: Sleep)

  /** The tics the star holds after the k-th addstr of the loop body. */
  function Hold(stage: nat): int
  {
    if stage == 1 then 20 else if stage == 3 then 5 else 3
  }

  function StyleOf(stage: nat): Style
  {
    if stage == 1 then Dim else if stage == 3 then Bold else Normal
  }

  /** The addstr that follows stage k (the loop goes back to its first addstr after the fourth). */
  function Next(stage: nat): nat
  {
    if 1 <= stage < 4 then stage + 1 else 1
  }

  /** blink(canvas, row, column, symbol) whose randint(0, 25) drew `offset`, not yet started. */
  function Twinkle(row: int, column: int, symbol: char, offset: int): Star
  {
    Star(row, column, symbol, 0, AsleepStart(offset))
  }

  /**
   * One send(None): resume the asleep in progress; if it finishes, do the next
   * addstr and enter the next asleep, which suspends at once.
   */
  function BlinkStep(s: Star, w: World): Resumed<Star, World>
  {
    match SleepResume(s.nap)
    case Some(nap) => Resumed(Suspended(s.(nap := nap)), [], w)
    case None =>
      var k := Next(s.stage);
      var drawn := Emit(w, AddStr(s.row, s.column, [s.symbol], StyleOf(k)));
      var nap := SleepResume(AsleepStart(Hold(k)));
      assert nap.Some?;
      Resumed(Suspended(Star(s.row, s.column, s.symbol, k, nap.value)), [], drawn)
  }

  /** The length of one blink cycle in tics. */
  const PERIOD: int := 31

  /** The state p tics into the blink cycle (0 <= p < 31): the stage and the tics left of its asleep. */
  function InCycle(row: int, column: int, symbol: char, p: int): Star
    requires 0 <= p < PERIOD
  {
    if p < 20 then Star(row, column, symbol, 1, Sleep(19 - p))
    else if p < 23 then Star(row, column, symbol, 2, Sleep(22 - p))
    else if p < 28 then Star(row, column, symbol, 3, Sleep(27 - p))
    else Star(row, column, symbol, 4, Sleep(30 - p))
  }

  /** The style drawn on reaching tic p of the cycle, if one is drawn there. */
  function CycleStyle(p: int): Option<Style>
  {
    if p == 0 then Some(Dim)
    else if p == 20 then Some(Normal)
    else if p == 23 then Some(Bold)
    else if p == 28 then Some(Normal)
    else None
  }

  /** The state after m resumptions, in closed form. */
  function StarAfter(row: int, column: int, symbol: char, offset: int, m: nat): Star
  {
    var o := AsleepStart(offset).left;
    if m <= o then Star(row, column, symbol, 0, Sleep(o - m))
    else InCycle(row, column, symbol, (m - o - 1) % PERIOD)
  }

  /** The style resumption m (counted from 1) draws with, if it draws. */
  function StyleAt(offset: int, m: nat): Option<Style>
  {
    var o := AsleepStart(offset).left;
    if m <= o then None
    else CycleStyle((m - o - 1) % PERIOD)
  }

  /** The result a resumption has when it moves a star to state `next` and draws what `style` says. */
  function Moved(next: Star, style: Option<Style>, w: World): Resumed<Star, World>
  {
    Resumed(Suspended(next), [], match style
                                 case Some(st) => Emit(w, AddStr(next.row, next.column, [next.symbol], st))
                                 case None => w)
  }

  /** Within the cycle, one resumption moves from tic p to tic (p + 1) % 31. */
  lemma CycleStep(row: int, column: int, symbol: char, p: int, w: World)
    requires 0 <= p < PERIOD
    ensures var q := if p + 1 == PERIOD then 0 else p + 1;
      BlinkStep(InCycle(row, column, symbol, p), w) == Moved(InCycle(row, column, symbol, q), CycleStyle(q), w)
  {
  }

  /** What the first m resumptions draw. */
  function BlinkOps(row: int, column: int, symbol: char, offset: int, m: nat): seq<DrawOp>
  {
    if m == 0 then []
    else
      BlinkOps(row, column, symbol, offset, m - 1)
        + match StyleAt(offset, m) case Some(style) => [AddStr(row, column, [symbol], style)] case None => []
  }

  /** One resumption moves the closed form on by one and draws what StyleAt says. */
  lemma BlinkStepAt(row: int, column: int, symbol: char, offset: int, m: nat, w: World)
    ensures BlinkStep(StarAfter(row, column, symbol, offset, m), w)
      == Moved(StarAfter(row, column, symbol, offset, m + 1), StyleAt(offset, m + 1), w)
  {
    var o := AsleepStart(offset).left;
    if m > o {
      var p := (m - o - 1) % PERIOD;
      ModNext(m - o - 1, PERIOD);
      assert (m - o) % PERIOD == if p + 1 == PERIOD then 0 else p + 1;
      CycleStep(row, column, symbol, p, w);
    } else if m == o {
      assert (m + 1 - o - 1) % PERIOD == 0;
      assert StarAfter(row, column, symbol, offset, m + 1) == InCycle(row, column, symbol, 0);
    }
  }

  /**
   * Driven alone, a star never finishes: after m resumptions it is in state
   * StarAfter(m) and has drawn BlinkOps(m). In particular nothing is drawn for
   * the first max(offset, 0) resumptions, the next one draws A_DIM, and from
   * then on the styles repeat every 31 resumptions.
   */
  lemma {:induction false} BlinkForever(row: int, column: int, symbol: char, offset: int, w: World, m: nat)
    ensures Drive(Twinkle(row, column, symbol, offset), w, BlinkStep, m)
      == (Suspended(StarAfter(row, column, symbol, offset, m)), w.(ops := w.ops + BlinkOps(row, column, symbol, offset, m)))
  {
    if m == 0 {
      assert w.ops + [] == w.ops;
    } else {
      BlinkForever(row, column, symbol, offset, w, m - 1);
      DriveSplit(Twinkle(row, column, symbol, offset), w, BlinkStep, m - 1, 1);
      var w' := w.(ops := w.ops + BlinkOps(row, column, symbol, offset, m - 1));
      BlinkStepAt(row, column, symbol, offset, m - 1, w');
      match StyleAt(offset, m)
      case Some(style) =>
        assert w.ops + BlinkOps(row, column, symbol, offset, m)
          == w'.ops + [AddStr(row, column, [symbol], style)];
      case None =>
        assert w.ops + BlinkOps(row, column, symbol, offset, m) == w'.ops;
    }
  }

  /** The wait: the first max(offset, 0) resumptions draw nothing and the next draws A_DIM. */
  lemma FirstDimAfterOffset(offset: int, m: nat)
    ensures StyleAt(offset, AsleepStart(offset).left + 1) == Some(Dim)
    ensures m <= AsleepStart(offset).left ==> StyleAt(offset, m) == None
  {
  }

  /** Once started, the cycle repeats with period 20 + 3 + 5 + 3 = 31. */
  lemma StylePeriodic(offset: int, m: nat)
    requires m > AsleepStart(offset).left
    ensures StyleAt(offset, m + PERIOD) == StyleAt(offset, m)
  {
    var o := AsleepStart(offset).left;
    DivModUnique(m + PERIOD - o - 1, PERIOD, (m - o - 1) / PERIOD + 1, (m - o - 1) % PERIOD);
  }
}
