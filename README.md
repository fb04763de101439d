# Coroutine-driven terminal animation, lesson 1

This project models the first lesson of an async course: a curses animation
driven by hand-rolled generator coroutines. It covers the following.

- **Drawing.** `draw_frame` copies a multi-line glyph block onto the window.
  It clips at every edge, skips spaces and never writes the bottom-right cell.
  In erase mode it blanks the same cells.
- **Small helpers.** `get_frame_size`, the clamps `validate_rows`,
  `validate_columns` and `validate_value`, `cycle_with_repeat` and the tic
  sleep `asleep`.
- **Key reading.** `read_controls` drains the key queue.
- **The round-robin loop.** `main.py` (`draw`) and `coroutines_test.py` share
  it. Each tic sends `None` to every coroutine of a *copy* of the list, in
  order. A coroutine that raises `StopIteration` is removed. Coroutines
  appended during a tic first run on the next one.
- **The coroutines.** `count_to`, `fire`, `fly_garbage`,
  `animate_spaceship`, `blink` and `fill_orbit_with_garbage`.

How the program is represented:

- **Generators become step machines.** Each generator is a datatype of its
  suspended states plus a step function. One call of the step function is one
  `send(None)`: it runs the body to its next `await asyncio.sleep(0)` or to
  its end (`Scheduler.Outcome`).
- **Generator identity.** A list entry is `Coroutine(id, state)`. `id` stands
  for the generator object's identity, which is what `list.remove` compares;
  appended generators get fresh ids.
- **The window.** Its size, the queue of pending key codes and the log of
  `addstr` / `draw_frame` / `beep` calls form a `Surface.World`.
- **Imperative code stays imperative.** `draw_frame` works in place on an
  `array2<char>`. `read_controls` and both tic loops are methods with loops.
  Each of them is proved equal to the recursive functions `Pending`,
  `ControlsOf`, `ResumeAll`, `Play` and `Trace`.

What lesson 1 does and does not do:

- **No obstacles, timeline or game over.** Lesson 1 has no obstacle
  registry, hit flags, year counter, explosions or game-over banner. The ship
  fires once in every tic in which a space was read, and garbage is launched
  every 10 tics unconditionally.
- **Task identity.** A coroutine is identified by its generator object, not by
  its position: `list.remove` compares generators.
- **Resumptions per tic.** Each coroutine of the snapshot runs *exactly* once
  per tic, in list order, and that is what `Scheduler.Tic` states.
- **Faults.** Every exception other than `StopIteration` escapes the loop and
  ends the program. The model therefore states the cases where the code would
  fail as preconditions: `get_frame_size` of an empty text, and a ship without
  a usable first frame.

## Model

| member | source | states |
|---|---|---|
| Utils.ValidateValue | lesson1/utils.py:15-20 | the result is the value exactly when the value lies in [min, max]; it is always min, max or the value; it lies in [min, max] whenever min <= max |
| Utils.ValidateValueIsNearest | lesson1/utils.py:15-20 | the clamped value is the point of [min, max] nearest to the input |
| Utils.ValidateValueIdempotent | lesson1/utils.py:15-20 | clamping twice equals clamping once if and only if min <= max (on an empty range a second clamp moves min to max) |
| Utils.CycleWithRepeat | lesson1/utils.py:5-12 | the n-th item yielded by cycle_with_repeat, in closed form; TakeCycleWithRepeat proves the source's nested loops yield it, and the CycleWithRepeat lemmas below state its runs and period |
| Utils.CycleWithRepeatRuns | lesson1/utils.py:10-12 | positions k*repeat .. k*repeat+repeat-1 all hold item k mod len: each item comes in a run of exactly `repeat` copies |
| Utils.CycleWithRepeatNextRun | lesson1/utils.py:10-12 | the run after run k holds item k+1 mod len, and the last position of run k still holds item k |
| Utils.CycleWithRepeatOne | lesson1/main.py:41-48 | with repeat = 1 the sequence is the plain cycle: item n is items[n mod len] |
| Utils.CycleWithRepeatPeriodic | lesson1/utils.py:5-12 | the sequence repeats after repeat*len positions |
| Utils.TakeCycleWithRepeat | lesson1/utils.py:5-12 | the nested loops over cycle(items) and range(repeat) yield, as their n-th item, items[(n div repeat) mod len]; an empty list yields nothing |
| Utils.AsleepStart | lesson1/utils.py:23-25 | asleep(tics) before its first resumption: max(tics, 0) iterations of range(tics) are ahead; AsleepSuspendsExactly states what follows |
| Utils.SleepResume | lesson1/utils.py:24-25 | one send(None) to asleep: it suspends again while iterations are left and finishes otherwise; SleepCountsDown states n of them |
| Utils.AsleepSuspendsExactly | lesson1/utils.py:23-25 | asleep(tics) suspends exactly max(tics, 0) times and finishes on the next resumption |
| Utils.SleepCountsDown | lesson1/main.py:161-163 | a running asleep with `left` suspensions to go is, after n resumptions, at left - n, or finished once n > left |
| Frames.LineEnd | lesson1/main.py:131 | the first line break of the text, or its end when there is none |
| Frames.Lines | lesson1/main.py:131 | splitlines gives no line for the empty text and only then, and no line contains a line break |
| Frames.LinesOfUnlines | lesson1/main.py:131 | splitting lines joined with line breaks gives the lines back |
| Frames.UnlinesOfLines | lesson1/main.py:131 | writing the lines of any text back, each followed by a line break, gives the text, with a line break added when a non-empty text did not end in one; with LinesOfUnlines this pins splitlines down |
| Frames.LongestLine | lesson1/main.py:133 | the maximum line length: no line is longer and some line has that length |
| Frames.GetFrameSize | lesson1/main.py:125-134 | get_frame_size as (number of lines, longest line) of a non-empty text; FrameSizeIsBox states its contract |
| Frames.FrameSizeIsBox | lesson1/main.py:125-134 | get_frame_size gives the number of lines, which is positive, and a width that no line exceeds and some line reaches |
| Canvas.DrawFrame | lesson1/main.py:89-122 | each cell becomes CellAfter(old cell): a cell changes only if it is on the grid, is not the bottom-right cell and lies under a non-space glyph; it gets that glyph, or ' ' when erasing; every other cell keeps its value |
| Canvas.EraseUndoesDraw | lesson1/main.py:111-122 | erasing at the same place blanks exactly the cells drawing wrote and restores nothing else |
| Canvas.TouchedCellsInFrameBox | lesson1/main.py:97-110 | every written cell lies in the get_frame_size box at the start position |
| Canvas.DrawThenErase | lesson1/main.py:244-246 | drawing and then erasing the same frame leaves blanks exactly in the written cells and every other cell as it was |
| Controls.Press | lesson1/main.py:64-77 | the effect of one key code on the directions and the fire flag; the Controls lemmas below state what a sequence of them gives |
| Controls.ControlsOf | lesson1/main.py:54-77 | the directions and fire flag after the given codes have been read in order, starting from zero and no fire |
| Controls.Pending | lesson1/main.py:57-62 | the codes getch delivers before the first -1 and the queue it leaves; PendingSplitsAtFirstNoKey states the split |
| Controls.DirectionsAreUnit | lesson1/main.py:54-74 | both directions are -1, 0 or 1 |
| Controls.LastVerticalKeyWins | lesson1/main.py:64-68 | the row direction is that of the last UP or DOWN code read |
| Controls.LastHorizontalKeyWins | lesson1/main.py:70-74 | the column direction is that of the last RIGHT or LEFT code read |
| Controls.NoArrowNoDirection | lesson1/main.py:54 | with no arrow key on an axis that axis' direction stays 0 |
| Controls.SpaceAnywhereFires | lesson1/main.py:76-77 | the fire flag is set if and only if code 32 was read |
| Controls.PendingSplitsAtFirstNoKey | lesson1/main.py:57-62 | getch delivers the codes before the first -1 (none of them is -1) and leaves the rest queued; a queue without -1 is delivered whole |
| Controls.ReadKey | lesson1/main.py:58-77 | one getch that returns a code other than -1 extends the codes read by that code, and the directions and fire flag become those of the longer prefix |
| Controls.ReadControls | lesson1/main.py:51-86 | consumes the queue up to and including the first -1; returns update_speed applied to the directions of the codes read, and the fire flag of those codes |
| Scheduler.ResumeAll | lesson1/coroutines_test.py:20-24 | resuming a snapshot in order, threading the world: the entries that suspended, with their new states, and the coroutines they appended; Tic is proved to follow it |
| Scheduler.Remove | lesson1/coroutines_test.py:24 | list.remove by generator identity; RemoveAt states its effect |
| Scheduler.Tic | lesson1/main.py:313-317 | resumes exactly the coroutines of the snapshot, once each, in list order; the new list is the survivors of ResumeAll in order, then the appended coroutines with fresh ids; the world is threaded through; the list stays duplicate-free, and an entry was resumed this tic exactly when its id predates the tic |
| Scheduler.ResumeAllSnoc | lesson1/main.py:313-317 | resuming one more coroutine at the end runs it on the world the others left |
| Scheduler.ResumeAllStep | lesson1/coroutines_test.py:20-22 | the i-th resumption of a tic runs on the world left by the first i |
| Scheduler.TicStep | lesson1/coroutines_test.py:20-24 | one iteration of the loop, append and then remove or advance the coroutine, keeps the list equal to survivors, then not-yet-resumed snapshot entries, then new arrivals |
| Scheduler.TicStepFresh | lesson1/coroutines_test.py:20-24 | the same step, given that the coroutine being resumed is not among the survivors so far |
| Scheduler.MidwayAt | lesson1/coroutines_test.py:20-24 | before the i-th resumption the list is the survivors so far, the i-th snapshot entry, the rest of the snapshot, then the arrivals so far |
| Scheduler.MidwayNext | lesson1/coroutines_test.py:20-24 | after the i-th resumption the list is the survivors so far, then the resumed entry if it suspended, the rest of the snapshot, and the arrivals including its own |
| Scheduler.ResumeOne | lesson1/coroutines_test.py:22-24 | list.remove drops the one entry of the stopped coroutine; a suspended one keeps its place with its new state |
| Scheduler.RemoveAt | lesson1/coroutines_test.py:24 | remove(coroutine) drops the first entry with that identity and keeps the others in order |
| Scheduler.ReplaceAt | lesson1/coroutines_test.py:22 | a resumed generator keeps its place in the list |
| Scheduler.SurvivorsKeepOrder | lesson1/coroutines_test.py:22-24 | the coroutines left after a tic are a subsequence of the snapshot: relative order is kept |
| Scheduler.SurvivorsAreFromSnapshot | lesson1/coroutines_test.py:20-24 | every survivor comes from the snapshot; a duplicate-free snapshot gives duplicate-free survivors |
| Scheduler.RemovedExactlyWhenStopped | lesson1/coroutines_test.py:21-24 | a snapshot entry is still in the list after the tic if and only if its own resumption suspended, and then it holds the state it suspended in |
| Scheduler.ValidAfterTic | lesson1/main.py:313-317 | after a tic the list is duplicate-free and every id is below the next fresh id |
| Scheduler.TicDone | lesson1/main.py:313-317 | once the whole snapshot is resumed the list is survivors plus arrivals, duplicate-free, and the arrivals are exactly the entries not in the snapshot |
| Scheduler.DriveSplit | lesson1/coroutines_test.py:22 | driving a coroutine a + b times is driving it a times and then b times, and a stopped coroutine stays stopped |
| CountTo.CountStep | lesson1/coroutines_test.py:8-11 | one send(None) to count_to: it prints its next line and suspends while i <= count, and stops otherwise; the CountTo lemmas below drive it |
| CountTo.DriveCounter | lesson1/coroutines_test.py:9-11 | a counter waiting to print `from` prints from, from+1, ... on its next n resumptions while they stay within count |
| CountTo.CountToEmitsInOrder | lesson1/coroutines_test.py:8-11 | count_to(position, count) prints i = 1..n in increasing order, one per resumption, for n <= count |
| CountTo.CountToFinishes | lesson1/coroutines_test.py:8-11 | it raises StopIteration on resumption max(count, 0) + 1 having printed exactly 1..count |
| CountTo.DriveStops | lesson1/coroutines_test.py:9-11 | driven past max(count, 0) resumptions a fresh counter is stopped with lines 1..count printed |
| CountTo.CountTic | lesson1/coroutines_test.py:19-24 | one tic turns the live counters of tic t into those of tic t + 1, extends the trace by tic t's lines, appends nothing, and adds one resumption per live counter |
| CountTo.TicOnAlive | lesson1/coroutines_test.py:19-24 | one tic over the live counters prints that tic's lines in list order, drops exactly the counters that finish, and appends nothing |
| CountTo.AliveEmpty | lesson1/coroutines_test.py:25-26 | the list is empty after t tics exactly when t exceeds the largest count (or there were no counters) |
| CountTo.AliveValid | lesson1/coroutines_test.py:15-17 | the live counters are distinct generators, numbered below COROUTINES_NUM |
| CountTo.AliveSize | lesson1/coroutines_test.py:20-22 | each tic adds the number of live counters to the resumption count |
| CountTo.SumMinFull | lesson1/coroutines_test.py:25-26 | once every counter has stopped, each was resumed count + 1 times |
| CountTo.TraceLines | lesson1/coroutines_test.py:10 | after T tics a line (position, i, count) has been printed if and only if it is counter `position`'s line with 1 <= i <= count and i <= T |
| CountTo.TicLinesAre | lesson1/coroutines_test.py:10 | tic t prints the line t of exactly those counters with count >= t |
| CountTo.RunCountTo | lesson1/coroutines_test.py:14-26 | the loop stops after max(count) + 1 tics, with sum(max(count, 0) + 1) resumptions in total, having printed Trace (tic by tic, in list order) |
| Fire.FireStep | lesson1/main.py:166-194 | one send(None) to fire, phase by phase; Opening, FirstPoint, FlightStep, FireFlies and FireLeaves state what successive resumptions do |
| Fire.Opening | lesson1/main.py:172-189 | the first three resumptions: '*' at the start, 'O' at the start, then erase, beep and the first loop test one step further |
| Fire.FirstPoint | lesson1/main.py:172-192 | the third resumption, when the first point passes the loop test, leaves the shot at that point having drawn the flashes, the erase, the beep and the symbol at point 1 |
| Fire.FlightStep | lesson1/main.py:189-194 | in flight at point n, when point n + 1 passes the loop test, one resumption erases point n and draws point n + 1, and the shot moves there |
| Fire.FireFlies | lesson1/main.py:170-194 | while points start + k*speed (1 <= k <= n) pass the loop test, resumption n + 2 leaves the shot at point n, having drawn the two flashes and the trail: each point drawn with '-' (horizontal speed) or '\|', then erased before the next |
| Fire.FireLeaves | lesson1/main.py:189-194 | when point n + 1 is the first to fail BORDERS < row < rows-1-BORDERS and BORDERS < column < columns-1-BORDERS, the shot erases point n and stops on resumption n + 3 |
| Fire.TrailOnTrajectory | lesson1/main.py:189-194 | every call of the flight is at a point start + k*speed with 1 <= k <= n, and writes the symbol or a blank |
| Garbage.GarbageStep | lesson1/main.py:233-247 | one send(None) to fly_garbage; GarbageFalls, GarbageLands and GarbageTerminates state what successive resumptions do |
| Garbage.ClampColumn | lesson1/main.py:238-239 | the column is at most columns-1-BORDERS; on a window wide enough it is validate_value(column, BORDERS, columns-1-BORDERS), so it lies within the border; a column already inside is kept |
| Garbage.GarbageFalls | lesson1/main.py:241-247 | while rows BORDERS + k*speed stay above the last row, resumption n leaves the frame drawn at row BORDERS + (n-1)*speed in the clamped column, each earlier frame erased before the next draw |
| Garbage.GarbageLands | lesson1/main.py:243-247 | when draw n would reach the last row, resumption n + 1 erases the last frame and stops |
| Garbage.DropsCount | lesson1/main.py:243 | at a positive speed exactly the first Drops(speed, rows) rows pass the loop test |
| Garbage.GarbageTerminates | lesson1/main.py:243-247 | at a positive speed fly_garbage is stopped after n resumptions if and only if n > Drops(speed, rows) |
| Spaceship.ValidateRows | lesson1/main.py:145-150 | validate_rows is validate_value |
| Spaceship.ValidateColumns | lesson1/main.py:153-158 | validate_columns is validate_value |
| Spaceship.Show | lesson1/main.py:206-227 | one pass of the frame loop up to its await: the keys up to the first -1 are consumed; the speeds become update_speed of the old speeds and the key directions; the position moves by them, clamped by validate_value; item n of cycle_with_repeat(frames, 2) is drawn there; one shot is appended, from the middle of the top edge, exactly when space was read |
| Spaceship.ShipStep | lesson1/main.py:197-230 | the ship never stops and advances through the frame cycle; when the range is non-empty its top-left stays in [BORDERS, max - frame size - BORDERS] on each axis; it consumes the keys up to the first -1; it erases the previous frame where it was drawn, then draws item n of cycle_with_repeat(frames, 2); it appends one shot, from the middle of its top edge, exactly when space was pressed |
| Spaceship.ShipMoves | lesson1/main.py:208-221 | the new speeds are update_speed of the old speeds and the key directions; the new position is the old one plus those speeds, clamped |
| Spaceship.Begin | lesson1/main.py:197-221 | the first resumption sizes the first frame, starts from the start point minus half that size with zero speeds, and moves by update_speed of the key directions, clamped; the frame cycle is at position 0 |
| Blink.BlinkStep | lesson1/main.py:250-263 | one send(None) to blink: the asleep in progress, or the next addstr and the next asleep; CycleStep, BlinkStepAt and BlinkForever state what successive resumptions do |
| Blink.CycleStep | lesson1/main.py:255-263 | inside the 31-tic cycle one resumption moves from tic p to tic p + 1 (wrapping to 0) and draws a style exactly at tics 0, 20, 23 and 28 |
| Blink.BlinkStepAt | lesson1/main.py:250-263 | resumption m + 1 moves the closed form StarAfter(m) on by one and draws exactly the style StyleAt(m + 1) |
| Blink.BlinkForever | lesson1/main.py:250-263 | driven alone a star never stops; after m resumptions it holds StarAfter(m) and has drawn BlinkOps(m) |
| Blink.FirstDimAfterOffset | lesson1/main.py:251-253 | nothing is drawn for the first max(offset, 0) resumptions; the next one draws A_DIM |
| Blink.StylePeriodic | lesson1/main.py:252-263 | once started the styles repeat every 20 + 3 + 5 + 3 = 31 resumptions |
| Orbit.OrbitStep | lesson1/main.py:266-277 | one send(None) to fill_orbit_with_garbage: the next await of the countdown, or the append of a new fly_garbage; OrbitStepAt and OrbitLaunches state what successive resumptions do |
| Orbit.OrbitStepAt | lesson1/main.py:266-277 | resumption m + 1 appends a piece of garbage exactly when m is a positive multiple of 10 (resumptions 11, 21, ...), built from random draw m/10 - 1, and nothing otherwise |
| Orbit.OrbitStepAppends | lesson1/main.py:269-277 | one more resumption keeps the appended garbage equal to the pieces launched so far |
| Orbit.PiecesSnoc | lesson1/main.py:271-277 | the next launch appends the piece made from the next random draw |
| Orbit.OrbitLaunches | lesson1/main.py:269-277 | the first m resumptions append pieces 0 .. (m-1)/10 - 1 of the random stream, in order |
| Game.GameStep | lesson1/main.py:289-317 | one send(None) to any coroutine of draw()'s list, dispatching to its own step; PersistentNeverStops and OnlyShotsAndGarbageAppended state its outcomes |
| Game.Initial | lesson1/main.py:287-310 | draw()'s list before the loop; Populate and InitialValid state its shape |
| Game.Play | lesson1/main.py:312-320 | the tic loop for as many tics as key batches are given; Run is proved to follow it and KeptByTic states what each tic keeps |
| Game.PersistentNeverStops | lesson1/main.py:289-310 | stars, the garbage filler and the spaceship never raise StopIteration |
| Game.OnlyShotsAndGarbageAppended | lesson1/main.py:224-227 | only the spaceship appends (shots) and only the filler appends (garbage) |
| Game.GameKeepsPersistent | lesson1/main.py:289-310 | resuming a star, the filler or the ship leaves it suspended and still one of them |
| Game.KeptByTic | lesson1/main.py:312-317 | a tic removes none of the perpetual coroutines |
| Game.Draw | lesson1/main.py:280-320 | builds the list of draw() and runs the loop as Play says; no star, filler or ship is ever removed and the list stays duplicate-free |
| Game.Populate | lesson1/main.py:287-310 | the list before the loop: the stars in order, then the filler, then the ship centred on the window |
| Game.Run | lesson1/main.py:312-320 | the tic loop follows Play and keeps the list duplicate-free and the persistent coroutines in it |
| Game.PlayStep | lesson1/main.py:312-317 | one tic of Play: the typed keys reach the queue, then ResumeAll, then the arrivals are appended |
| Game.InitialValid | lesson1/main.py:287-310 | the initial list is duplicate-free and holds every perpetual coroutine |

## Left out

- curses itself is not modelled: getmaxyx, getch, addch, addstr, refresh, beep,
  border, curs_set, nodelay and wrapper. The window is a `Surface.World`: a
  size, a key queue and a log of drawing calls. Only `Canvas.DrawFrame` models
  the effect of drawing on a character grid; the coroutines log `DrawFrame`
  calls instead of applying them.
- `update_speed` comes from the `phisics` module, which is not part of this
  model. It is a function parameter (`Controls.SpeedUpdate`).
- Randomness is not modelled. `randint`, `choice` and `uniform` become
  parameters: star seeds, the orbit's `pick` stream and count_to's counts.
  `Game.Draw` states the ranges of the star draws as a precondition.
- `listdir`, `get_frames` and file reading are not modelled. Frames are given
  as strings.
- Floating-point positions and speeds are not modelled, and neither is
  Python's `round`. Positions and speeds are integers. So the garbage speeds
  0.3..1 are not representable.
- Frames.Lines: splits on '\n' only; other line boundaries that `splitlines`
  recognises (`\r`, `\x0b`, ...) are not modelled.
- `sleep(TIC_TIMEOUT)` and `canvas.refresh()` are not modelled. The tic is just
  the next pass of the loop.
- `draw()`'s `while True` never ends. `Game.Draw` runs it for as many tics as
  key batches are given.
- `print` in coroutines_test.py is modelled as a trace of `CountTo.Line`
  values, not text.
- Utils.TakeCycleWithRepeat: requires repeat >= 1. With repeat < 1 and
  non-empty items the generator loops forever without yielding.
- Utils.CycleWithRepeat: the same restriction as TakeCycleWithRepeat.
- Frames.GetFrameSize: requires a non-empty text. The source raises on
  `max([])`.
- Spaceship.ShipStep: the frames are non-empty and the first frame has a line.
  Otherwise the source raises at start-up.
- A star drawn in the bottom-right cell of the window: `blink`'s one-character
  `addstr` there makes curses raise an error, which escapes `draw()`.
  `draw_frame` skips that cell for this reason, but `blink` does not, and the
  random star positions can reach it. `Game.Seeded` admits that cell, and the
  model logs the `addstr` like any other.
- Exceptions are not modelled. A coroutine raising anything other than
  StopIteration would end the program.
- lesson1/config.py is not part of this model: it holds constants no code here
  reads.
