/**
 * lesson1/coroutines_test.py: COROUTINES_NUM counters `count_to(position,
 * count)` are appended to a list and driven by the snapshot/remove loop until
 * the list is empty. The random counts are a parameter; `print` becomes a
 * trace of printed lines.
 */
module CountTo {
  import opened Scheduler

  /** One printed line `coroutine {position}:  {i}, max: {count}`. */
  datatype Line = Line(position: int, i: int, count: int)

  /** count_to(position, count), suspended where it would print `next` on its next resumption. */
  datatype Counter = Counter(position: int, count: int, next: int)

  /** A fresh count_to(position, count) generator. */
  function Start(position: int, count: int): Counter
  {
    Counter(position, count, 1)
  }

  /** How many values range(1, count + 1) yields. */
  function Max0(count: int): nat
  {
    if count < 0 then 0 else count
  }

  /** One send(None): print the next value and suspend, or leave the loop and stop. */
  function CountStep(t: Counter, printed: seq<Line>): Resumed<Counter, seq<Line>>
  {
    if t.next <= t.count then
      Resumed(Suspended(t.(next := t.next + 1)), [], printed + [Line(t.position, t.next, t.count)])
    else
      Resumed(Stopped, [], printed)
  }

  /** The n lines printed for i = from, from + 1, ... */
  function LinesFrom(position: int, count: int, from: int, n: nat): seq<Line>
  {
    seq(n, k requires 0 <= k < n => Line(position, from + k, count))
  }

  lemma {:induction false} DriveCounter(position: int, count: int, from: int, w: seq<Line>, n: nat)
    requires 1 <= from && from - 1 + n <= Max0(count)
    ensures Drive(Counter(position, count, from), w, CountStep, n)
      == (Suspended(Counter(position, count, from + n)), w + LinesFrom(position, count, from, n))
    decreases n
  {
    if n > 0 {
      var line := Line(position, from, count);
      assert CountStep(Counter(position, count, from), w) == Resumed(Suspended(Counter(position, count, from + 1)), [], w + [line]);
      assert Drive(Counter(position, count, from), w, CountStep, n)
        == Drive(Counter(position, count, from + 1), w + [line], CountStep, n - 1);
      DriveCounter(position, count, from + 1, w + [line], n - 1);
      assert [line] + LinesFrom(position, count, from + 1, n - 1) == LinesFrom(position, count, from, n);
      assert w + [line] + LinesFrom(position, count, from + 1, n - 1) == w + LinesFrom(position, count, from, n);
    } else {
      assert w + LinesFrom(position, count, from, n) == w;
    }
  }

  /**
   * Driven alone, count_to(position, count) prints i = 1, 2, ..., n on its
   * first n resumptions, one per resumption, for n up to count.
   */
  lemma CountToEmitsInOrder(position: int, count: int, w: seq<Line>, n: nat)
    requires n <= Max0(count)
    ensures Drive(Start(position, count), w, CountStep, n)
      == (Suspended(Counter(position, count, n + 1)), w + LinesFrom(position, count, 1, n))
  {
    DriveCounter(position, count, 1, w, n);
  }

  /** ... and raises StopIteration on resumption max(count, 0) + 1, having printed nothing more. */
  lemma CountToFinishes(position: int, count: int, w: seq<Line>, n: nat)
    requires n > Max0(count)
    ensures Drive(Start(position, count), w, CountStep, n) == (Stopped, w + LinesFrom(position, count, 1, Max0(count)))
  {
    var m := Max0(count);
    DriveStops(Counter(position, count, 1), w, n, m);
  }

  lemma {:induction false} DriveStops(t: Counter, w: seq<Line>, n: nat, m: nat)
    requires t.next == 1 && m == Max0(t.count) && n > m
    ensures Drive(t, w, CountStep, n) == (Stopped, w + LinesFrom(t.position, t.count, 1, m))
  {
    DriveCounter(t.position, t.count, 1, w, m);
    DriveSplit(t, w, CountStep, m, n - m);
    var w' := w + LinesFrom(t.position, t.count, 1, m);
    assert CountStep(Counter(t.position, t.count, m + 1), w') == Resumed(Stopped, [], w');
  }

  // ---------------------------------------------------------------------
  // The main loop over COROUTINES_NUM counters
  // ---------------------------------------------------------------------

  /** The list after `t` tics: counter i, in order, if it has not stopped yet; it then waits to print t + 1. */
  function Alive(counts: seq<int>, t: nat): seq<Coroutine<Counter>>
  {
    if counts == [] then []
    else
      var n := |counts| - 1;
      Alive(counts[..n], t) + (if t <= Max0(counts[n]) then [Coroutine(n, Counter(n, counts[n], t + 1))] else [])
  }

  /** The lines printed during tic t (counted from 1), in list order. */
  function TicLines(counts: seq<int>, t: nat): seq<Line>
  {
    if counts == [] then []
    else
      var n := |counts| - 1;
      TicLines(counts[..n], t) + (if t <= counts[n] then [Line(n, t, counts[n])] else [])
  }

  /** Everything printed during the first T tics. */
  function Trace(counts: seq<int>, T: nat): seq<Line>
  {
    if T == 0 then [] else Trace(counts, T - 1) + TicLines(counts, T)
  }

  /** The largest count, or 0. */
  function MaxCount(counts: seq<int>): nat
  {
    if counts == [] then 0
    else
      var m := MaxCount(counts[..|counts| - 1]);
      var c := Max0(counts[|counts| - 1]);
      if m < c then c else m
  }

  /** Resumptions each counter receives over t tics: one per tic until it has stopped. */
  function SumMin(counts: seq<int>, t: nat): nat
  {
    if counts == [] then 0
    else
      var c := Max0(counts[|counts| - 1]) + 1;
      SumMin(counts[..|counts| - 1], t) + (if t < c then t else c)
  }

  /** Every counter's resumptions over its whole life: count + 1 each (the last one raises StopIteration). */
  function Total(counts: seq<int>): nat
  {
    if counts == [] then 0 else Total(counts[..|counts| - 1]) + Max0(counts[|counts| - 1]) + 1
  }

  /** One tic over the live counters prints the tic's lines and drops those that have finished; nothing is appended. */
  lemma {:induction false} TicOnAlive(counts: seq<int>, t: nat, w: seq<Line>)
    ensures ResumeAll(Alive(counts, t), w, CountStep) == Round(Alive(counts, t + 1), [], w + TicLines(counts, t + 1))
  {
    if counts != [] {
      var n := |counts| - 1;
      var init := counts[..n];
      TicOnAlive(init, t, w);
      var before := Alive(init, t + 1);
      var printed := w + TicLines(init, t + 1);
      if t <= Max0(counts[n]) {
        var c := Coroutine(n, Counter(n, counts[n], t + 1));
        assert Alive(counts, t) == Alive(init, t) + [c];
        ResumeAllSnoc(Alive(init, t), c, w, CountStep);
        if t + 1 <= counts[n] {
          var l := Line(n, t + 1, counts[n]);
          assert CountStep(c.state, printed) == Resumed(Suspended(Counter(n, counts[n], t + 2)), [], printed + [l]);
          assert TicLines(counts, t + 1) == TicLines(init, t + 1) + [l];
          assert printed + [l] == w + TicLines(counts, t + 1);
        } else {
          assert CountStep(c.state, printed) == Resumed(Stopped, [], printed);
          assert Alive(counts, t + 1) == before + [];
          assert TicLines(counts, t + 1) == TicLines(init, t + 1) + [];
          assert w + TicLines(counts, t + 1) == printed;
          assert ResumeAll(Alive(counts, t), w, CountStep) == Round(before + [], [] + [], printed);
        }
      } else {
        assert Alive(counts, t) == Alive(init, t) + [] == Alive(init, t);
        assert Alive(counts, t + 1) == before + [] == before;
        assert TicLines(counts, t + 1) == TicLines(init, t + 1) + [];
        assert w + TicLines(counts, t + 1) == printed;
      }
    } else {
      assert w + TicLines(counts, t + 1) == w;
    }
  }

  /** The list is empty exactly once the longest counter has stopped (or if there were no counters). */
  lemma {:induction false} AliveEmpty(counts: seq<int>, t: nat)
    ensures Alive(counts, t) == [] <==> counts == [] || t > MaxCount(counts)
  {
    if counts != [] {
      var n := |counts| - 1;
      AliveEmpty(counts[..n], t);
      assert |Alive(counts, t)| == |Alive(counts[..n], t)| + (if t <= Max0(counts[n]) then 1 else 0);
    }
  }

  /** The live counters are distinct generator objects numbered below |counts|. */
  lemma {:induction false} AliveValid(counts: seq<int>, t: nat)
    ensures Valid(Alive(counts, t), |counts|)
  {
    if counts != [] {
      var n := |counts| - 1;
      var before := Alive(counts[..n], t);
      AliveValid(counts[..n], t);
      if t <= Max0(counts[n]) {
        var c := Coroutine(n, Counter(n, counts[n], t + 1));
        assert Ids(before + [c]) == Ids(before) + [n];
        IdsBelow(before, n);
        DistinctSnoc(Ids(before), n);
      } else {
        assert Alive(counts, t) == before;
      }
    }
  }

  lemma {:induction false} AliveSize(counts: seq<int>, t: nat)
    ensures SumMin(counts, t) + |Alive(counts, t)| == SumMin(counts, t + 1)
  {
    if counts != [] {
      AliveSize(counts[..|counts| - 1], t);
    }
  }

  lemma {:induction false} SumMinZero(counts: seq<int>)
    ensures SumMin(counts, 0) == 0
  {
    if counts != [] {
      SumMinZero(counts[..|counts| - 1]);
    }
  }

  lemma {:induction false} SumMinFull(counts: seq<int>, t: nat)
    requires t > MaxCount(counts)
    ensures SumMin(counts, t) == Total(counts)
  {
    if counts != [] {
      SumMinFull(counts[..|counts| - 1], t);
    }
  }

  /**
   * A counter's i-th line appears in the trace of T tics exactly when
   * 1 <= i <= count and i <= T; no other line is ever printed.
   */
  lemma {:induction false} TraceLines(counts: seq<int>, T: nat, l: Line)
    ensures l in Trace(counts, T) <==>
      0 <= l.position < |counts| && l.count == counts[l.position] && 1 <= l.i <= l.count && l.i <= T
  {
    if T > 0 {
      TraceLines(counts, T - 1, l);
      TicLinesAre(counts, T, l);
      assert Trace(counts, T) == Trace(counts, T - 1) + TicLines(counts, T);
      assert l in Trace(counts, T) <==> l in Trace(counts, T - 1) || l in TicLines(counts, T);
    }
  }

  lemma {:induction false} TicLinesAre(counts: seq<int>, t: nat, l: Line)
    ensures l in TicLines(counts, t) <==>
      0 <= l.position < |counts| && l.count == counts[l.position] && l.i == t <= l.count
  {
    if counts != [] {
      var n := |counts| - 1;
      TicLinesAre(counts[..n], t, l);
      if 0 <= l.position < n {
        assert counts[..n][l.position] == counts[l.position];
      }
    }
  }

  /** One pass of the `while True` loop, as the loop sees it. */
  lemma CountTic(counts: seq<int>, t: nat, nextId: nat)
    ensures var round := ResumeAll(Alive(counts, t), Trace(counts, t), CountStep);
      && round.survivors + Label(round.spawned, nextId) == Alive(counts, t + 1)
      && round.world == Trace(counts, t + 1)
      && |round.spawned| == 0
      && SumMin(counts, t) + |Ids(Alive(counts, t))| == SumMin(counts, t + 1)
  {
    TicOnAlive(counts, t, Trace(counts, t));
    AliveSize(counts, t);
    assert Label<Counter>([], nextId) == [];
    assert Alive(counts, t + 1) + [] == Alive(counts, t + 1);
  }

  /**
   * The `__main__` block of coroutines_test.py: append count_to(i, counts[i])
   * for every i, then run tics until the list is empty. `tics` counts the
   * passes of the `while True` loop.
   */
  method RunCountTo(counts: seq<int>) returns (tics: nat, resumptions: nat, printed: seq<Line>)
    ensures tics == MaxCount(counts) + 1
    ensures resumptions == Total(counts)
    ensures printed == Trace(counts, tics)
  {
    var coroutines: seq<Coroutine<Counter>> := [];
    for i := 0 to |counts|
      invariant coroutines == Alive(counts[..i], 0)
    {
      assert counts[..i + 1][..i] == counts[..i];
      coroutines := coroutines + [Coroutine(i, Start(i, counts[i]))];
    }
    assert counts[..|counts|] == counts;
    var nextId: nat := |counts|;
    SumMinZero(counts);
    tics, resumptions, printed := 0, 0, [];
    while true
      invariant tics <= MaxCount(counts)
      invariant coroutines == Alive(counts, tics)
      invariant printed == Trace(counts, tics)
      invariant resumptions == SumMin(counts, tics)
      invariant nextId == |counts|
      decreases MaxCount(counts) - tics
    {
      AliveValid(counts, tics);
      CountTic(counts, tics, nextId);
      var resumed;
      coroutines, nextId, printed, resumed := Tic(coroutines, nextId, printed, CountStep);
      resumptions := resumptions + |resumed|;
      tics := tics + 1;
      AliveEmpty(counts, tics);
      if |coroutines| == 0 {
        break;
      }
    }
    SumMinFull(counts, tics);
  }
}
