/**
 * The helpers of lesson1/utils.py: clamping a value into a range, the
 * "cycle with repeat" frame sequence, and the tic-counting sleep.
 * main.py carries identical copies of cycle_with_repeat and asleep;
 * both are modelled once, here.
 */
module Utils {
  import opened Wrappers

  // ---------------------------------------------------------------------
  // validate_value
  // ---------------------------------------------------------------------

  /** validate_value: the minimum is tested first, then the maximum. */
  function ValidateValue(value: int, valueMin: int, valueMax: int): (r: int)
    ensures valueMin <= valueMax ==> valueMin <= r <= valueMax
    ensures r == value <==> valueMin <= value <= valueMax
    ensures r == valueMin || r == valueMax || r == value
  {
    if value < valueMin then valueMin
    else if value > valueMax then valueMax
    else value
  }

  /** Distance on the integer line. */
  function Dist(a: int, b: int): nat
  {
    if a <= b then b - a else a - b
  }

  /** On a non-empty range the clamped value is the point of the range closest to the input. */
  lemma ValidateValueIsNearest(value: int, valueMin: int, valueMax: int, y: int)
    requires valueMin <= y <= valueMax
    ensures Dist(ValidateValue(value, valueMin, valueMax), value) <= Dist(y, value)
  {
  }

  /**
   * Clamping twice is clamping once exactly when the range is non-empty; on an
   * empty range (valueMin > valueMax) the result flips between the two bounds.
   */
  lemma ValidateValueIdempotent(value: int, valueMin: int, valueMax: int)
    ensures ValidateValue(ValidateValue(value, valueMin, valueMax), valueMin, valueMax)
            == ValidateValue(value, valueMin, valueMax)
            <==> valueMin <= valueMax
  {
  }

  // ---------------------------------------------------------------------
  // cycle_with_repeat
  // ---------------------------------------------------------------------

  /**
   * Item n (counting from 0) of cycle_with_repeat(items, repeat): every item of
   * itertools.cycle(items) is yielded `repeat` times in a row.
   */
  function CycleWithRepeat<T>(items: seq<T>, repeat: int, n: nat): T
    requires |items| > 0 && repeat >= 1
  {
    items[(n / repeat) % |items|]
  }

  /** a <= b implies a * c <= b * c for c >= 0. */
  lemma MulMonotone(a: int, b: int, c: int)
    requires a <= b && c >= 0
    ensures a * c <= b * c
  {
    assert b * c - a * c == (b - a) * c;
  }

  /** Quotient and remainder are unique: x == q * d + m with 0 <= m < d fixes x / d and x % d. */
  lemma DivModUnique(x: int, d: int, q: int, m: int)
    requires d >= 1 && 0 <= m < d && x == q * d + m
    ensures x / d == q && x % d == m
  {
    var q', m' := x / d, x % d;
    assert x == q' * d + m' && 0 <= m' < d;
    if q' < q {
      MulMonotone(q' + 1, q, d);
      assert false;
    } else if q' > q {
      MulMonotone(q + 1, q', d);
      assert false;
    }
  }

  /** Stepping a position of the cycle by one, as cycle() does. */
  lemma ModNext(a: nat, d: int)
    requires d >= 1
    ensures (a % d + 1) % d == (a + 1) % d
  {
    var q, m := a / d, a % d;
    assert a == q * d + m;
    if m + 1 < d {
      DivModUnique(a + 1, d, q, m + 1);
      DivModUnique(m + 1, d, 0, m + 1);
    } else {
      assert a + 1 == (q + 1) * d;
      DivModUnique(a + 1, d, q + 1, 0);
      DivModUnique(m + 1, d, 1, 0);
    }
  }

  /** (k * repeat + j) / repeat == k for 0 <= j < repeat. */
  lemma DivOfBlock(k: nat, repeat: int, j: nat)
    requires repeat >= 1 && j < repeat
    ensures (k * repeat + j) / repeat == k
  {
    DivModUnique(k * repeat + j, repeat, k, j);
  }

  /**
   * The output is made of runs of exactly `repeat` copies: positions
   * k*repeat .. k*repeat+repeat-1 all hold item k of the plain cycle.
   */
  lemma CycleWithRepeatRuns<T>(items: seq<T>, repeat: int, k: nat, j: nat)
    requires |items| > 0 && repeat >= 1 && j < repeat
    ensures CycleWithRepeat(items, repeat, k * repeat + j) == items[k % |items|]
  {
    DivOfBlock(k, repeat, j);
  }

  /** Consecutive runs hold consecutive items of the cycle, so two neighbouring runs differ when the items do. */
  lemma CycleWithRepeatNextRun<T>(items: seq<T>, repeat: int, k: nat)
    requires |items| > 0 && repeat >= 1
    ensures CycleWithRepeat(items, repeat, (k + 1) * repeat) == items[(k + 1) % |items|]
    ensures CycleWithRepeat(items, repeat, k * repeat + repeat - 1) == items[k % |items|]
  {
    DivOfBlock(k + 1, repeat, 0);
    DivOfBlock(k, repeat, repeat - 1);
  }

  /** With repeat = 1 the generator is the plain itertools.cycle. */
  lemma CycleWithRepeatOne<T>(items: seq<T>, n: nat)
    requires |items| > 0
    ensures CycleWithRepeat(items, 1, n) == items[n % |items|]
  {
  }

  /** The whole output repeats after repeat * |items| items. */
  lemma CycleWithRepeatPeriodic<T>(items: seq<T>, repeat: int, n: nat)
    requires |items| > 0 && repeat >= 1
    ensures CycleWithRepeat(items, repeat, n + repeat * |items|) == CycleWithRepeat(items, repeat, n)
  {
    var L := |items|;
    var k, j := n / repeat, n % repeat;
    assert n + repeat * L == (k + L) * repeat + j by {
      assert n == k * repeat + j;
      assert (k + L) * repeat == k * repeat + L * repeat;
    }
    DivOfBlock(k + L, repeat, j);
    var q, m := k / L, k % L;
    assert k + L == (q + 1) * L + m by {
      assert k == q * L + m;
      assert (q + 1) * L == q * L + L;
    }
    DivModUnique(k + L, L, q + 1, m);
  }

  /**
   * Takes the first `count` items of cycle_with_repeat(items, repeat), running
   * the generator's two nested loops. A cycle over no items ends at once, so
   * nothing is produced then.
   */
  method TakeCycleWithRepeat<T>(items: seq<T>, repeat: int, count: nat) returns (out: seq<T>)
    requires repeat >= 1
    ensures |out| == if |items| == 0 then 0 else count
    ensures forall n :: 0 <= n < |out| ==> out[n] == CycleWithRepeat(items, repeat, n)
  {
    out := [];
    if |items| == 0 {
      return;
    }
    var index := 0;                 // position of `item` in items, as cycle() walks it
    ghost var rounds: nat := 0;     // items of cycle() consumed so far
    while |out| < count
      invariant |out| <= count
      invariant index == rounds % |items|
      invariant |out| == rounds * repeat
      invariant forall n :: 0 <= n < |out| ==> out[n] == CycleWithRepeat(items, repeat, n)
      decreases count - |out|
    {
      var item := items[index];
      ghost var base := |out|;
      var j := 0;
      while j < repeat && |out| < count
        invariant 0 <= j <= repeat
        invariant |out| == base + j
        invariant |out| <= count
        invariant forall n :: 0 <= n < |out| ==> out[n] == CycleWithRepeat(items, repeat, n)
      {
        CycleWithRepeatRuns(items, repeat, rounds, j);
        assert CycleWithRepeat(items, repeat, base + j) == item;
        out := out + [item];
        j := j + 1;
      }
      if |out| == count {
        return;
      }
      assert j == repeat;
      assert (rounds + 1) * repeat == rounds * repeat + repeat;
      ModNext(rounds, |items|);
      index := (index + 1) % |items|;
      rounds := rounds + 1;
    }
  }

  // ---------------------------------------------------------------------
  // asleep
  // ---------------------------------------------------------------------

  /** A running asleep(tics) coroutine: `left` suspensions are still to come. */
  datatype Sleep = Sleep(left: nat)

  /** asleep(tics) before its first resumption: range(tics) has max(tics, 0) iterations. */
  function AsleepStart(tics: int): Sleep
  {
    Sleep(if tics < 0 then 0 else tics)
  }

  /** One send(None): Some(state) when asleep suspends again, None when it finishes. */
  function SleepResume(s: Sleep): Option<Sleep>
  {
    if s.left > 0 then Some(Sleep(s.left - 1)) else None
  }

  /** The sleep state after n resumptions, or None once it has finished. */
  function SleepAfter(s: Sleep, n: nat): Option<Sleep>
    decreases n
  {
    if n == 0 then Some(s)
    else match SleepResume(s)
      case None => None
      case Some(s') => SleepAfter(s', n - 1)
  }

  /** asleep(tics) suspends exactly max(tics, 0) times and finishes on the next resumption. */
  lemma {:induction false} AsleepSuspendsExactly(tics: int, n: nat)
    ensures var total := if tics < 0 then 0 else tics;
      SleepAfter(AsleepStart(tics), n) == if n <= total then Some(Sleep(total - n)) else None
  {
    SleepCountsDown(AsleepStart(tics), n);
  }

  lemma {:induction false} SleepCountsDown(s: Sleep, n: nat)
    ensures SleepAfter(s, n) == if n <= s.left then Some(Sleep(s.left - n)) else None
    decreases n
  {
    if n > 0 && s.left > 0 {
      SleepCountsDown(Sleep(s.left - 1), n - 1);
    }
  }
}
