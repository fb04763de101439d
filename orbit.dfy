/**
 * fill_orbit_with_garbage(coroutines, canvas, garbage_frames, max_column)
 * from lesson1/main.py as a step machine: it waits NEW_GARBAGE_TICS_TIMEOUT
 * tics, appends a new fly_garbage coroutine to the list, and repeats forever.
 * The random column, frame and speed of the n-th launch come from a parameter.
 */
module Orbit {
  import opened Utils
  import Garbage

  /** Tics between two launches. */
  const NEW_GARBAGE_TICS_TIMEOUT: int := 10

  /** What randint, choice and uniform drew for one launch. */
  datatype Choice = Choice(column: int, frame: string, speed: int)

  /** `left` awaits remain in the current countdown; `launched` pieces have been appended so far. */
  datatype Orbit = Orbit(left: nat, launched: nat)

  /** fill_orbit_with_garbage(...), not yet started: a whole countdown is ahead. */
  function Fill(): Orbit
  {
    Orbit(NEW_GARBAGE_TICS_TIMEOUT, 0)
  }

  /** One send(None): the next await of the countdown, or the launch followed by the first await of a new countdown. */
  function OrbitStep(o: Orbit, pick: nat -> Choice): (Orbit, seq<Garbage.Debris>)
  {
    if o.left > 0 then (o.(left := o.left - 1), [])
    else
      var c := pick(o.launched);
      (Orbit(NEW_GARBAGE_TICS_TIMEOUT - 1, o.launched + 1), [Garbage.Launch(c.column, c.frame, c.speed)])
  }

  /** The state after m resumptions, in closed form. */
  function OrbitAfter(m: nat): Orbit
  {
    if m == 0 then Fill()
    else Orbit(NEW_GARBAGE_TICS_TIMEOUT - 1 - (m - 1) % NEW_GARBAGE_TICS_TIMEOUT, (m - 1) / NEW_GARBAGE_TICS_TIMEOUT)
  }

  /**
   * Resumption m + 1 (counted from 1) appends a piece of garbage exactly when
   * m is a positive multiple of 10, that is at resumptions 11, 21, 31, ...;
   * the k-th piece (from 0) is built from pick(k), and the state moves on to
   * the closed form for m + 1.
   */
  lemma OrbitStepAt(m: nat, pick: nat -> Choice)
    ensures var r := OrbitStep(OrbitAfter(m), pick);
      && r.0 == OrbitAfter(m + 1)
      && (|r.1| > 0 <==> m > 0 && m % NEW_GARBAGE_TICS_TIMEOUT == 0)
      && |r.1| <= 1
      && (|r.1| == 1 ==>
            var k := m / NEW_GARBAGE_TICS_TIMEOUT - 1;
            r.1[0] == Garbage.Launch(pick(k).column, pick(k).frame, pick(k).speed))
  {
    if m > 0 {
      var q, rest := (m - 1) / NEW_GARBAGE_TICS_TIMEOUT, (m - 1) % NEW_GARBAGE_TICS_TIMEOUT;
      if rest < NEW_GARBAGE_TICS_TIMEOUT - 1 {
        DivModUnique(m, NEW_GARBAGE_TICS_TIMEOUT, q, rest + 1);
      } else {
        DivModUnique(m, NEW_GARBAGE_TICS_TIMEOUT, q + 1, 0);
      }
    }
  }

  /** The state after m resumptions and the garbage appended by them, in order. */
  function RunOrbit(m: nat, pick: nat -> Choice): (Orbit, seq<Garbage.Debris>)
  {
    if m == 0 then (Fill(), [])
    else
      var before := RunOrbit(m - 1, pick);
      var r := OrbitStep(before.0, pick);
      (r.0, before.1 + r.1)
  }

  function Pieces(k: nat, pick: nat -> Choice): seq<Garbage.Debris>
  {
    seq(k, i requires 0 <= i < k => Garbage.Launch(pick(i).column, pick(i).frame, pick(i).speed))
  }

  /** The first m resumptions append pieces 0, 1, ..., (m - 1) / 10 - 1 of the random stream, in order. */
  lemma {:induction false} OrbitLaunches(m: nat, pick: nat -> Choice)
    ensures RunOrbit(m, pick) == (OrbitAfter(m), Pieces(OrbitAfter(m).launched, pick))
    ensures OrbitAfter(m).launched == if m == 0 then 0 else (m - 1) / NEW_GARBAGE_TICS_TIMEOUT
  {
    if m > 0 {
      OrbitLaunches(m - 1, pick);
      OrbitStepAt(m - 1, pick);
      OrbitStepAppends(m, pick, OrbitAfter(m - 1));
    } else {
      assert |Pieces(0, pick)| == 0;
    }
  }

  /** One more resumption keeps the garbage list equal to the pieces launched so far. */
  lemma OrbitStepAppends(m: nat, pick: nat -> Choice, o: Orbit)
    requires m > 0 && RunOrbit(m - 1, pick) == (o, Pieces(o.launched, pick))
    ensures RunOrbit(m, pick) == (OrbitStep(o, pick).0, Pieces(OrbitStep(o, pick).0.launched, pick))
  {
    var k := o.launched;
    var r := OrbitStep(o, pick);
    RunOrbitUnfold(m, pick);
    if o.left == 0 {
      PiecesSnoc(k, pick);
    } else {
      assert Pieces(k, pick) + [] == Pieces(k, pick);
    }
  }

  lemma RunOrbitUnfold(m: nat, pick: nat -> Choice)
    requires m > 0
    ensures var before := RunOrbit(m - 1, pick);
      RunOrbit(m, pick) == (OrbitStep(before.0, pick).0, before.1 + OrbitStep(before.0, pick).1)
  {
  }

  lemma PiecesSnoc(k: nat, pick: nat -> Choice)
    ensures Pieces(k, pick) + [Garbage.Launch(pick(k).column, pick(k).frame, pick(k).speed)] == Pieces(k + 1, pick)
  {
    assert forall i :: 0 <= i < k ==> Pieces(k + 1, pick)[i] == Pieces(k, pick)[i];
  }
}
