/**
 * draw(canvas) from lesson1/main.py: STARS_NUM blinking stars, the garbage
 * filler and the spaceship are appended to one coroutine list, which the
 * tic loop then drives. Every coroutine kind of the module is one case of
 * `Task`; shots and garbage are appended while the loop runs.
 */
module Game {
  import opened Scheduler
  import opened Surface
  import opened Controls
  import Fire
  import Garbage
  import Spaceship
  import Blink
  import Orbit

  const STARS: string := "+*.:"
  const STARS_NUM: int := 100

  datatype Task =
    | Blinking(star: Blink.Star)
    | Filling(orbit: Orbit.Orbit)
    | Animating(ship: Spaceship.Ship)
    | Firing(shot: Fire.Shot)
    | Falling(debris: Garbage.Debris)

  /** The parts of the program this model does not see: phisics.update_speed and the random generator. */
  datatype Env = Env(updateSpeed: SpeedUpdate, pick: nat -> Orbit.Choice)

  /** One send(None) to any coroutine of the list. */
  function GameStep(env: Env, t: Task, w: World): Resumed<Task, World>
  {
    match t
    case Blinking(star) =>
      var r := Blink.BlinkStep(star, w);
      Resumed(if r.outcome.Suspended? then Suspended(Blinking(r.outcome.state)) else Stopped, [], r.world)
    case Filling(orbit) =>
      var r := Orbit.OrbitStep(orbit, env.pick);
      Resumed(Suspended(Filling(r.0)), seq(|r.1|, i requires 0 <= i < |r.1| => Falling(r.1[i])), w)
    case Animating(ship) =>
      var r := Spaceship.ShipStep(env.updateSpeed, ship, w);
      Resumed(Suspended(Animating(r.outcome.state)),
              seq(|r.fired|, i requires 0 <= i < |r.fired| => Firing(r.fired[i])), r.world)
    case Firing(shot) =>
      var r := Fire.FireStep(shot, w);
      Resumed(if r.outcome.Suspended? then Suspended(Firing(r.outcome.state)) else Stopped, [], r.world)
    case Falling(debris) =>
      var r := Garbage.GarbageStep(debris, w);
      Resumed(if r.outcome.Suspended? then Suspended(Falling(r.outcome.state)) else Stopped, [], r.world)
  }

  function Step(env: Env): (Task, World) -> Resumed<Task, World>
  {
    (t, w) => GameStep(env, t, w)
  }

  /** The coroutines whose generators loop forever: the stars, the garbage filler and the spaceship. */
  predicate Persistent(t: Task)
  {
    t.Blinking? || t.Filling? || t.Animating?
  }

  /** A persistent coroutine never raises StopIteration and stays persistent. */
  lemma PersistentNeverStops(env: Env, t: Task, w: World)
    requires Persistent(t)
    ensures var r := GameStep(env, t, w);
      r.outcome.Suspended? && Persistent(r.outcome.state)
  {
    if t.Blinking? {
      assert Blink.BlinkStep(t.star, w).outcome.Suspended?;
    }
  }

  /** Only the spaceship and the garbage filler append, only shots and garbage are appended. */
  lemma OnlyShotsAndGarbageAppended(env: Env, t: Task, w: World)
    ensures forall k :: 0 <= k < |GameStep(env, t, w).spawned| ==>
      (GameStep(env, t, w).spawned[k].Firing? && t.Animating?) || (GameStep(env, t, w).spawned[k].Falling? && t.Filling?)
  {
    match t
    case Filling(orbit) =>
      var r := Orbit.OrbitStep(orbit, env.pick);
      assert GameStep(env, t, w).spawned == seq(|r.1|, i requires 0 <= i < |r.1| => Falling(r.1[i]));
    case Animating(ship) =>
      var r := Spaceship.ShipStep(env.updateSpeed, ship, w);
      assert GameStep(env, t, w).spawned == seq(|r.fired|, i requires 0 <= i < |r.fired| => Firing(r.fired[i]));
    case Blinking(_) =>
      assert GameStep(env, t, w).spawned == [];
    case Firing(_) =>
      assert GameStep(env, t, w).spawned == [];
    case Falling(_) =>
      assert GameStep(env, t, w).spawned == [];
  }

  /** The list holds a persistent coroutine with this identity. */
  predicate HasPersistent(cs: seq<Coroutine<Task>>, id: nat)
  {
    exists k :: 0 <= k < |cs| && cs[k].id == id && Persistent(cs[k].state)
  }

  /** Every identity below `count` belongs to a persistent coroutine of the list. */
  predicate Keeps(cs: seq<Coroutine<Task>>, count: nat)
  {
    forall id :: 0 <= id < count ==> HasPersistent(cs, id)
  }

  /** What PersistentNeverStops says about GameStep, for any step function. */
  ghost predicate KeepsPersistent(step: (Task, World) -> Resumed<Task, World>)
  {
    forall t, w :: Persistent(t) ==> step(t, w).outcome.Suspended? && Persistent(step(t, w).outcome.state)
  }

  lemma GameKeepsPersistent(env: Env)
    ensures KeepsPersistent(Step(env))
  {
    forall t, w | Persistent(t)
      ensures Step(env)(t, w).outcome.Suspended? && Persistent(Step(env)(t, w).outcome.state)
    {
      PersistentNeverStops(env, t, w);
    }
  }

  /** A tic removes no persistent coroutine. */
  lemma KeptByTic(step: (Task, World) -> Resumed<Task, World>, cs: seq<Coroutine<Task>>, nextId: nat, w: World, count: nat)
    requires KeepsPersistent(step) && Valid(cs, nextId) && Keeps(cs, count)
    ensures var round := ResumeAll(cs, w, step);
      Keeps(round.survivors + Label(round.spawned, nextId), count)
  {
    var round := ResumeAll(cs, w, step);
    var live := round.survivors + Label(round.spawned, nextId);
    forall id | 0 <= id < count
      ensures HasPersistent(live, id)
    {
      assert HasPersistent(cs, id);
      var j :| 0 <= j < |cs| && cs[j].id == id && Persistent(cs[j].state);
      RemovedExactlyWhenStopped(cs, w, step, j);
      var r := step(cs[j].state, ResumeAll(cs[..j], w, step).world);
      var c := Coroutine(id, r.outcome.state);
      assert c in round.survivors;
      var k :| 0 <= k < |round.survivors| && round.survivors[k] == c;
      assert live[k] == c;
    }
  }

  /** The tic loop over the given key presses: before tic t the keys typed[t] reach getch's queue. */
  function Play(step: (Task, World) -> Resumed<Task, World>, cs: seq<Coroutine<Task>>, nextId: nat, w: World, typed: seq<seq<int>>)
    : (seq<Coroutine<Task>>, nat, World)
    decreases |typed|
  {
    if typed == [] then (cs, nextId, w)
    else
      var round := ResumeAll(cs, w.(keys := w.keys + typed[0]), step);
      Play(step, round.survivors + Label(round.spawned, nextId), nextId + |round.spawned|, round.world, typed[1..])
  }

  /** What randint and choice drew for one star: its cell, its symbol and its initial sleep. */
  datatype StarSeed = StarSeed(row: int, column: int, symbol: char, offset: int)

  /** The ranges of the random draws for the stars. */
  predicate Seeded(seeds: seq<StarSeed>, screen: World)
  {
    && |seeds| == STARS_NUM
    && forall i :: 0 <= i < |seeds| ==>
         && BORDERS <= seeds[i].row <= screen.rows - 1 - BORDERS
         && BORDERS <= seeds[i].column <= screen.columns - 1 - BORDERS
         && seeds[i].symbol in STARS
         && 0 <= seeds[i].offset <= 25
  }

  /** The list draw() builds before its loop: the stars, then the garbage filler, then the spaceship. */
  function Initial(seeds: seq<StarSeed>, frames: Spaceship.ShipFrames, screen: World): seq<Coroutine<Task>>
  {
    seq(|seeds|, i requires 0 <= i < |seeds| =>
          Coroutine(i, Blinking(Blink.Twinkle(seeds[i].row, seeds[i].column, seeds[i].symbol, seeds[i].offset))))
      + [Coroutine(|seeds|, Filling(Orbit.Fill())),
         Coroutine(|seeds| + 1, Animating(Spaceship.Animate(frames, screen.rows / 2, screen.columns / 2)))]
  }

  /**
   * draw(canvas) for |typed| tics (the source loops forever). The list and
   * the window evolve as Play says, no star, filler or spaceship is ever
   * removed, and the list never holds one generator twice.
   */
  method Draw(env: Env, screen: World, seeds: seq<StarSeed>, frames: Spaceship.ShipFrames, typed: seq<seq<int>>)
    returns (coroutines: seq<Coroutine<Task>>, nextId: nat, world: World)
    requires Seeded(seeds, screen)
    ensures (coroutines, nextId, world) == Play(Step(env), Initial(seeds, frames, screen), |seeds| + 2, screen, typed)
    ensures Valid(coroutines, nextId) && Keeps(coroutines, |seeds| + 2)
  {
    coroutines := Populate(seeds, frames, screen);
    InitialValid(seeds, frames, screen);
    GameKeepsPersistent(env);
    nextId := |seeds| + 2;
    coroutines, nextId, world := Run(Step(env), coroutines, nextId, screen, typed, |seeds| + 2);
  }

  /** The appends before draw()'s loop. */
  method Populate(seeds: seq<StarSeed>, frames: Spaceship.ShipFrames, screen: World) returns (coroutines: seq<Coroutine<Task>>)
    ensures coroutines == Initial(seeds, frames, screen)
  {
    coroutines := [];
    for i := 0 to |seeds|
      invariant |coroutines| == i
      invariant forall k :: 0 <= k < i ==> coroutines[k] == Initial(seeds, frames, screen)[k]
    {
      var seed := seeds[i];
      coroutines := coroutines + [Coroutine(i, Blinking(Blink.Twinkle(seed.row, seed.column, seed.symbol, seed.offset)))];
    }
    coroutines := coroutines + [Coroutine(|seeds|, Filling(Orbit.Fill()))];
    coroutines := coroutines + [Coroutine(|seeds| + 1, Animating(Spaceship.Animate(frames, screen.rows / 2, screen.columns / 2)))];
  }

  /** draw()'s `while True` loop, run for |typed| tics. */
  method Run(step: (Task, World) -> Resumed<Task, World>, cs: seq<Coroutine<Task>>, firstId: nat, screen: World, typed: seq<seq<int>>, count: nat)
    returns (coroutines: seq<Coroutine<Task>>, nextId: nat, world: World)
    requires KeepsPersistent(step) && Valid(cs, firstId) && Keeps(cs, count)
    ensures (coroutines, nextId, world) == Play(step, cs, firstId, screen, typed)
    ensures Valid(coroutines, nextId) && Keeps(coroutines, count)
  {
    coroutines, nextId, world := cs, firstId, screen;
    assert typed[0..] == typed;
    for t := 0 to |typed|
      invariant Play(step, coroutines, nextId, world, typed[t..]) == Play(step, cs, firstId, screen, typed)
      invariant Valid(coroutines, nextId) && Keeps(coroutines, count)
    {
      PlayStep(step, coroutines, nextId, world, typed, t);
      world := world.(keys := world.keys + typed[t]);
      KeptByTic(step, coroutines, nextId, world, count);
      var resumed;
      coroutines, nextId, world, resumed := Tic(coroutines, nextId, world, step);
    }
  }

  lemma PlayStep(step: (Task, World) -> Resumed<Task, World>, cs: seq<Coroutine<Task>>, nextId: nat, w: World, typed: seq<seq<int>>, t: nat)
    requires t < |typed|
    ensures var w' := w.(keys := w.keys + typed[t]);
      var round := ResumeAll(cs, w', step);
      Play(step, cs, nextId, w, typed[t..])
        == Play(step, round.survivors + Label(round.spawned, nextId), nextId + |round.spawned|, round.world, typed[t + 1..])
  {
    assert typed[t..][0] == typed[t] && typed[t..][1..] == typed[t + 1..];
  }

  lemma InitialValid(seeds: seq<StarSeed>, frames: Spaceship.ShipFrames, screen: World)
    ensures Valid(Initial(seeds, frames, screen), |seeds| + 2) && Keeps(Initial(seeds, frames, screen), |seeds| + 2)
  {
    var cs := Initial(seeds, frames, screen);
    assert forall k :: 0 <= k < |cs| ==> cs[k].id == k;
    forall id | 0 <= id < |seeds| + 2
      ensures HasPersistent(cs, id)
    {
      assert cs[id].id == id && Persistent(cs[id].state);
    }
  }
}
