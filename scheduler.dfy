/**
 * The round-robin loop shared by lesson1/main.py (draw) and
 * lesson1/coroutines_test.py: once per tic, every coroutine in a copy of the
 * list is sent None; one that raises StopIteration is removed from the list;
 * coroutines appended while the tic runs wait for the next tic.
 *
 * A coroutine is a value `Coroutine(id, state)`: `id` is the generator
 * object's identity (list.remove compares by it) and `state` is its suspended
 * frame. A resumption is a step function from a state and the shared world to
 * the outcome (suspended again with a new state, or stopped), the coroutines
 * it appended to the list, and the new world.
 */
module Scheduler {

  datatype Outcome<T> = Suspended(state: T) | Stopped

  /** What one send(None) does: its outcome, the coroutines it appended, the world after it. */
  datatype Resumed<T, W> = Resumed(outcome: Outcome<T>, spawned: seq<T>, world: W)

  datatype Coroutine<T> = Coroutine(id: nat, state: T)

  /** The effect of resuming a list of coroutines in order. */
  datatype Round<T, W> = Round(survivors: seq<Coroutine<T>>, spawned: seq<T>, world: W)

  function Ids<T>(cs: seq<Coroutine<T>>): seq<nat>
  {
    seq(|cs|, i requires 0 <= i < |cs| => cs[i].id)
  }

  predicate Distinct(ids: seq<nat>)
  {
    forall i, j :: 0 <= i < j < |ids| ==> ids[i] != ids[j]
  }

  /** No generator object occurs twice in the list, and `nextId` is fresh. */
  predicate Valid<T>(cs: seq<Coroutine<T>>, nextId: nat)
  {
    Distinct(Ids(cs)) && forall i :: 0 <= i < |cs| ==> cs[i].id < nextId
  }

  lemma DistinctSnoc(a: seq<nat>, x: nat)
    ensures Distinct(a + [x]) <==> Distinct(a) && x !in a
  {
    var b := a + [x];
    if Distinct(b) {
      forall k | 0 <= k < |a|
        ensures a[k] != x
      {
        assert b[k] == a[k] && b[|a|] == x;
      }
      forall i, j | 0 <= i < j < |a|
        ensures a[i] != a[j]
      {
        assert b[i] == a[i] && b[j] == a[j];
      }
    }
  }

  /** In a duplicate-free list, entry i does not occur before position i. */
  lemma DistinctAt(ids: seq<nat>, i: nat)
    requires Distinct(ids) && i < |ids|
    ensures ids[i] !in ids[..i]
  {
    forall k | 0 <= k < i
      ensures ids[..i][k] != ids[i]
    {
      assert ids[..i][k] == ids[k];
    }
  }

  lemma IdsBelow<T>(cs: seq<Coroutine<T>>, nextId: nat)
    requires Valid(cs, nextId)
    ensures forall x :: x in Ids(cs) ==> x < nextId
  {
    forall x | x in Ids(cs)
      ensures x < nextId
    {
      var k :| 0 <= k < |cs| && Ids(cs)[k] == x;
    }
  }

  /**
   * Resuming every coroutine of `snapshot` once, in order, threading the world
   * through: those that suspend again survive with their new state, those that
   * stop are dropped, and everything they append is collected in order.
   */
  function ResumeAll<T, W>(snapshot: seq<Coroutine<T>>, w: W, step: (T, W) -> Resumed<T, W>): Round<T, W>
    decreases |snapshot|
  {
    if snapshot == [] then Round([], [], w)
    else
      var before := ResumeAll(snapshot[..|snapshot| - 1], w, step);
      var c := snapshot[|snapshot| - 1];
      var r := step(c.state, before.world);
      Round(before.survivors + (if r.outcome.Suspended? then [Coroutine(c.id, r.outcome.state)] else []),
            before.spawned + r.spawned,
            r.world)
  }

  /** ResumeAll of a list with one more coroutine at the end. */
  lemma ResumeAllSnoc<T, W>(snapshot: seq<Coroutine<T>>, c: Coroutine<T>, w: W, step: (T, W) -> Resumed<T, W>)
    ensures var before := ResumeAll(snapshot, w, step);
      var r := step(c.state, before.world);
      ResumeAll(snapshot + [c], w, step)
        == Round(before.survivors + (if r.outcome.Suspended? then [Coroutine(c.id, r.outcome.state)] else []),
                 before.spawned + r.spawned, r.world)
  {
    assert (snapshot + [c])[..|snapshot|] == snapshot;
  }

  /** New generator objects, numbered from `base` in the order they were appended. */
  function Label<T>(states: seq<T>, base: nat): seq<Coroutine<T>>
  {
    seq(|states|, k requires 0 <= k < |states| => Coroutine(base + k, states[k]))
  }

  /** list.remove(coroutine): drops the first entry with that identity. */
  function Remove<T>(cs: seq<Coroutine<T>>, id: nat): seq<Coroutine<T>>
  {
    if cs == [] then []
    else if cs[0].id == id then cs[1..]
    else [cs[0]] + Remove(cs[1..], id)
  }

  /** The list entry with that identity now refers to a generator suspended at `state`. */
  function Replace<T>(cs: seq<Coroutine<T>>, id: nat, state: T): seq<Coroutine<T>>
  {
    if cs == [] then []
    else if cs[0].id == id then [Coroutine(id, state)] + cs[1..]
    else [cs[0]] + Replace(cs[1..], id, state)
  }

  /** The list after one send(None): a coroutine that stopped is removed, one that suspended keeps its place with its new state. */
  function Settle<T>(cs: seq<Coroutine<T>>, id: nat, outcome: Outcome<T>): seq<Coroutine<T>>
  {
    if outcome.Stopped? then Remove(cs, id) else Replace(cs, id, outcome.state)
  }

  // ---------------------------------------------------------------------
  // One tic
  // ---------------------------------------------------------------------

  /**
   * One pass of `for coroutine in coroutines.copy(): try: coroutine.send(None)
   * except StopIteration: coroutines.remove(coroutine)`. `resumed` lists the
   * identities sent to, in order.
   */
  method Tic<T, W>(coroutines: seq<Coroutine<T>>, nextId: nat, world: W, step: (T, W) -> Resumed<T, W>)
    returns (live: seq<Coroutine<T>>, nextId': nat, world': W, resumed: seq<nat>)
    requires Valid(coroutines, nextId)
    ensures resumed == Ids(coroutines)
    ensures var round := ResumeAll(coroutines, world, step);
      && live == round.survivors + Label(round.spawned, nextId)
      && world' == round.world
      && nextId' == nextId + |round.spawned|
    ensures Valid(live, nextId')
    ensures forall k :: 0 <= k < |live| ==> (live[k].id in resumed <==> live[k].id < nextId)
  {
    var snapshot := coroutines;
    live, nextId', world', resumed := coroutines, nextId, world, [];
    assert snapshot[..0] == [] && snapshot[0..] == snapshot;
    for i := 0 to |snapshot|
      invariant live == Midway(snapshot, world, step, nextId, i)
      invariant world' == ResumeAll(snapshot[..i], world, step).world
      invariant nextId' == nextId + |ResumeAll(snapshot[..i], world, step).spawned|
      invariant resumed == Ids(snapshot[..i])
    {
      var coroutine := snapshot[i];
      TicStep(snapshot, world, step, nextId, i);
      ResumeAllStep(snapshot, world, step, i);
      IdsSnoc(snapshot, i);
      var result := step(coroutine.state, world');
      world' := result.world;
      // appends made by the coroutine while it ran
      live := live + Label(result.spawned, nextId');
      nextId' := nextId' + |result.spawned|;
      resumed := resumed + [coroutine.id];
      live := Settle(live, coroutine.id, result.outcome);
    }
    TicDone(snapshot, world, step, nextId);
  }

  /** After the whole snapshot has been resumed. */
  lemma TicDone<T, W>(snapshot: seq<Coroutine<T>>, w: W, step: (T, W) -> Resumed<T, W>, nextId: nat)
    requires Valid(snapshot, nextId)
    ensures snapshot[..|snapshot|] == snapshot
    ensures var round := ResumeAll(snapshot, w, step);
      var live := round.survivors + Label(round.spawned, nextId);
      && Midway(snapshot, w, step, nextId, |snapshot|) == live
      && Valid(live, nextId + |round.spawned|)
      && forall k :: 0 <= k < |live| ==> (live[k].id in Ids(snapshot) <==> live[k].id < nextId)
  {
    assert snapshot[..|snapshot|] == snapshot;
    assert snapshot[|snapshot|..] == [];
    ValidAfterTic(snapshot, w, step, nextId);
  }

  /** The list after the first i coroutines of the snapshot have been resumed. */
  ghost function Midway<T, W>(snapshot: seq<Coroutine<T>>, w: W, step: (T, W) -> Resumed<T, W>, nextId: nat, i: nat): seq<Coroutine<T>>
    requires i <= |snapshot|
  {
    var round := ResumeAll(snapshot[..i], w, step);
    round.survivors + snapshot[i..] + Label(round.spawned, nextId)
  }

  /** One iteration of the tic loop keeps the list equal to survivors, pending snapshot entries and new arrivals. */
  lemma TicStep<T, W>(snapshot: seq<Coroutine<T>>, w: W, step: (T, W) -> Resumed<T, W>, nextId: nat, i: nat)
    requires Distinct(Ids(snapshot)) && i < |snapshot|
    ensures var round := ResumeAll(snapshot[..i], w, step);
      var c := snapshot[i];
      var r := step(c.state, round.world);
      var live := Midway(snapshot, w, step, nextId, i) + Label(r.spawned, nextId + |round.spawned|);
      Settle(live, c.id, r.outcome)
        == Midway(snapshot, w, step, nextId, i + 1)
  {
    SurvivorsAreFromSnapshot(snapshot[..i], w, step);
    DistinctPrefix(snapshot, i);
    DistinctAt(Ids(snapshot), i);
    TicStepFresh(snapshot, w, step, nextId, i);
  }

  /** TicStep, once the resumed coroutine is known not to be among the survivors so far. */
  lemma TicStepFresh<T, W>(snapshot: seq<Coroutine<T>>, w: W, step: (T, W) -> Resumed<T, W>, nextId: nat, i: nat)
    requires i < |snapshot| && snapshot[i].id !in Ids(ResumeAll(snapshot[..i], w, step).survivors)
    ensures var round := ResumeAll(snapshot[..i], w, step);
      var c := snapshot[i];
      var r := step(c.state, round.world);
      var live := Midway(snapshot, w, step, nextId, i) + Label(r.spawned, nextId + |round.spawned|);
      Settle(live, c.id, r.outcome)
        == Midway(snapshot, w, step, nextId, i + 1)
  {
    var round := ResumeAll(snapshot[..i], w, step);
    var c := snapshot[i];
    var r := step(c.state, round.world);
    MidwayAt(snapshot, w, step, nextId, i);
    MidwayNext(snapshot, w, step, nextId, i);
    ResumeOne(Midway(snapshot, w, step, nextId, i) + Label(r.spawned, nextId + |round.spawned|),
              Midway(snapshot, w, step, nextId, i + 1),
              round.survivors, c, snapshot[i + 1..], round.spawned, r.spawned, nextId, r.outcome);
  }

  /** Before coroutine i is resumed it sits between the survivors so far and the rest of the snapshot. */
  lemma MidwayAt<T, W>(snapshot: seq<Coroutine<T>>, w: W, step: (T, W) -> Resumed<T, W>, nextId: nat, i: nat)
    requires i < |snapshot|
    ensures var round := ResumeAll(snapshot[..i], w, step);
      Midway(snapshot, w, step, nextId, i)
        == round.survivors + ([snapshot[i]] + snapshot[i + 1..]) + Label(round.spawned, nextId)
  {
    assert snapshot[i..] == [snapshot[i]] + snapshot[i + 1..];
  }

  /** After coroutine i is resumed, it is among the survivors if it suspended, and its arrivals are labelled after the earlier ones. */
  lemma MidwayNext<T, W>(snapshot: seq<Coroutine<T>>, w: W, step: (T, W) -> Resumed<T, W>, nextId: nat, i: nat)
    requires i < |snapshot|
    ensures var round := ResumeAll(snapshot[..i], w, step);
      var c := snapshot[i];
      var r := step(c.state, round.world);
      Midway(snapshot, w, step, nextId, i + 1)
        == round.survivors + (if r.outcome.Suspended? then [Coroutine(c.id, r.outcome.state)] else [])
           + snapshot[i + 1..] + Label(round.spawned + r.spawned, nextId)
  {
    ResumeAllStep(snapshot, w, step, i);
  }

  lemma IdsSnoc<T>(snapshot: seq<Coroutine<T>>, i: nat)
    requires i < |snapshot|
    ensures Ids(snapshot[..i + 1]) == Ids(snapshot[..i]) + [snapshot[i].id]
  {
    assert snapshot[..i + 1] == snapshot[..i] + [snapshot[i]];
  }

  /** Removing or advancing the coroutine just resumed, in a list that holds it once. */
  lemma ResumeOne<T>(live: seq<Coroutine<T>>, after: seq<Coroutine<T>>,
                     survivors: seq<Coroutine<T>>, c: Coroutine<T>, rest: seq<Coroutine<T>>,
                     spawned: seq<T>, more: seq<T>, nextId: nat, outcome: Outcome<T>)
    requires c.id !in Ids(survivors)
    requires live == survivors + ([c] + rest) + Label(spawned, nextId) + Label(more, nextId + |spawned|)
    requires after == survivors + (if outcome.Suspended? then [Coroutine(c.id, outcome.state)] else []) + rest + Label(spawned + more, nextId)
    ensures Settle(live, c.id, outcome) == after
  {
    LabelAppend(spawned, more, nextId);
    var back := rest + Label(spawned + more, nextId);
    Regroup(survivors, [c], rest, Label(spawned, nextId), Label(more, nextId + |spawned|));
    var kept := if outcome.Suspended? then [Coroutine(c.id, outcome.state)] else [];
    Regroup(survivors, kept, rest, Label(spawned + more, nextId), []);
    assert Label(spawned + more, nextId) + [] == Label(spawned + more, nextId);
    if outcome.Stopped? {
      RemoveAt(survivors, c, back);
      assert survivors + kept == survivors;
    } else {
      ReplaceAt(survivors, c, back, outcome.state);
    }
  }

  lemma Regroup<X>(a: seq<X>, b: seq<X>, c: seq<X>, d: seq<X>, e: seq<X>)
    ensures a + (b + c) + d + e == a + b + (c + (d + e))
    ensures a + b + c + (d + e) == a + b + (c + (d + e))
  {
  }

  /** ResumeAll over one more coroutine resumes it with the world left by the others. */
  lemma ResumeAllStep<T, W>(snapshot: seq<Coroutine<T>>, w: W, step: (T, W) -> Resumed<T, W>, i: nat)
    requires i < |snapshot|
    ensures var before := ResumeAll(snapshot[..i], w, step);
      var c := snapshot[i];
      var r := step(c.state, before.world);
      ResumeAll(snapshot[..i + 1], w, step)
        == Round(before.survivors + (if r.outcome.Suspended? then [Coroutine(c.id, r.outcome.state)] else []),
                 before.spawned + r.spawned, r.world)
  {
    assert snapshot[..i + 1][..i] == snapshot[..i];
  }

  lemma DistinctPrefix<T>(snapshot: seq<Coroutine<T>>, i: nat)
    requires i < |snapshot|
    ensures Ids(snapshot[..i]) == Ids(snapshot)[..i] && Ids(snapshot)[i] == snapshot[i].id
  {
  }

  lemma LabelAppend<T>(a: seq<T>, b: seq<T>, base: nat)
    ensures Label(a, base) + Label(b, base + |a|) == Label(a + b, base)
  {
  }

  lemma {:induction false} RemoveAt<T>(front: seq<Coroutine<T>>, c: Coroutine<T>, back: seq<Coroutine<T>>)
    requires c.id !in Ids(front)
    ensures Remove(front + [c] + back, c.id) == front + back
  {
    if front != [] {
      assert (front + [c] + back)[1..] == front[1..] + [c] + back;
      assert Ids(front) == [front[0].id] + Ids(front[1..]);
      RemoveAt(front[1..], c, back);
    } else {
      assert (front + [c] + back)[1..] == back;
    }
  }

  lemma {:induction false} ReplaceAt<T>(front: seq<Coroutine<T>>, c: Coroutine<T>, back: seq<Coroutine<T>>, s: T)
    requires c.id !in Ids(front)
    ensures Replace(front + [c] + back, c.id, s) == front + [Coroutine(c.id, s)] + back
  {
    if front != [] {
      assert (front + [c] + back)[1..] == front[1..] + [c] + back;
      assert Ids(front) == [front[0].id] + Ids(front[1..]);
      ReplaceAt(front[1..], c, back, s);
    } else {
      assert (front + [c] + back)[1..] == back;
    }
  }

  // ---------------------------------------------------------------------
  // Properties of a round
  // ---------------------------------------------------------------------

  /** a is b with some entries deleted (compared from the end). */
  predicate IsSubsequence(a: seq<nat>, b: seq<nat>)
    decreases |b|
  {
    if a == [] then true
    else if b == [] then false
    else if a[|a| - 1] == b[|b| - 1] then IsSubsequence(a[..|a| - 1], b[..|b| - 1])
    else IsSubsequence(a, b[..|b| - 1])
  }

  lemma {:induction false} SubsequenceExtend(a: seq<nat>, b: seq<nat>, x: nat)
    requires IsSubsequence(a, b)
    ensures IsSubsequence(a, b + [x])
    decreases |b|, 1
  {
    assert (b + [x])[..|b|] == b;
    if a != [] && a[|a| - 1] == x {
      SubsequenceDropLast(a, b);
    }
  }

  lemma {:induction false} SubsequenceDropLast(a: seq<nat>, b: seq<nat>)
    requires a != [] && IsSubsequence(a, b)
    ensures IsSubsequence(a[..|a| - 1], b)
    decreases |b|, 0
  {
    var a', b' := a[..|a| - 1], b[..|b| - 1];
    if a[|a| - 1] == b[|b| - 1] {
      SubsequenceExtend(a', b', b[|b| - 1]);
    } else {
      SubsequenceDropLast(a, b');
      SubsequenceExtend(a', b', b[|b| - 1]);
    }
    assert b' + [b[|b| - 1]] == b;
  }

  lemma {:induction false} SubsequenceMembers(a: seq<nat>, b: seq<nat>)
    requires IsSubsequence(a, b)
    ensures forall x :: x in a ==> x in b
    ensures Distinct(b) ==> Distinct(a)
    decreases |b|
  {
    if a != [] {
      var b' := b[..|b| - 1];
      if a[|a| - 1] == b[|b| - 1] {
        var a' := a[..|a| - 1];
        SubsequenceMembers(a', b');
        assert a == a' + [a[|a| - 1]];
        assert b == b' + [b[|b| - 1]];
        DistinctSnoc(a', a[|a| - 1]);
        DistinctSnoc(b', b[|b| - 1]);
      } else {
        SubsequenceMembers(a, b');
        assert b == b' + [b[|b| - 1]];
        DistinctSnoc(b', b[|b| - 1]);
      }
    }
  }

  /** The coroutines left after a round keep the relative order they had in the snapshot. */
  lemma {:induction false} SurvivorsKeepOrder<T, W>(snapshot: seq<Coroutine<T>>, w: W, step: (T, W) -> Resumed<T, W>)
    ensures IsSubsequence(Ids(ResumeAll(snapshot, w, step).survivors), Ids(snapshot))
    decreases |snapshot|
  {
    if snapshot != [] {
      var init := snapshot[..|snapshot| - 1];
      var c := snapshot[|snapshot| - 1];
      var before := ResumeAll(init, w, step);
      var r := step(c.state, before.world);
      SurvivorsKeepOrder(init, w, step);
      assert Ids(snapshot) == Ids(init) + [c.id];
      if r.outcome.Suspended? {
        var surv := before.survivors + [Coroutine(c.id, r.outcome.state)];
        assert Ids(surv) == Ids(before.survivors) + [c.id];
        assert Ids(surv)[..|Ids(surv)| - 1] == Ids(before.survivors);
      } else {
        assert before.survivors + [] == before.survivors;
        SubsequenceExtend(Ids(before.survivors), Ids(init), c.id);
      }
    }
  }

  /** Every survivor is a coroutine of the snapshot; with a duplicate-free snapshot the survivors are duplicate-free. */
  lemma SurvivorsAreFromSnapshot<T, W>(snapshot: seq<Coroutine<T>>, w: W, step: (T, W) -> Resumed<T, W>)
    ensures var ids := Ids(ResumeAll(snapshot, w, step).survivors);
      (forall x :: x in ids ==> x in Ids(snapshot)) && (Distinct(Ids(snapshot)) ==> Distinct(ids))
  {
    SurvivorsKeepOrder(snapshot, w, step);
    SubsequenceMembers(Ids(ResumeAll(snapshot, w, step).survivors), Ids(snapshot));
  }

  lemma ValidAfterTic<T, W>(snapshot: seq<Coroutine<T>>, w: W, step: (T, W) -> Resumed<T, W>, nextId: nat)
    requires Valid(snapshot, nextId)
    ensures var round := ResumeAll(snapshot, w, step);
      var live := round.survivors + Label(round.spawned, nextId);
      && Valid(live, nextId + |round.spawned|)
      && forall k :: 0 <= k < |live| ==> (live[k].id in Ids(snapshot) <==> live[k].id < nextId)
  {
    var round := ResumeAll(snapshot, w, step);
    SurvivorsAreFromSnapshot(snapshot, w, step);
    var live := round.survivors + Label(round.spawned, nextId);
    var ids := Ids(live);
    var n := |round.survivors|;
    IdsBelow(snapshot, nextId);
    forall k | 0 <= k < n
      ensures ids[k] < nextId
    {
      assert ids[k] == Ids(round.survivors)[k];
      assert ids[k] in Ids(snapshot);
    }
    forall k | n <= k < |ids|
      ensures nextId <= ids[k] < nextId + |round.spawned|
    {
      assert live[k] == Label(round.spawned, nextId)[k - n];
    }
    forall k | 0 <= k < |live|
      ensures live[k].id < nextId + |round.spawned|
      ensures live[k].id in Ids(snapshot) <==> live[k].id < nextId
    {
      assert live[k].id == ids[k];
      if k < n {
        assert ids[k] == Ids(round.survivors)[k];
      }
    }
    forall i, j | 0 <= i < j < |ids|
      ensures ids[i] != ids[j]
    {
      if j < n {
        assert ids[i] == Ids(round.survivors)[i] && ids[j] == Ids(round.survivors)[j];
      }
    }
  }

  /**
   * A coroutine of the snapshot is still in the list after the round exactly
   * when its own resumption suspended; it then holds the state it suspended in.
   */
  lemma {:induction false} RemovedExactlyWhenStopped<T, W>(snapshot: seq<Coroutine<T>>, w: W,
                                                            step: (T, W) -> Resumed<T, W>, j: nat)
    requires Distinct(Ids(snapshot)) && j < |snapshot|
    ensures var r := step(snapshot[j].state, ResumeAll(snapshot[..j], w, step).world);
      var survivors := ResumeAll(snapshot, w, step).survivors;
      && (snapshot[j].id in Ids(survivors) <==> r.outcome.Suspended?)
      && (r.outcome.Suspended? ==> Coroutine(snapshot[j].id, r.outcome.state) in survivors)
    decreases |snapshot|
  {
    var n := |snapshot|;
    var init := snapshot[..n - 1];
    var c := snapshot[n - 1];
    var before := ResumeAll(init, w, step);
    var r := step(c.state, before.world);
    var survivors := ResumeAll(snapshot, w, step).survivors;
    assert Ids(snapshot) == Ids(init) + [c.id];
    DistinctSnoc(Ids(init), c.id);
    SurvivorsAreFromSnapshot(init, w, step);
    if j == n - 1 {
      assert snapshot[..j] == init;
      assert c.id !in Ids(init);
      assert c.id !in Ids(before.survivors);
      if r.outcome.Suspended? {
        assert survivors == before.survivors + [Coroutine(c.id, r.outcome.state)];
        assert Ids(survivors)[|before.survivors|] == c.id;
      } else {
        assert survivors == before.survivors;
      }
    } else {
      assert init[..j] == snapshot[..j] && init[j] == snapshot[j];
      RemovedExactlyWhenStopped(init, w, step, j);
      assert Ids(snapshot)[j] == snapshot[j].id;
      assert snapshot[j].id != c.id;
      if r.outcome.Suspended? {
        assert survivors == before.survivors + [Coroutine(c.id, r.outcome.state)];
        assert Ids(survivors) == Ids(before.survivors) + [c.id];
      } else {
        assert survivors == before.survivors;
      }
    }
  }

  // ---------------------------------------------------------------------
  // One coroutine driven alone
  // ---------------------------------------------------------------------

  /** The outcome and world after sending None to one coroutine n times (it stays stopped once stopped). */
  function Drive<T, W>(t: T, w: W, step: (T, W) -> Resumed<T, W>, n: nat): (Outcome<T>, W)
    decreases n
  {
    if n == 0 then (Suspended(t), w)
    else
      var r := step(t, w);
      match r.outcome
      case Stopped => (Stopped, r.world)
      case Suspended(t') => Drive(t', r.world, step, n - 1)
  }

  /** Driving a + b times is driving a times, then b more from where that left off. */
  lemma {:induction false} DriveSplit<T, W>(t: T, w: W, step: (T, W) -> Resumed<T, W>, a: nat, b: nat)
    ensures var first := Drive(t, w, step, a);
      Drive(t, w, step, a + b) == if first.0.Suspended? then Drive(first.0.state, first.1, step, b) else first
    decreases a
  {
    if a > 0 {
      var r := step(t, w);
      if r.outcome.Suspended? {
        DriveSplit(r.outcome.state, r.world, step, a - 1, b);
      }
    }
  }
}
