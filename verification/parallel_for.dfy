/**
 * A parallel loop: threads with private, reused buffers claim iterations and advance them one
 * small step at a time, in any interleaving. Iteration j alone touches column j.
 */
module ParallelFor {
  import opened Wrappers

  /** `start` prepares a (stale) buffer for an iteration; `step` returns None when it is finished. */
  datatype Loop<!B, !C> = Loop(start: (nat, B) -> B, step: (nat, B, C) -> Option<(B, C)>)

  datatype Thread<B> = Idle(buffer: B) | Busy(j: nat, buffer: B)

  datatype Machine<B, C> = Machine(threads: seq<Thread<B>>, columns: seq<C>,
                                   claimed: set<nat>, finished: set<nat>)

  /** The scheduler's choices: hand an iteration to a thread, or let a thread take a step. */
  datatype Event = Claim(t: nat, j: nat) | Advance(t: nat)

  function Apply<B, C>(loop: Loop<B, C>, m: Machine<B, C>, e: Event): (m': Machine<B, C>)
    ensures |m'.threads| == |m.threads| && |m'.columns| == |m.columns|
  {
    if e.t >= |m.threads| then m
    else match e
      case Claim(t, j) =>
        if m.threads[t].Idle? && j < |m.columns| && j !in m.claimed then
          m.(threads := m.threads[t := Busy(j, loop.start(j, m.threads[t].buffer))],
             claimed := m.claimed + {j})
        else m
      case Advance(t) =>
        if m.threads[t].Busy? && m.threads[t].j < |m.columns| then
          var j := m.threads[t].j;
          match loop.step(j, m.threads[t].buffer, m.columns[j])
          case None =>
            m.(threads := m.threads[t := Idle(m.threads[t].buffer)], finished := m.finished + {j})
          case Some((b, c)) =>
            m.(threads := m.threads[t := Busy(j, b)], columns := m.columns[j := c])
        else m
  }

  function Run<B, C>(loop: Loop<B, C>, m: Machine<B, C>, events: seq<Event>): Machine<B, C> {
    if events == [] then m
    else Apply(loop, Run(loop, m, events[..|events| - 1]), events[|events| - 1])
  }

  /** Iteration j on its own: its buffer and column after k steps, if it lasts that long. */
  function Alone<B, C>(loop: Loop<B, C>, j: nat, b: B, c: C, k: nat): Option<(B, C)> {
    if k == 0 then Some((b, c))
    else match Alone(loop, j, b, c, k - 1)
      case None => None
      case Some((b', c')) => loop.step(j, b', c')
  }

  /** An iteration that finishes on its own leaves `target[j]`, whatever its buffer held before. */
  ghost predicate Oblivious<B(!new), C(!new)>(loop: Loop<B, C>, initial: seq<C>, target: seq<C>) {
    && |initial| == |target|
    && forall j, b, k, s {:trigger Alone(loop, j, loop.start(j, b), initial[j], k), loop.step(j, s.0, s.1)} ::
         (0 <= j < |initial| && 0 <= k && Alone(loop, j, loop.start(j, b), initial[j], k) == Some(s)
          && loop.step(j, s.0, s.1).None?)
         ==> s.1 == target[j]
  }

  ghost predicate OnItsWay<B(!new), C>(loop: Loop<B, C>, j: nat, c0: C, b: B, c: C) {
    exists b0, k: nat :: Alone(loop, j, loop.start(j, b0), c0, k) == Some((b, c))
  }

  ghost predicate Invariant<B(!new), C(!new)>(loop: Loop<B, C>, initial: seq<C>, target: seq<C>, m: Machine<B, C>) {
    && |m.columns| == |initial| == |target|
    && m.finished <= m.claimed
    && (forall j :: 0 <= j < |initial| && j !in m.claimed ==> m.columns[j] == initial[j])
    && (forall j :: 0 <= j < |initial| && j in m.finished ==> m.columns[j] == target[j])
    && (forall t :: 0 <= t < |m.threads| && m.threads[t].Busy? ==>
          var j := m.threads[t].j;
          && j < |initial| && j in m.claimed && j !in m.finished
          && OnItsWay(loop, j, initial[j], m.threads[t].buffer, m.columns[j]))
    && (forall t, u :: 0 <= t < u < |m.threads| && m.threads[t].Busy? && m.threads[u].Busy? ==>
          m.threads[t].j != m.threads[u].j)
  }

  lemma ClaimKeeps<B(!new), C(!new)>(loop: Loop<B, C>, initial: seq<C>, target: seq<C>, m: Machine<B, C>, t: nat,
      j: nat)
    requires Invariant(loop, initial, target, m)
    ensures Invariant(loop, initial, target, Apply(loop, m, Claim(t, j)))
  {
    if t < |m.threads| && m.threads[t].Idle? && j < |m.columns| && j !in m.claimed {
      var b0 := m.threads[t].buffer;
      assert Alone(loop, j, loop.start(j, b0), initial[j], 0) == Some((loop.start(j, b0), initial[j]));
      assert OnItsWay(loop, j, initial[j], loop.start(j, b0), initial[j]);
    }
  }

  lemma AdvanceKeeps<B(!new), C(!new)>(loop: Loop<B, C>, initial: seq<C>, target: seq<C>, m: Machine<B, C>, t: nat)
    requires Invariant(loop, initial, target, m) && Oblivious(loop, initial, target)
    ensures Invariant(loop, initial, target, Apply(loop, m, Advance(t)))
  {
    if t < |m.threads| && m.threads[t].Busy? {
      var j, b, c := m.threads[t].j, m.threads[t].buffer, m.columns[m.threads[t].j];
      var b0, k: nat :| Alone(loop, j, loop.start(j, b0), initial[j], k) == Some((b, c));
      match loop.step(j, b, c)
      case None =>
        assert loop.step(j, (b, c).0, (b, c).1).None?;
      case Some(s) =>
        assert Alone(loop, j, loop.start(j, b0), initial[j], k + 1) == Some((s.0, s.1));
        assert OnItsWay(loop, j, initial[j], s.0, s.1);
    }
  }

  /**
   * Schedule independence: after any sequence of events, every finished column is the one that the
   * iteration computes on its own.
   */
  lemma {:induction false} AnySchedule<B(!new), C(!new)>(
    loop: Loop<B, C>, initial: seq<C>, target: seq<C>, threads: seq<Thread<B>>, events: seq<Event>)
    requires Oblivious(loop, initial, target)
    requires forall t :: 0 <= t < |threads| ==> threads[t].Idle?
    ensures Invariant(loop, initial, target, Run(loop, Machine(threads, initial, {}, {}), events))
  {
    if events != [] {
      var last := |events| - 1;
      AnySchedule(loop, initial, target, threads, events[..last]);
      var m := Run(loop, Machine(threads, initial, {}, {}), events[..last]);
      match events[last]
      case Claim(t, j) => ClaimKeeps(loop, initial, target, m, t, j);
      case Advance(t) => AdvanceKeeps(loop, initial, target, m, t);
    }
  }

  /** Any two complete schedules, on any two sets of threads, produce the same columns. */
  lemma SchedulesAgree<B(!new), C(!new)>(
    loop: Loop<B, C>, initial: seq<C>, target: seq<C>,
    threads: seq<Thread<B>>, events: seq<Event>, threads': seq<Thread<B>>, events': seq<Event>)
    requires Oblivious(loop, initial, target)
    requires forall t :: 0 <= t < |threads| ==> threads[t].Idle?
    requires forall t :: 0 <= t < |threads'| ==> threads'[t].Idle?
    ensures var m, m' := Run(loop, Machine(threads, initial, {}, {}), events),
                         Run(loop, Machine(threads', initial, {}, {}), events');
      (forall j :: 0 <= j < |initial| ==> j in m.finished && j in m'.finished)
      ==> m.columns == m'.columns == target
  {
    AnySchedule(loop, initial, target, threads, events);
    AnySchedule(loop, initial, target, threads', events');
  }
}
