/** The queue executor's loop as events of the machine it shares with wakers and interrupts. */
module ExecutorEvents {
  import opened Prelude
  import opened Executors
  import opened ExecutorLoops
  import W = Wakeups

  /** The machine holds the executor's data. */
  predicate Holds(s: W.State, e: Queued) {
    s.tasks == e.tasks && s.queue == e.queue && s.cache == e.cache
  }

  function Wakes(ids: seq<nat>): (es: seq<W.Event>) {
    seq(|ids|, i requires 0 <= i < |ids| => W.WakeByTask(ids[i]))
  }

  /** The events of one turn on a queue that is not empty. */
  function TurnEvents(g: Behaviour, e: Queued): (es: seq<W.Event>)
    requires e.queue != []
  {
    [W.PopTask] +
    if e.queue[0] !in e.tasks then []
    else
      var o := g(e.trace, e.queue[0]);
      Wakes(o.wakes) + [if o.ready then W.Finish else W.Yield]
  }

  /** Wakers used during a poll push their ids in order, as long as there is room. */
  lemma {:induction false} WakesPush(kb: nat, s: W.State, ids: seq<nat>)
    requires s.pc.Polling? && s.pc.at == W.Body && |s.queue| <= MAX_TASKS && forall x :: x in ids ==> x in s.wakers
    ensures W.RunEvents(kb, s, Wakes(ids)) == if Overfull(s.queue, ids) then None else Some(s.(queue := s.queue + ids))
    decreases |ids|
  {
    if ids == [] {
      assert s.queue + ids == s.queue;
    } else {
      var n := |ids| - 1;
      assert Wakes(ids)[..n] == Wakes(ids[..n]) && ids[..n] + [ids[n]] == ids;
      WakesPush(kb, s, ids[..n]);
      assert s.queue + ids == (s.queue + ids[..n]) + [ids[n]];
    }
  }

  /**
   * One turn of the loop is the events `PopTask`, the wakeups made during the poll, and `Finish` or
   * `Yield`: same panics, same queue, tasks and cached wakers. It holds for every task other than the
   * keyboard's, whose polls have events of their own.
   */
  lemma {:induction false} TurnIsEvents(g: Behaviour, kb: nat, s: W.State, e: Queued)
    requires Holds(s, e) && s.pc.Loop? && e.queue != [] && |e.queue| <= MAX_TASKS && e.queue[0] != kb
    requires e.queue[0] in e.tasks ==>
      forall x :: x in g(e.trace, e.queue[0]).wakes ==> x == e.queue[0] || x in s.wakers
    ensures var t := W.RunEvents(kb, s, TurnEvents(g, e));
      && (t.None? <==> Turn(g, e).None?)
      && (t.Some? ==> Holds(t.value, Turn(g, e).value) && t.value.pc.Loop?)
  {
    var id, popped := e.queue[0], W.Next(kb, s, W.PopTask);
    if id !in e.tasks {
      W.RunFirst(kb, s, W.PopTask, []);
      assert [W.PopTask] + [] == TurnEvents(g, e);
    } else {
      var o := g(e.trace, id);
      var last := if o.ready then W.Finish else W.Yield;
      W.RunFirst(kb, s, W.PopTask, Wakes(o.wakes) + [last]);
      W.RunSnoc(kb, popped, Wakes(o.wakes), last);
      WakesPush(kb, popped, o.wakes);
    }
  }
}
