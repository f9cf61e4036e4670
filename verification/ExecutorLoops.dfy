/**
 * The two executors as they are written: loops over a queue. A loop that need not end is followed
 * for any number of turns.
 */
module ExecutorLoops {
  import opened Prelude
  import opened Executors

  class SimpleExecutor {
    /** How the tasks behave when polled. */
    const f: Tasks
    var queue: seq<nat>
    /** The polls made so far. */
    var trace: seq<nat>

    constructor (f: Tasks)
      ensures this.f == f && queue == [] && trace == []
    {
      this.f := f;
      queue, trace := [], [];
    }

    method Spawn(id: nat)
      modifies this`queue
      ensures queue == old(queue) + [id]
    {
      queue := queue + [id];
    }

    /** The loop of `run`, followed for at most the given number of turns. It has ended when the queue is empty. */
    method Run(turns: nat) returns (ended: bool)
      modifies this
      ensures Simple(queue, trace) == SimpleRun(f, Simple(old(queue), old(trace)), turns)
      ensures ended <==> queue == []
    {
      ghost var s := Simple(queue, trace);
      var i := 0;
      while i < turns && queue != []
        invariant i <= turns && Simple(queue, trace) == SimpleRun(f, s, i)
        decreases turns - i
      {
        var task := queue[0];
        queue := queue[1..];
        var poll := f(trace, task);
        trace := trace + [task];
        if poll.Pending? {
          queue := queue + [task];
        }
        i := i + 1;
      }
      if i < turns { StaysDone(f, s, i, turns); }
      ended := queue == [];
    }
  }

  lemma {:induction false} StaysDone(f: Tasks, s: Simple, i: nat, j: nat)
    requires i <= j && SimpleRun(f, s, i).queue == []
    ensures SimpleRun(f, s, j) == SimpleRun(f, s, i)
    decreases j - i
  {
    if i < j { StaysDone(f, s, i, j - 1); }
  }

  // ---------------------------------------------------------------- the queue executor, for any wakers

  /**
   * What a poll does in general: whether the task finished, and the ids pushed meanwhile by the
   * wakers of the task itself, of other tasks, or of interrupt handlers.
   */
  datatype Outcome = Outcome(ready: bool, wakes: seq<nat>)

  type Behaviour = (seq<nat>, nat) -> Outcome

  /** A push finds the queue full, which is a panic. */
  predicate Overfull(queue: seq<nat>, wakes: seq<nat>) {
    wakes != [] && |queue| + |wakes| > MAX_TASKS
  }

  function Polled(e: Queued, id: nat, o: Outcome): Queued {
    Queued(if o.ready then e.tasks - {id} else e.tasks, e.queue + o.wakes,
           if o.ready then e.cache - {id} else e.cache + {id}, e.trace + [id])
  }

  /** One turn of `run_ready_tasks`, or nothing if it panics. */
  function Turn(g: Behaviour, e: Queued): Option<Queued> {
    if e.queue == [] then Some(e)
    else
      var id, popped := e.queue[0], e.(queue := e.queue[1..]);
      if id !in e.tasks then Some(popped)
      else if Overfull(popped.queue, g(e.trace, id).wakes) then None
      else Some(Polled(popped, id, g(e.trace, id)))
  }

  function Turns(g: Behaviour, e: Queued, n: nat): Option<Queued> {
    if n == 0 then Some(e)
    else
      var before := Turns(g, e, n - 1);
      if before.None? then None else Turn(g, before.value)
  }

  /** An empty queue and a panic both end the loop. */
  lemma {:induction false} StaysEnded(g: Behaviour, e: Queued, i: nat, j: nat)
    requires i <= j && (Turns(g, e, i).Some? ==> Turns(g, e, i).value.queue == [])
    ensures Turns(g, e, j) == Turns(g, e, i)
    decreases j - i
  {
    if i < j { StaysEnded(g, e, i, j - 1); }
  }

  class Executor {
    const g: Behaviour
    var tasks: set<nat>
    var queue: seq<nat>
    var cache: set<nat>
    var trace: seq<nat>

    constructor (g: Behaviour)
      ensures this.g == g && State() == Spawned([])
    {
      this.g := g;
      tasks, queue, cache, trace := {}, [], {}, [];
    }

    ghost function State(): Queued
      reads this
    {
      Queued(tasks, queue, cache, trace)
    }

    /** Fails, as a panic, on an id in use or a full queue. */
    method Spawn(id: nat) returns (ok: bool)
      modifies this`tasks, this`queue
      ensures ok <==> id !in old(tasks) && |old(queue)| < MAX_TASKS
      ensures ok ==> State() == old(State()).(tasks := old(tasks) + {id}, queue := old(queue) + [id])
      ensures ok && old(State()) == Spawned(old(queue)) ==> State() == Spawned(queue)
    {
      var present := id in tasks;
      tasks := tasks + {id};
      if present { return false; }
      if |queue| >= MAX_TASKS { return false; }
      queue := queue + [id];
      ok := true;
    }

    /** The wakers used during a poll push their ids one after the other. */
    method Wake(ids: seq<nat>) returns (ok: bool)
      modifies this`queue
      ensures ok <==> !Overfull(old(queue), ids)
      ensures ok ==> queue == old(queue) + ids
    {
      for i := 0 to |ids|
        invariant queue == old(queue) + ids[..i] && !Overfull(old(queue), ids[..i])
      {
        if |queue| >= MAX_TASKS { return false; }
        queue := queue + [ids[i]];
      }
      assert ids[..|ids|] == ids;
      ok := true;
    }

    /** A live task is polled. Fails, as a panic, when a waker finds the queue full. */
    method PollTask(id: nat) returns (ok: bool)
      requires id in tasks
      modifies this
      ensures ok <==> !Overfull(old(queue), g(old(trace), id).wakes)
      ensures ok ==> State() == Polled(old(State()), id, g(old(trace), id))
    {
      if id !in cache { cache := cache + {id}; }
      var outcome := g(trace, id);
      trace := trace + [id];
      ok := Wake(outcome.wakes);
      if !ok { return; }
      if outcome.ready {
        tasks := tasks - {id};
        cache := cache - {id};
      }
    }

    /** The loop of `run_ready_tasks`, followed for at most the given number of turns, for any tasks and wakers. */
    method RunReadyTasks(turns: nat) returns (ok: bool)
      modifies this
      ensures ok <==> Turns(g, old(State()), turns).Some?
      ensures ok ==> State() == Turns(g, old(State()), turns).value
    {
      ghost var e := State();
      var i := 0;
      while i < turns && queue != []
        invariant i <= turns && Turns(g, e, i) == Some(State())
        decreases turns - i
      {
        ghost var before := State();
        var id := queue[0];
        queue := queue[1..];
        if id in tasks {
          ok := PollTask(id);
          if !ok {
            assert Turns(g, e, i + 1) == None;
            StaysEnded(g, e, i + 1, turns);
            return;
          }
        }
        assert Turn(g, before) == Some(State());
        i := i + 1;
      }
      if i < turns { StaysEnded(g, e, i, turns); }
      ok := true;
    }
  }

  // ---------------------------------------------------------------- what any number of turns adds up to

  /** The turns made do not panic. */
  predicate Runs(g: Behaviour, e: Queued, n: nat) {
    Turns(g, e, n).Some?
  }

  /** The state before turn `n`. */
  function At(g: Behaviour, e: Queued, n: nat): Queued
    requires Runs(g, e, n)
  {
    Turns(g, e, n).value
  }

  lemma {:induction false} RunsBefore(g: Behaviour, e: Queued, m: nat, n: nat)
    requires Runs(g, e, n) && m <= n
    ensures Runs(g, e, m)
    decreases n
  {
    if m < n { RunsBefore(g, e, m, n - 1); }
  }

  /** The ids a turn in this state takes off the queue, polls, finishes, and wakes. */
  function PopsIn(e: Queued): seq<nat> {
    e.queue[..if e.queue == [] then 0 else 1]
  }

  predicate PollsIn(e: Queued) {
    e.queue != [] && e.queue[0] in e.tasks
  }

  function PolledIn(e: Queued): seq<nat> {
    if PollsIn(e) then [e.queue[0]] else []
  }

  function FinishedIn(g: Behaviour, e: Queued): set<nat> {
    if PollsIn(e) && g(e.trace, e.queue[0]).ready then {e.queue[0]} else {}
  }

  function WokenIn(g: Behaviour, e: Queued): seq<nat> {
    if PollsIn(e) then g(e.trace, e.queue[0]).wakes else []
  }

  function Popped(g: Behaviour, e: Queued, n: nat): seq<nat>
    requires Runs(g, e, n)
  {
    if n == 0 then [] else Popped(g, e, n - 1) + PopsIn(At(g, e, n - 1))
  }

  function Polls(g: Behaviour, e: Queued, n: nat): seq<nat>
    requires Runs(g, e, n)
  {
    if n == 0 then [] else Polls(g, e, n - 1) + PolledIn(At(g, e, n - 1))
  }

  function Finished(g: Behaviour, e: Queued, n: nat): set<nat>
    requires Runs(g, e, n)
  {
    if n == 0 then {} else Finished(g, e, n - 1) + FinishedIn(g, At(g, e, n - 1))
  }

  function AllWoken(g: Behaviour, e: Queued, n: nat): seq<nat>
    requires Runs(g, e, n)
  {
    if n == 0 then [] else AllWoken(g, e, n - 1) + WokenIn(g, At(g, e, n - 1))
  }

  lemma {:induction false} QueueStep(popped: seq<nat>, queue: seq<nat>, initial: seq<nat>, woken: seq<nat>,
                                     pop: seq<nat>, rest: seq<nat>, more: seq<nat>)
    requires popped + queue == initial + woken && queue == pop + rest
    ensures (popped + pop) + (rest + more) == initial + (woken + more)
  {
    assert (popped + pop) + (rest + more) == (popped + (pop + rest)) + more;
    assert (initial + woken) + more == initial + (woken + more);
  }

  /** A turn takes its id off the front of the queue and puts the ids woken at its end. */
  lemma {:induction false} TurnQueue(g: Behaviour, b: Queued)
    requires Turn(g, b).Some?
    ensures b.queue == PopsIn(b) + b.queue[|PopsIn(b)|..]
    ensures Turn(g, b).value.queue == b.queue[|PopsIn(b)|..] + WokenIn(g, b)
  {
  }

  /**
   * First in, first out: the ids taken off the queue and those in it are the initial queue and every
   * id woken, in order.
   */
  lemma {:induction false} WakeupsConserved(g: Behaviour, e: Queued, n: nat)
    requires Runs(g, e, n)
    ensures Popped(g, e, n) + At(g, e, n).queue == e.queue + AllWoken(g, e, n)
  {
    if n > 0 {
      var b := At(g, e, n - 1);
      WakeupsConserved(g, e, n - 1);
      TurnQueue(g, b);
      var rest := b.queue[|PopsIn(b)|..];
      QueueStep(Popped(g, e, n - 1), b.queue, e.queue, AllWoken(g, e, n - 1), PopsIn(b), rest, WokenIn(g, b));
    }
  }

  /** An id woken in turn `i` is in the queue until a turn takes it off. */
  lemma {:induction false} WokenStaysQueued(g: Behaviour, e: Queued, i: nat, n: nat, id: nat)
    requires Runs(g, e, n) && i < n && Runs(g, e, i) && id in WokenIn(g, At(g, e, i))
    requires forall m :: i < m < n && Runs(g, e, m) ==> id !in PopsIn(At(g, e, m))
    ensures id in At(g, e, n).queue
    decreases n
  {
    RunsBefore(g, e, n - 1, n);
    var b := At(g, e, n - 1);
    if i < n - 1 {
      WokenStaysQueued(g, e, i, n - 1, id);
      assert id !in PopsIn(b);
      assert b.queue == PopsIn(b) + b.queue[1..];
    }
  }

  lemma {:induction false} TurnTasks(g: Behaviour, b: Queued)
    requires Turn(g, b).Some?
    ensures Turn(g, b).value.trace == b.trace + PolledIn(b)
    ensures Turn(g, b).value.tasks == b.tasks - FinishedIn(g, b)
    ensures Turn(g, b).value.cache == (b.cache + Elements(PolledIn(b))) - FinishedIn(g, b)
    ensures Elements(PolledIn(b)) <= b.tasks
  {
    if PollsIn(b) { assert Elements(PolledIn(b)) == {b.queue[0]}; } else { assert Elements(PolledIn(b)) == {}; }
  }

  lemma {:induction false} CacheStep(cache: set<nat>, polled: set<nat>, finished: set<nat>, more: set<nat>, done: set<nat>)
    requires more !! finished
    ensures (((cache + polled) - finished) + more) - done == (cache + (polled + more)) - (finished + done)
  {
  }

  /** The polls made, the tasks left and the wakers cached. */
  lemma {:induction false} TasksAccounted(g: Behaviour, e: Queued, n: nat)
    requires Runs(g, e, n)
    ensures At(g, e, n).trace == e.trace + Polls(g, e, n)
    ensures At(g, e, n).tasks == e.tasks - Finished(g, e, n)
    ensures At(g, e, n).cache == (e.cache + Elements(Polls(g, e, n))) - Finished(g, e, n)
  {
    if n > 0 {
      var b := At(g, e, n - 1);
      var polls, finished := Polls(g, e, n - 1), Finished(g, e, n - 1);
      TasksAccounted(g, e, n - 1);
      TurnTasks(g, b);
      assert (e.trace + polls) + PolledIn(b) == e.trace + (polls + PolledIn(b));
      ElementsOfSum(polls, PolledIn(b));
      CacheStep(e.cache, Elements(polls), finished, Elements(PolledIn(b)), FinishedIn(g, b));
    }
  }

  lemma {:induction false} ElementsOfSum(a: seq<nat>, b: seq<nat>)
    ensures Elements(a + b) == Elements(a) + Elements(b)
  {
  }

  // ---------------------------------------------------------------- self-waking tasks

  function SelfWaking(f: Tasks): Behaviour {
    (trace: seq<nat>, id: nat) => Outcome(f(trace, id).Ready?, Woken(f(trace, id), id))
  }

  lemma {:induction false} TurnIsStep(f: Tasks, e: Queued)
    requires !Overflows(f, e)
    ensures Turn(SelfWaking(f), e) == Some(QueuedStep(f, e))
  {
  }

  /**
   * For tasks that wake only themselves, a loop related to a simple executor never panics and makes
   * the turns of its run.
   */
  lemma {:induction false} TurnsAreRun(f: Tasks, all: set<nat>, e: Queued, s: Simple, n: nat)
    requires Simulates(all, e, s)
    ensures Turns(SelfWaking(f), e, n) == Some(QueuedRun(f, e, n))
  {
    if n > 0 {
      TurnsAreRun(f, all, e, s, n - 1);
      var m := SimulatedRun(f, all, e, s, n - 1);
      NeverFull(f, all, QueuedRun(f, e, n - 1), SimpleRun(f, s, m));
      TurnIsStep(f, QueuedRun(f, e, n - 1));
    }
  }

  /** Stale ids are drained without a poll. */
  lemma {:induction false} StaleDrain(f: Tasks, e: Queued, j: nat) returns (n: nat)
    requires QueuedRun(f, e, j).tasks == {}
    ensures QueuedRun(f, e, n) == QueuedRun(f, e, j).(queue := [])
    decreases |QueuedRun(f, e, j).queue|
  {
    if QueuedRun(f, e, j).queue == [] {
      n := j;
    } else {
      n := StaleDrain(f, e, j + 1);
    }
  }

  lemma {:induction false} NothingLive(all: set<nat>, e: Queued, s: Simple)
    requires Simulates(all, e, s) && s.queue == []
    ensures e.tasks == {} && e.cache == {}
  {
    if x :| x in e.tasks { LiveIsIn(e.queue, e.tasks, x); }
  }

  /**
   * If the related simple executor is done after some number of polls, then after some number
   * of turns the loop has drained its queue, has made exactly those polls, and has no task, id or
   * cached waker left.
   */
  lemma {:induction false} DrainsLikeSimple(f: Tasks, all: set<nat>, e: Queued, s: Simple, polls: nat) returns (n: nat)
    requires Simulates(all, e, s) && SimpleRun(f, s, polls).queue == []
    ensures Turns(SelfWaking(f), e, n) == Some(Queued({}, [], {}, SimpleRun(f, s, polls).trace))
  {
    n := Matched(f, all, e, s, polls);
    NothingLive(all, QueuedRun(f, e, n), SimpleRun(f, s, polls));
    n := StaleDrain(f, e, n);
    TurnsAreRun(f, all, e, s, n);
  }
}
