/** The round-robin executor, the queue-and-waker executor, and how the second refines the first. */
module Executors {
  import opened Prelude

  /**
   * What one poll of a task does. A pending task has woken itself once during the poll; a
   * finished one has or has not.
   */
  datatype Poll = Pending | Ready(woke: bool)

  /** The tasks: what the next poll of a task gives, after the polls made so far. */
  type Tasks = (seq<nat>, nat) -> Poll

  // ---------------------------------------------------------------- one turn of each loop

  datatype Simple = Simple(queue: seq<nat>, trace: seq<nat>)

  function SimpleStep(f: Tasks, s: Simple): Simple {
    if s.queue == [] then s
    else
      var id, rest := s.queue[0], s.queue[1..];
      match f(s.trace, id)
      case Ready(_) => Simple(rest, s.trace + [id])
      case Pending => Simple(rest + [id], s.trace + [id])
  }

  function SimpleRun(f: Tasks, s: Simple, n: nat): Simple {
    if n == 0 then s else SimpleStep(f, SimpleRun(f, s, n - 1))
  }

  datatype Queued = Queued(tasks: set<nat>, queue: seq<nat>, cache: set<nat>, trace: seq<nat>)

  function Woken(p: Poll, id: nat): seq<nat> {
    if p.Pending? || p.woke then [id] else []
  }

  function QueuedStep(f: Tasks, e: Queued): Queued {
    if e.queue == [] then e
    else
      var id, rest := e.queue[0], e.queue[1..];
      if id !in e.tasks then e.(queue := rest)
      else
        var p := f(e.trace, id);
        var e' := e.(queue := rest + Woken(p, id), trace := e.trace + [id]);
        match p
        case Ready(_) => e'.(tasks := e.tasks - {id}, cache := e.cache - {id})
        case Pending => e'.(cache := e.cache + {id})
  }

  function QueuedRun(f: Tasks, e: Queued, n: nat): Queued {
    if n == 0 then e else QueuedStep(f, QueuedRun(f, e, n - 1))
  }

  /** The turn would push to a full queue. */
  predicate Overflows(f: Tasks, e: Queued) {
    e.queue != [] && e.queue[0] in e.tasks && Woken(f(e.trace, e.queue[0]), e.queue[0]) != []
      && |e.queue[1..]| >= MAX_TASKS
  }

  // ---------------------------------------------------------------- simulation

  /** The live ids of a queue. */
  function Live(q: seq<nat>, tasks: set<nat>): (r: seq<nat>) {
    if q == [] then []
    else if q[0] in tasks then [q[0]] + Live(q[1..], tasks)
    else Live(q[1..], tasks)
  }

  ghost predicate Among(q: seq<nat>, all: set<nat>) {
    forall x :: x in q ==> x in all
  }

  /** Dropping stale ids from the queue gives the other executor's queue; same polls so far. */
  ghost predicate Simulates(all: set<nat>, e: Queued, s: Simple) {
    && |all| <= MAX_TASKS
    && Distinct(e.queue) && Among(e.queue, all)
    && Live(e.queue, e.tasks) == s.queue
    && (forall x :: x in e.tasks ==> x in e.queue)
    && e.cache <= e.tasks
    && e.trace == s.trace
  }

  lemma {:induction false} LiveAppend(q: seq<nat>, x: nat, tasks: set<nat>)
    ensures Live(q + [x], tasks) == Live(q, tasks) + (if x in tasks then [x] else [])
  {
    if q == [] {
      assert [x][1..] == [];
    } else {
      assert (q + [x])[1..] == q[1..] + [x];
      LiveAppend(q[1..], x, tasks);
    }
  }

  lemma {:induction false} LiveRemove(q: seq<nat>, x: nat, tasks: set<nat>)
    requires x !in q
    ensures Live(q, tasks - {x}) == Live(q, tasks)
  {
    if q != [] { LiveRemove(q[1..], x, tasks); }
  }

  lemma {:induction false} LiveIsIn(q: seq<nat>, tasks: set<nat>, x: nat)
    ensures x in Live(q, tasks) <==> x in q && x in tasks
  {
    if q != [] { LiveIsIn(q[1..], tasks, x); }
  }

  lemma {:induction false} DistinctFits(q: seq<nat>, all: set<nat>)
    requires Distinct(q) && Among(q, all)
    ensures |q| <= |all|
  {
    if q != [] {
      assert forall x :: x in q[1..] ==> x in all - {q[0]};
      DistinctFits(q[1..], all - {q[0]});
    }
  }

  lemma {:induction false} PopDistinct(q: seq<nat>)
    requires Distinct(q) && q != []
    ensures Distinct(q[1..]) && q[0] !in q[1..] && Distinct(q[1..] + [q[0]])
    ensures forall x :: x in q <==> x == q[0] || x in q[1..]
  {
  }

  /** A related pair never overflows the queue. */
  lemma {:induction false} NeverFull(f: Tasks, all: set<nat>, e: Queued, s: Simple)
    requires Simulates(all, e, s)
    ensures !Overflows(f, e)
  {
    if e.queue != [] { DistinctFits(e.queue, all); }
  }

  /** Popping a stale id is invisible. */
  lemma {:induction false} StalePop(f: Tasks, all: set<nat>, e: Queued, s: Simple)
    requires Simulates(all, e, s) && e.queue != [] && e.queue[0] !in e.tasks
    ensures Simulates(all, QueuedStep(f, e), s)
  {
  }

  /** Popping a live id is one turn of the simple executor. */
  lemma {:induction false} LivePop(f: Tasks, all: set<nat>, e: Queued, s: Simple)
    requires Simulates(all, e, s) && e.queue != [] && e.queue[0] in e.tasks
    ensures s.queue != []
    ensures Simulates(all, QueuedStep(f, e), SimpleStep(f, s))
  {
    var id, rest := e.queue[0], e.queue[1..];
    PopDistinct(e.queue);
    assert s.queue[1..] == Live(rest, e.tasks);
    var e', p := QueuedStep(f, e), f(e.trace, id);
    if p.Ready? {
      LiveRemove(rest, id, e.tasks);
      if p.woke { LiveAppend(rest, id, e.tasks - {id}); } else { assert e'.queue == rest; }
      assert Live(e'.queue, e'.tasks) == Live(rest, e.tasks);
    } else {
      LiveAppend(rest, id, e.tasks);
    }
  }

  /** One turn of the queue executor is one or no turn of the simple one. */
  lemma {:induction false} OneTurn(f: Tasks, all: set<nat>, e: Queued, s: Simple) returns (turned: bool)
    requires Simulates(all, e, s)
    ensures Simulates(all, QueuedStep(f, e), if turned then SimpleStep(f, s) else s)
  {
    turned := false;
    if e.queue != [] {
      if e.queue[0] in e.tasks {
        LivePop(f, all, e, s);
        turned := true;
      } else {
        StalePop(f, all, e, s);
      }
    }
  }

  lemma {:induction false} SimulatedRun(f: Tasks, all: set<nat>, e: Queued, s: Simple, n: nat) returns (m: nat)
    requires Simulates(all, e, s)
    ensures m <= n && Simulates(all, QueuedRun(f, e, n), SimpleRun(f, s, m))
  {
    if n == 0 {
      m := 0;
    } else {
      m := SimulatedRun(f, all, e, s, n - 1);
      var turned := OneTurn(f, all, QueuedRun(f, e, n - 1), SimpleRun(f, s, m));
      m := if turned then m + 1 else m;
    }
  }

  function Elements(q: seq<nat>): set<nat> {
    set x | x in q
  }

  /** The executor after spawning the given tasks. */
  function Spawned(ids: seq<nat>): Queued {
    Queued(Elements(ids), ids, {}, [])
  }

  lemma {:induction false} AllLive(q: seq<nat>, tasks: set<nat>)
    requires forall x :: x in q ==> x in tasks
    ensures Live(q, tasks) == q
  {
    if q != [] { AllLive(q[1..], tasks); }
  }

  lemma {:induction false} SpawnedSimulates(ids: seq<nat>)
    requires Distinct(ids) && |ids| <= MAX_TASKS
    ensures Simulates(Elements(ids), Spawned(ids), Simple(ids, []))
  {
    AllLive(ids, Elements(ids));
    SetNoLarger(ids);
  }

  lemma {:induction false} SetNoLarger(q: seq<nat>)
    ensures |Elements(q)| <= |q|
  {
    if q != [] {
      SetNoLarger(q[1..]);
      assert Elements(q) == Elements(q[1..]) + {q[0]};
    }
  }

  /**
   * For at most 128 self-waking tasks, every run of the queue executor makes the polls of a run
   * of the simple executor, and its queue never overflows.
   */
  lemma {:induction false} RefinesSimple(f: Tasks, ids: seq<nat>, n: nat) returns (m: nat)
    requires Distinct(ids) && |ids| <= MAX_TASKS
    ensures m <= n && QueuedRun(f, Spawned(ids), n).trace == SimpleRun(f, Simple(ids, []), m).trace
    ensures !Overflows(f, QueuedRun(f, Spawned(ids), n))
    ensures QueuedRun(f, Spawned(ids), n).queue == [] ==> SimpleRun(f, Simple(ids, []), m).queue == []
  {
    var all := Elements(ids);
    SpawnedSimulates(ids);
    m := SimulatedRun(f, all, Spawned(ids), Simple(ids, []), n);
    NeverFull(f, all, QueuedRun(f, Spawned(ids), n), SimpleRun(f, Simple(ids, []), m));
  }

  /** Some number of further turns of the queue executor makes one turn of the simple one. */
  lemma {:induction false} CatchUp(f: Tasks, all: set<nat>, e: Queued, j: nat, s: Simple) returns (n: nat)
    requires Simulates(all, QueuedRun(f, e, j), s)
    ensures Simulates(all, QueuedRun(f, e, n), SimpleStep(f, s))
    decreases |QueuedRun(f, e, j).queue|
  {
    var now := QueuedRun(f, e, j);
    if s.queue == [] {
      n := j;
    } else {
      assert now.queue != [];
      if now.queue[0] in now.tasks {
        LivePop(f, all, now, s);
        n := j + 1;
        assert QueuedRun(f, e, n) == QueuedStep(f, now);
      } else {
        StalePop(f, all, now, s);
        assert QueuedRun(f, e, j + 1) == QueuedStep(f, now) && |QueuedStep(f, now).queue| < |now.queue|;
        n := CatchUp(f, all, e, j + 1, s);
      }
    }
  }

  lemma {:induction false} Matched(f: Tasks, all: set<nat>, e: Queued, s: Simple, m: nat) returns (n: nat)
    requires Simulates(all, e, s)
    ensures Simulates(all, QueuedRun(f, e, n), SimpleRun(f, s, m))
  {
    if m == 0 {
      n := 0;
    } else {
      n := Matched(f, all, e, s, m - 1);
      n := CatchUp(f, all, e, n, SimpleRun(f, s, m - 1));
    }
  }

  /** And every run of the simple executor is matched by the queue executor: no task is starved. */
  lemma {:induction false} ReachesSimple(f: Tasks, ids: seq<nat>, m: nat) returns (n: nat)
    requires Distinct(ids) && |ids| <= MAX_TASKS
    ensures QueuedRun(f, Spawned(ids), n).trace == SimpleRun(f, Simple(ids, []), m).trace
  {
    SpawnedSimulates(ids);
    n := Matched(f, Elements(ids), Spawned(ids), Simple(ids, []), m);
  }

  // ---------------------------------------------------------------- fairness

  function Count(trace: seq<nat>, id: nat): (c: nat) {
    if trace == [] then 0 else Count(trace[..|trace| - 1], id) + (if trace[|trace| - 1] == id then 1 else 0)
  }

  lemma {:induction false} CountAppend(trace: seq<nat>, x: nat, id: nat)
    ensures Count(trace + [x], id) == Count(trace, id) + (if x == id then 1 else 0)
  {
  }

  /** A round is under way: the tasks before `j` in the queue have been polled `c` times, the others once more. */
  ghost predicate InRound(s: Simple, c: nat, j: nat) {
    && Distinct(s.queue) && j <= |s.queue|
    && forall i :: 0 <= i < |s.queue| ==> Count(s.trace, s.queue[i]) == if i < j then c else c + 1
  }

  lemma {:induction false} RoundStep(f: Tasks, s: Simple, c: nat, j: nat)
    requires InRound(s, c, j) && s.queue != [] && j > 0
    ensures InRound(SimpleStep(f, s), c, j - 1)
  {
  }

  /** Round-robin keeps a round under way, whatever the tasks do. */
  lemma {:induction false} AlwaysInRound(f: Tasks, ids: seq<nat>, n: nat) returns (c: nat, j: nat)
    requires Distinct(ids)
    ensures InRound(SimpleRun(f, Simple(ids, []), n), c, j)
  {
    if n == 0 {
      c, j := 0, |ids|;
    } else {
      c, j := AlwaysInRound(f, ids, n - 1);
      var s := SimpleRun(f, Simple(ids, []), n - 1);
      if s.queue != [] {
        if j == 0 { c, j := c + 1, |s.queue|; }
        RoundStep(f, s, c, j);
        j := j - 1;
      }
    }
  }

  /** At all times the poll counts of two unfinished tasks differ by at most one. */
  lemma {:induction false} Fair(f: Tasks, ids: seq<nat>, n: nat, a: nat, b: nat)
    requires Distinct(ids)
    requires a in SimpleRun(f, Simple(ids, []), n).queue && b in SimpleRun(f, Simple(ids, []), n).queue
    ensures var trace := SimpleRun(f, Simple(ids, []), n).trace;
      -1 <= Count(trace, a) - Count(trace, b) <= 1
  {
    var c, j := AlwaysInRound(f, ids, n);
  }

  // ---------------------------------------------------------------- termination

  /** Each task is finished by its `needs[id]`-th poll. */
  ghost predicate Needs(f: Tasks, needs: map<nat, nat>) {
    forall trace: seq<nat>, id: nat :: id in needs ==>
      needs[id] >= 1 && (f(trace, id).Ready? <==> Count(trace, id) + 1 >= needs[id])
  }

  /** Polls a task still needs. */
  function Due(id: nat, trace: seq<nat>, needs: map<nat, nat>): (d: nat) {
    if id in needs && Count(trace, id) <= needs[id] then needs[id] - Count(trace, id) else 0
  }

  /** Polls the queued tasks still need. */
  function Remaining(queue: seq<nat>, trace: seq<nat>, needs: map<nat, nat>): (r: nat) {
    if queue == [] then 0 else Due(queue[0], trace, needs) + Remaining(queue[1..], trace, needs)
  }

  /** Queued tasks still need polls, the others have had exactly theirs. */
  ghost predicate Accounted(needs: map<nat, nat>, s: Simple) {
    && Distinct(s.queue) && (forall id :: id in s.queue ==> id in needs)
    && (forall id :: id in needs ==>
      if id in s.queue then Count(s.trace, id) < needs[id] else Count(s.trace, id) == needs[id])
  }

  lemma {:induction false} RemainingAppend(queue: seq<nat>, x: nat, trace: seq<nat>, needs: map<nat, nat>)
    ensures Remaining(queue + [x], trace, needs) == Remaining(queue, trace, needs) + Due(x, trace, needs)
  {
    if queue == [] {
      assert [x][1..] == [];
    } else {
      assert (queue + [x])[1..] == queue[1..] + [x];
      RemainingAppend(queue[1..], x, trace, needs);
    }
  }

  lemma {:induction false} RemainingUnchanged(queue: seq<nat>, x: nat, trace: seq<nat>, needs: map<nat, nat>)
    requires x !in queue
    ensures Remaining(queue, trace + [x], needs) == Remaining(queue, trace, needs)
  {
    if queue != [] {
      CountAppend(trace, x, queue[0]);
      RemainingUnchanged(queue[1..], x, trace, needs);
    }
  }

  lemma {:induction false} RemainingStep(f: Tasks, needs: map<nat, nat>, s: Simple)
    requires Needs(f, needs) && Accounted(needs, s) && s.queue != []
    ensures Remaining(SimpleStep(f, s).queue, SimpleStep(f, s).trace, needs) == Remaining(s.queue, s.trace, needs) - 1
  {
    var id, rest := s.queue[0], s.queue[1..];
    PopDistinct(s.queue);
    assert f(s.trace, id).Ready? <==> Count(s.trace, id) + 1 >= needs[id];
    RemainingUnchanged(rest, id, s.trace, needs);
    CountAppend(s.trace, id, id);
    RemainingAppend(rest, id, s.trace + [id], needs);
  }

  /** A turn keeps the accounts. */
  lemma {:induction false} AccountStep(f: Tasks, needs: map<nat, nat>, s: Simple)
    requires Needs(f, needs) && Accounted(needs, s) && s.queue != []
    ensures Accounted(needs, SimpleStep(f, s))
  {
    var id, rest := s.queue[0], s.queue[1..];
    var t := SimpleStep(f, s);
    PopDistinct(s.queue);
    assert f(s.trace, id).Ready? <==> Count(s.trace, id) + 1 >= needs[id];
    assert t.queue == if f(s.trace, id).Ready? then rest else rest + [id];
    forall x | x in needs
      ensures if x in t.queue then Count(t.trace, x) < needs[x] else Count(t.trace, x) == needs[x]
    {
      CountAppend(s.trace, id, x);
    }
  }

  lemma {:induction false} TurnAccounts(f: Tasks, needs: map<nat, nat>, s: Simple)
    requires Needs(f, needs) && Accounted(needs, s) && s.queue != []
    ensures var t := SimpleStep(f, s);
      && Accounted(needs, t) && |t.trace| == |s.trace| + 1
      && Remaining(t.queue, t.trace, needs) == Remaining(s.queue, s.trace, needs) - 1
  {
    AccountStep(f, needs, s);
    RemainingStep(f, needs, s);
  }

  lemma {:induction false} AccountsKept(f: Tasks, needs: map<nat, nat>, s: Simple, n: nat)
    requires Needs(f, needs) && Accounted(needs, s) && n <= Remaining(s.queue, s.trace, needs)
    ensures Accounted(needs, SimpleRun(f, s, n))
    ensures Remaining(SimpleRun(f, s, n).queue, SimpleRun(f, s, n).trace, needs) == Remaining(s.queue, s.trace, needs) - n
    ensures |SimpleRun(f, s, n).trace| == |s.trace| + n
  {
    if n > 0 {
      AccountsKept(f, needs, s, n - 1);
      var before := SimpleRun(f, s, n - 1);
      assert before.queue != [];
      TurnAccounts(f, needs, before);
      assert SimpleRun(f, s, n) == SimpleStep(f, before);
    }
  }

  lemma {:induction false} NothingRemains(needs: map<nat, nat>, s: Simple)
    requires Accounted(needs, s) && Remaining(s.queue, s.trace, needs) == 0
    ensures s.queue == []
  {
  }

  /**
   * If every task needs finitely many polls, the run ends after exactly their sum, each task polled
   * as often as it needs.
   */
  lemma {:induction false} Terminates(f: Tasks, needs: map<nat, nat>, ids: seq<nat>)
    requires Needs(f, needs) && Distinct(ids) && (forall id :: id in ids <==> id in needs)
    ensures var total := Remaining(ids, [], needs);
      var end := SimpleRun(f, Simple(ids, []), total);
      && end.queue == [] && |end.trace| == total
      && forall id :: id in needs ==> Count(end.trace, id) == needs[id]
  {
    var s, total := Simple(ids, []), Remaining(ids, [], needs);
    forall id | id in needs
      ensures Count([], id) < needs[id]
    {
      assert f([], id).Ready? <==> Count([], id) + 1 >= needs[id];
    }
    AccountsKept(f, needs, s, total);
    NothingRemains(needs, SimpleRun(f, s, total));
  }

  /** Before the first poll, what remains is the sum of the needs. */
  lemma {:induction false} RemainingIsSum(ids: seq<nat>, needs: map<nat, nat>)
    requires forall id :: id in ids ==> id in needs
    ensures Remaining(ids, [], needs) == Sum(ids, needs)
  {
    if ids != [] { RemainingIsSum(ids[1..], needs); }
  }

  function Sum(ids: seq<nat>, needs: map<nat, nat>): nat
    requires forall id :: id in ids ==> id in needs
  {
    if ids == [] then 0 else needs[ids[0]] + Sum(ids[1..], needs)
  }
}
