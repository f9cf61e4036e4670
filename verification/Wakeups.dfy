/**
 * The executor, its wakers and the keyboard stream on one processor core, with interrupts that
 * may strike between any two steps of the main code while they are enabled. A step is one access
 * to state that interrupt handlers share; a panic is an event that is not enabled.
 */
module Wakeups {
  import opened Prelude
  import opened Bits

  const MAX_SCANCODES: nat := 128

  /** Where a poll stands. The keyboard task reads the stream in a loop that only ends in a pending poll. */
  datatype Point = Body | Start | FirstPop | Register | SecondPop | Take

  /** Where the main code stands. `Masked` to `Parking` is the part of `sleep_if_idle` with interrupts off. */
  datatype Pc = Setup | Loop | Polling(id: nat, at: Point) | Drained | Masked | Parking | Halted

  /**
   * `tasks` and `cache` are the keys of the executor's maps, `unspawned` the tasks created and not
   * yet spawned, `wakers` the ids that wakers may exist for anywhere, `slot` the one waker the
   * keyboard registers. The scancode queue does not exist until the keyboard task first runs.
   */
  datatype State = State(
    tasks: set<nat>, unspawned: set<nat>, nextId: nat, queue: seq<nat>, cache: set<nat>, wakers: set<nat>,
    scan: Option<seq<Byte>>, slot: Option<nat>, enabled: bool, pc: Pc)

  datatype Event =
    | Create | Spawn(id: nat) | StartRun | PopTask
    | Finish | Yield
    | OpenStream | PopFirst | RegisterWaker | PopSecond | TakeWaker
    | WakeByTask(id: nat) | WakeByInterrupt(id: nat) | Key(code: Byte) | Timer
    | Mask | Check | Halt

  ghost predicate Init(s: State) {
    s == State({}, {}, 0, [], {}, {}, None, None, true, Setup)
  }

  predicate CanPush(s: State) {
    |s.queue| < MAX_TASKS
  }

  /** The scancode is accepted and a waker is there to be woken. */
  predicate KeyWakes(s: State) {
    s.scan.Some? && |s.scan.value| < MAX_SCANCODES && s.slot.Some?
  }

  predicate Enabled(kb: nat, s: State, e: Event) {
    match e
    case Create => (s.pc.Setup? || s.pc.Polling?) && s.nextId + 1 < WORD
    case Spawn(id) => s.pc.Setup? && id in s.unspawned && id !in s.tasks && CanPush(s)
    case StartRun => s.pc.Setup?
    case PopTask => s.pc.Loop?
    case Finish => s.pc.Polling? && s.pc.at == Body
    case Yield => s.pc.Polling? && s.pc.at == Body
    case OpenStream => s.pc == Polling(kb, Start)
    case PopFirst => s.pc == Polling(kb, FirstPop) && s.scan.Some?
    case RegisterWaker => s.pc == Polling(kb, Register)
    case PopSecond => s.pc == Polling(kb, SecondPop) && s.scan.Some?
    case TakeWaker => s.pc == Polling(kb, Take)
    case WakeByTask(id) => s.pc.Polling? && s.pc.at == Body && id in s.wakers && CanPush(s)
    case WakeByInterrupt(id) => s.enabled && id in s.wakers && CanPush(s)
    case Key(_) => s.enabled && (KeyWakes(s) ==> CanPush(s))
    case Timer => s.enabled
    case Mask => s.pc.Drained?
    case Check => s.pc.Masked?
    case Halt => s.pc.Parking?
  }

  /** An interrupt ends a halt. */
  function Resume(pc: Pc): Pc {
    if pc.Halted? then Loop else pc
  }

  function PopQueue(kb: nat, s: State): State {
    if s.queue == [] then s.(pc := Drained)
    else
      var id, s' := s.queue[0], s.(queue := s.queue[1..]);
      if id !in s.tasks then s'
      else s'.(cache := s.cache + {id}, wakers := s.wakers + {id},
               pc := Polling(id, if id != kb then Body else if s.scan.None? then Start else FirstPop))
  }

  function KeyPressed(s: State, code: Byte): State {
    if s.scan.None? || |s.scan.value| >= MAX_SCANCODES then s
    else
      var s' := s.(scan := Some(s.scan.value + [code]));
      if s.slot.Some? then s'.(queue := s.queue + [s.slot.value], slot := None) else s'
  }

  function Next(kb: nat, s: State, e: Event): State
    requires Enabled(kb, s, e)
  {
    match e
    case Create => s.(unspawned := s.unspawned + {s.nextId}, nextId := s.nextId + 1)
    case Spawn(id) => s.(unspawned := s.unspawned - {id}, tasks := s.tasks + {id}, queue := s.queue + [id])
    case StartRun => s.(pc := Loop)
    case PopTask => PopQueue(kb, s)
    case Finish => s.(tasks := s.tasks - {s.pc.id}, cache := s.cache - {s.pc.id}, pc := Loop)
    case Yield => s.(pc := Loop)
    case OpenStream => s.(scan := if s.scan.None? then Some([]) else s.scan, pc := Polling(kb, FirstPop))
    case PopFirst =>
      if s.scan.value != [] then s.(scan := Some(s.scan.value[1..])) else s.(pc := Polling(kb, Register))
    case RegisterWaker => s.(slot := Some(kb), pc := Polling(kb, SecondPop))
    case PopSecond =>
      if s.scan.value != [] then s.(scan := Some(s.scan.value[1..]), pc := Polling(kb, Take)) else s.(pc := Loop)
    case TakeWaker => s.(slot := None, pc := Polling(kb, FirstPop))
    case WakeByTask(id) => s.(queue := s.queue + [id])
    case WakeByInterrupt(id) => s.(queue := s.queue + [id], pc := Resume(s.pc))
    case Key(code) => KeyPressed(s, code).(pc := Resume(s.pc))
    case Timer => s.(pc := Resume(s.pc))
    case Mask => s.(enabled := false, pc := Masked)
    case Check => if s.queue == [] then s.(pc := Parking) else s.(enabled := true, pc := Loop)
    case Halt => s.(enabled := true, pc := Halted)
  }

  ghost predicate Stepped(kb: nat, s: State, e: Event, t: State) {
    Enabled(kb, s, e) && t == Next(kb, s, e)
  }

  /** A run without panics, with task `kb` holding the one scancode stream. */
  ghost predicate IsRun(kb: nat, ss: seq<State>, es: seq<Event>) {
    |ss| == |es| + 1 && Init(ss[0]) && forall i :: 0 <= i < |es| ==> Stepped(kb, ss[i], es[i], ss[i + 1])
  }

  // ---------------------------------------------------------------- sequences of events

  /** The state after the events, or nothing if one of them is not enabled. */
  function RunEvents(kb: nat, s: State, es: seq<Event>): (t: Option<State>) {
    if es == [] then Some(s)
    else
      var before, e := RunEvents(kb, s, es[..|es| - 1]), es[|es| - 1];
      if before.None? || !Enabled(kb, before.value, e) then None else Some(Next(kb, before.value, e))
  }

  lemma {:induction false} RunSnoc(kb: nat, s: State, es: seq<Event>, e: Event)
    ensures RunEvents(kb, s, es + [e]) ==
      var t := RunEvents(kb, s, es);
      if t.None? || !Enabled(kb, t.value, e) then None else Some(Next(kb, t.value, e))
  {
    assert (es + [e])[..|es|] == es;
  }

  lemma {:induction false} RunSplit(kb: nat, s: State, es: seq<Event>, more: seq<Event>)
    ensures RunEvents(kb, s, es + more) ==
      if RunEvents(kb, s, es).None? then None else RunEvents(kb, RunEvents(kb, s, es).value, more)
    decreases |more|
  {
    if more == [] {
      assert es + more == es;
    } else {
      var n := |more| - 1;
      RunSplit(kb, s, es, more[..n]);
      assert (es + more)[..|es + more| - 1] == es + more[..n];
    }
  }

  lemma {:induction false} RunFirst(kb: nat, s: State, e: Event, more: seq<Event>)
    requires Enabled(kb, s, e)
    ensures RunEvents(kb, s, [e] + more) == RunEvents(kb, Next(kb, s, e), more)
  {
    RunSnoc(kb, s, [], e);
    assert [] + [e] == [e];
    RunSplit(kb, s, [e], more);
  }

  // ---------------------------------------------------------------- ids and wakers

  /** Ids in use are below the counter, spawned and unspawned tasks differ, cached wakers belong to live tasks. */
  ghost predicate IdsOk(s: State) {
    && (forall id :: id in s.tasks || id in s.unspawned || id in s.wakers ==> id < s.nextId)
    && s.tasks !! s.unspawned
    && s.cache <= s.tasks
    && s.wakers !! s.unspawned
  }

  /** A task being polled is live and has a cached waker; the keyboard's points belong to the keyboard task. */
  ghost predicate PollOk(kb: nat, s: State) {
    s.pc.Polling? ==>
      && s.pc.id in s.tasks && s.pc.id in s.cache && s.pc.id in s.wakers
      && (s.pc.at == Body <==> s.pc.id != kb)
      && (s.scan.None? ==> s.pc.at in {Body, Start})
  }

  /** Interrupts are off exactly between masking and halting, and the core halts on an empty queue only. */
  ghost predicate HaltOk(s: State) {
    && (!s.enabled <==> s.pc.Masked? || s.pc.Parking?)
    && (s.pc.Parking? || s.pc.Halted? ==> s.queue == [])
  }

  /** The heart of it: an idle keyboard task is queued, or nothing is to be read and its waker is registered. */
  ghost predicate KeyboardOk(kb: nat, s: State) {
    && (s.slot.Some? ==> s.slot.value == kb && kb in s.tasks && kb in s.wakers)
    && (kb in s.tasks ==>
          if !s.pc.Polling? || s.pc.id != kb then kb in s.queue || (s.scan == Some([]) && s.slot == Some(kb))
          else s.pc.at == SecondPop ==> kb in s.queue || s.slot == Some(kb))
  }

  ghost predicate Inv(kb: nat, s: State) {
    IdsOk(s) && PollOk(kb, s) && HaltOk(s) && KeyboardOk(kb, s)
  }

  lemma {:induction false} StepKeepsInv(kb: nat, s: State, e: Event)
    requires Inv(kb, s) && Enabled(kb, s, e)
    ensures Inv(kb, Next(kb, s, e))
  {
  }

  lemma {:induction false} RunKeepsInv(kb: nat, ss: seq<State>, es: seq<Event>, i: nat)
    requires IsRun(kb, ss, es) && i <= |es|
    ensures Inv(kb, ss[i])
  {
    if i > 0 {
      RunKeepsInv(kb, ss, es, i - 1);
      assert Stepped(kb, ss[i - 1], es[i - 1], ss[i]);
      StepKeepsInv(kb, ss[i - 1], es[i - 1]);
    }
  }

  // ---------------------------------------------------------------- what runs guarantee

  /**
   * No lost wakeup: in every interleaving a live keyboard task that is not being polled is in the
   * ready queue, or the scancode queue is empty and its waker is registered. A scancode dropped
   * because the queue was full can thus never be one the task was waiting for.
   */
  lemma {:induction false} NoLostWakeup(kb: nat, ss: seq<State>, es: seq<Event>, i: nat)
    requires IsRun(kb, ss, es) && i <= |es|
    requires kb in ss[i].tasks && !(ss[i].pc.Polling? && ss[i].pc.id == kb)
    ensures kb in ss[i].queue || (ss[i].scan == Some([]) && ss[i].slot == Some(kb))
  {
    RunKeepsInv(kb, ss, es, i);
  }

  /** While the keyboard task sleeps on its registered waker, the next key press queues it. */
  lemma {:induction false} KeyPressWakes(kb: nat, ss: seq<State>, es: seq<Event>, i: nat)
    requires IsRun(kb, ss, es) && i < |es| && es[i].Key?
    requires kb in ss[i].tasks && !(ss[i].pc.Polling? && ss[i].pc.id == kb)
    ensures kb in ss[i + 1].queue
  {
    RunKeepsInv(kb, ss, es, i);
    assert Stepped(kb, ss[i], es[i], ss[i + 1]);
    var s, t := ss[i], ss[i + 1];
    if kb in s.queue {
      assert kb in t.queue;
    } else {
      assert t.queue[|s.queue|] == kb;
    }
  }

  /** The event makes the task ready: it is spawned, or one of its wakers is used. */
  predicate Readies(s: State, e: Event, id: nat) {
    e == Spawn(id) || e == WakeByTask(id) || e == WakeByInterrupt(id) || (e.Key? && KeyWakes(s) && s.slot == Some(id))
  }

  /** The event takes the task's id off the queue to poll it. */
  predicate Takes(s: State, e: Event, id: nat) {
    e.PopTask? && s.queue != [] && s.queue[0] == id
  }

  /** A task made ready stays in the ready queue until it is taken for a poll. */
  lemma {:induction false} ReadyStaysQueued(kb: nat, ss: seq<State>, es: seq<Event>, j: nat, i: nat, id: nat)
    requires IsRun(kb, ss, es) && j < i <= |es| && Readies(ss[j], es[j], id)
    requires forall m :: j < m < i ==> !Takes(ss[m], es[m], id)
    ensures id in ss[i].queue
    decreases i
  {
    var s, e, t := ss[i - 1], es[i - 1], ss[i];
    assert Stepped(kb, s, e, t);
    if j == i - 1 {
      assert t.queue[|s.queue|] == id;
    } else {
      ReadyStaysQueued(kb, ss, es, j, i - 1, id);
      assert !Takes(s, e, id);
      StaysQueued(kb, s, e, id);
    }
  }

  lemma {:induction false} StaysQueued(kb: nat, s: State, e: Event, id: nat)
    requires Enabled(kb, s, e) && id in s.queue && !Takes(s, e, id)
    ensures id in Next(kb, s, e).queue
  {
  }

  /**
   * Safe halt: whenever the core is halted, every task that was ever spawned or woken has been
   * taken for a poll since.
   */
  lemma {:induction false} HaltsOnlyWhenIdle(kb: nat, ss: seq<State>, es: seq<Event>, i: nat, j: nat, id: nat)
    requires IsRun(kb, ss, es) && j < i <= |es| && ss[i].pc.Halted? && Readies(ss[j], es[j], id)
    ensures exists m :: j < m < i && Takes(ss[m], es[m], id)
  {
    RunKeepsInv(kb, ss, es, i);
    if forall m :: j < m < i ==> !Takes(ss[m], es[m], id) {
      ReadyStaysQueued(kb, ss, es, j, i, id);
    }
  }

  /** An id whose task is gone for good: handed out by the counter, neither live nor waiting to be spawned. */
  predicate Gone(s: State, id: nat) {
    id < s.nextId && id !in s.tasks && id !in s.unspawned
  }

  lemma {:induction false} GoneForever(kb: nat, ss: seq<State>, es: seq<Event>, j: nat, i: nat, id: nat)
    requires IsRun(kb, ss, es) && j <= i <= |es| && Gone(ss[j], id)
    ensures Gone(ss[i], id)
    decreases i
  {
    if j < i {
      GoneForever(kb, ss, es, j, i - 1, id);
      assert Stepped(kb, ss[i - 1], es[i - 1], ss[i]);
    }
  }

  /**
   * A task that has returned Ready is never polled again and has no cached waker, even though
   * other wakers for it may live on and put its id back on the queue.
   */
  lemma {:induction false} NeverPolledAfterReady(kb: nat, ss: seq<State>, es: seq<Event>, j: nat, i: nat)
    requires IsRun(kb, ss, es) && j < i <= |es| && es[j].Finish?
    ensures ss[j].pc.Polling?
    ensures !(ss[i].pc.Polling? && ss[i].pc.id == ss[j].pc.id) && ss[j].pc.id !in ss[i].cache
  {
    RunKeepsInv(kb, ss, es, j);
    RunKeepsInv(kb, ss, es, i);
    assert Stepped(kb, ss[j], es[j], ss[j + 1]);
    GoneForever(kb, ss, es, j + 1, i, ss[j].pc.id);
  }

  /** Cached wakers belong to live tasks. */
  lemma {:induction false} CachedWakersAreLive(kb: nat, ss: seq<State>, es: seq<Event>, i: nat)
    requires IsRun(kb, ss, es) && i <= |es|
    ensures ss[i].cache <= ss[i].tasks
  {
    RunKeepsInv(kb, ss, es, i);
  }

  /** `spawn` never finds the id of a new task in use. */
  lemma {:induction false} SpawnIdIsFree(kb: nat, ss: seq<State>, es: seq<Event>, i: nat, id: nat)
    requires IsRun(kb, ss, es) && i <= |es| && id in ss[i].unspawned
    ensures id !in ss[i].tasks && id !in ss[i].queue
  {
    RunKeepsInv(kb, ss, es, i);
    UnspawnedNotQueued(kb, ss, es, i, id);
  }

  lemma {:induction false} UnspawnedNotQueued(kb: nat, ss: seq<State>, es: seq<Event>, i: nat, id: nat)
    requires IsRun(kb, ss, es) && i <= |es| && (id in ss[i].unspawned || id >= ss[i].nextId)
    ensures id !in ss[i].queue
  {
    if i > 0 {
      RunKeepsInv(kb, ss, es, i - 1);
      assert Stepped(kb, ss[i - 1], es[i - 1], ss[i]);
      UnspawnedNotQueued(kb, ss, es, i - 1, id);
    }
  }

  // ---------------------------------------------------------------- conservation

  function Stored(s: State): seq<Byte> {
    if s.scan.Some? then s.scan.value else []
  }

  /** The scancode an event puts into the queue, and the one it takes out. */
  function AcceptedBy(s: State, e: Event): seq<Byte> {
    if e.Key? && s.scan.Some? && |s.scan.value| < MAX_SCANCODES then [e.code] else []
  }

  function ConsumedBy(s: State, e: Event): seq<Byte> {
    if (e.PopFirst? || e.PopSecond?) && Stored(s) != [] then [Stored(s)[0]] else []
  }

  /** Scancodes the interrupt handler put into the queue during the first `i` events. */
  ghost function Accepted(ss: seq<State>, es: seq<Event>, i: nat): seq<Byte>
    requires i <= |es| && |ss| == |es| + 1
  {
    if i == 0 then [] else Accepted(ss, es, i - 1) + AcceptedBy(ss[i - 1], es[i - 1])
  }

  /** Scancodes the stream took out. */
  ghost function Consumed(ss: seq<State>, es: seq<Event>, i: nat): seq<Byte>
    requires i <= |es| && |ss| == |es| + 1
  {
    if i == 0 then [] else Consumed(ss, es, i - 1) + ConsumedBy(ss[i - 1], es[i - 1])
  }

  lemma {:induction false} StepConserves(kb: nat, s: State, e: Event)
    requires Enabled(kb, s, e) && |Stored(s)| <= MAX_SCANCODES
    ensures ConsumedBy(s, e) + Stored(Next(kb, s, e)) == Stored(s) + AcceptedBy(s, e)
    ensures |Stored(Next(kb, s, e))| <= MAX_SCANCODES
  {
  }

  /** What was read followed by what is stored is what was accepted, in order of arrival. */
  lemma {:induction false} ScancodesConserved(kb: nat, ss: seq<State>, es: seq<Event>, i: nat)
    requires IsRun(kb, ss, es) && i <= |es|
    ensures Consumed(ss, es, i) + Stored(ss[i]) == Accepted(ss, es, i)
    ensures |Stored(ss[i])| <= MAX_SCANCODES
  {
    if i > 0 {
      ScancodesConserved(kb, ss, es, i - 1);
      assert Stepped(kb, ss[i - 1], es[i - 1], ss[i]);
      ConserveStep(kb, ss[i - 1], es[i - 1], Consumed(ss, es, i - 1), Accepted(ss, es, i - 1));
    }
  }

  lemma {:induction false} ConserveStep(kb: nat, s: State, e: Event, read: seq<Byte>, all: seq<Byte>)
    requires Enabled(kb, s, e) && |Stored(s)| <= MAX_SCANCODES && read + Stored(s) == all
    ensures (read + ConsumedBy(s, e)) + Stored(Next(kb, s, e)) == all + AcceptedBy(s, e)
    ensures |Stored(Next(kb, s, e))| <= MAX_SCANCODES
  {
    StepConserves(kb, s, e);
    Regroup(read, ConsumedBy(s, e), Stored(Next(kb, s, e)), Stored(s), AcceptedBy(s, e));
  }

  lemma {:induction false} Regroup<T>(read: seq<T>, taken: seq<T>, now: seq<T>, before: seq<T>, added: seq<T>)
    requires taken + now == before + added
    ensures (read + taken) + now == (read + before) + added
  {
    assert (read + taken) + now == read + (taken + now);
    assert (read + before) + added == read + (before + added);
  }

  ghost function Registrations(es: seq<Event>, i: nat): nat
    requires i <= |es|
  {
    if i == 0 then 0 else Registrations(es, i - 1) + (if es[i - 1].RegisterWaker? then 1 else 0)
  }

  ghost function KeyWakeups(ss: seq<State>, es: seq<Event>, i: nat): nat
    requires i <= |es| && |ss| == |es| + 1
  {
    if i == 0 then 0 else KeyWakeups(ss, es, i - 1) + (if es[i - 1].Key? && KeyWakes(ss[i - 1]) then 1 else 0)
  }

  /** Every wakeup by the keyboard uses up a registration. */
  lemma {:induction false} WakeupsNeedRegistrations(kb: nat, ss: seq<State>, es: seq<Event>, i: nat)
    requires IsRun(kb, ss, es) && i <= |es|
    ensures KeyWakeups(ss, es, i) + (if ss[i].slot.Some? then 1 else 0) <= Registrations(es, i)
  {
    if i > 0 {
      WakeupsNeedRegistrations(kb, ss, es, i - 1);
      assert Stepped(kb, ss[i - 1], es[i - 1], ss[i]);
    }
  }

  // ---------------------------------------------------------------- when the ready queue overflows

  /** Ids pushed by the first `i` events, other than by key presses. */
  ghost function OtherPushes(es: seq<Event>, i: nat): nat
    requires i <= |es|
  {
    if i == 0 then 0
    else OtherPushes(es, i - 1) + Pushes(es[i - 1])
  }

  function Pushes(e: Event): nat {
    if e.Spawn? || e.WakeByTask? || e.WakeByInterrupt? then 1 else 0
  }

  lemma {:induction false} BoundStep(kb: nat, s: State, e: Event)
    requires Enabled(kb, s, e)
    ensures |Next(kb, s, e).queue| + Held(Next(kb, s, e)) <= |s.queue| + Held(s) + Pushes(e) + (if e.RegisterWaker? then 1 else 0)
  {
  }

  function Held(s: State): nat {
    if s.slot.Some? then 1 else 0
  }

  /**
   * Since an empty queue, its length is at most the pushes made, and key presses push at most what
   * has been registered.
   */
  lemma {:induction false} QueueBound(kb: nat, ss: seq<State>, es: seq<Event>, j: nat, i: nat)
    requires IsRun(kb, ss, es) && j <= i <= |es| && ss[j].queue == []
    ensures |ss[i].queue| + Held(ss[i]) + OtherPushes(es, j) + Registrations(es, j)
         <= Held(ss[j]) + OtherPushes(es, i) + Registrations(es, i)
    decreases i
  {
    if j < i {
      QueueBound(kb, ss, es, j, i - 1);
      assert Stepped(kb, ss[i - 1], es[i - 1], ss[i]);
      BoundStep(kb, ss[i - 1], es[i - 1]);
    }
  }

  /**
   * A key press does not find the ready queue full as long as, since the queue was last empty, at
   * most 128 ids have been pushed by others or can be by registered wakers.
   */
  lemma {:induction false} KeyNeverPanics(kb: nat, ss: seq<State>, es: seq<Event>, j: nat, i: nat, code: Byte)
    requires IsRun(kb, ss, es) && j <= i <= |es| && ss[j].queue == [] && ss[i].enabled
    requires Held(ss[j]) + (OtherPushes(es, i) - OtherPushes(es, j)) + (Registrations(es, i) - Registrations(es, j)) <= MAX_TASKS
    ensures Enabled(kb, ss[i], Key(code))
  {
    QueueBound(kb, ss, es, j, i);
  }

  /** Ids taken off the queue by the first `i` events. */
  ghost function Pops(ss: seq<State>, es: seq<Event>, i: nat): nat
    requires i <= |es| && |ss| == |es| + 1
  {
    if i == 0 then 0 else Pops(ss, es, i - 1) + PopsOne(ss[i - 1], es[i - 1])
  }

  function PopsOne(s: State, e: Event): nat {
    if e.PopTask? && s.queue != [] then 1 else 0
  }

  lemma {:induction false} AccountStep(kb: nat, s: State, e: Event)
    requires Enabled(kb, s, e) && |s.queue| <= MAX_TASKS
    ensures |Next(kb, s, e).queue| + PopsOne(s, e) == |s.queue| + Pushes(e) + (if e.Key? && KeyWakes(s) then 1 else 0)
    ensures |Next(kb, s, e).queue| <= MAX_TASKS
  {
  }

  /** Ids in the queue and ids taken off it are together the ids pushed. */
  lemma {:induction false} QueueAccount(kb: nat, ss: seq<State>, es: seq<Event>, i: nat)
    requires IsRun(kb, ss, es) && i <= |es|
    ensures |ss[i].queue| + Pops(ss, es, i) == OtherPushes(es, i) + KeyWakeups(ss, es, i)
    ensures |ss[i].queue| <= MAX_TASKS
  {
    if i > 0 {
      QueueAccount(kb, ss, es, i - 1);
      assert Stepped(kb, ss[i - 1], es[i - 1], ss[i]);
      AccountStep(kb, ss[i - 1], es[i - 1]);
    }
  }

  /** The ids an event pushes, and those it takes off the queue. */
  function PushedBy(s: State, e: Event): seq<nat> {
    if e.Spawn? || e.WakeByTask? || e.WakeByInterrupt? then [e.id]
    else if e.Key? && KeyWakes(s) then [s.slot.value]
    else []
  }

  function TakenBy(s: State, e: Event): seq<nat> {
    if e.PopTask? && s.queue != [] then [s.queue[0]] else []
  }

  ghost function Pushed(ss: seq<State>, es: seq<Event>, i: nat): seq<nat>
    requires i <= |es| && |ss| == |es| + 1
  {
    if i == 0 then [] else Pushed(ss, es, i - 1) + PushedBy(ss[i - 1], es[i - 1])
  }

  ghost function Taken(ss: seq<State>, es: seq<Event>, i: nat): seq<nat>
    requires i <= |es| && |ss| == |es| + 1
  {
    if i == 0 then [] else Taken(ss, es, i - 1) + TakenBy(ss[i - 1], es[i - 1])
  }

  lemma {:induction false} FifoStep(kb: nat, s: State, e: Event, taken: seq<nat>, pushed: seq<nat>)
    requires Enabled(kb, s, e) && taken + s.queue == pushed
    ensures (taken + TakenBy(s, e)) + Next(kb, s, e).queue == pushed + PushedBy(s, e)
  {
    QueueStep(kb, s, e);
    Regroup(taken, TakenBy(s, e), Next(kb, s, e).queue, s.queue, PushedBy(s, e));
  }

  lemma {:induction false} QueueStep(kb: nat, s: State, e: Event)
    requires Enabled(kb, s, e)
    ensures TakenBy(s, e) + Next(kb, s, e).queue == s.queue + PushedBy(s, e)
  {
  }

  /** First woken, first polled: the ids taken off the queue and those in it are the ids pushed, in order. */
  lemma {:induction false} QueueIsFifo(kb: nat, ss: seq<State>, es: seq<Event>, i: nat)
    requires IsRun(kb, ss, es) && i <= |es|
    ensures Taken(ss, es, i) + ss[i].queue == Pushed(ss, es, i)
  {
    if i > 0 {
      QueueIsFifo(kb, ss, es, i - 1);
      assert Stepped(kb, ss[i - 1], es[i - 1], ss[i]);
      FifoStep(kb, ss[i - 1], es[i - 1], Taken(ss, es, i - 1), Pushed(ss, es, i - 1));
    }
  }

  /**
   * In every run, a key press with interrupts on panics exactly when its scancode is accepted with a
   * waker registered while the ids pushed exceed the ids taken off by 128.
   */
  lemma {:induction false} KeyPanicsIff(kb: nat, ss: seq<State>, es: seq<Event>, i: nat, code: Byte)
    requires IsRun(kb, ss, es) && i <= |es| && ss[i].enabled
    ensures !Enabled(kb, ss[i], Key(code)) <==>
      KeyWakes(ss[i]) && OtherPushes(es, i) + KeyWakeups(ss, es, i) == Pops(ss, es, i) + MAX_TASKS
  {
    QueueAccount(kb, ss, es, i);
  }

  /** The keyboard task, alone, in the middle of its first poll, with its id queued `n` times. */
  predicate Stuffed(s: State, n: nat) {
    && s.scan.Some? && |s.scan.value| == 0 && s.slot == None && s.enabled && s.pc == Polling(0, FirstPop)
    && |s.queue| == n && s.tasks == {0}
  }

  lemma {:induction false} Extend(kb: nat, ss: seq<State>, es: seq<Event>, e: Event) returns (ss': seq<State>,
                                  es': seq<Event>)
    requires IsRun(kb, ss, es) && Enabled(kb, ss[|es|], e)
    ensures IsRun(kb, ss', es') && ss' == ss + [Next(kb, ss[|es|], e)] && es' == es + [e]
  {
    ss', es' := ss + [Next(kb, ss[|es|], e)], es + [e];
    forall i | 0 <= i < |es'|
      ensures Stepped(kb, ss'[i], es'[i], ss'[i + 1])
    {
      if i < |es| { assert Stepped(kb, ss[i], es[i], ss[i + 1]); }
    }
  }

  /** Runs of the keyboard task alone that fill the ready queue with its own id. */
  lemma {:induction false} Stuffing(n: nat) returns (ss: seq<State>, es: seq<Event>)
    requires n <= MAX_TASKS
    ensures IsRun(0, ss, es) && Stuffed(ss[|es|], n)
  {
    if n == 0 {
      ss, es := [State({}, {}, 0, [], {}, {}, None, None, true, Setup)], [];
      ss, es := Extend(0, ss, es, Create);
      ss, es := Extend(0, ss, es, Spawn(0));
      ss, es := Extend(0, ss, es, StartRun);
      ss, es := Extend(0, ss, es, PopTask);
      ss, es := Extend(0, ss, es, OpenStream);
    } else {
      ss, es := Stuffing(n - 1);
      ss, es := Extend(0, ss, es, PopFirst);
      ss, es := Extend(0, ss, es, RegisterWaker);
      ss, es := Extend(0, ss, es, Key(0));
      ss, es := Extend(0, ss, es, PopSecond);
      ss, es := Extend(0, ss, es, TakeWaker);
    }
  }

  /**
   * One task suffices to overflow the queue: when 128 scancodes in a row strike between the
   * registration and the second pop of the same poll, the next one panics in the interrupt handler.
   */
  lemma {:induction false} OneTaskOverflows(code: Byte) returns (ss: seq<State>, es: seq<Event>)
    ensures IsRun(0, ss, es) && ss[|es|].enabled && ss[|es|].tasks == {0} && !Enabled(0, ss[|es|], Key(code))
  {
    ss, es := Stuffing(MAX_TASKS);
    ss, es := Extend(0, ss, es, PopFirst);
    ss, es := Extend(0, ss, es, RegisterWaker);
  }

  // ---------------------------------------------------------------- going to sleep

  /** An interrupt strikes. */
  predicate IsInterrupt(e: Event) {
    e.WakeByInterrupt? || e.Key? || e.Timer?
  }

  /**
   * `sleep_if_idle`: with an empty queue the core halts, with interrupts on; otherwise the loop goes on.
   * No interrupt can strike between the check and the halt, and any interrupt ends the halt.
   */
  lemma {:induction false} SleepIfIdle(kb: nat, s: State)
    requires s.pc.Drained? && s.enabled
    ensures s.queue == [] ==> RunEvents(kb, s, [Mask, Check, Halt]) == Some(s.(pc := Halted))
    ensures s.queue != [] ==> RunEvents(kb, s, [Mask, Check]) == Some(s.(pc := Loop))
    ensures forall e :: IsInterrupt(e) ==>
      !Enabled(kb, s.(pc := Masked, enabled := false), e) && !Enabled(kb, s.(pc := Parking, enabled := false), e)
    ensures forall e :: IsInterrupt(e) && Enabled(kb, s.(pc := Halted), e) ==> Next(kb, s.(pc := Halted), e).pc == Loop
  {
    RunFirst(kb, s, Mask, [Check]);
    RunFirst(kb, s, Mask, [Check, Halt]);
    assert [Mask] + [Check] == [Mask, Check] && [Mask] + [Check, Halt] == [Mask, Check, Halt];
    var masked := Next(kb, s, Mask);
    RunFirst(kb, masked, Check, []);
    RunFirst(kb, masked, Check, [Halt]);
    assert [Check] + [] == [Check] && [Check] + [Halt] == [Check, Halt];
    if s.queue == [] {
      RunFirst(kb, Next(kb, masked, Check), Halt, []);
      assert [Halt] + [] == [Halt];
    }
  }
}
