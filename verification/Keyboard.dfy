/** The keyboard's shared state as the code updates it: a bounded queue, a waker slot, the ready queue. */
module Keyboard {
  import opened Prelude
  import opened Wakeups

  /** A queue offered more scancodes keeps as many as fit. */
  function Offer(stored: seq<Byte>, codes: seq<Byte>): (r: seq<Byte>) {
    if |stored| >= MAX_SCANCODES then stored
    else if |stored| + |codes| <= MAX_SCANCODES then stored + codes
    else stored + codes[..MAX_SCANCODES - |stored|]
  }

  lemma {:induction false} OfferTwice(a: seq<Byte>, b: seq<Byte>)
    ensures Offer(Offer([], a), b) == Offer([], a + b)
  {
  }

  lemma {:induction false} OfferOne(stored: seq<Byte>, codes: seq<Byte>, code: Byte)
    requires |stored| < MAX_SCANCODES
    ensures Offer(stored, codes + [code]) ==
      if |Offer(stored, codes)| < MAX_SCANCODES then Offer(stored, codes) + [code] else Offer(stored, codes)
    ensures Offer(stored, [code]) == stored + [code]
  {
  }

  // ---------------------------------------------------------------- bursts

  function Keys(codes: seq<Byte>): (es: seq<Event>) {
    seq(|codes|, i requires 0 <= i < |codes| => Key(codes[i]))
  }

  /** The main code is at a point where interrupts may strike, and the scancode queue exists. */
  predicate Open(s: State) {
    s.enabled && s.pc.Polling? && s.scan.Some? && |s.scan.value| <= MAX_SCANCODES
  }

  /**
   * What a burst of key presses does: the queue takes what fits, and if it takes anything, a
   * registered waker is used up. That is a panic if the ready queue is full.
   */
  function Pressed(s: State, codes: seq<Byte>): (t: Option<State>)
    requires s.scan.Some?
  {
    if codes == [] || |s.scan.value| >= MAX_SCANCODES then Some(s)
    else if s.slot.Some? && !CanPush(s) then None
    else Some(s.(scan := Some(Offer(s.scan.value, codes)), slot := None,
                 queue := if s.slot.Some? then s.queue + [s.slot.value] else s.queue))
  }

  lemma {:induction false} PressedOneMore(kb: nat, s: State, codes: seq<Byte>, code: Byte)
    requires Open(s)
    ensures Pressed(s, codes + [code]) ==
      var t := Pressed(s, codes);
      if t.None? || !Enabled(kb, t.value, Key(code)) then None else Some(Next(kb, t.value, Key(code)))
    ensures Pressed(s, codes).Some? ==> Open(Pressed(s, codes).value)
  {
    if codes == [] { assert codes + [code] == [code]; }
    if |s.scan.value| < MAX_SCANCODES { OfferOne(s.scan.value, codes, code); }
  }

  /** A burst is a sequence of key events. */
  lemma {:induction false} PressedIsKeys(kb: nat, s: State, codes: seq<Byte>)
    requires Open(s)
    ensures RunEvents(kb, s, Keys(codes)) == Pressed(s, codes)
    decreases |codes|
  {
    if codes != [] {
      var n := |codes| - 1;
      PressedIsKeys(kb, s, codes[..n]);
      PressedOneMore(kb, s, codes[..n], codes[n]);
      assert codes[..n] + [codes[n]] == codes;
      assert Keys(codes)[..n] == Keys(codes[..n]);
    }
  }

  // ---------------------------------------------------------------- one poll

  /** The events of a poll from the second pop on, if it finds these scancodes. */
  function LastEvents(found: seq<Byte>, late: seq<Byte>): (es: seq<Event>) {
    [PopSecond] + if found == [] then [] else Keys(late) + [TakeWaker]
  }

  /**
   * The events of one poll of the stream, with key presses `before` striking between the failed
   * first pop and the registration, `after` between the registration and the second pop, and `late`
   * between a successful second pop and the removal of the waker.
   */
  function PollEvents(stored: seq<Byte>, before: seq<Byte>, after: seq<Byte>, late: seq<Byte>): (es: seq<Event>) {
    [PopFirst] +
    if stored != [] then []
    else Keys(before) + ([RegisterWaker] + (Keys(after) + LastEvents(Offer([], before + after), late)))
  }

  /** The state after a poll from the second pop on, or nothing if a key press panics. */
  function SecondHalf(kb: nat, s: State, late: seq<Byte>): (t: Option<State>)
    requires s.scan.Some?
  {
    if s.scan.value == [] then Some(s.(pc := Loop))
    else
      var popped := s.(scan := Some(s.scan.value[1..]), pc := Polling(kb, Take));
      var struck := Pressed(popped, late);
      if struck.None? then None else Some(struck.value.(slot := None, pc := Polling(kb, FirstPop)))
  }

  function Registered(kb: nat, s: State): State {
    s.(slot := Some(kb), pc := Polling(kb, SecondPop))
  }

  /** The state after a poll from the registration on. */
  function SlowPoll(kb: nat, s: State, before: seq<Byte>, after: seq<Byte>, late: seq<Byte>): (t: Option<State>)
    requires s.scan.Some?
  {
    var struck := Pressed(s, before);
    if struck.None? then None
    else
      var again := Pressed(Registered(kb, struck.value), after);
      if again.None? then None else SecondHalf(kb, again.value, late)
  }

  /** The state after a whole poll. */
  function Polled(kb: nat, s: State, before: seq<Byte>, after: seq<Byte>, late: seq<Byte>): (t: Option<State>)
    requires s.scan.Some?
  {
    if s.scan.value != [] then Some(s.(scan := Some(s.scan.value[1..])))
    else SlowPoll(kb, s.(pc := Polling(kb, Register)), before, after, late)
  }

  lemma {:induction false} StaysOpen(s: State, codes: seq<Byte>)
    requires Open(s) && Pressed(s, codes).Some?
    ensures Open(Pressed(s, codes).value) && Pressed(s, codes).value.pc == s.pc
    ensures Pressed(s, codes).value.scan == Some(Offer(s.scan.value, codes))
  {
    assert codes == [] ==> Offer(s.scan.value, codes) == s.scan.value;
  }

  lemma {:induction false} SecondHalfEvents(kb: nat, s: State, late: seq<Byte>)
    requires Open(s) && s.pc == Polling(kb, SecondPop)
    ensures RunEvents(kb, s, LastEvents(s.scan.value, late)) == SecondHalf(kb, s, late)
  {
    var t := Next(kb, s, PopSecond);
    if s.scan.value == [] {
      RunFirst(kb, s, PopSecond, []);
    } else {
      RunFirst(kb, s, PopSecond, Keys(late) + [TakeWaker]);
      RunSnoc(kb, t, Keys(late), TakeWaker);
      PressedIsKeys(kb, t, late);
      if Pressed(t, late).Some? { StaysOpen(t, late); }
    }
  }

  lemma {:induction false} SlowPollEvents(kb: nat, s: State, before: seq<Byte>, after: seq<Byte>, late: seq<Byte>)
    requires Open(s) && s.pc == Polling(kb, Register) && s.scan == Some([])
    ensures RunEvents(kb, s, Keys(before) + ([RegisterWaker] + (Keys(after) + LastEvents(Offer([], before + after), late))))
      == SlowPoll(kb, s, before, after, late)
  {
    var last := LastEvents(Offer([], before + after), late);
    RunSplit(kb, s, Keys(before), [RegisterWaker] + (Keys(after) + last));
    PressedIsKeys(kb, s, before);
    if Pressed(s, before).Some? {
      StaysOpen(s, before);
      var a := Pressed(s, before).value;
      RunFirst(kb, a, RegisterWaker, Keys(after) + last);
      RunSplit(kb, Registered(kb, a), Keys(after), last);
      PressedIsKeys(kb, Registered(kb, a), after);
      if Pressed(Registered(kb, a), after).Some? {
        StaysOpen(Registered(kb, a), after);
        OfferTwice(before, after);
        SecondHalfEvents(kb, Pressed(Registered(kb, a), after).value, late);
      }
    }
  }

  /** A poll is the sequence of its events; it panics exactly when one of them is not enabled. */
  lemma {:induction false} PollIsEvents(kb: nat, s: State, before: seq<Byte>, after: seq<Byte>, late: seq<Byte>)
    requires Open(s) && s.pc == Polling(kb, FirstPop)
    ensures RunEvents(kb, s, PollEvents(s.scan.value, before, after, late)) == Polled(kb, s, before, after, late)
  {
    if s.scan.value != [] {
      RunFirst(kb, s, PopFirst, []);
    } else {
      RunFirst(kb, s, PopFirst, Keys(before) + ([RegisterWaker] + (Keys(after) + LastEvents(Offer([], before + after), late))));
      SlowPollEvents(kb, s.(pc := Polling(kb, Register)), before, after, late);
    }
  }

  /**
   * When one of these key presses panics: it uses up the waker registered by an earlier poll, the one
   * just registered before the second pop, or the one just registered after it.
   */
  predicate PollPanics(slot: Option<nat>, queued: nat, before: seq<Byte>, after: seq<Byte>, late: seq<Byte>) {
    var woken := before != [] && slot.Some?;
    var length := if woken then queued + 1 else queued;
    || (woken && queued >= MAX_TASKS)
    || (after != [] && |before| < MAX_SCANCODES && length >= MAX_TASKS)
    || (late != [] && before != [] && (after == [] || |before| >= MAX_SCANCODES) && length >= MAX_TASKS)
  }

  lemma {:induction false} PollPanicsIff(kb: nat, s: State, before: seq<Byte>, after: seq<Byte>, late: seq<Byte>)
    requires Open(s)
    ensures Polled(kb, s, before, after, late).None? <==>
      s.scan.value == [] && PollPanics(s.slot, |s.queue|, before, after, late)
  {
    if s.scan.value == [] {
      var u := s.(pc := Polling(kb, Register));
      if Pressed(u, before).Some? {
        StaysOpen(u, before);
        var v := Registered(kb, Pressed(u, before).value);
        if Pressed(v, after).Some? { StaysOpen(v, after); }
      }
    }
  }

  /** What a poll that does not panic leaves: pending and registered only if nothing arrived. */
  lemma {:induction false} PollOutcome(kb: nat, s: State, before: seq<Byte>, after: seq<Byte>, late: seq<Byte>)
    requires Open(s) && s.scan.value == [] && Polled(kb, s, before, after, late).Some?
    ensures var t, arrived := Polled(kb, s, before, after, late).value, Offer([], before + after);
      if arrived == [] then t.scan == Some([]) && t.slot == Some(kb) && t.queue == s.queue
      else t.scan == Some(Offer(arrived[1..], late)) && t.slot == None
  {
    var u := s.(pc := Polling(kb, Register));
    StaysOpen(u, before);
    var v := Registered(kb, Pressed(u, before).value);
    StaysOpen(v, after);
    OfferTwice(before, after);
    var w := Pressed(v, after).value;
    if w.scan.value != [] { StaysOpen(w.(scan := Some(w.scan.value[1..]), pc := Polling(kb, Take)), late); }
  }

  class ScancodeStream {
    /** The scancode queue, once initialized. */
    var scan: Option<seq<Byte>>
    var slot: Option<nat>
    var ready: seq<nat>

    ghost predicate Matches(s: State)
      reads this
    {
      s.scan == scan && s.slot == slot && s.queue == ready
    }

    /** Initializes the scancode queue unless that has been done, which is the event `OpenStream`. */
    method New(ghost kb: nat, ghost s: State)
      requires Matches(s) && Enabled(kb, s, OpenStream)
      modifies this`scan
      ensures scan == if old(scan).None? then Some([]) else old(scan)
      ensures Matches(Next(kb, s, OpenStream))
    {
      if scan.None? { scan := Some([]); }
    }

    /** The interrupt handler's part, which is the event `Key`. Fails, as a panic, on a full ready queue. */
    method AddScancode(code: Byte, ghost kb: nat, ghost s: State) returns (ok: bool)
      requires Matches(s) && s.enabled
      modifies this
      ensures ok <==> Enabled(kb, s, Key(code))
      ensures ok ==> Matches(Next(kb, s, Key(code)))
    {
      if scan.Some? {
        if |scan.value| < MAX_SCANCODES {
          scan := Some(scan.value + [code]);
          if slot.Some? {
            var waker := slot.value;
            slot := None;
            if |ready| >= MAX_TASKS { return false; }
            ready := ready + [waker];
          }
        }
      }
      ok := true;
    }

    /** A burst of key presses between two steps of the main code. */
    method Burst(codes: seq<Byte>, ghost kb: nat, ghost s: State) returns (ok: bool)
      requires Matches(s) && Open(s)
      modifies this
      ensures ok <==> Pressed(s, codes).Some?
      ensures ok ==> Matches(Pressed(s, codes).value)
    {
      ghost var t := s;
      for i := 0 to |codes|
        invariant Pressed(s, codes[..i]) == Some(t) && Matches(t) && t.enabled
      {
        PressedOneMore(kb, s, codes[..i], codes[i]);
        assert codes[..i] + [codes[i]] == codes[..i + 1];
        ok := AddScancode(codes[i], kb, t);
        if !ok { return; }
        t := Next(kb, t, Key(codes[i]));
      }
      assert codes[..|codes|] == codes;
      ok := true;
    }

    /**
     * One poll of the stream by task `kb`. It is the sequence of its events and panics exactly when
     * one of these is not enabled. It is pending only if nothing arrived, and then the waker is
     * registered; no scancode is lost but to a full queue.
     */
    method PollNext(kb: nat, before: seq<Byte>, after: seq<Byte>, late: seq<Byte>, ghost s: State)
      returns (ok: bool, r: Option<Byte>)
      requires Matches(s) && Open(s) && s.pc == Polling(kb, FirstPop)
      modifies this
      ensures ok <==> RunEvents(kb, s, PollEvents(s.scan.value, before, after, late)).Some?
      ensures ok ==> Matches(RunEvents(kb, s, PollEvents(s.scan.value, before, after, late)).value)
      ensures ok <==> !(old(scan).value == [] && PollPanics(old(slot), |old(ready)|, before, after, late))
      ensures old(scan).value != [] ==>
        r == Some(old(scan).value[0]) && scan == Some(old(scan).value[1..]) && slot == old(slot) && ready == old(ready)
      ensures ok && old(scan).value == [] ==>
        var arrived := Offer([], before + after);
        if arrived == [] then r == None && scan == Some([]) && slot == Some(kb) && ready == old(ready)
        else r == Some(arrived[0]) && scan == Some(Offer(arrived[1..], late)) && slot == None
    {
      PollIsEvents(kb, s, before, after, late);
      PollPanicsIff(kb, s, before, after, late);
      if scan.value != [] {
        r := Some(scan.value[0]);
        scan := Some(scan.value[1..]);
        return true, r;
      }
      ok, r := PollSlowly(kb, before, after, late, s.(pc := Polling(kb, Register)));
      if ok { PollOutcome(kb, s, before, after, late); }
    }

    /** The poll after its failed first pop. */
    method PollSlowly(kb: nat, before: seq<Byte>, after: seq<Byte>, late: seq<Byte>, ghost s: State)
      returns (ok: bool, r: Option<Byte>)
      requires Matches(s) && Open(s) && s.scan == Some([])
      modifies this
      ensures ok <==> SlowPoll(kb, s, before, after, late).Some?
      ensures ok ==> Matches(SlowPoll(kb, s, before, after, late).value)
      ensures ok ==>
        var arrived := Offer([], before + after);
        r == if arrived == [] then None else Some(arrived[0])
    {
      r := None;
      ok := Burst(before, kb, s);
      if !ok { return; }
      StaysOpen(s, before);
      slot := Some(kb);
      ghost var t := Registered(kb, Pressed(s, before).value);
      ok := Burst(after, kb, t);
      if !ok { return; }
      StaysOpen(t, after);
      OfferTwice(before, after);
      t := Pressed(t, after).value;
      if scan.value != [] {
        r := Some(scan.value[0]);
        scan := Some(scan.value[1..]);
        ok := Burst(late, kb, t.(scan := scan, pc := Polling(kb, Take)));
        if !ok { return; }
        slot := None;
      }
    }

    /** The first poll of the keyboard task: the stream is made, then polled. */
    method FirstPoll(kb: nat, before: seq<Byte>, after: seq<Byte>, late: seq<Byte>, ghost s: State)
      returns (ok: bool, r: Option<Byte>)
      requires Matches(s) && s.enabled && s.pc == Polling(kb, Start) && (s.scan.Some? ==> |s.scan.value| <= MAX_SCANCODES)
      modifies this
      ensures var es := [OpenStream] + PollEvents(Stored(s), before, after, late);
        && (ok <==> RunEvents(kb, s, es).Some?)
        && (ok ==> Matches(RunEvents(kb, s, es).value))
    {
      ghost var t := Next(kb, s, OpenStream);
      RunFirst(kb, s, OpenStream, PollEvents(Stored(s), before, after, late));
      New(kb, s);
      ok, r := PollNext(kb, before, after, late, t);
    }
  }
}
