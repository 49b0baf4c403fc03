/** `event_loop`: create an epoll instance, register the signal reactor,
    then wait and dispatch until told to stop. The predicate `should_continue`
    is modelled by the rounds it lets through: it holds before each given round
    and fails after the last. Each round is what the kernel writes into the
    events buffer and its reply to `epoll_wait`. Dispatch forwards the events
    carrying the signal token to the signal reactor; the forwarded events are
    the loop's output. */
module EventLoop {
  import opened Linux
  import opened Outcomes
  import opened EPoll
  import opened EPollRegistration
  import opened SignalReactor

  /** The length of the reused `events` buffer. */
  const EventCapacity: nat := 1024

  /** One pass of the loop as the kernel sees it: the events it writes into
      the start of the buffer (never more than the buffer holds) and its
      reply. */
  datatype Round = Round(kernelEvents: seq<EPollEvent>, reply: Syscall)

  predicate KernelFits(rounds: seq<Round>) {
    forall k | 0 <= k < |rounds| :: |rounds[k].kernelEvents| <= EventCapacity
  }

  /** The buffer's initial contents (uninitialized in the source). */
  function InitialSlots(): (slots: seq<EPollEvent>)
    ensures |slots| == EventCapacity
  {
    seq(EventCapacity, _ => EPollEvent(0, 0))
  }

  /** The buffer after the kernel writes `written` at its start; the rest keeps
      what earlier rounds left there. */
  function Written(slots: seq<EPollEvent>, written: seq<EPollEvent>): (r: seq<EPollEvent>)
    requires |written| <= |slots|
    ensures |r| == |slots| && r[..|written|] == written && r[|written|..] == slots[|written|..]
  {
    written + slots[|written|..]
  }

  /** The events the dispatch closure forwards: those whose token is the
      signal token, in order. */
  function SignalEvents(events: seq<EPollEvent>, signalToken: u64): (r: seq<EPollEvent>)
    ensures |r| <= |events|
    ensures forall i | 0 <= i < |r| :: r[i].data == signalToken
    ensures (forall i | 0 <= i < |events| :: events[i].data == signalToken) ==> r == events
    ensures (forall i | 0 <= i < |events| :: events[i].data != signalToken) ==> r == []
    ensures forall e :: e in r <==> e in events && e.data == signalToken
    decreases |events|
  {
    if events == [] then []
    else
      var rest := SignalEvents(events[1..], signalToken);
      if events[0].data == signalToken then
        assert events == [events[0]] + events[1..];
        [events[0]] + rest
      else rest
  }

  /** The result of a run, the `epoll_wait` calls made and the events
      forwarded. */
  datatype LoopRun = LoopRun(result: Outcome<(), EPollRegistrationError>, waits: seq<WaitCall>, forwarded: seq<EPollEvent>)

  /** The wait-and-dispatch rounds after `waits` and `forwarded` have been
      done: an interrupted wait is skipped, a wait that panics ends the run,
      and `Ok(())` follows the last round. */
  function Rounds(epoll: EPollFileDescriptor, slots: seq<EPollEvent>, rounds: seq<Round>, timeOut: int, signalToken: u64,
                  waits: seq<WaitCall>, forwarded: seq<EPollEvent>): (run: LoopRun)
    requires |slots| == EventCapacity && KernelFits(rounds)
    ensures run.result.Ok? || run.result.Fatal? || run.result.Unreachable?
    ensures waits <= run.waits && |run.waits| <= |waits| + |rounds|
    ensures forall i | |waits| <= i < |run.waits| :: run.waits[i] == WaitCall(epoll.fd, EventCapacity, timeOut, None)
    ensures forwarded <= run.forwarded
    ensures forall i | |forwarded| <= i < |run.forwarded| :: run.forwarded[i].data == signalToken
    ensures run.result.Ok? ==> |run.waits| == |waits| + |rounds|
    decreases |rounds|
  {
    if rounds == [] then LoopRun(Ok(()), waits, forwarded)
    else
      var buffer := Written(slots, rounds[0].kernelEvents);
      var w := Wait(epoll, buffer, timeOut, rounds[0].reply);
      assert KernelFits(rounds[1..]) by {
        assert forall k | 0 <= k < |rounds[1..]| :: rounds[1..][k] == rounds[k + 1];
      }
      match w.outcome
      case Ok(ready) => Rounds(epoll, buffer, rounds[1..], timeOut, signalToken, waits + [w.call], forwarded + SignalEvents(ready, signalToken))
      case Err(_) => Rounds(epoll, buffer, rounds[1..], timeOut, signalToken, waits + [w.call], forwarded)
      case Fatal(p) => LoopRun(Fatal(p), waits + [w.call], forwarded)
      case Unreachable => LoopRun(Unreachable, waits + [w.call], forwarded)
  }

  /** The whole of `event_loop`: create the epoll instance, register the
      signal reactor (through `register_with_epoll`; the thread's blocked state
      was `blocked`), then the rounds. */
  function LoopSpec(creation: Syscall, signalToken: u64, replies: RegistrationReplies, blocked: bool, timeOut: int, rounds: seq<Round>): (run: LoopRun)
    requires KernelFits(rounds)
    ensures !New(creation).Ok? ==> run.waits == [] && run.forwarded == []
    ensures run.result.Ok? ==> New(creation).Ok? && RegisterSteps(New(creation).value, signalToken, replies, blocked).result.Ok?
                               && |run.waits| == |rounds|
    ensures forall i | 0 <= i < |run.forwarded| :: run.forwarded[i].data == signalToken
  {
    match New(creation)
    case Ok(epoll) => (
      var registered := RegisterSteps(epoll, signalToken, replies, blocked).result;
      match registered
      case Ok(_) => Rounds(epoll, InitialSlots(), rounds, timeOut, signalToken, [], [])
      case Err(e) => LoopRun(Err(e), [], [])
      case Fatal(p) => LoopRun(Fatal(p), [], [])
      case Unreachable => LoopRun(Unreachable, [], []))
    case Err(e) => LoopRun(Err(FromCreationError(e)), [], [])
    case Fatal(p) => LoopRun(Fatal(p), [], [])
    case Unreachable => LoopRun(Unreachable, [], [])
  }

  /** `event_loop` with a `u16` time-out in milliseconds. */
  method RunEventLoop(kernel: Kernel, creation: Syscall, signalToken: u64, replies: RegistrationReplies, timeOut: u16, rounds: seq<Round>)
    returns (r: Outcome<(), EPollRegistrationError>, waits: seq<WaitCall>, forwarded: seq<EPollEvent>)
    requires KernelFits(rounds)
    modifies kernel
    ensures LoopRun(r, waits, forwarded) == LoopSpec(creation, signalToken, replies, old(kernel.signalsBlocked), timeOut, rounds)
    ensures New(creation).Ok? ==>
              var g := RegisterSteps(New(creation).value, signalToken, replies, old(kernel.signalsBlocked));
              kernel.effects == old(kernel.effects) + g.effects && kernel.signalsBlocked == g.signalsBlocked
              && kernel.registrations == old(kernel.registrations) + g.registrations
    ensures !New(creation).Ok? ==> kernel.effects == old(kernel.effects) && kernel.signalsBlocked == old(kernel.signalsBlocked)
                                   && kernel.registrations == old(kernel.registrations)
  {
    waits, forwarded := [], [];
    var created := New(creation);
    if !created.Ok? {
      match created
      case Err(e) => return Err(FromCreationError(e)), waits, forwarded;
      case Fatal(p) => return Fatal(p), waits, forwarded;
      case Unreachable => return Unreachable, waits, forwarded;
    }
    var epoll := created.value;
    var registered := kernel.RegisterWithEpoll(epoll, signalToken, replies);
    if !registered.Ok? {
      match registered
      case Err(e) => return Err(e), waits, forwarded;
      case Fatal(p) => return Fatal(p), waits, forwarded;
      case Unreachable => return Unreachable, waits, forwarded;
    }
    var events := new EPollEvent[EventCapacity](_ => EPollEvent(0, 0));
    assert events[..] == InitialSlots();
    r, waits, forwarded := WaitRounds(epoll, events, rounds, timeOut, signalToken);
  }

  /** The `while should_continue()` loop over the reused events buffer. The
      buffer is local to `event_loop`, so what it holds afterwards is not part
      of the contract. */
  method WaitRounds(epoll: EPollFileDescriptor, events: array<EPollEvent>, rounds: seq<Round>, timeOut: int, signalToken: u64)
    returns (r: Outcome<(), EPollRegistrationError>, waits: seq<WaitCall>, forwarded: seq<EPollEvent>)
    requires events.Length == EventCapacity && KernelFits(rounds)
    modifies events
    ensures LoopRun(r, waits, forwarded) == Rounds(epoll, old(events[..]), rounds, timeOut, signalToken, [], [])
  {
    waits, forwarded := [], [];
    var k := 0;
    while k < |rounds|
      invariant 0 <= k <= |rounds| && KernelFits(rounds[k..])
      invariant Rounds(epoll, events[..], rounds[k..], timeOut, signalToken, waits, forwarded)
             == Rounds(epoll, old(events[..]), rounds, timeOut, signalToken, [], [])
      decreases |rounds| - k
    {
      assert rounds[k] == rounds[k..][0] && rounds[k..][1..] == rounds[k + 1..];
      ghost var before := events[..];
      var w, dispatched := WaitUntilReady(epoll, events, rounds[k], timeOut, signalToken);
      RoundsUnfold(epoll, before, rounds[k..], timeOut, signalToken, waits, forwarded);
      waits := waits + [w.call];
      if w.outcome.Fatal? {
        return Fatal(w.outcome.panic), waits, forwarded;
      } else if w.outcome.Unreachable? {
        return Unreachable, waits, forwarded;
      }
      forwarded := forwarded + dispatched;
      k := k + 1;
    }
    r := Ok(());
  }

  /** One wait of the loop: the kernel writes its events into the reused
      buffer and replies, and each ready event goes to the dispatch closure. */
  method WaitUntilReady(epoll: EPollFileDescriptor, events: array<EPollEvent>, round: Round, timeOut: int, signalToken: u64)
    returns (w: WaitResult, dispatched: seq<EPollEvent>)
    requires events.Length == EventCapacity && |round.kernelEvents| <= EventCapacity
    modifies events
    ensures events[..] == Written(old(events[..]), round.kernelEvents)
    ensures w == Wait(epoll, events[..], timeOut, round.reply)
    ensures dispatched == if w.outcome.Ok? then SignalEvents(w.outcome.value, signalToken) else []
  {
    var written := round.kernelEvents;
    forall i | 0 <= i < |written| {
      events[i] := written[i];
    }
    assert events[..] == Written(old(events[..]), written);
    w := Wait(epoll, events[..], timeOut, round.reply);
    dispatched := [];
    if w.outcome.Ok? {
      dispatched := Dispatch(w.outcome.value, signalToken);
    }
  }

  /** The dispatch closure over the ready events: forward an event to the
      signal reactor when its token is the signal token. */
  method Dispatch(ready: seq<EPollEvent>, signalToken: u64) returns (forwarded: seq<EPollEvent>)
    ensures forwarded == SignalEvents(ready, signalToken)
  {
    forwarded := [];
    for j := 0 to |ready|
      invariant forwarded == SignalEvents(ready[..j], signalToken)
    {
      if ready[j].data == signalToken {
        forwarded := forwarded + [ready[j]];
      }
      SignalEventsSnoc(ready[..j], ready[j], signalToken);
      assert ready[..j + 1] == ready[..j] + [ready[j]];
    }
    assert ready[..|ready|] == ready;
  }

  /** One round of `Rounds`: a wait that returns goes on to the next round,
      one that panics or is unreachable ends the run. */
  lemma RoundsUnfold(epoll: EPollFileDescriptor, slots: seq<EPollEvent>, rounds: seq<Round>, timeOut: int, signalToken: u64,
                     waits: seq<WaitCall>, forwarded: seq<EPollEvent>)
    requires |slots| == EventCapacity && KernelFits(rounds) && rounds != []
    ensures KernelFits(rounds[1..])
    ensures var buffer := Written(slots, rounds[0].kernelEvents);
            var w := Wait(epoll, buffer, timeOut, rounds[0].reply);
            ((w.outcome.Ok? || w.outcome.Err?) ==>
               Rounds(epoll, slots, rounds, timeOut, signalToken, waits, forwarded)
               == Rounds(epoll, buffer, rounds[1..], timeOut, signalToken, waits + [w.call],
                         forwarded + if w.outcome.Ok? then SignalEvents(w.outcome.value, signalToken) else []))
            && (w.outcome.Fatal? ==> Rounds(epoll, slots, rounds, timeOut, signalToken, waits, forwarded)
                                     == LoopRun(Fatal(w.outcome.panic), waits + [w.call], forwarded))
            && (w.outcome.Unreachable? ==> Rounds(epoll, slots, rounds, timeOut, signalToken, waits, forwarded)
                                           == LoopRun(Unreachable, waits + [w.call], forwarded))
  {
    assert forall k | 0 <= k < |rounds[1..]| :: rounds[1..][k] == rounds[k + 1];
    assert forwarded + [] == forwarded;
  }

  lemma {:induction false} SignalEventsSnoc(events: seq<EPollEvent>, e: EPollEvent, signalToken: u64)
    ensures SignalEvents(events + [e], signalToken)
         == SignalEvents(events, signalToken) + (if e.data == signalToken then [e] else [])
    decreases |events|
  {
    if events == [] {
      assert [e][1..] == [];
    } else {
      assert (events + [e])[1..] == events[1..] + [e];
      SignalEventsSnoc(events[1..], e, signalToken);
    }
  }

  /** An epoll creation failure ends the loop before any registration or
      wait. */
  lemma CreationFailureComesFirst(creation: Syscall, signalToken: u64, replies: RegistrationReplies, blocked: bool, timeOut: int, rounds: seq<Round>, e: CreationError)
    requires KernelFits(rounds) && creation == Syscall(-1, CreationErrno(e))
    ensures LoopSpec(creation, signalToken, replies, blocked, timeOut, rounds) == LoopRun(Err(Creation(e)), [], [])
  {
    NewErrorsRoundTrip(e, CreationErrno(e));
  }

  /** When every wait either succeeds within the buffer or is interrupted,
      the loop waits once per round and returns `Ok(())`. */
  lemma {:induction false} RoundsComplete(epoll: EPollFileDescriptor, slots: seq<EPollEvent>, rounds: seq<Round>, timeOut: int, signalToken: u64,
                                          waits: seq<WaitCall>, forwarded: seq<EPollEvent>)
    requires |slots| == EventCapacity && KernelFits(rounds)
    requires forall k | 0 <= k < |rounds| :: 0 <= rounds[k].reply.result <= EventCapacity || rounds[k].reply == Syscall(-1, EINTR)
    ensures var run := Rounds(epoll, slots, rounds, timeOut, signalToken, waits, forwarded);
            run.result == Ok(()) && |run.waits| == |waits| + |rounds|
    decreases |rounds|
  {
    if rounds != [] {
      var buffer := Written(slots, rounds[0].kernelEvents);
      assert KernelFits(rounds[1..]) by {
        assert forall k | 0 <= k < |rounds[1..]| :: rounds[1..][k] == rounds[k + 1];
      }
      var w := Wait(epoll, buffer, timeOut, rounds[0].reply);
      var forwardedAfter := if w.outcome.Ok? then forwarded + SignalEvents(w.outcome.value, signalToken) else forwarded;
      RoundsComplete(epoll, buffer, rounds[1..], timeOut, signalToken, waits + [w.call], forwardedAfter);
    }
  }

  /** An interrupted wait forwards nothing and the loop goes on. */
  lemma InterruptedRoundForwardsNothing(epoll: EPollFileDescriptor, slots: seq<EPollEvent>, round: Round, rest: seq<Round>, timeOut: int, signalToken: u64,
                                        waits: seq<WaitCall>, forwarded: seq<EPollEvent>)
    requires |slots| == EventCapacity && KernelFits([round] + rest) && round.reply == Syscall(-1, EINTR)
    ensures KernelFits(rest)
    ensures Rounds(epoll, slots, [round] + rest, timeOut, signalToken, waits, forwarded)
         == Rounds(epoll, Written(slots, round.kernelEvents), rest, timeOut, signalToken, waits + [WaitCall(epoll.fd, EventCapacity, timeOut, None)], forwarded)
  {
    assert ([round] + rest)[0] == round && ([round] + rest)[1..] == rest;
    assert forall k | 0 <= k < |rest| :: rest[k] == ([round] + rest)[k + 1];
  }
}
