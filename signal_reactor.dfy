/** `AllSignalReactor`: all signals are blocked and delivered through a signal
    file descriptor registered with epoll. Registration changes the thread's
    blocked-signal state and the epoll instance's registrations, modelled as a
    `Kernel` object; `react` drains one batch of pending signals from the
    signal file descriptor and hands each to the signal handler. */
module SignalReactor {
  import opened Linux
  import opened Outcomes
  import opened EPoll
  import opened EPollRegistration

  const SignalsPerRead: nat := 32

  /** `EPollEventFlags::Input` (`EPOLLIN`). */
  const Input: int := 0x1

  /** `EPollAddFlags::EdgeTriggeredInput` (`EPOLLIN | EPOLLET`). */
  const EdgeTriggeredInput: u32 := 0x8000_0001

  /** The filled `sigset_t`, taken as signals 1 to 64; the C library's
      `sigfillset` may leave out signals it reserves, and no contract here
      depends on which signals the set holds. */
  const AllSignals: set<int> := set n | 1 <= n <= 64

  /** One `signalfd_siginfo` record; only the signal number is modelled. */
  datatype SignalInfo = SignalInfo(signalNumber: int)

  /** How a read of a non-blocking, record-sized structure can fail. */
  datatype StructReadError = WouldBlock | Cancelled | Interrupted

  // ---- The two classifications.

  /** `new_filled_signal_mask`: the reply of `sigfillset`. */
  function NewFilledSignalMask(reply: Syscall): (r: Outcome<set<int>, ()>)
    ensures r.Ok? <==> reply.result == 0
    ensures r.Ok? ==> r.value == AllSignals
    ensures r.Fatal? <==> reply.result == -1 && reply.errno == EINVAL
    ensures r.Fatal? ==> r.panic == ErrnoPanic(EINVAL)
    ensures !r.Err?
  {
    if reply.result == 0 then Ok(AllSignals)
    else if reply.result == -1 then
      if reply.errno == EINVAL then Fatal(ErrnoPanic(EINVAL)) else Unreachable
    else Unreachable
  }

  /** `block_signals`: `pthread_sigmask` returns its error number rather than
      setting `errno`. */
  function BlockSignals(result: int): (r: Outcome<(), ()>)
    ensures r.Ok? <==> result == 0
    ensures r.Fatal? <==> result == EFAULT || result == EINVAL
    ensures r.Fatal? ==> r.panic == ErrnoPanic(result)
    ensures !r.Err?
  {
    if result == 0 then Ok(())
    else if result == EFAULT then Fatal(ErrnoPanic(EFAULT))
    else if result == EINVAL then Fatal(ErrnoPanic(EINVAL))
    else Unreachable
  }

  // ---- `register_with_epoll`.

  /** What `register_with_epoll` does to the outside world, in order. */
  datatype Effect = FillMask | CreateSignalFileDescriptor | BlockAllSignals | AddToEPoll(call: CtlCall)

  /** The kernel's answers to the four steps: `sigfillset`, creating the signal
      file descriptor (its number or its creation error), `pthread_sigmask` and
      `epoll_ctl`. */
  datatype RegistrationReplies = RegistrationReplies(mask: Syscall, creation: Outcome<int, CreationError>, block: int, add: Syscall)

  /** The result of the steps and what they did. */
  datatype Registered = Registered(result: Outcome<int, EPollRegistrationError>, effects: seq<Effect>, signalsBlocked: bool, registrations: seq<CtlCall>)

  /** The steps of `register_with_epoll`, from a thread whose blocked state is
      `blocked`: each step runs only when the one before succeeded, and a
      failed `add` leaves the signals blocked. */
  function RegisterSteps(epoll: EPollFileDescriptor, signalToken: u64, replies: RegistrationReplies, blocked: bool): (r: Registered)
    ensures 1 <= |r.effects| <= 4 && r.effects[0] == FillMask
    ensures r.result.Ok? <==> |r.registrations| == 1
    ensures r.signalsBlocked == (blocked || |r.effects| == 4)
  {
    match NewFilledSignalMask(replies.mask)
    case Fatal(p) => Registered(Fatal(p), [FillMask], blocked, [])
    case Ok(mask) => (
      match replies.creation
      case Err(e) => Registered(Err(FromCreationError(e)), [FillMask, CreateSignalFileDescriptor], blocked, [])
      case Fatal(p) => Registered(Fatal(p), [FillMask, CreateSignalFileDescriptor], blocked, [])
      case Unreachable => Registered(Unreachable, [FillMask, CreateSignalFileDescriptor], blocked, [])
      case Ok(signalFd) => (
        match BlockSignals(replies.block)
        case Fatal(p) => Registered(Fatal(p), [FillMask, CreateSignalFileDescriptor, BlockAllSignals], blocked, [])
        case Ok(_) => (
          var ctl := Add(epoll, signalFd, EdgeTriggeredInput, signalToken, replies.add);
          var effects := [FillMask, CreateSignalFileDescriptor, BlockAllSignals, AddToEPoll(ctl.call)];
          match ctl.outcome
          case Ok(_) => Registered(Ok(signalFd), effects, true, [ctl.call])
          case Err(e) => Registered(Err(FromAddError(e)), effects, true, [])
          case Fatal(p) => Registered(Fatal(p), effects, true, [])
          case Unreachable => Registered(Unreachable, effects, true, []))
        case _ => Registered(Unreachable, [FillMask, CreateSignalFileDescriptor, BlockAllSignals], blocked, []))
      )
    case _ => Registered(Unreachable, [FillMask], blocked, [])
  }

  /** The steps run in their fixed order: every run is a prefix of mask, create,
      block, add. */
  lemma RegisterStepsInOrder(epoll: EPollFileDescriptor, signalToken: u64, replies: RegistrationReplies, blocked: bool)
    ensures var g := RegisterSteps(epoll, signalToken, replies, blocked);
            1 <= |g.effects| <= 4 && g.effects[0] == FillMask
            && (|g.effects| >= 2 ==> g.effects[1] == CreateSignalFileDescriptor)
            && (|g.effects| >= 3 ==> g.effects[2] == BlockAllSignals)
            && (|g.effects| == 4 ==> g.effects[3].AddToEPoll?)
            && (g.result.Ok? ==> |g.effects| == 4)
  {
  }

  /** A creation failure returns `Creation(e)` before any signal is blocked
      and before epoll is touched. */
  lemma CreationFailureBlocksNothing(epoll: EPollFileDescriptor, signalToken: u64, replies: RegistrationReplies, blocked: bool, e: CreationError)
    requires replies.mask.result == 0 && replies.creation == Err(e)
    ensures RegisterSteps(epoll, signalToken, replies, blocked)
         == Registered(Err(EPollRegistrationError.Creation(e)), [FillMask, CreateSignalFileDescriptor], blocked, [])
  {
  }

  /** An `add` failure returns `Registration(e)` and leaves all signals
      blocked: nothing is rolled back. */
  lemma AddFailureKeepsSignalsBlocked(epoll: EPollFileDescriptor, signalToken: u64, replies: RegistrationReplies, blocked: bool, e: EPollAddError)
    requires replies.mask.result == 0 && replies.creation.Ok? && replies.block == 0
    requires replies.add == Syscall(-1, AddErrno(e))
    ensures var g := RegisterSteps(epoll, signalToken, replies, blocked);
            g.result == Err(Registration(e)) && g.signalsBlocked && g.registrations == []
  {
    AddErrorsRoundTrip(epoll, replies.creation.value, EdgeTriggeredInput, signalToken, e, replies.add);
  }

  /** A registration that succeeds adds the signal file descriptor for
      edge-triggered input with the caller's token unchanged, and blocks every
      signal; it succeeds exactly when all four steps do. */
  lemma RegistrationSucceeds(epoll: EPollFileDescriptor, signalToken: u64, replies: RegistrationReplies, blocked: bool)
    ensures var g := RegisterSteps(epoll, signalToken, replies, blocked);
            (g.result.Ok? <==> replies.mask.result == 0 && replies.creation.Ok? && replies.block == 0 && replies.add.result == 0)
            && (g.result.Ok? ==>
                  g.result.value == replies.creation.value && g.signalsBlocked
                  && g.registrations == [CtlCall(epoll.fd, CtlAdd, replies.creation.value, Some(EPollEvent(EdgeTriggeredInput, signalToken)))])
  {
  }

  /** The thread's blocked-signal flag and the registrations of one epoll
      instance, with the trace of what was done to them. */
  class Kernel {
    var signalsBlocked: bool
    var registrations: seq<CtlCall>
    var effects: seq<Effect>

    constructor ()
      ensures !signalsBlocked && registrations == [] && effects == []
    {
      signalsBlocked := false;
      registrations := [];
      effects := [];
    }

    /** `register_with_epoll`: on success, the new reactor's signal file
        descriptor. */
    method RegisterWithEpoll(epoll: EPollFileDescriptor, signalToken: u64, replies: RegistrationReplies) returns (r: Outcome<int, EPollRegistrationError>)
      modifies this
      ensures var g := RegisterSteps(epoll, signalToken, replies, old(signalsBlocked));
              r == g.result && signalsBlocked == g.signalsBlocked
              && effects == old(effects) + g.effects && registrations == old(registrations) + g.registrations
    {
      effects := effects + [FillMask];
      var mask := NewFilledSignalMask(replies.mask);
      if !mask.Ok? {
        return if mask.Fatal? then Fatal(mask.panic) else Unreachable;
      }
      effects := effects + [CreateSignalFileDescriptor];
      if !replies.creation.Ok? {
        match replies.creation
        case Err(e) => return Err(FromCreationError(e));
        case Fatal(p) => return Fatal(p);
        case Unreachable => return Unreachable;
      }
      var signalFd := replies.creation.value;
      effects := effects + [BlockAllSignals];
      var blocking := BlockSignals(replies.block);
      if !blocking.Ok? {
        return if blocking.Fatal? then Fatal(blocking.panic) else Unreachable;
      }
      signalsBlocked := true;
      var ctl := Add(epoll, signalFd, EdgeTriggeredInput, signalToken, replies.add);
      effects := effects + [AddToEPoll(ctl.call)];
      match ctl.outcome
      case Ok(_) =>
        registrations := registrations + [ctl.call];
        r := Ok(signalFd);
      case Err(e) => r := Err(FromAddError(e));
      case Fatal(p) => r := Fatal(p);
      case Unreachable => r := Unreachable;
    }
  }

  // ---- `react`.

  /** The handler calls of one batch: each record in order, until the first
      one the handler fails. */
  datatype Handled = Handled(result: Outcome<(), ()>, calls: seq<SignalInfo>)

  function HandleBatch(batch: seq<SignalInfo>, handler: SignalInfo -> bool): (h: Handled)
    ensures h.result.Ok? || h.result.Err?
    ensures h.calls <= batch
    ensures forall i | 0 <= i < |h.calls| - 1 :: handler(h.calls[i])
    ensures h.result.Ok? <==> h.calls == batch && forall i | 0 <= i < |batch| :: handler(batch[i])
    ensures h.result.Err? ==> h.calls != [] && !handler(h.calls[|h.calls| - 1])
    decreases |batch|
  {
    if batch == [] then Handled(Ok(()), [])
    else if !handler(batch[0]) then Handled(Err(()), [batch[0]])
    else
      var rest := HandleBatch(batch[1..], handler);
      assert [batch[0]] + batch[1..] == batch;
      Handled(rest.result, [batch[0]] + rest.calls)
  }

  /** The records one read returns: the pending signals, at most 32 of them,
      or `WouldBlock` when none is pending; `fault` is a failure the kernel
      reports instead. */
  function ReadBatch(pending: seq<SignalInfo>, fault: Option<StructReadError>): (r: Outcome<seq<SignalInfo>, StructReadError>)
    ensures r.Ok? || r.Err?
    ensures r.Ok? ==> 0 < |r.value| <= SignalsPerRead && r.value <= pending
    ensures r.Ok? <==> fault.None? && pending != []
    ensures r.Err? && fault.None? ==> r.error == StructReadError.WouldBlock
  {
    if fault.Some? then Err(fault.value)
    else if pending == [] then Err(StructReadError.WouldBlock)
    else if |pending| <= SignalsPerRead then Ok(pending)
    else Ok(pending[..SignalsPerRead])
  }

  /** What one `react` does: nothing after `WouldBlock`, a panic after
      `Cancelled` or `Interrupted`, else the handler calls of the batch. */
  function ReactSpec(pending: seq<SignalInfo>, fault: Option<StructReadError>, handler: SignalInfo -> bool): (h: Handled)
    ensures |h.calls| <= SignalsPerRead
    ensures fault == Some(StructReadError.WouldBlock) || (fault.None? && pending == []) ==> h == Handled(Ok(()), [])
    ensures fault == Some(Cancelled) ==> h == Handled(Fatal(SignalReadCancelled), [])
    ensures fault == Some(StructReadError.Interrupted) ==> h == Handled(Fatal(SignalReadInterrupted), [])
    ensures h.result.Fatal? <==> fault == Some(Cancelled) || fault == Some(StructReadError.Interrupted)
    ensures fault.None? && pending != [] ==>
              h == HandleBatch(if |pending| <= SignalsPerRead then pending else pending[..SignalsPerRead], handler)
  {
    match ReadBatch(pending, fault)
    case Ok(batch) => HandleBatch(batch, handler)
    case Err(WouldBlock) => Handled(Ok(()), [])
    case Err(Cancelled) => Handled(Fatal(SignalReadCancelled), [])
    case Err(Interrupted) => Handled(Fatal(SignalReadInterrupted), [])
  }

  /** The signal file descriptor: the signals delivered to it and not yet
      read. */
  class SignalFileDescriptor {
    /** The descriptor number, fixed at creation: no read changes it. */
    const fd: int
    var pending: seq<SignalInfo>

    constructor (fd: int, pending: seq<SignalInfo>)
      ensures this.fd == fd && this.pending == pending
    {
      this.fd := fd;
      this.pending := pending;
    }

    /** A read into a 32-record buffer removes the records it returns. */
    method Read(fault: Option<StructReadError>) returns (r: Outcome<seq<SignalInfo>, StructReadError>)
      modifies this
      ensures r == ReadBatch(old(pending), fault)
      ensures r.Ok? ==> pending == old(pending)[|r.value|..]
      ensures !r.Ok? ==> pending == old(pending)
    {
      r := ReadBatch(pending, fault);
      if r.Ok? {
        pending := pending[|r.value|..];
      }
    }
  }

  class AllSignalReactor {
    const handler: SignalInfo -> bool
    const signalFileDescriptor: SignalFileDescriptor

    constructor (handler: SignalInfo -> bool, signalFileDescriptor: SignalFileDescriptor)
      ensures this.handler == handler && this.signalFileDescriptor == signalFileDescriptor
    {
      this.handler := handler;
      this.signalFileDescriptor := signalFileDescriptor;
    }

    /** `react`: the flags must be exactly `Input`. Returns the handler calls
        made, in order, along with the result. */
    method React(flags: int, fault: Option<StructReadError>) returns (r: Outcome<(), ()>, calls: seq<SignalInfo>)
      requires flags == Input
      modifies signalFileDescriptor
      ensures Handled(r, calls) == ReactSpec(old(signalFileDescriptor.pending), fault, handler)
      ensures var b := ReadBatch(old(signalFileDescriptor.pending), fault);
              signalFileDescriptor.pending == (if b.Ok? then old(signalFileDescriptor.pending)[|b.value|..] else old(signalFileDescriptor.pending))
    {
      var read := signalFileDescriptor.Read(fault);
      calls := [];
      match read {
        case Err(WouldBlock) => r := Ok(());
        case Err(Cancelled) => r := Fatal(SignalReadCancelled);
        case Err(Interrupted) => r := Fatal(SignalReadInterrupted);
        case Ok(signals) => r, calls := HandleSignals(signals, handler);
      }
    }
  }

  /** The loop of `react` over one batch: each record goes to the handler, and
      the first one it refuses ends the batch with an error. */
  method HandleSignals(signals: seq<SignalInfo>, handler: SignalInfo -> bool) returns (r: Outcome<(), ()>, calls: seq<SignalInfo>)
    ensures Handled(r, calls) == HandleBatch(signals, handler)
  {
    calls := [];
    for i := 0 to |signals|
      invariant calls == signals[..i]
      invariant forall j | 0 <= j < i :: handler(signals[j])
    {
      calls := calls + [signals[i]];
      if !handler(signals[i]) {
        r := Err(());
        HandleBatchStopsAt(signals, handler, i);
        return;
      }
    }
    assert signals[..|signals|] == signals;
    HandleBatchAllSucceed(signals, handler);
    r := Ok(());
  }

  /** The batch's handling stops at its first failing record. */
  lemma {:induction false} HandleBatchStopsAt(batch: seq<SignalInfo>, handler: SignalInfo -> bool, k: nat)
    requires k < |batch| && !handler(batch[k]) && forall j | 0 <= j < k :: handler(batch[j])
    ensures HandleBatch(batch, handler) == Handled(Err(()), batch[..k + 1])
    decreases k
  {
    if k > 0 {
      HandleBatchStopsAt(batch[1..], handler, k - 1);
      assert [batch[0]] + batch[1..][..k] == batch[..k + 1];
    }
  }

  /** A batch the handler accepts throughout is handled whole. */
  lemma {:induction false} HandleBatchAllSucceed(batch: seq<SignalInfo>, handler: SignalInfo -> bool)
    requires forall j | 0 <= j < |batch| :: handler(batch[j])
    ensures HandleBatch(batch, handler) == Handled(Ok(()), batch)
    decreases |batch|
  {
    if batch != [] {
      HandleBatchAllSucceed(batch[1..], handler);
      assert [batch[0]] + batch[1..] == batch;
    }
  }
}
