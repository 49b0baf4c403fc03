/** The epoll wrapper `EPollFileDescriptor`: how each operation turns the kernel's
    reply into a typed error, a fatal contract violation, or an impossible case,
    and what each operation hands to the kernel. */
module EPoll {
  import opened Linux
  import opened Outcomes

  /** Errors of creating a descriptor (shared with the signal file descriptor). */
  datatype CreationError =
    | PerProcessLimitOnNumberOfFileDescriptorsWouldBeExceeded
    | SystemWideLimitOnTotalNumberOfFileDescriptorsWouldBeExceeded
    | KernelWouldBeOutOfMemory

  datatype EPollAddError = ThereWasInsufficientKernelMemory | LimitOnWatchesWouldBeExceeded

  datatype EPollModifyError = ThereWasInsufficientKernelMemory

  /** The error type the `EventPoll` interface gives `delete`; the concrete
      `delete` never produces it. */
  datatype EPollDeleteError = ThereWasInsufficientKernelMemory

  datatype EPollWaitError = Interrupted

  datatype EPollFileDescriptor = EPollFileDescriptor(fd: int)

  /** The `epoll_event` structure: the flag bits and the 64-bit user data (token). */
  datatype EPollEvent = EPollEvent(events: u32, data: u64)

  datatype CtlOperation = CtlAdd | CtlModify | CtlDelete

  /** One `epoll_ctl` call: the epoll descriptor, the operation, the target
      descriptor and the event passed (`None` for the null pointer). */
  datatype CtlCall = CtlCall(epfd: int, op: CtlOperation, fd: int, event: Option<EPollEvent>)

  /** An `epoll_ctl`-based operation: the call made and what it returned. */
  datatype Ctl<+E> = Ctl(call: CtlCall, outcome: Outcome<(), E>)

  /** An `epoll_wait` or `epoll_pwait` call: the descriptor, `maxevents`, the
      timeout and, for `epoll_pwait`, the temporary signal mask (as a set of
      signal numbers). */
  datatype WaitCall = WaitCall(epfd: int, maxEvents: int, timeOut: int, signalMask: Option<set<int>>)

  datatype WaitResult = WaitResult(call: WaitCall, outcome: Outcome<seq<EPollEvent>, EPollWaitError>)

  // The classification tables: each recoverable errno with its typed error, and
  // the errnos that signal a defect in the calling code.

  const CreationErrors: map<int, CreationError> := map[
    EMFILE := PerProcessLimitOnNumberOfFileDescriptorsWouldBeExceeded,
    ENFILE := SystemWideLimitOnTotalNumberOfFileDescriptorsWouldBeExceeded,
    ENOMEM := KernelWouldBeOutOfMemory]
  const CreationFatal: set<int> := {EINVAL}

  const AddErrors: map<int, EPollAddError> := map[
    ENOMEM := EPollAddError.ThereWasInsufficientKernelMemory,
    ENOSPC := LimitOnWatchesWouldBeExceeded]
  const AddFatal: set<int> := {EBADF, EEXIST, EINVAL, ELOOP, EPERM}

  const ModifyErrors: map<int, EPollModifyError> := map[
    ENOMEM := EPollModifyError.ThereWasInsufficientKernelMemory]
  const ModifyFatal: set<int> := {EBADF, EINVAL, ENOENT, EPERM}

  const DeleteFatal: set<int> := {ENOMEM, EBADF, EINVAL, ENOENT, EPERM}

  const WaitFatal: set<int> := {EBADF, EFAULT, EINVAL}

  /** `new`: `epoll_create1(EPOLL_CLOEXEC)`. */
  function New(reply: Syscall): (r: Outcome<EPollFileDescriptor, CreationError>)
    ensures r.Ok? <==> reply.result >= 0
    ensures r.Ok? ==> r.value.fd == reply.result
    ensures r.Err? <==> reply.result == -1 && reply.errno in CreationErrors
    ensures r.Err? ==> r.error == CreationErrors[reply.errno]
    ensures r.Fatal? <==> reply.result == -1 && reply.errno in CreationFatal
    ensures r.Fatal? ==> r.panic == ErrnoPanic(reply.errno)
    ensures r.Unreachable? <==> reply.result < -1 || (reply.result == -1 && reply.errno !in CreationErrors && reply.errno !in CreationFatal)
  {
    if reply.result >= 0 then Ok(EPollFileDescriptor(reply.result))
    else if reply.result == -1 then
      match reply.errno
      case EMFILE => Err(PerProcessLimitOnNumberOfFileDescriptorsWouldBeExceeded)
      case ENFILE => Err(SystemWideLimitOnTotalNumberOfFileDescriptorsWouldBeExceeded)
      case ENOMEM => Err(KernelWouldBeOutOfMemory)
      case EINVAL => Fatal(ErrnoPanic(EINVAL))
      case _ => Unreachable
    else Unreachable
  }

  /** The shared body of `wait` and `wait_signalled`: the kernel has filled the
      caller's buffer, now `events`, and replied. */
  function WaitOutcome(events: seq<EPollEvent>, reply: Syscall): (r: Outcome<seq<EPollEvent>, EPollWaitError>)
    ensures r.Ok? <==> 0 <= reply.result <= |events|
    ensures r.Ok? ==> |r.value| == reply.result && r.value <= events
    ensures reply.result == 0 ==> r == Ok([])
    ensures r.Err? <==> reply.result == -1 && reply.errno == EINTR
    ensures r.Fatal? <==> reply.result > |events| || (reply.result == -1 && reply.errno in WaitFatal)
    ensures r.Fatal? && reply.result > |events| ==> r.panic == SliceOutOfBounds
    ensures r.Fatal? && reply.result == -1 ==> r.panic == ErrnoPanic(reply.errno)
  {
    if reply.result >= 0 then
      // `&events[0 .. result]` panics when the count exceeds the buffer
      if reply.result <= |events| then Ok(events[..reply.result]) else Fatal(SliceOutOfBounds)
    else if reply.result == -1 then
      match reply.errno
      case EINTR => Err(EPollWaitError.Interrupted)
      case EBADF => Fatal(ErrnoPanic(EBADF))
      case EFAULT => Fatal(ErrnoPanic(EFAULT))
      case EINVAL => Fatal(ErrnoPanic(EINVAL))
      case _ => Unreachable
    else Unreachable
  }

  /** `wait`: `epoll_wait` into `events`; the buffer must be non-empty and its
      length must fit an `i32` (the two debug assertions). */
  function Wait(epoll: EPollFileDescriptor, events: seq<EPollEvent>, timeOut: int, reply: Syscall): (r: WaitResult)
    requires 0 < |events| <= I32Max
    ensures r.call == WaitCall(epoll.fd, |events|, timeOut, None)
    ensures r.outcome == WaitOutcome(events, reply)
  {
    WaitResult(WaitCall(epoll.fd, |events|, timeOut, None), WaitOutcome(events, reply))
  }

  /** `wait_signalled`: `epoll_pwait` with a temporary signal mask; same contract
      as `wait`. */
  function WaitSignalled(epoll: EPollFileDescriptor, events: seq<EPollEvent>, timeOut: int, signalMask: set<int>, reply: Syscall): (r: WaitResult)
    requires 0 < |events| <= I32Max
    ensures r.call == WaitCall(epoll.fd, |events|, timeOut, Some(signalMask))
    ensures r.outcome == WaitOutcome(events, reply)
  {
    WaitResult(WaitCall(epoll.fd, |events|, timeOut, Some(signalMask)), WaitOutcome(events, reply))
  }

  /** `add`: `epoll_ctl(EPOLL_CTL_ADD)` with the flags' bits and the token. */
  function Add(epoll: EPollFileDescriptor, fd: int, flags: u32, token: u64, reply: Syscall): (r: Ctl<EPollAddError>)
    ensures r.call == CtlCall(epoll.fd, CtlAdd, fd, Some(EPollEvent(flags, token)))
    ensures r.outcome.Ok? <==> reply.result == 0
    ensures r.outcome.Err? <==> reply.result == -1 && reply.errno in AddErrors
    ensures r.outcome.Err? ==> r.outcome.error == AddErrors[reply.errno]
    ensures r.outcome.Fatal? <==> reply.result == -1 && reply.errno in AddFatal
    ensures r.outcome.Fatal? ==> r.outcome.panic == ErrnoPanic(reply.errno)
  {
    var call := CtlCall(epoll.fd, CtlAdd, fd, Some(EPollEvent(flags, token)));
    var outcome: Outcome<(), EPollAddError> :=
      if reply.result == 0 then Ok(())
      else if reply.result == -1 then
        match reply.errno
        case ENOMEM => Err(EPollAddError.ThereWasInsufficientKernelMemory)
        case ENOSPC => Err(LimitOnWatchesWouldBeExceeded)
        case EBADF => Fatal(ErrnoPanic(EBADF))
        case EEXIST => Fatal(ErrnoPanic(EEXIST))
        case EINVAL => Fatal(ErrnoPanic(EINVAL))
        case ELOOP => Fatal(ErrnoPanic(ELOOP))
        case EPERM => Fatal(ErrnoPanic(EPERM))
        case _ => Unreachable
      else Unreachable;
    Ctl(call, outcome)
  }

  /** `modify`: `epoll_ctl(EPOLL_CTL_MOD)` with the flags' bits and the token. */
  function Modify(epoll: EPollFileDescriptor, fd: int, flags: u32, token: u64, reply: Syscall): (r: Ctl<EPollModifyError>)
    ensures r.call == CtlCall(epoll.fd, CtlModify, fd, Some(EPollEvent(flags, token)))
    ensures r.outcome.Ok? <==> reply.result == 0
    ensures r.outcome.Err? <==> reply.result == -1 && reply.errno in ModifyErrors
    ensures r.outcome.Err? ==> r.outcome.error == ModifyErrors[reply.errno]
    ensures r.outcome.Fatal? <==> reply.result == -1 && reply.errno in ModifyFatal
    ensures r.outcome.Fatal? ==> r.outcome.panic == ErrnoPanic(reply.errno)
  {
    var call := CtlCall(epoll.fd, CtlModify, fd, Some(EPollEvent(flags, token)));
    var outcome: Outcome<(), EPollModifyError> :=
      if reply.result == 0 then Ok(())
      else if reply.result == -1 then
        match reply.errno
        case ENOMEM => Err(EPollModifyError.ThereWasInsufficientKernelMemory)
        case EBADF => Fatal(ErrnoPanic(EBADF))
        case EINVAL => Fatal(ErrnoPanic(EINVAL))
        case ENOENT => Fatal(ErrnoPanic(ENOENT))
        case EPERM => Fatal(ErrnoPanic(EPERM))
        case _ => Unreachable
      else Unreachable;
    Ctl(call, outcome)
  }

  /** `delete`: `epoll_ctl(EPOLL_CTL_DEL)` with a null event. The concrete method
      returns nothing, so no typed error is ever produced, not even for `ENOMEM`. */
  function Delete(epoll: EPollFileDescriptor, fd: int, reply: Syscall): (r: Ctl<EPollDeleteError>)
    ensures r.call == CtlCall(epoll.fd, CtlDelete, fd, None)
    ensures r.outcome.Ok? <==> reply.result == 0
    ensures !r.outcome.Err?
    ensures r.outcome.Fatal? <==> reply.result == -1 && reply.errno in DeleteFatal
    ensures r.outcome.Fatal? ==> r.outcome.panic == ErrnoPanic(reply.errno)
  {
    var call := CtlCall(epoll.fd, CtlDelete, fd, None);
    var outcome: Outcome<(), EPollDeleteError> :=
      if reply.result == 0 then Ok(())
      else if reply.result == -1 then
        match reply.errno
        case ENOMEM => Fatal(ErrnoPanic(ENOMEM))
        case EBADF => Fatal(ErrnoPanic(EBADF))
        case EINVAL => Fatal(ErrnoPanic(EINVAL))
        case ENOENT => Fatal(ErrnoPanic(ENOENT))
        case EPERM => Fatal(ErrnoPanic(EPERM))
        case _ => Unreachable
      else Unreachable;
    Ctl(call, outcome)
  }

  // ---- The inverse of each table: the one errno behind each typed error.

  function CreationErrno(e: CreationError): int {
    match e
    case PerProcessLimitOnNumberOfFileDescriptorsWouldBeExceeded => EMFILE
    case SystemWideLimitOnTotalNumberOfFileDescriptorsWouldBeExceeded => ENFILE
    case KernelWouldBeOutOfMemory => ENOMEM
  }

  function AddErrno(e: EPollAddError): int {
    match e
    case ThereWasInsufficientKernelMemory => ENOMEM
    case LimitOnWatchesWouldBeExceeded => ENOSPC
  }

  /** Every creation error is produced by exactly one errno, and that errno
      is not one of the fatal ones. */
  lemma NewErrorsRoundTrip(e: CreationError, errno: int)
    ensures New(Syscall(-1, CreationErrno(e))) == Err(e)
    ensures New(Syscall(-1, errno)) == Err(e) ==> errno == CreationErrno(e)
    ensures CreationErrno(e) !in CreationFatal
  {
  }

  /** Every add error is produced by exactly one errno, and the event handed to
      the kernel does not depend on the reply. */
  lemma AddErrorsRoundTrip(epoll: EPollFileDescriptor, fd: int, flags: u32, token: u64, e: EPollAddError, reply: Syscall)
    ensures Add(epoll, fd, flags, token, Syscall(-1, AddErrno(e))).outcome == Err(e)
    ensures Add(epoll, fd, flags, token, reply).outcome == Err(e) ==> reply == Syscall(-1, AddErrno(e))
    ensures Add(epoll, fd, flags, token, reply).call == Add(epoll, fd, flags, token, Syscall(0, 0)).call
  {
  }

  /** `ENOMEM` is a recoverable error for `add` and `modify`, but a fatal one for
      `delete`, whose interface type nevertheless declares it as an error. */
  lemma EnomemIsRecoverableExceptOnDelete(epoll: EPollFileDescriptor, fd: int, flags: u32, token: u64)
    ensures Add(epoll, fd, flags, token, Syscall(-1, ENOMEM)).outcome == Err(EPollAddError.ThereWasInsufficientKernelMemory)
    ensures Modify(epoll, fd, flags, token, Syscall(-1, ENOMEM)).outcome == Err(EPollModifyError.ThereWasInsufficientKernelMemory)
    ensures Delete(epoll, fd, Syscall(-1, ENOMEM)).outcome == Fatal(ErrnoPanic(ENOMEM))
  {
  }

  /** `wait` and `wait_signalled` differ only in the signal mask passed. */
  lemma WaitSignalledAgreesWithWait(epoll: EPollFileDescriptor, events: seq<EPollEvent>, timeOut: int, mask: set<int>, reply: Syscall)
    requires 0 < |events| <= I32Max
    ensures WaitSignalled(epoll, events, timeOut, mask, reply).outcome == Wait(epoll, events, timeOut, reply).outcome
    ensures WaitSignalled(epoll, events, timeOut, mask, reply).call == Wait(epoll, events, timeOut, reply).call.(signalMask := Some(mask))
  {
  }
}
