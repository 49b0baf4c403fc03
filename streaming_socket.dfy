/** `StreamingSocketFileDescriptor`: how receive, send, sendfile and shutdown
    replies become I/O results. A zero-length request returns before any system
    call, so its outcome does not depend on the kernel reply at all. */
module StreamingSocket {
  import opened Linux
  import opened Outcomes

  /** The error of the `SendFile` operations. */
  datatype StructWriteError = WouldBlock | Interrupted | Cancelled

  const ReceiveErrors: map<int, IoErrorKind> := map[
    EAGAIN := IoErrorKind.WouldBlock,
    EINTR := IoErrorKind.Interrupted,
    ENOMEM := Other,
    ECONNRESET := ConnectionReset,
    ECONNREFUSED := ConnectionRefused]
  const ReceiveFatal: set<int> := {EBADF, EFAULT, EINVAL, ENOTCONN, ENOTSOCK, EOPNOTSUPP}
  /** The kinds `receive_from` documents that it can return. */
  const ReceiveDocumentedKinds: set<IoErrorKind> :=
    {UnexpectedEof, IoErrorKind.WouldBlock, IoErrorKind.Interrupted, Other, ConnectionReset, ConnectionRefused}

  const SendErrors: map<int, IoErrorKind> := map[
    EAGAIN := IoErrorKind.WouldBlock,
    EINTR := IoErrorKind.Interrupted,
    ENOMEM := Other,
    ENOBUFS := Other,
    EPIPE := BrokenPipe,
    EACCES := PermissionDenied,
    ECONNRESET := ConnectionReset]
  const SendFatal: set<int> :=
    {EBADF, EFAULT, EINVAL, ENOTCONN, ENOTSOCK, EOPNOTSUPP, EMSGSIZE, EISCONN, EDESTADDRREQ}
  /** The kinds `send_to` documents that it can return. */
  const SendDocumentedKinds: set<IoErrorKind> :=
    {WriteZero, IoErrorKind.WouldBlock, IoErrorKind.Interrupted, Other, BrokenPipe, PermissionDenied, ConnectionReset}

  const SendFileErrors: map<int, StructWriteError> := map[
    EAGAIN := StructWriteError.WouldBlock,
    ENOMEM := StructWriteError.WouldBlock,
    EINTR := StructWriteError.Interrupted,
    EIO := Cancelled]
  const SendFileFatal: set<int> := {EBADF, EFAULT, EINVAL}

  const ShutdownFatal: set<int> := {EBADF, EINVAL, ENOTCONN, ENOTSOCK}

  /** `receive_from`: `recvfrom` into a buffer of `length` bytes. */
  function ReceiveFrom(length: nat, reply: Syscall): (r: Outcome<nat, IoErrorKind>)
    ensures length == 0 ==> r == Ok(0)
    ensures length > 0 ==> (r.Ok? <==> reply.result > 0)
    ensures length > 0 && r.Ok? ==> r.value == reply.result
    ensures length > 0 && reply.result == 0 ==> r == Err(UnexpectedEof)
    ensures length > 0 && reply.result == -1 ==>
      (r.Err? <==> reply.errno in ReceiveErrors) &&
      (r.Err? ==> r.error == ReceiveErrors[reply.errno]) &&
      (r.Fatal? <==> reply.errno in ReceiveFatal) &&
      (r.Fatal? ==> r.panic == ErrnoPanic(reply.errno))
    ensures r.Err? ==> r.error in ReceiveDocumentedKinds
    ensures length > 0 && reply.result < -1 ==> r == Unreachable
  {
    if length == 0 then Ok(0)
    else if reply.result > 0 then Ok(reply.result)
    else if reply.result == 0 then Err(UnexpectedEof)
    else if reply.result == -1 then
      match reply.errno
      case EAGAIN => Err(IoErrorKind.WouldBlock)
      case EINTR => Err(IoErrorKind.Interrupted)
      case ENOMEM => Err(Other)
      case ECONNRESET => Err(ConnectionReset)
      case ECONNREFUSED => Err(ConnectionRefused)
      case EBADF => Fatal(ErrnoPanic(EBADF))
      case EFAULT => Fatal(ErrnoPanic(EFAULT))
      case EINVAL => Fatal(ErrnoPanic(EINVAL))
      case ENOTCONN => Fatal(ErrnoPanic(ENOTCONN))
      case ENOTSOCK => Fatal(ErrnoPanic(ENOTSOCK))
      case EOPNOTSUPP => Fatal(ErrnoPanic(EOPNOTSUPP))
      case _ => Unreachable
    else Unreachable
  }

  /** `send_to`: `send` of a buffer of `length` bytes with `MSG_NOSIGNAL`. */
  function SendTo(length: nat, reply: Syscall): (r: Outcome<nat, IoErrorKind>)
    ensures length == 0 ==> r == Ok(0)
    ensures length > 0 ==> (r.Ok? <==> reply.result > 0)
    ensures length > 0 && r.Ok? ==> r.value == reply.result
    ensures length > 0 && reply.result == 0 ==> r == Err(WriteZero)
    ensures length > 0 && reply.result == -1 ==>
      (r.Err? <==> reply.errno in SendErrors) &&
      (r.Err? ==> r.error == SendErrors[reply.errno]) &&
      (r.Fatal? <==> reply.errno in SendFatal) &&
      (r.Fatal? ==> r.panic == ErrnoPanic(reply.errno))
    ensures r.Err? ==> r.error in SendDocumentedKinds
    ensures length > 0 && reply.result < -1 ==> r == Unreachable
  {
    if length == 0 then Ok(0)
    else if reply.result > 0 then Ok(reply.result)
    else if reply.result == 0 then Err(WriteZero)
    else if reply.result == -1 then
      match reply.errno
      case EAGAIN => Err(IoErrorKind.WouldBlock)
      case EINTR => Err(IoErrorKind.Interrupted)
      case ENOMEM => Err(Other)
      case ENOBUFS => Err(Other)
      case EPIPE => Err(BrokenPipe)
      case EACCES => Err(PermissionDenied)
      case ECONNRESET => Err(ConnectionReset)
      case EBADF => Fatal(ErrnoPanic(EBADF))
      case EFAULT => Fatal(ErrnoPanic(EFAULT))
      case EINVAL => Fatal(ErrnoPanic(EINVAL))
      case ENOTCONN => Fatal(ErrnoPanic(ENOTCONN))
      case ENOTSOCK => Fatal(ErrnoPanic(ENOTSOCK))
      case EOPNOTSUPP => Fatal(ErrnoPanic(EOPNOTSUPP))
      case EMSGSIZE => Fatal(ErrnoPanic(EMSGSIZE))
      case EISCONN => Fatal(ErrnoPanic(EISCONN))
      case EDESTADDRREQ => Fatal(ErrnoPanic(EDESTADDRREQ))
      case _ => Unreachable
    else Unreachable
  }

  /** `io::Read::read`, which wraps `receive_from`. */
  function Read(length: nat, reply: Syscall): (r: Outcome<nat, IoErrorKind>)
    ensures r == ReceiveFrom(length, reply)
  {
    ReceiveFrom(length, reply)
  }

  /** `io::Write::write`, which wraps `send_to`. */
  function Write(length: nat, reply: Syscall): (r: Outcome<nat, IoErrorKind>)
    ensures r == SendTo(length, reply)
  {
    SendTo(length, reply)
  }

  /** `io::Write::flush`: a socket has nothing buffered in user space. */
  function Flush(): (r: Outcome<(), IoErrorKind>)
    ensures r.Ok?
  {
    Ok(())
  }

  /** The errno classification shared by both `sendfile` wrappers. */
  function SendFileFailure<T>(errno: int): (r: Outcome<T, StructWriteError>)
    ensures r.Err? <==> errno in SendFileErrors
    ensures r.Err? ==> r.error == SendFileErrors[errno]
    ensures r.Fatal? <==> errno in SendFileFatal
    ensures r.Fatal? ==> r.panic == ErrnoPanic(errno)
    ensures !r.Ok?
  {
    match errno
    case EAGAIN => Err(StructWriteError.WouldBlock)
    case ENOMEM => Err(StructWriteError.WouldBlock)
    case EINTR => Err(StructWriteError.Interrupted)
    case EIO => Err(Cancelled)
    case EBADF => Fatal(ErrnoPanic(EBADF))
    case EFAULT => Fatal(ErrnoPanic(EFAULT))
    case EINVAL => Fatal(ErrnoPanic(EINVAL))
    case _ => Unreachable
  }

  /** `write_output_from_file`: `sendfile` from the file's own offset. */
  function WriteOutputFromFile(maximum: nat, reply: Syscall): (r: Outcome<nat, StructWriteError>)
    ensures maximum == 0 ==> r == Ok(0)
    ensures maximum > 0 ==> (r.Ok? <==> reply.result >= 0)
    ensures maximum > 0 && r.Ok? ==> r.value == reply.result
    ensures maximum > 0 && reply.result == -1 ==>
      (r.Err? <==> reply.errno in SendFileErrors) &&
      (r.Err? ==> r.error == SendFileErrors[reply.errno]) &&
      (r.Fatal? <==> reply.errno in SendFileFatal)
    ensures maximum > 0 && reply.result == -1 ==> r == SendFileFailure(reply.errno)
    ensures maximum > 0 && reply.result < -1 ==> r == Unreachable
  {
    if maximum == 0 then Ok(0)
    else if reply.result >= 0 then Ok(reply.result)
    else if reply.result == -1 then SendFileFailure(reply.errno)
    else Unreachable
  }

  /** `write_output_from_file_with_offset`: `sendfile` from an explicit offset,
      which the kernel advances to `offsetAfter`; the new offset is returned. */
  function WriteOutputFromFileWithOffset(maximum: nat, offset: int, offsetAfter: int, reply: Syscall): (r: Outcome<(nat, int), StructWriteError>)
    ensures maximum == 0 ==> r == Ok((0, offset))
    ensures maximum > 0 ==> (r.Ok? <==> reply.result >= 0)
    ensures maximum > 0 && r.Ok? ==> r.value == (reply.result, offsetAfter)
    ensures maximum > 0 && reply.result == -1 ==>
      (r.Err? <==> reply.errno in SendFileErrors) &&
      (r.Err? ==> r.error == SendFileErrors[reply.errno]) &&
      (r.Fatal? <==> reply.errno in SendFileFatal)
    ensures maximum > 0 && reply.result == -1 ==> r == SendFileFailure(reply.errno)
    ensures maximum > 0 && reply.result < -1 ==> r == Unreachable
  {
    if maximum == 0 then Ok((0, offset))
    else if reply.result >= 0 then Ok((reply.result, offsetAfter))
    else if reply.result == -1 then SendFileFailure(reply.errno)
    else Unreachable
  }

  /** The two `sendfile` wrappers agree on everything but the offset they return. */
  lemma SendFileWrappersAgree(maximum: nat, offset: int, offsetAfter: int, reply: Syscall)
    ensures var plain := WriteOutputFromFile(maximum, reply);
            var withOffset := WriteOutputFromFileWithOffset(maximum, offset, offsetAfter, reply);
            (plain.Ok? <==> withOffset.Ok?) &&
            (plain.Ok? ==> plain.value == withOffset.value.0) &&
            (plain.Err? <==> withOffset.Err?) && (plain.Err? ==> plain.error == withOffset.error) &&
            (plain.Fatal? <==> withOffset.Fatal?) && (plain.Fatal? ==> plain.panic == withOffset.panic)
  {
  }

  /** Every kind `receive_from` and `send_to` document is produced by some reply,
      so the documented lists are exact. */
  lemma DocumentedKindsAreReachable(k: IoErrorKind)
    ensures k in ReceiveDocumentedKinds ==> exists reply :: ReceiveFrom(1, reply) == Err(k)
    ensures k in SendDocumentedKinds ==> exists reply :: SendTo(1, reply) == Err(k)
  {
    if k in ReceiveDocumentedKinds {
      var example :=
        match k
        case UnexpectedEof => Syscall(0, 0)
        case WouldBlock => Syscall(-1, EAGAIN)
        case Interrupted => Syscall(-1, EINTR)
        case Other => Syscall(-1, ENOMEM)
        case ConnectionReset => Syscall(-1, ECONNRESET)
        case _ => Syscall(-1, ECONNREFUSED);
      assert ReceiveFrom(1, example) == Err(k);
    }
    if k in SendDocumentedKinds {
      var example :=
        match k
        case WriteZero => Syscall(0, 0)
        case WouldBlock => Syscall(-1, EAGAIN)
        case Interrupted => Syscall(-1, EINTR)
        case Other => Syscall(-1, ENOBUFS)
        case BrokenPipe => Syscall(-1, EPIPE)
        case PermissionDenied => Syscall(-1, EACCES)
        case _ => Syscall(-1, ECONNRESET);
      assert SendTo(1, example) == Err(k);
    }
  }

  /** `drop` as written: `shutdown(SHUT_RDWR)`; the errno match is guarded by
      `result != -1`, so the failure reply -1 falls through to `unreachable!()`. */
  function DropAsWritten(reply: Syscall): (r: Outcome<(), ()>)
    ensures r.Ok? <==> reply.result == 0
    ensures !r.Err?
    ensures reply.result == -1 ==> r.Unreachable?
    ensures r.Fatal? <==> reply.result != 0 && reply.result != -1 && reply.errno in ShutdownFatal
  {
    if reply.result == 0 then Ok(())
    else if reply.result != -1 then
      match reply.errno
      case EBADF => Fatal(ErrnoPanic(EBADF))
      case EINVAL => Fatal(ErrnoPanic(EINVAL))
      case ENOTCONN => Fatal(ErrnoPanic(ENOTCONN))
      case ENOTSOCK => Fatal(ErrnoPanic(ENOTSOCK))
      case _ => Unreachable
    else Unreachable
  }

  /** `drop` as evidently intended: a -1 reply is classified by its errno. */
  function Drop(reply: Syscall): (r: Outcome<(), ()>)
    ensures r.Ok? <==> reply.result == 0
    ensures !r.Err?
    ensures r.Fatal? <==> reply.result == -1 && reply.errno in ShutdownFatal
    ensures r.Fatal? ==> r.panic == ErrnoPanic(reply.errno)
  {
    if reply.result == 0 then Ok(())
    else if reply.result == -1 then
      match reply.errno
      case EBADF => Fatal(ErrnoPanic(EBADF))
      case EINVAL => Fatal(ErrnoPanic(EINVAL))
      case ENOTCONN => Fatal(ErrnoPanic(ENOTCONN))
      case ENOTSOCK => Fatal(ErrnoPanic(ENOTSOCK))
      case _ => Unreachable
    else Unreachable
  }

  /** The reversed guard: every documented `shutdown` failure, which the kernel
      reports as -1, misses its errno arm. */
  lemma DropAsWrittenMissesEveryErrno(errno: int)
    requires errno in ShutdownFatal
    ensures DropAsWritten(Syscall(-1, errno)) == Unreachable
    ensures Drop(Syscall(-1, errno)) == Fatal(ErrnoPanic(errno))
  {
  }
}
