/** The `PosixMessageQueue` interface's provided methods: capacity queries
    over the queue's two fixed maxima and its current depth, and `unlink`. */
module PosixMessageQueue {
  import opened Linux
  import opened Outcomes

  /** The two maxima fixed when the queue is opened; being a value, they never
      change for a given queue. */
  datatype QueueLimits = QueueLimits(maximumNumberOfEnqueuedMessages: nat, maximumMessageSizeInBytes: nat)

  datatype PosixMessageQueueUnlinkError = PermissionDenied | DoesNotExist

  const UnlinkErrors: map<int, PosixMessageQueueUnlinkError> := map[EACCES := PosixMessageQueueUnlinkError.PermissionDenied, ENOENT := DoesNotExist]

  /** `queue_is_full` as written: the depth is compared with the maximum
      message SIZE. What this means is stated against `QueueIsFull` by the two
      lemmas below. */
  function QueueIsFullAsWritten(limits: QueueLimits, depth: nat): bool
  {
    depth == limits.maximumMessageSizeInBytes
  }

  /** `queue_is_full` as evidently intended: no message can be enqueued. */
  function QueueIsFull(limits: QueueLimits, depth: nat): (r: bool)
    requires depth <= limits.maximumNumberOfEnqueuedMessages
    ensures r <==> RemainingSpace(limits, depth) == 0
  {
    depth == limits.maximumNumberOfEnqueuedMessages
  }

  /** `queue_is_empty`: the source asks nothing of the depth; within the
      maximum, empty means that all the space remains. */
  function QueueIsEmpty(limits: QueueLimits, depth: nat): (r: bool)
    ensures depth <= limits.maximumNumberOfEnqueuedMessages ==>
              (r <==> RemainingSpace(limits, depth) == limits.maximumNumberOfEnqueuedMessages)
  {
    depth == 0
  }

  /** `remaining_space`: an unsigned subtraction, which needs the depth not to
      exceed the maximum (the kernel keeps the count of queued messages within
      the queue's maximum). */
  function RemainingSpace(limits: QueueLimits, depth: nat): (r: nat)
    requires depth <= limits.maximumNumberOfEnqueuedMessages
    ensures r + depth == limits.maximumNumberOfEnqueuedMessages
  {
    limits.maximumNumberOfEnqueuedMessages - depth
  }

  /** A queue of ten 8 KiB messages holding ten messages is full, yet
      `queue_is_full` as written says it is not; and it would call a queue
      "full" whose depth merely equals the message size. */
  lemma QueueIsFullAsWrittenDisagrees()
    ensures var limits := QueueLimits(10, 8192);
            QueueIsFull(limits, 10) && !QueueIsFullAsWritten(limits, 10)
  {
  }

  /** The corrected query and the as-written one agree only where the two maxima
      coincide. */
  lemma QueueIsFullAgreesOnlyWhenMaximaCoincide(limits: QueueLimits)
    requires limits.maximumNumberOfEnqueuedMessages != limits.maximumMessageSizeInBytes
    ensures QueueIsFull(limits, limits.maximumNumberOfEnqueuedMessages)
    ensures !QueueIsFullAsWritten(limits, limits.maximumNumberOfEnqueuedMessages)
  {
  }

  /** `unlink`: the name is checked by the name guard before `mq_unlink` is
      called; a rejected name aborts and the kernel is never asked. */
  function Unlink(nameAccepted: bool, reply: Syscall): (r: Outcome<(), PosixMessageQueueUnlinkError>)
    ensures !nameAccepted ==> r == Fatal(QueueNameRejected)
    ensures nameAccepted ==> (r.Ok? <==> reply.result == 0)
    ensures nameAccepted ==> (r.Err? <==> reply.result == -1 && reply.errno in UnlinkErrors)
    ensures nameAccepted && r.Err? ==> r.error == UnlinkErrors[reply.errno]
    ensures nameAccepted ==> (r.Fatal? <==> reply.result == -1 && reply.errno == ENAMETOOLONG)
  {
    if !nameAccepted then Fatal(QueueNameRejected)
    else if reply.result == 0 then Ok(())
    else if reply.result == -1 then
      match reply.errno
      case EACCES => Err(PosixMessageQueueUnlinkError.PermissionDenied)
      case ENOENT => Err(DoesNotExist)
      case ENAMETOOLONG => Fatal(ErrnoPanic(ENAMETOOLONG))
      case _ => Unreachable
    else Unreachable
  }
}
