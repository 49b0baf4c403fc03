# file-descriptors: a Dafny model of the epoll, signalfd and fdinfo core

This project models the core of the Rust crate `file-descriptors`. That core is:

- the epoll wrappers: create, wait, add, modify and delete;
- the reader of `/proc/self/fdinfo/<fd>` for an epoll instance;
- the all-signals reactor that moves signal delivery onto epoll, and the event loop that drives it;
- the error classification of a streaming socket and of a POSIX message queue.

Every system call is an input to the model. A reply is a `Syscall(result, errno)` pair, and each wrapper is a function from that reply to an `Outcome`:

- `Ok(value)`, or `Err(error)` for a recoverable error;
- `Fatal(panic)` where the source panics;
- `Unreachable` where the source calls `unreachable!()`.

A `debug_assert` in the source becomes a `requires`.

Modules:

- `Linux`: errno numbers, integer limits and byte types.
- `Outcomes`: `Option`, `Outcome`, `Panic` and `io::ErrorKind`.
- `EPoll` (`src/epoll/EPollFileDescriptor.rs`): the errno-to-error maps of `new`, `wait`, `wait_signalled`, `add`, `modify` and `delete`. Each wrapper also records the call it makes.
- `EPollRegistration` (`src/epoll/EPollRegistrationError.rs`): the two `From` conversions and `source`.
- `StreamingSocket` (`src/socket/StreamingSocketFileDescriptor.rs`): `receive_from`, `send_to`, `read`, `write`, `flush`, the two `sendfile` wrappers and `drop`.
- `PosixMessageQueue` (`src/posix_message_queues/PosixMessageQueue.rs`): `unlink` and the queue-depth predicates.
- `ByteStrings`: `memchr`, `trim_start` and `from_str_radix` on bytes, with a digit printer (`ToDigits`) used to state round trips.
- `FdInfoLine`: the two field extractors, and `parse_line` for one `tfd:` line. `FormatLine` is the line layout the Linux kernel writes, used to state round trips.
- `LineReader`: a `BufReader` as a class over a buffer and a queue of pending reads, and the `ExtendFromSlice` line buffer (`ArrayVec<[u8; 256]>`) as a class over an `array<byte>`. Its operations are `extend_from_slice`, `empty`, the delimiter read, `read_until_line_feed` and `parse_header_line`.
- `EPollInformation`: `information` (the three header lines) and the `InformationIterator`, which yields one `EPollInformationItem` per line.
- `SignalReactor` (`src/signalfd/AllSignalReactor.rs`):
  - `register_with_epoll` on a `Kernel` object that records the blocked-signal flag, the epoll registrations and the order of the steps;
  - `new_filled_signal_mask` and `block_signals`;
  - `react` as a method of `AllSignalReactor`, reading at most 32 records from a `SignalFileDescriptor`.
- `EventLoop` (`src/event_loop.rs`): `event_loop`. It creates epoll, registers the reactor, and waits repeatedly into one 1024-slot `array<EPollEvent>`, forwarding each event that carries the signal token.

A read of the fdinfo file is a sequence of `ReadResult`s. The bytes the reader will still deliver are `Stream(buffer, pending)`. The round-trip lemmas hold for every way the same bytes are split into reads and interrupted reads.

The source contains five defects (see "## Findings"). For each, the model keeps the code as written beside the evidently intended version. The rest of the model builds on the intended version.

## Model

| member | source | states |
|---|---|---|
| EPoll.New | src/epoll/EPollFileDescriptor.rs:49-80 | A non-negative result is the new epoll descriptor. -1 with EMFILE, ENFILE or ENOMEM is a creation error, -1 with EINVAL panics, and every other reply is unreachable. |
| EPoll.WaitOutcome | src/epoll/EPollFileDescriptor.rs:90-119 | Ok holds exactly when the count is within the buffer, and it yields that many leading events. EINTR gives `Interrupted`. EBADF, EFAULT and EINVAL panic, and a count past the buffer is a slice panic. |
| EPoll.Wait | src/epoll/EPollFileDescriptor.rs:90-119 | Calls `epoll_wait` on the instance with the buffer length as the maximum and no signal mask, and classifies the reply as `WaitOutcome`. |
| EPoll.WaitSignalled | src/epoll/EPollFileDescriptor.rs:123-152 | Same call with the caller's signal mask (`epoll_pwait`), classified the same way. |
| EPoll.WaitSignalledAgreesWithWait | src/epoll/EPollFileDescriptor.rs:90-152 | The two waits give the same outcome for every reply, and their calls differ only in the signal mask. |
| EPoll.Add | src/epoll/EPollFileDescriptor.rs:156-199 | Issues `EPOLL_CTL_ADD` with the flags and token. Ok iff the result is 0. ENOMEM and ENOSPC are recoverable errors. EBADF, EEXIST, EINVAL, ELOOP and EPERM panic. |
| EPoll.Modify | src/epoll/EPollFileDescriptor.rs:203-238 | Issues `EPOLL_CTL_MOD`. Ok iff the result is 0, ENOMEM is the only recoverable error, and EBADF, EINVAL, ENOENT and EPERM panic. |
| EPoll.Delete | src/epoll/EPollFileDescriptor.rs:242-266 | Issues `EPOLL_CTL_DEL` with no event. It never returns a recoverable error: every listed errno, ENOMEM included, panics. |
| EPoll.NewErrorsRoundTrip | src/epoll/EPollFileDescriptor.rs:49-80 | Each creation error comes from exactly one errno, and that errno is not one that panics. |
| EPoll.AddErrorsRoundTrip | src/epoll/EPollFileDescriptor.rs:156-199 | Each add error comes from exactly one reply, and the call issued does not depend on the reply. |
| EPoll.EnomemIsRecoverableExceptOnDelete | src/epoll/EPollFileDescriptor.rs:156-266 | ENOMEM is recoverable on add and modify but panics on delete. |
| EPollRegistration.FromCreationError | src/epoll/EPollRegistrationError.rs:40-47 | Wraps a creation error as `Creation`. |
| EPollRegistration.FromAddError | src/epoll/EPollRegistrationError.rs:49-56 | Wraps an add error as `Registration`. |
| EPollRegistration.Source | src/epoll/EPollRegistrationError.rs:28-37 | Every registration error has a source, and it is the wrapped error of the same kind. |
| EPollRegistration.SourceRoundTrip | src/epoll/EPollRegistrationError.rs:28-56 | `source` recovers what either `From` wrapped, and the two conversions never produce the same value. |
| StreamingSocket.ReceiveFrom | src/socket/StreamingSocketFileDescriptor.rs:212-263 | An empty buffer gives Ok(0). Otherwise Ok iff the count is positive, 0 is `UnexpectedEof`, and each -1 errno maps to its documented kind or panics. Every error is one of the documented kinds. A result below -1 is unreachable. |
| StreamingSocket.SendTo | src/socket/StreamingSocketFileDescriptor.rs:277-333 | An empty buffer gives Ok(0). Otherwise Ok iff the count is positive, 0 is `WriteZero`, and every error is one of the documented kinds. A result below -1 is unreachable. |
| StreamingSocket.Read | src/socket/StreamingSocketFileDescriptor.rs:169-172 | `read` is `receive_from`, unchanged. |
| StreamingSocket.Write | src/socket/StreamingSocketFileDescriptor.rs:187-190 | `write` is `send_to`, unchanged. |
| StreamingSocket.Flush | src/socket/StreamingSocketFileDescriptor.rs:193-196 | `flush` always succeeds. |
| StreamingSocket.SendFileFailure | src/socket/StreamingSocketFileDescriptor.rs:85-121 | A failed `sendfile` is never Ok. EAGAIN and ENOMEM give `WouldBlock`, EINTR gives `Interrupted` and EIO gives `Cancelled`. EBADF, EFAULT and EINVAL panic. |
| StreamingSocket.WriteOutputFromFile | src/socket/StreamingSocketFileDescriptor.rs:85-121 | A zero maximum gives Ok(0) without a call. Otherwise Ok(count) iff the count is non-negative, and on -1 the result is exactly `SendFileFailure` of the errno, panic payload included. A result below -1 is unreachable. |
| StreamingSocket.WriteOutputFromFileWithOffset | src/socket/StreamingSocketFileDescriptor.rs:124-160 | As `WriteOutputFromFile`, but the result also carries the offset: unchanged for a zero maximum, the kernel's updated offset otherwise. A result below -1 is unreachable. |
| StreamingSocket.SendFileWrappersAgree | src/socket/StreamingSocketFileDescriptor.rs:85-160 | The two wrappers succeed and fail together, with the same count and the same error. |
| StreamingSocket.DocumentedKindsAreReachable | src/socket/StreamingSocketFileDescriptor.rs:212-333 | Every documented error kind of `receive_from` and `send_to` is produced by some reply. |
| StreamingSocket.DropAsWritten | src/socket/StreamingSocketFileDescriptor.rs:12-34 | As written: a -1 result is always unreachable, and errnos are consulted only for results other than 0 and -1. |
| StreamingSocket.Drop | src/socket/StreamingSocketFileDescriptor.rs:12-34 | Intended: `shutdown` returning 0 is Ok, and -1 with EBADF, EINVAL, ENOTCONN or ENOTSOCK panics with that errno. |
| StreamingSocket.DropAsWrittenMissesEveryErrno | src/socket/StreamingSocketFileDescriptor.rs:14-33 | For every listed errno, the code as written reports unreachable where the intended code panics with the errno. |
| PosixMessageQueue.QueueIsFull | src/posix_message_queues/PosixMessageQueue.rs:70-73 | Intended: full iff no space remains. |
| PosixMessageQueue.QueueIsEmpty | src/posix_message_queues/PosixMessageQueue.rs:79-82 | For any depth within the maximum: empty iff all the space remains. No precondition, since the source demands none. |
| PosixMessageQueue.RemainingSpace | src/posix_message_queues/PosixMessageQueue.rs:88-91 | The depth plus the remaining space is the maximum number of enqueued messages. |
| PosixMessageQueue.QueueIsFullAsWrittenDisagrees | src/posix_message_queues/PosixMessageQueue.rs:70-73 | With the Linux defaults (10 messages of 8192 bytes), a queue holding 10 messages is full, yet the code as written says it is not. |
| PosixMessageQueue.QueueIsFullAgreesOnlyWhenMaximaCoincide | src/posix_message_queues/PosixMessageQueue.rs:70-73 | Whenever the two maxima differ, the code as written misses a full queue. |
| PosixMessageQueue.Unlink | src/posix_message_queues/PosixMessageQueue.rs:17-48 | A name the guard rejects panics. Otherwise: 0 is Ok, EACCES and ENOENT are errors, ENAMETOOLONG panics, and anything else is unreachable. |
| ByteStrings.IndexOf | src/epoll/EPollFileDescriptor.rs:398-403 | `memchr`: None iff the byte is absent. Otherwise it is the first index holding the byte. |
| ByteStrings.TrimStart | src/epoll/EPollFileDescriptor.rs:337-339 | A suffix of the input that starts with a non-whitespace byte, where every byte removed is whitespace. |
| ByteStrings.FromStrRadix | src/epoll/EPollFileDescriptor.rs:337-345 | A parsed value lies within the target type's range. The empty string does not parse, and a negative value starts with `-`. |
| ByteStrings.ToDigits | src/epoll/EPollFileDescriptor.rs:337-345 | A non-empty digit string in the radix, with no sign, no whitespace and no space. |
| ByteStrings.ValueOfToDigits | src/epoll/EPollFileDescriptor.rs:337-345 | The digits of n have value n. |
| ByteStrings.ToDigitsFits | src/epoll/EPollFileDescriptor.rs:337-339 | A number below radix^width has at most width digits. |
| ByteStrings.FromStrRadixRoundTrip | src/epoll/EPollFileDescriptor.rs:337-345 | `from_str_radix` reads back the digits of any in-range n. |
| ByteStrings.FromStrRadixLeadingZero | src/epoll/EPollFileDescriptor.rs:378 | `from_str_radix` also reads back the digits of any in-range n printed after a `0`, as the kernel prints the file flags. |
| ByteStrings.TrimStartPadLeft | src/epoll/EPollFileDescriptor.rs:337-339 | `trim_start` removes exactly the left padding of a right-aligned number. |
| ByteStrings.TrimStartSpaces | src/epoll/EPollFileDescriptor.rs:337-339 | `trim_start` removes exactly a run of leading spaces. |
| FdInfoLine.ParseTargetFileDescriptor | src/epoll/EPollFileDescriptor.rs:339 | The `tfd:` closure: `RawFd` (`i32`) in decimal after leading whitespace is trimmed. A value it yields lies in the `i32` range. |
| FdInfoLine.ParseEventFlags | src/epoll/EPollFileDescriptor.rs:340 | The `events:` closure: `u32` in hexadecimal after leading whitespace is trimmed. A value it yields lies in the `u32` range. |
| FdInfoLine.ParseToken | src/epoll/EPollFileDescriptor.rs:341 | The `data:` closure: `u64` in hexadecimal after leading whitespace is trimmed. A value it yields lies in the `u64` range. |
| FdInfoLine.ParsePosition | src/epoll/EPollFileDescriptor.rs:344 | The `pos:` closure: `i64` in decimal, untrimmed. A value it yields lies in the `i64` range. |
| FdInfoLine.ParseInode | src/epoll/EPollFileDescriptor.rs:345 | The `ino:` closure: `isize` (64-bit) in hexadecimal, untrimmed. A value it yields lies in the 64-bit signed range. |
| FdInfoLine.ParseSdevice | src/epoll/EPollFileDescriptor.rs:346 | The `sdev:` closure: `u32` in hexadecimal, untrimmed. A value it yields lies in the `u32` range. |
| FdInfoLine.ExtractFixedWidth | src/epoll/EPollFileDescriptor.rs:413-431 | Ok iff the prefix matches and the field fits. On success, the input is the prefix, the field and the returned rest. Every failure is `InvalidData`. |
| FdInfoLine.ExtractSpaceTerminatedAsWritten | src/epoll/EPollFileDescriptor.rs:386-411 | As written: success always skips one byte after the value, and a value that ends the line is a slice panic. |
| FdInfoLine.ExtractSpaceTerminated | src/epoll/EPollFileDescriptor.rs:386-411 | Intended: the value runs to the next space or to the end of the line. The space is skipped only when present, and every failure is `InvalidData`. |
| FdInfoLine.ExtractFixedWidthOf | src/epoll/EPollFileDescriptor.rs:413-431 | A field that parses is extracted, leaving exactly what follows it. |
| FdInfoLine.ExtractSpaceTerminatedOf | src/epoll/EPollFileDescriptor.rs:386-411 | A space-terminated field is extracted by both versions, leaving what follows the space. |
| FdInfoLine.ExtractLastFieldOf | src/epoll/EPollFileDescriptor.rs:386-411 | A field at the end of the line is extracted by the intended version, and the version as written panics on it. |
| FdInfoLine.ParseFixedFields | src/epoll/EPollFileDescriptor.rs:337-341 | Every failure of the three fixed-width fields is `InvalidData`. A success means the line is `tfd: `, 8 bytes, ` events: `, 8 bytes, ` data: `, 16 bytes and then the returned rest, and the three fields parse to the returned descriptor, flags and token. |
| FdInfoLine.SpaceFieldsAsWritten | src/epoll/EPollFileDescriptor.rs:344-351 | As written: every panic is a slice panic, and every other failure is `InvalidData`. |
| FdInfoLine.SpaceFields | src/epoll/EPollFileDescriptor.rs:344-356 | The corrected second half of `parse_line`: `pos:`, `ino:`, `sdev:`, then the check that nothing remains. Every failure is `InvalidData`, and a success starts with the `  pos:` field. `SpaceFieldsSound` states what a success means. |
| FdInfoLine.FixedFieldsOf | src/epoll/EPollFileDescriptor.rs:337-341 | The fixed fields of every kernel item line parse back to its descriptor, flags and token, and what is left is exactly the `pos:`, `ino:` and `sdev:` part. |
| FdInfoLine.ParseLineAsWritten | src/epoll/EPollFileDescriptor.rs:335-366 | As written: every panic is a slice panic, and every other failure is `InvalidData`. |
| FdInfoLine.ParseLine | src/epoll/EPollFileDescriptor.rs:335-366 | Intended: every failure is `InvalidData`, and a parsed line starts with `tfd: ` and has at least 59 bytes (what else a success means is `ParseLineSound`). |
| FdInfoLine.SpaceFieldsSound | src/epoll/EPollFileDescriptor.rs:344-351 | A tail that parses is `  pos:`, a value, a space, `ino:`, a value, a space, `sdev:`, a value and at most one space. No value holds a space, and each parses to the item's field. |
| FdInfoLine.ParseLineSound | src/epoll/EPollFileDescriptor.rs:335-366 | The converse of `ParseLineRoundTrip`: a line that parses is the six fields in order, the first three in their fixed widths, with nothing after but at most one space. Every field parses to the returned item's value. |
| FdInfoLine.ParseLineRoundTrip | src/epoll/EPollFileDescriptor.rs:335-366 | Every line in the kernel's layout (fd and flags padded to 8, token to 16, then `  pos:`, `ino:`, `sdev:`) parses back to the item it was written from. |
| FdInfoLine.ParseLineAsWrittenPanicsOnKernelLines | src/epoll/EPollFileDescriptor.rs:347-410 | On every line in the kernel's layout, the code as written panics at the last field. |
| LineReader.FillBuf | src/epoll/EPollFileDescriptor.rs:495-506 | `fill_buf` returns the unconsumed bytes when there are any, and otherwise the next read's bytes or its error. An error consumes that read. |
| LineReader.BufReader.FillBuffer | src/epoll/EPollFileDescriptor.rs:495-506 | The reader's new state and the result are those of `FillBuf` on the old state. |
| LineReader.BufReader.Consume | src/epoll/EPollFileDescriptor.rs:512-516 | Drops exactly `amount` buffered bytes and keeps the pending reads. |
| LineReader.ReadLoop | src/epoll/EPollFileDescriptor.rs:487-527 | As written: the line only grows, within capacity, and gains no delimiter. An Ok count is the number of bytes added. After Ok, the reader is at the end or at a delimiter. |
| LineReader.ReadOnce | src/epoll/EPollFileDescriptor.rs:490-526 | One pass of the loop. A pass that finishes is Ok or Err, appends no delimiter, and on Ok counts the bytes added and stops at the delimiter or the end. A pass that goes on appends delimiter-free bytes, within capacity, and consumes a read or shortens the buffer. |
| LineReader.TakeSlice | src/epoll/EPollFileDescriptor.rs:508-525 | The slice handed back by `fill_buf`: a slice that overflows the line is `InvalidData`, one that holds the delimiter or is empty ends the read at the delimiter, and any other is appended whole and consumed. |
| LineReader.ReadLoopTakesUpToDelimiter | src/epoll/EPollFileDescriptor.rs:487-527 | For every split into reads and interruptions: the bytes up to the first delimiter are appended when they fit, with the delimiter still next in the stream. When they do not fit the result is `InvalidData`. Interruptions are retried, so the reads still pending afterwards are again only data or interruptions. |
| LineReader.ReadLoopStallsAtDelimiter | src/epoll/EPollFileDescriptor.rs:509-524 | As written, a read that starts at the delimiter returns Ok(0) and changes nothing. |
| LineReader.ReadLine | src/epoll/EPollFileDescriptor.rs:487-527 | Intended: as `ReadLoop`, counting from zero, and the delimiter is consumed after a successful read. |
| LineReader.ReadLineTakesOneLine | src/epoll/EPollFileDescriptor.rs:487-527 | The intended read appends the next line and leaves the stream just past its delimiter, or fails with `InvalidData` when the line does not fit. |
| LineReader.ReadLineOf | src/epoll/EPollFileDescriptor.rs:470-527 | A line that fits is read whole, and the reader is left at the following line. |
| LineReader.ReadLoopOf | src/epoll/EPollFileDescriptor.rs:487-527 | As written: a line that fits is read whole, and the read stops at its delimiter, which stays unconsumed. |
| LineReader.HeaderValue | src/epoll/EPollFileDescriptor.rs:446-462 | Ok iff the line starts with the field name and the rest parses. The value is that parse, and every failure is `InvalidData`. |
| LineReader.HeaderLine | src/epoll/EPollFileDescriptor.rs:442-467 | Never panics, stays within capacity, and leaves the line buffer empty on success. |
| LineReader.HeaderLineRoundTrip | src/epoll/EPollFileDescriptor.rs:442-467 | A line made of the field name, a value that parses and a line feed is read back as that value, leaving the following line next. |
| LineReader.HeaderLineReads | src/epoll/EPollFileDescriptor.rs:442-467 | A line made of the field name, a value and a line feed that fits the buffer is read whole: an Ok result is exactly what the parser makes of that value. |
| LineReader.LineBuffer.constructor | src/epoll/EPollFileDescriptor.rs:373 | A new buffer of the given capacity is empty. |
| LineReader.LineBuffer.ExtendFromSlice | src/epoll/EPollFileDescriptor.rs:530-549 | Ok iff the bytes fit, and then the contents gain them at the end. Otherwise the result is `InvalidData` and the contents are unchanged. The array stays the same. |
| LineReader.LineBuffer.Empty | src/epoll/EPollFileDescriptor.rs:558-561 | The contents become empty. |
| LineReader.LineBuffer.ReadUntilDelimiterAsWritten | src/epoll/EPollFileDescriptor.rs:487-527 | The loop, in place, leaves the buffer, the reader and the result exactly as `ReadLoop` specifies. |
| LineReader.LineBuffer.ReadStep | src/epoll/EPollFileDescriptor.rs:490-526 | One pass of the loop, in place. It ends the loop exactly when `ReadOnce` finishes, and then leaves the result, the buffer and the reader as `ReadOnce` gives them. Otherwise the buffer, the reader and the running total are `ReadOnce`'s next state. |
| LineReader.LineBuffer.ReadUntilDelimiter | src/epoll/EPollFileDescriptor.rs:487-527 | The corrected read, in place, leaves the buffer, the reader and the result as `ReadLine` specifies. |
| LineReader.LineBuffer.ReadUntilLineFeed | src/epoll/EPollFileDescriptor.rs:470-473 | The read with the line feed as delimiter, as `ReadLine` specifies. |
| LineReader.LineBuffer.ParseHeaderLine | src/epoll/EPollFileDescriptor.rs:442-467 | The result, the line buffer and the reader are as `HeaderLine` specifies. |
| EPollInformation.ParseFileOffset | src/epoll/EPollFileDescriptor.rs:377 | The `pos:` closure: `isize` (64-bit) in decimal. A value it yields lies in the 64-bit signed range. |
| EPollInformation.ParseFileFlags | src/epoll/EPollFileDescriptor.rs:378 | The `flags:` closure: `u32` in octal. A value it yields lies in the `u32` range. |
| EPollInformation.ParseMountIdentifier | src/epoll/EPollFileDescriptor.rs:379 | The corrected `mnt_id:` closure: `usize` (64-bit) in decimal, as the kernel prints it. A value it yields lies in the `u64` range. |
| EPollInformation.ParseMountIdentifierAsWritten | src/epoll/EPollFileDescriptor.rs:379 | The `mnt_id:` closure as written: `usize` in hexadecimal. A value it yields lies in the `u64` range. |
| EPollInformation.ReadHeader | src/epoll/EPollFileDescriptor.rs:375-380 | The header read never panics. On success the line buffer is empty and the offset is within the 64-bit range. |
| EPollInformation.Information | src/epoll/EPollFileDescriptor.rs:366-382 | Returns the header as `ReadHeader` specifies, with the reader left where it says. On success, the result is a fresh iterator over the same reader with an empty line buffer. |
| EPollInformation.HeaderRoundTrip | src/epoll/EPollFileDescriptor.rs:375-380 | The header as the kernel writes it (`pos:` decimal, `flags:` octal after a leading `0`, `mnt_id:` decimal as printed by `%i`) is read back exactly by the corrected parsers, leaving the reader at the first item line. |
| EPollInformation.OffsetLineOf | src/epoll/EPollFileDescriptor.rs:377 | A `pos:` line with a decimal offset is read back as that offset, leaving the next line. |
| EPollInformation.FlagsLineOf | src/epoll/EPollFileDescriptor.rs:378 | A `flags:` line with octal flags is read back as those flags, leaving the next line. |
| EPollInformation.MountLineOf | src/epoll/EPollFileDescriptor.rs:379 | A `mnt_id:` line with a decimal identifier, as the kernel prints it, is read back as that identifier by the corrected decimal parser, leaving the next line. |
| EPollInformation.MountIdentifierAsWrittenMisreads | src/epoll/EPollFileDescriptor.rs:379 | As written, the hexadecimal parse of a decimal identifier of two or more digits never gives that identifier back, while the corrected decimal parse does. |
| EPollInformation.MountIdentifierAsWrittenExample | src/epoll/EPollFileDescriptor.rs:379 | As written, `mnt_id:\t25` is read as 37. The corrected parse gives 25. |
| EPollInformation.MountLineAsWrittenMisreads | src/epoll/EPollFileDescriptor.rs:379 | As written, a whole `mnt_id:` line read from the file does not yield its identifier once that identifier has two or more digits. |
| EPollInformation.HeaderAsWrittenStallsOnFlags | src/epoll/EPollFileDescriptor.rs:375-380 | As written, each header's second line read returns Ok(0) with an empty line, so `flags:` is never found. |
| EPollInformation.NextItem | src/epoll/EPollFileDescriptor.rs:288-330 | An item is produced iff the iteration has not ended, and a produced item leaves the line buffer empty. |
| EPollInformation.InformationIterator.Next | src/epoll/EPollFileDescriptor.rs:288-330 | Once ended, it yields None forever. Otherwise it yields `NextItem`'s item, drops the reader exactly when the iteration ends, and reuses the same line buffer. |
| EPollInformation.FormatLineFits | src/epoll/EPollFileDescriptor.rs:372-373 | Every kernel item line fits the 256-byte line buffer and has no line feed. |
| EPollInformation.NextItemReadsLine | src/epoll/EPollFileDescriptor.rs:288-330 | A line that parses and fits is yielded as its item, leaving the reader at the following line. |
| EPollInformation.NextItemReadsFormattedLine | src/epoll/EPollFileDescriptor.rs:288-330 | A kernel item line is yielded as the item it was written from. |
| EPollInformation.NextItemEndsAtEmptyLine | src/epoll/EPollFileDescriptor.rs:307-311 | At the end of the file, or at an empty line, the iteration ends. |
| EPollInformation.ItemsRoundTrip | src/epoll/EPollFileDescriptor.rs:288-330 | Iterating over the kernel's item lines yields exactly those items, in order, and then ends. |
| SignalReactor.NewFilledSignalMask | src/signalfd/AllSignalReactor.rs:71-91 | 0 gives the filled mask. -1 with EINVAL panics, and everything else is unreachable. It never returns an error. |
| SignalReactor.BlockSignals | src/signalfd/AllSignalReactor.rs:94-106 | 0 is Ok, EFAULT and EINVAL panic with that code, and any other code is unreachable. |
| SignalReactor.RegisterStepsInOrder | src/signalfd/AllSignalReactor.rs:50-68 | The steps always run in the order mask, create, block, add, each only after the previous one succeeds, and a success runs all four. |
| SignalReactor.CreationFailureBlocksNothing | src/signalfd/AllSignalReactor.rs:54 | A signalfd creation failure returns `Creation(e)` before any signal is blocked or epoll is touched. |
| SignalReactor.AddFailureKeepsSignalsBlocked | src/signalfd/AllSignalReactor.rs:56-58 | An add failure returns `Registration(e)` with all signals still blocked and nothing registered. |
| SignalReactor.RegistrationSucceeds | src/signalfd/AllSignalReactor.rs:50-68 | Registration succeeds iff all four steps do. Then it has blocked all signals and registered the signal descriptor once, for edge-triggered input with the caller's token. |
| SignalReactor.RegisterSteps | src/signalfd/AllSignalReactor.rs:50-68 | The steps of `register_with_epoll` as a function. It takes one to four steps, always starting with the mask. It succeeds exactly when it registers one descriptor with epoll, and the signals end up blocked exactly when they were already blocked or all four steps ran. |
| SignalReactor.Kernel.RegisterWithEpoll | src/signalfd/AllSignalReactor.rs:50-68 | Its result, the blocked flag, the step trace and the registrations are as `RegisterSteps` gives them. |
| SignalReactor.HandleBatch | src/signalfd/AllSignalReactor.rs:34-37 | The handler sees the records in order until the first failure. Ok iff every record is handled, and Err means the last record seen failed. |
| SignalReactor.HandleBatchStopsAt | src/signalfd/AllSignalReactor.rs:34-37 | A failure at record k stops after exactly k+1 handler calls. |
| SignalReactor.HandleBatchAllSucceed | src/signalfd/AllSignalReactor.rs:34-37 | When every record is handled, the whole batch is seen and the result is Ok. |
| SignalReactor.HandleSignals | src/signalfd/AllSignalReactor.rs:34-37 | The loop over a batch makes the handler calls and returns the result that `HandleBatch` specifies. |
| SignalReactor.ReadBatch | src/signalfd/AllSignalReactor.rs:24-26 | A read yields between 1 and 32 of the queued records, from the front. With nothing queued and no fault, it reports `WouldBlock`. |
| SignalReactor.ReactSpec | src/signalfd/AllSignalReactor.rs:18-41 | One `react` makes at most 32 handler calls. `WouldBlock`, or an empty queue, gives Ok with no handler call. It panics exactly on `Cancelled` and `Interrupted`, with no handler call. Otherwise it handles the first 32 queued records, as `HandleBatch` does. |
| SignalReactor.SignalFileDescriptor.Read | src/signalfd/AllSignalReactor.rs:26 | Returns `ReadBatch` of the queue and removes just the records returned. |
| SignalReactor.AllSignalReactor.React | src/signalfd/AllSignalReactor.rs:18-41 | The loop's result and handler calls are `ReactSpec`'s: `WouldBlock` is Ok, `Cancelled` and `Interrupted` panic, and a failing handler cuts the batch short. The descriptor loses exactly the records read. |
| EventLoop.InitialSlots | src/event_loop.rs:54 | The event buffer has 1024 slots. |
| EventLoop.Written | src/event_loop.rs:54-58 | The kernel overwrites a prefix of the buffer and leaves the other slots as they were. |
| EventLoop.SignalEvents | src/event_loop.rs:45-52 | An event is forwarded exactly when it is among the ready events and carries the signal token: all of them when every event does, none when none does. |
| EventLoop.Dispatch | src/event_loop.rs:45-52 | The loop over the ready events forwards exactly `SignalEvents`. |
| EventLoop.WaitUntilReady | src/event_loop.rs:58 | The array after the wait is the kernel's write, and the wait is `Wait` on it. The forwarded events are the signal events of a successful wait, and none otherwise. |
| EventLoop.Rounds | src/event_loop.rs:56-62 | Each round adds one wait on the instance, for 1024 events with the loop's time-out and no mask. Every forwarded event carries the signal token, and the loop runs every round unless a wait panics. |
| EventLoop.LoopSpec | src/event_loop.rs:38-65 | The whole of `event_loop` as a function. Without an epoll instance nothing is waited for or forwarded. Success needs both creation and registration to succeed, and then one wait per round. Only signal-token events are forwarded. |
| EventLoop.RunEventLoop | src/event_loop.rs:38-65 | Result, waits and forwarded events as `LoopSpec` gives them. Registration changes the kernel only when epoll was created. |
| EventLoop.WaitRounds | src/event_loop.rs:56-62 | The `while` loop over the reused buffer gives the result, waits and forwarded events that `Rounds` specifies. |
| EventLoop.CreationFailureComesFirst | src/event_loop.rs:40 | An epoll creation failure is returned before any registration or wait. |
| EventLoop.RoundsComplete | src/event_loop.rs:56-64 | When every wait fits the buffer or is interrupted, the loop waits once per round and returns Ok. |
| EventLoop.InterruptedRoundForwardsNothing | src/event_loop.rs:58-61 | An interrupted wait forwards nothing, and the loop goes on with the next round. |

## Left out

- System calls, `errno`, `getpid`, `File::open` of the fdinfo path and `BufReader`'s underlying reads are inputs: each reply is a parameter, and file opening is not modelled.
- `ByteStrings.TrimStart`: treats only ASCII whitespace. `from_utf8` is not modelled, so a value is taken as bytes that parse as ASCII digits.
- `PosixMessageQueue.Unlink`: `guard_name`'s check of the queue name is a boolean input.
- The numeric values of `EPollAddFlags::EdgeTriggeredInput` and `EPollEventFlags::Input` are defined outside the core. They are taken as `EPOLLET | EPOLLIN` and `EPOLLIN`.
- `SignalFileDescriptor::new` and `SignalFileDescriptor::read` are defined outside the core. Creation is a reply, and a read is modelled by the records queued on the descriptor plus an optional fault.
- `signalfd_siginfo` holds only the signal number. `handle_signal` is a pure function from a record to success or failure.
- `event_loop` calls `AllSignalReactor::new`, `wait_until_ready` and `Terminate::should_continue`, none of which the repository defines. Its return type, `EPollCreationError_or_SignalEPollRegistrationError`, is not defined either; the model returns `EPollRegistrationError` and folds an epoll creation failure into its `Creation` variant. It also calls `register_with_epoll` with a signature that does not match its definition. The model registers through `RegisterWithEpoll` with a token parameter and waits with `wait` into the 1024-slot buffer. `should_continue` is replaced by a finite list of rounds, and a handler's result inside the closure is not propagated, as in the source.
- `EventLoop.Rounds`: the `debug_assert` on a wait error cannot fail, because `EPollWaitError` has only `Interrupted`.
- `EventLoop.KernelFits` excludes a kernel that writes more than 1024 events into the buffer, which the kernel never does.
- `Display` and `Debug` implementations, `as_raw_fd`/`from_raw_fd`/`Deref`, credential and descriptor passing on sockets, the message-queue `new`, its send and receive paths, and the constant tables are not part of this model.
- `EPollInformation.FormatHeader`: the kernel's `pos:` for a negative file offset is not formatted; the round trip covers non-negative offsets. `mnt_id` is printed in decimal, as the kernel prints it (`%i`). The flags are printed as the kernel does, `0%o`.
- `FdInfoLine.ParseLineRoundTrip`, `EPollInformation.NextItemReadsFormattedLine` and `EPollInformation.ItemsRoundTrip`: the round trip covers the items `Printable` admits, not every line the kernel can write. It leaves out a negative `pos:`, which is not formatted. It also leaves out a descriptor of 10^8 or more and an inode above the 64-bit signed maximum: for those the source itself fails on the kernel's line, since the descriptor no longer fits its 8-byte fixed width and the inode does not fit `isize`.
- A panic inside `react`, called from the dispatch closure, ends the real event loop. `EventLoop.Rounds` forwards the signal events instead of calling `react`, so such a panic does not end the modelled loop. `SignalReactor.AllSignalReactor.React` models the panic on its own.
- `SignalReactor.AllSignals`: the filled mask is taken as signals 1 to 64, although the C library's `sigfillset` may leave out signals it reserves. No contract depends on the set's contents.
- `EPollInformation.ItemsRoundTrip`: the end-to-end property of `information` is stated as two lemmas that compose, `HeaderRoundTrip` for the header and `ItemsRoundTrip` for the lines after it, rather than one.
- `LineReader.LineBuffer.ReadUntilLineFeed`, `LineReader.LineBuffer.ParseHeaderLine`, `LineReader.HeaderLine`, `EPollInformation.ReadHeader`, `EPollInformation.NextItem`, `EPollInformation.Information` and `EPollInformation.InformationIterator.Next` use the corrected line read, although the source calls the read as written (src/epoll/EPollFileDescriptor.rs:472): with the read as written every header fails to parse (see "## Findings").
- `EPollInformation.ReadHeader` and `EPollInformation.Information` read `mnt_id:` in decimal, although the source reads it in hexadecimal (src/epoll/EPollFileDescriptor.rs:379): as written, the identifier the kernel prints is misread (see "## Findings").

## Findings

| source | as written | input that shows it | evidently intended | confidence | as-written member | corrected member |
|---|---|---|---|---|---|---|
| src/epoll/EPollFileDescriptor.rs:509-524 | the delimiter read consumes the bytes before the delimiter but never the delimiter itself | any fdinfo header, e.g. `pos:\t0\nflags:\t02\n...`: the second read starts at `\n` and returns Ok(0) with an empty line, so `flags:\t` never matches and `information` always fails | consume the delimiter too, so the next read starts on the next line | not executed | LineReader.LineBuffer.ReadUntilDelimiterAsWritten, EPollInformation.HeaderAsWrittenStallsOnFlags | LineReader.LineBuffer.ReadUntilDelimiter, LineReader.ReadLineTakesOneLine |
| src/epoll/EPollFileDescriptor.rs:410 | `extract_space_terminated_value_from_slice` always slices from `raw_value.len() + 1`, even when no space follows the value | the last field of every `tfd:` line, `sdev:` with no trailing space: the slice start is one past the end, which panics | skip the space only when one was found; at the end of the line return the empty rest | not executed | FdInfoLine.ExtractSpaceTerminatedAsWritten, FdInfoLine.ParseLineAsWrittenPanicsOnKernelLines | FdInfoLine.ExtractSpaceTerminated, FdInfoLine.ParseLineRoundTrip |
| src/posix_message_queues/PosixMessageQueue.rs:70-73 | `queue_is_full` compares the depth with the maximum message size in bytes | limits of 10 messages of 8192 bytes and a depth of 10: the queue is full but reported as not full | compare the depth with the maximum number of enqueued messages | not executed | PosixMessageQueue.QueueIsFullAsWrittenDisagrees | PosixMessageQueue.QueueIsFull, PosixMessageQueue.QueueIsFullAgreesOnlyWhenMaximaCoincide |
| src/epoll/EPollFileDescriptor.rs:379 | `mnt_id:` is parsed with `usize::from_str_radix(string, 16)`, but the kernel prints it in decimal (`%i`) | `mnt_id:\t25` is read as 37; every identifier of two or more digits comes back wrong or is refused | parse it in radix 10, like `pos:` | not executed | EPollInformation.MountIdentifierAsWrittenMisreads, EPollInformation.MountLineAsWrittenMisreads | EPollInformation.MountLineOf, EPollInformation.HeaderRoundTrip |
| src/socket/StreamingSocketFileDescriptor.rs:14-33 | `drop` examines `errno` when `shutdown` returned something other than -1 and treats -1 as unreachable | `shutdown` returning -1 with EBADF: reported as unreachable instead of the EBADF panic | examine `errno` when the result is -1 | not executed | StreamingSocket.DropAsWritten, StreamingSocket.DropAsWrittenMissesEveryErrno | StreamingSocket.Drop |
