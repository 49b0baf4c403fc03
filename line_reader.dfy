/** The line reading behind the fdinfo parser: a `BufReader` over the file, and
    the `ExtendFromSlice` operations of the bounded `ArrayVec` line buffer that
    read up to a delimiter, append in place, and parse a `field:\tvalue` header
    line. */
module LineReader {
  import opened Linux
  import opened Outcomes
  import opened ByteStrings

  /** One read from the underlying file: the bytes it returned (none at end of
      file) or the error it failed with. */
  datatype ReadResult = Data(bytes: seq<byte>) | Failure(kind: IoErrorKind)

  /** A `fill_buf` call: what it returned and the reader's state afterwards. */
  datatype Fill = Fill(result: Outcome<seq<byte>, IoErrorKind>, buffer: seq<byte>, pending: seq<ReadResult>)

  /** `BufRead::fill_buf` of a `BufReader`: the unconsumed buffered bytes, or,
      once they are used up, the next read of the file. */
  function FillBuf(buffer: seq<byte>, pending: seq<ReadResult>): (f: Fill)
    ensures f.result.Ok? || f.result.Err?
    ensures f.result.Ok? ==> f.result.value == f.buffer
    ensures buffer != [] ==> f == Fill(Ok(buffer), buffer, pending)
    ensures buffer == [] && pending == [] ==> f == Fill(Ok([]), [], [])
    ensures buffer == [] && pending != [] ==> f.pending == pending[1..]
    ensures f.result.Err? ==> buffer == [] && pending != [] && pending[0] == Failure(f.result.error)
  {
    if buffer != [] then Fill(Ok(buffer), buffer, pending)
    else if pending == [] then Fill(Ok([]), [], [])
    else match pending[0]
      case Data(bytes) => Fill(Ok(bytes), bytes, pending[1..])
      case Failure(kind) => Fill(Err(kind), [], pending[1..])
  }

  class BufReader {
    /** Bytes read from the file and not yet consumed. */
    var buffer: seq<byte>
    /** The pending the file will answer, in order. */
    var pending: seq<ReadResult>

    constructor (pending: seq<ReadResult>)
      ensures this.buffer == [] && this.pending == pending
    {
      this.buffer := [];
      this.pending := pending;
    }

    method FillBuffer() returns (r: Outcome<seq<byte>, IoErrorKind>)
      modifies this
      ensures Fill(r, buffer, pending) == FillBuf(old(buffer), old(pending))
    {
      var f := FillBuf(buffer, pending);
      r, buffer, pending := f.result, f.buffer, f.pending;
    }

    method Consume(amount: nat)
      requires amount <= |buffer|
      modifies this
      ensures buffer == old(buffer)[amount..] && pending == old(pending)
    {
      buffer := buffer[amount..];
    }
  }

  /** The state after a line read: its result, the line buffer's contents and
      the reader's state. */
  datatype ReadState = ReadState(result: Outcome<nat, IoErrorKind>, line: seq<byte>, buffer: seq<byte>, pending: seq<ReadResult>)

  /** Where one pass of the read loop leads: the read's final state, or the
      line, reader and count the next pass starts from. */
  datatype Pass = Finished(st: ReadState) | Again(line: seq<byte>, buffer: seq<byte>, pending: seq<ReadResult>, total: nat)

  /** One pass of
      `read_until_delimiter_populating_buffer_with_bytes_read_excluding_delimiter`
      as written, with `total` bytes taken so far: one `fill_buf`; retry after
      an interruption; append the bytes before the delimiter and consume them;
      stop at the delimiter, which stays unconsumed, or at an empty read. */
  function ReadOnce(line: seq<byte>, capacity: nat, buffer: seq<byte>, pending: seq<ReadResult>, delimiter: byte, total: nat): (p: Pass)
    requires |line| <= capacity
    ensures p.Finished? ==> p.st.result.Ok? || p.st.result.Err?
    ensures p.Finished? ==> |line| <= |p.st.line| <= capacity && p.st.line[..|line|] == line && delimiter !in p.st.line[|line|..]
    ensures p.Finished? && p.st.result.Ok? ==>
              p.st.result.value == total + |p.st.line| - |line| && (p.st.buffer == [] || p.st.buffer[0] == delimiter)
    ensures p.Finished? ==> |p.st.pending| <= |pending|
    ensures p.Again? ==> |line| <= |p.line| <= capacity && p.line[..|line|] == line && delimiter !in p.line[|line|..]
    ensures p.Again? ==> p.total == total + |p.line| - |line|
    ensures p.Again? ==> |p.pending| < |pending| || (p.pending == pending && |p.buffer| < |buffer|)
  {
    var fill := FillBuf(buffer, pending);
    if fill.result.Err? then
      if fill.result.error == Interrupted then Again(line, fill.buffer, fill.pending, total)
      else Finished(ReadState(Err(fill.result.error), line, fill.buffer, fill.pending))
    else TakeSlice(line, capacity, fill.buffer, fill.pending, delimiter, total)
  }

  /** The rest of a pass, once `fill_buf` has returned `slice`: append the
      bytes before the delimiter (or all of them), consume them, and finish
      at a delimiter or an empty slice. */
  function TakeSlice(line: seq<byte>, capacity: nat, slice: seq<byte>, pending: seq<ReadResult>, delimiter: byte, total: nat): (p: Pass)
    requires |line| <= capacity
    ensures p.Finished? ==> p.st.result.Ok? || p.st.result.Err?
    ensures p.Finished? ==> |line| <= |p.st.line| <= capacity && p.st.line[..|line|] == line && delimiter !in p.st.line[|line|..]
    ensures p.Finished? && p.st.result.Ok? ==>
              p.st.result.value == total + |p.st.line| - |line| && (p.st.buffer == [] || p.st.buffer[0] == delimiter)
    ensures p.Finished? ==> p.st.pending == pending
    ensures p.Again? ==> slice != [] && p == Again(line + slice, [], pending, total + |slice|)
    ensures p.Again? ==> |line + slice| <= capacity && delimiter !in slice
  {
    var delimiterIndex := IndexOf(slice, delimiter);
    var index := if delimiterIndex.Some? then delimiterIndex.value else |slice|;
    if |line| + index > capacity then Finished(ReadState(Err(InvalidData), line, slice, pending))
    else if delimiterIndex.Some? || index == 0 then
      assert (line + slice[..index])[|line|..] == slice[..index];
      Finished(ReadState(Ok(total + index), line + slice[..index], slice[index..], pending))
    else
      Again(line + slice, [], pending, total + index)
  }

  /** The line read as written: passes until one finishes. */
  function ReadLoop(line: seq<byte>, capacity: nat, buffer: seq<byte>, pending: seq<ReadResult>, delimiter: byte, total: nat): (st: ReadState)
    requires |line| <= capacity
    ensures st.result.Ok? || st.result.Err?
    ensures |line| <= |st.line| <= capacity && st.line[..|line|] == line
    ensures delimiter !in st.line[|line|..]
    ensures st.result.Ok? ==> st.result.value == total + |st.line| - |line|
    ensures st.result.Ok? ==> st.buffer == [] || st.buffer[0] == delimiter
    ensures |st.pending| <= |pending|
    decreases |pending|, |buffer|
  {
    match ReadOnce(line, capacity, buffer, pending, delimiter, total)
    case Finished(st) => st
    case Again(next, nextBuffer, nextPending, nextTotal) =>
      var st := ReadLoop(next, capacity, nextBuffer, nextPending, delimiter, nextTotal);
      assert st.line[..|line|] == st.line[..|next|][..|line|];
      assert st.line[|line|..] == next[|line|..] + st.line[|next|..];
      st
  }

  /** The line read as evidently intended: the delimiter is consumed as well. */
  function ReadLine(line: seq<byte>, capacity: nat, buffer: seq<byte>, pending: seq<ReadResult>, delimiter: byte): (st: ReadState)
    requires |line| <= capacity
    ensures st.result.Ok? || st.result.Err?
    ensures |line| <= |st.line| <= capacity && st.line[..|line|] == line
    ensures delimiter !in st.line[|line|..]
    ensures st.result.Ok? ==> st.result.value == |st.line| - |line|
    ensures |st.pending| <= |pending|
  {
    var st := ReadLoop(line, capacity, buffer, pending, delimiter, 0);
    if st.result.Ok? && st.buffer != [] then st.(buffer := st.buffer[1..]) else st
  }

  // ---- What a line read means for the byte stream the reader delivers.

  /** The bytes the pending deliver before the first end of file (an empty read);
      failed pending deliver nothing. */
  function ReadsStream(pending: seq<ReadResult>): seq<byte>
    decreases |pending|
  {
    if pending == [] then []
    else match pending[0]
      case Failure(_) => ReadsStream(pending[1..])
      case Data(bytes) => if bytes == [] then [] else bytes + ReadsStream(pending[1..])
  }

  function Stream(buffer: seq<byte>, pending: seq<ReadResult>): seq<byte> {
    buffer + ReadsStream(pending)
  }

  /** Every failing read of the file is an interruption, which is retried. */
  predicate OnlyInterruptions(pending: seq<ReadResult>) {
    forall i | 0 <= i < |pending| :: pending[i].Failure? ==> pending[i].kind == Interrupted
  }

  /** The bytes of `s` before the first delimiter. */
  function TakeUntil(s: seq<byte>, delimiter: byte): (p: seq<byte>)
    ensures p <= s && delimiter !in p
    ensures |p| < |s| ==> s[|p|] == delimiter
  {
    match IndexOf(s, delimiter)
    case None => s
    case Some(i) => s[..i]
  }

  function Shift(i: Option<nat>, offset: nat): Option<nat> {
    match i
    case None => None
    case Some(j) => Some(j + offset)
  }

  lemma {:induction false} IndexOfConcat(a: seq<byte>, b: seq<byte>, d: byte)
    ensures IndexOf(a + b, d) == if d in a then IndexOf(a, d) else Shift(IndexOf(b, d), |a|)
  {
    if a == [] {
      assert a + b == b;
    } else if a[0] != d {
      assert (a + b)[1..] == a[1..] + b;
      IndexOfConcat(a[1..], b, d);
    }
  }

  lemma TakeUntilConcat(a: seq<byte>, b: seq<byte>, d: byte)
    ensures d in a ==> TakeUntil(a + b, d) == TakeUntil(a, d)
    ensures d !in a ==> TakeUntil(a + b, d) == a + TakeUntil(b, d)
  {
    IndexOfConcat(a, b, d);
    if d !in a {
      match IndexOf(b, d)
      case None =>
      case Some(i) => assert (a + b)[..|a| + i] == a + b[..i];
    } else {
      var i := IndexOf(a, d).value;
      assert (a + b)[..i] == a[..i];
    }
  }

  /** One `fill_buf` leaves the stream as it was, when it retries an
      interruption or returns bytes; when it returns none, the stream has
      ended. */
  lemma FillKeepsStream(buffer: seq<byte>, pending: seq<ReadResult>)
    requires OnlyInterruptions(pending)
    ensures var fill := FillBuf(buffer, pending);
            OnlyInterruptions(fill.pending)
            && (fill.result.Err? ==> fill.result.error == Interrupted && Stream(fill.buffer, fill.pending) == Stream(buffer, pending))
            && (fill.result.Ok? && fill.buffer != [] ==> Stream(fill.buffer, fill.pending) == Stream(buffer, pending))
            && (fill.result.Ok? && fill.buffer == [] ==> Stream(buffer, pending) == [])
  {
    if buffer == [] && pending != [] {
      assert pending[0] == pending[0];
      assert forall i | 0 <= i < |pending[1..]| :: pending[1..][i] == pending[i + 1];
    }
  }

  /** What a read of the line `line` from the stream `s` should have done:
      taken the bytes up to the first delimiter when they fit, leaving the
      delimiter as the next byte of the reader, or failed with `InvalidData`
      when they do not fit. */
  ghost predicate TookUpToDelimiter(line: seq<byte>, capacity: nat, s: seq<byte>, delimiter: byte, st: ReadState, total: nat) {
    var p := TakeUntil(s, delimiter);
    (|line| + |p| <= capacity ==>
       st.result == Ok(total + |p|) && st.line == line + p
       && (|p| < |s| ==> st.buffer != [] && Stream(st.buffer, st.pending) == s[|p|..]))
    && (|line| + |p| > capacity ==> st.result == Err(InvalidData))
  }

  /** One pass over the stream: a finished pass took the bytes up to the
      delimiter; a pass that goes on took bytes without a delimiter, and the
      stream after them is what the next pass reads. */
  lemma ReadOnceTakes(line: seq<byte>, capacity: nat, buffer: seq<byte>, pending: seq<ReadResult>, delimiter: byte, total: nat)
    requires |line| <= capacity && OnlyInterruptions(pending)
    ensures var p := ReadOnce(line, capacity, buffer, pending, delimiter, total);
            (p.Finished? ==> TookUpToDelimiter(line, capacity, Stream(buffer, pending), delimiter, p.st, total) && OnlyInterruptions(p.st.pending))
            && (p.Again? ==> Stream(buffer, pending) == p.line[|line|..] + Stream(p.buffer, p.pending) && OnlyInterruptions(p.pending))
  {
    var fill := FillBuf(buffer, pending);
    FillKeepsStream(buffer, pending);
    if fill.result.Err? {
      assert line[|line|..] == [];
    } else if fill.buffer == [] {
      TakeSliceEmpty(line, capacity, fill.pending, delimiter, total);
    } else if delimiter in fill.buffer {
      TakeSliceDelimited(line, capacity, fill.buffer, fill.pending, delimiter, total);
    } else {
      TakeSliceUndelimited(line, capacity, fill.buffer, fill.pending, delimiter, total);
    }
  }

  /** An empty slice is the end of the stream: the read finishes with what it
      has. */
  lemma TakeSliceEmpty(line: seq<byte>, capacity: nat, pending: seq<ReadResult>, delimiter: byte, total: nat)
    requires |line| <= capacity
    ensures TookUpToDelimiter(line, capacity, [], delimiter, TakeSlice(line, capacity, [], pending, delimiter, total).st, total)
    ensures TakeSlice(line, capacity, [], pending, delimiter, total).Finished?
  {
    assert line + [] == line;
  }

  /** A slice holding the delimiter finishes the read at the delimiter, or
      overflows the line buffer. */
  lemma TakeSliceDelimited(line: seq<byte>, capacity: nat, slice: seq<byte>, pending: seq<ReadResult>, delimiter: byte, total: nat)
    requires |line| <= capacity && delimiter in slice
    ensures var p := TakeSlice(line, capacity, slice, pending, delimiter, total);
            p.Finished? && TookUpToDelimiter(line, capacity, Stream(slice, pending), delimiter, p.st, total)
  {
    var rest := ReadsStream(pending);
    TakeUntilConcat(slice, rest, delimiter);
    var i := IndexOf(slice, delimiter).value;
    assert TakeUntil(slice, delimiter) == slice[..i];
    assert (slice + rest)[i..] == slice[i..] + rest;
  }

  /** A slice without the delimiter is taken whole, or overflows the line
      buffer. */
  lemma TakeSliceUndelimited(line: seq<byte>, capacity: nat, slice: seq<byte>, pending: seq<ReadResult>, delimiter: byte, total: nat)
    requires |line| <= capacity && delimiter !in slice && slice != []
    ensures var p := TakeSlice(line, capacity, slice, pending, delimiter, total);
            (p.Finished? ==> TookUpToDelimiter(line, capacity, Stream(slice, pending), delimiter, p.st, total))
            && (p.Again? ==> Stream(slice, pending) == p.line[|line|..] + Stream(p.buffer, p.pending))
  {
    var rest := ReadsStream(pending);
    TakeUntilConcat(slice, rest, delimiter);
    assert Stream([], pending) == rest;
    assert (line + slice)[|line|..] == slice;
  }

  /** The as-written read takes the stream's bytes up to the first delimiter,
      and the reads still to come are again data or interruptions. */
  lemma {:induction false} ReadLoopTakesUpToDelimiter(line: seq<byte>, capacity: nat, buffer: seq<byte>, pending: seq<ReadResult>, delimiter: byte, total: nat)
    requires |line| <= capacity && OnlyInterruptions(pending)
    ensures var st := ReadLoop(line, capacity, buffer, pending, delimiter, total);
            TookUpToDelimiter(line, capacity, Stream(buffer, pending), delimiter, st, total) && OnlyInterruptions(st.pending)
    decreases |pending|, |buffer|
  {
    ReadOnceTakes(line, capacity, buffer, pending, delimiter, total);
    match ReadOnce(line, capacity, buffer, pending, delimiter, total)
    case Finished(_) =>
    case Again(next, nextBuffer, nextPending, nextTotal) =>
      ReadLoopTakesUpToDelimiter(next, capacity, nextBuffer, nextPending, delimiter, nextTotal);
      var taken := next[|line|..];
      assert next == line + taken;
      ReadLoopUndelimitedStep(line, capacity, taken, Stream(nextBuffer, nextPending), delimiter,
                              ReadLoop(next, capacity, nextBuffer, nextPending, delimiter, nextTotal), total);
  }

  /** A filled buffer without the delimiter is taken whole, and the read goes
      on over the rest of the stream. */
  lemma ReadLoopUndelimitedStep(line: seq<byte>, capacity: nat, slice: seq<byte>, rest: seq<byte>, delimiter: byte, st: ReadState, total: nat)
    requires delimiter !in slice && |line| + |slice| <= capacity
    requires TookUpToDelimiter(line + slice, capacity, rest, delimiter, st, total + |slice|)
    ensures TookUpToDelimiter(line, capacity, slice + rest, delimiter, st, total)
  {
    TakeUntilConcat(slice, rest, delimiter);
    var q := TakeUntil(rest, delimiter);
    var p := TakeUntil(slice + rest, delimiter);
    assert p == slice + q;
    assert |line + slice| + |q| == |line| + |p|;
    if |line| + |p| <= capacity {
      assert st.line == line + slice + q;
      assert line + slice + q == line + p;
      if |p| < |slice + rest| {
        assert (slice + rest)[|p|..] == rest[|q|..];
      }
    }
  }

  /** The corrected read leaves the stream just past the delimiter, so the
      next read starts on the next line. */
  lemma ReadLineTakesOneLine(line: seq<byte>, capacity: nat, buffer: seq<byte>, pending: seq<ReadResult>, delimiter: byte)
    requires |line| <= capacity && OnlyInterruptions(pending)
    ensures var s := Stream(buffer, pending);
            var p := TakeUntil(s, delimiter);
            var st := ReadLine(line, capacity, buffer, pending, delimiter);
            (|line| + |p| <= capacity ==>
               st.result == Ok(|p|) && st.line == line + p
               && (|p| < |s| ==> Stream(st.buffer, st.pending) == s[|p| + 1..]))
            && (|line| + |p| > capacity ==> st.result == Err(InvalidData))
  {
    ReadLoopTakesUpToDelimiter(line, capacity, buffer, pending, delimiter, 0);
    var st := ReadLoop(line, capacity, buffer, pending, delimiter, 0);
    var s := Stream(buffer, pending);
    var p := TakeUntil(s, delimiter);
    if st.result.Ok? && st.buffer != [] && |p| < |s| {
      StreamTail(st.buffer, st.pending);
      DropOneMore(s, |p|);
    }
  }

  lemma StreamTail(buffer: seq<byte>, pending: seq<ReadResult>)
    requires buffer != []
    ensures Stream(buffer[1..], pending) == Stream(buffer, pending)[1..]
  {
  }

  lemma DropOneMore<T>(s: seq<T>, n: nat)
    requires n < |s|
    ensures s[n..][1..] == s[n + 1..]
  {
  }

  /** As written, a read that starts at a delimiter takes nothing and leaves
      everything as it was, however much follows; since the delimiter is never
      consumed, every read after the first line's returns 0 bytes. */
  lemma ReadLoopStallsAtDelimiter(line: seq<byte>, capacity: nat, buffer: seq<byte>, pending: seq<ReadResult>, delimiter: byte)
    requires |line| <= capacity && buffer != [] && buffer[0] == delimiter
    ensures ReadLoop(line, capacity, buffer, pending, delimiter, 0) == ReadState(Ok(0), line, buffer, pending)
  {
    assert buffer[..0] == [];
    assert line + [] == line;
  }

  /** A value in a header line: the field name, then the value to the end of
      the line. */
  function HeaderValue<V>(line: seq<byte>, fieldName: seq<byte>, parse: seq<byte> -> Option<V>): (r: Outcome<V, IoErrorKind>)
    ensures r.Ok? <==> |fieldName| <= |line| && line[..|fieldName|] == fieldName && parse(line[|fieldName|..]).Some?
    ensures r.Ok? ==> line == fieldName + line[|fieldName|..] && parse(line[|fieldName|..]) == Some(r.value)
    ensures !r.Ok? ==> r == Err(InvalidData)
  {
    if |line| < |fieldName| || line[..|fieldName|] != fieldName then Err(InvalidData)
    else match parse(line[|fieldName|..])
      case None => Err(InvalidData)
      case Some(v) =>
        assert line == fieldName + line[|fieldName|..];
        Ok(v)
  }

  /** The state after `parse_header_line`. */
  datatype Parsed<V> = Parsed(result: Outcome<V, IoErrorKind>, line: seq<byte>, buffer: seq<byte>, pending: seq<ReadResult>)

  /** `parse_header_line` (on the corrected line read): read a line, take its
      value, and empty the line buffer on success. */
  function HeaderLine<V>(line: seq<byte>, capacity: nat, buffer: seq<byte>, pending: seq<ReadResult>, fieldName: seq<byte>, parse: seq<byte> -> Option<V>): (p: Parsed<V>)
    requires |line| <= capacity
    ensures p.result.Ok? || p.result.Err?
    ensures p.result.Ok? ==> p.line == []
    ensures |p.line| <= capacity
  {
    var st := ReadLine(line, capacity, buffer, pending, LineFeed);
    if st.result.Err? then Parsed(Err(st.result.error), st.line, st.buffer, st.pending)
    else match HeaderValue(st.line, fieldName, parse)
      case Ok(v) => Parsed(Ok(v), [], st.buffer, st.pending)
      case _ => Parsed(Err(InvalidData), st.line, st.buffer, st.pending)
  }

  /** A line without the delimiter, followed by the delimiter: the read loop
      takes exactly that line and stops at the delimiter, which it leaves in
      the buffer. */
  lemma ReadLoopOf(line: seq<byte>, capacity: nat, buffer: seq<byte>, pending: seq<ReadResult>, rest: seq<byte>, delimiter: byte)
    requires |line| <= capacity && delimiter !in line
    requires OnlyInterruptions(pending) && Stream(buffer, pending) == line + ([delimiter] + rest)
    ensures var st := ReadLoop([], capacity, buffer, pending, delimiter, 0);
            st.result == Ok(|line|) && st.line == line && st.buffer != [] && st.buffer[0] == delimiter
            && Stream(st.buffer, st.pending) == [delimiter] + rest && OnlyInterruptions(st.pending)
  {
    TakeUntilConcat(line, [delimiter] + rest, delimiter);
    assert TakeUntil([delimiter] + rest, delimiter) == [];
    ReadLoopTakesUpToDelimiter([], capacity, buffer, pending, delimiter, 0);
    assert (line + ([delimiter] + rest))[|line|..] == [delimiter] + rest;
  }

  /** A line without a delimiter that fits the line buffer is read whole,
      however the file's bytes are split into reads, and the reader is left
      at the next line. */
  lemma ReadLineOf(line: seq<byte>, capacity: nat, buffer: seq<byte>, pending: seq<ReadResult>, rest: seq<byte>, delimiter: byte)
    requires |line| <= capacity && delimiter !in line
    requires OnlyInterruptions(pending) && Stream(buffer, pending) == line + [delimiter] + rest
    ensures var st := ReadLine([], capacity, buffer, pending, delimiter);
            st.result == Ok(|line|) && st.line == line && Stream(st.buffer, st.pending) == rest && OnlyInterruptions(st.pending)
  {
    assert Stream(buffer, pending) == line + ([delimiter] + rest);
    ReadLoopOf(line, capacity, buffer, pending, rest, delimiter);
    var st := ReadLoop([], capacity, buffer, pending, delimiter, 0);
    StreamTail(st.buffer, st.pending);
    assert ([delimiter] + rest)[1..] == rest;
  }

  /** A header line holding exactly the field name and a value that parses is
      read back, and the reader is left at the next line. */
  lemma HeaderLineRoundTrip<V>(capacity: nat, buffer: seq<byte>, pending: seq<ReadResult>, raw: seq<byte>, rest: seq<byte>, fieldName: seq<byte>, parse: seq<byte> -> Option<V>)
    requires OnlyInterruptions(pending) && Stream(buffer, pending) == fieldName + raw + [LineFeed] + rest
    requires |fieldName| + |raw| <= capacity && LineFeed !in fieldName + raw && parse(raw).Some?
    ensures var p := HeaderLine([], capacity, buffer, pending, fieldName, parse);
            p.result == Ok(parse(raw).value) && Stream(p.buffer, p.pending) == rest && OnlyInterruptions(p.pending)
  {
    var lineText := fieldName + raw;
    ReadLineOf(lineText, capacity, buffer, pending, rest, LineFeed);
    assert lineText[..|fieldName|] == fieldName && lineText[|fieldName|..] == raw;
  }

  /** A header line that fits is read whole, whatever the parser makes of its
      value. */
  lemma HeaderLineReads<V>(capacity: nat, buffer: seq<byte>, pending: seq<ReadResult>, raw: seq<byte>, rest: seq<byte>, fieldName: seq<byte>, parse: seq<byte> -> Option<V>)
    requires OnlyInterruptions(pending) && Stream(buffer, pending) == fieldName + raw + [LineFeed] + rest
    requires |fieldName| + |raw| <= capacity && LineFeed !in fieldName + raw
    ensures var p := HeaderLine([], capacity, buffer, pending, fieldName, parse);
            p.result.Ok? ==> parse(raw) == Some(p.result.value)
  {
    var lineText := fieldName + raw;
    ReadLineOf(lineText, capacity, buffer, pending, rest, LineFeed);
    assert lineText[|fieldName|..] == raw;
  }

  /** The bounded line buffer (`ArrayVec<[u8; N]>`): `len` bytes in use. */
  class LineBuffer {
    var data: array<byte>
    var len: nat

    ghost predicate Valid()
      reads this
    {
      len <= data.Length
    }

    function Contents(): seq<byte>
      reads this, data
      requires Valid()
    {
      data[..len]
    }

    constructor (capacity: nat)
      ensures Valid() && fresh(data) && data.Length == capacity && Contents() == []
    {
      data := new byte[capacity];
      len := 0;
    }

    /** `extend_from_slice`: append in place, or fail with `InvalidData` and
        leave the contents unchanged when the slice does not fit. */
    method ExtendFromSlice(slice: seq<byte>) returns (r: Outcome<(), IoErrorKind>)
      requires Valid()
      modifies this, data
      ensures Valid() && data == old(data)
      ensures r.Ok? <==> old(|Contents()|) + |slice| <= data.Length
      ensures r.Ok? ==> Contents() == old(Contents()) + slice
      ensures !r.Ok? ==> r == Err(InvalidData) && Contents() == old(Contents())
    {
      var originalLength := len;
      var newLength := originalLength + |slice|;
      if newLength > data.Length {
        return Err(InvalidData);
      }
      forall i | 0 <= i < |slice| {
        data[originalLength + i] := slice[i];
      }
      len := newLength;
      assert Contents() == old(Contents()) + slice by {
        assert forall i | 0 <= i < originalLength :: data[i] == old(data[i]);
      }
      r := Ok(());
    }

    /** `empty`: `clear` the buffer. */
    method Empty()
      requires Valid()
      modifies this
      ensures Valid() && data == old(data) && Contents() == []
    {
      len := 0;
    }

    /** `read_until_delimiter_populating_buffer_with_bytes_read_excluding_delimiter`
        as written. */
    method ReadUntilDelimiterAsWritten(reader: BufReader, delimiter: byte) returns (r: Outcome<nat, IoErrorKind>)
      requires Valid()
      modifies this, data, reader
      ensures Valid() && data == old(data)
      ensures ReadState(r, Contents(), reader.buffer, reader.pending)
           == ReadLoop(old(Contents()), data.Length, old(reader.buffer), old(reader.pending), delimiter, 0)
    {
      var totalBytesRead: nat := 0;
      var done := false;
      r := Ok(0);
      while !done
        invariant Valid() && data == old(data)
        invariant !done ==> (ReadLoop(Contents(), data.Length, reader.buffer, reader.pending, delimiter, totalBytesRead)
                             == ReadLoop(old(Contents()), data.Length, old(reader.buffer), old(reader.pending), delimiter, 0))
        invariant done ==> (ReadState(r, Contents(), reader.buffer, reader.pending)
                            == ReadLoop(old(Contents()), data.Length, old(reader.buffer), old(reader.pending), delimiter, 0))
        decreases !done, |reader.pending|, |reader.buffer|
      {
        done, r, totalBytesRead := ReadStep(reader, delimiter, totalBytesRead);
      }
    }

    /** One pass of the loop above: one `fill_buf`, then either the read's
        result or the count of bytes taken so far. */
    method ReadStep(reader: BufReader, delimiter: byte, total: nat) returns (done: bool, r: Outcome<nat, IoErrorKind>, totalAfter: nat)
      requires Valid()
      modifies this, data, reader
      ensures Valid() && data == old(data)
      ensures var p := ReadOnce(old(Contents()), data.Length, old(reader.buffer), old(reader.pending), delimiter, total);
              (done <==> p.Finished?)
              && (done ==> ReadState(r, Contents(), reader.buffer, reader.pending) == p.st)
              && (!done ==> Contents() == p.line && reader.buffer == p.buffer && reader.pending == p.pending && totalAfter == p.total)
    {
      totalAfter := total;
      var available := reader.FillBuffer();
      if available.Err? {
        if available.error == Interrupted {
          return false, Ok(0), total;
        }
        return true, Err(available.error), total;
      }
      var slice := available.value;
      var delimiterIndex := IndexOf(slice, delimiter);
      var index := if delimiterIndex.Some? then delimiterIndex.value else |slice|;
      var extended := ExtendFromSlice(slice[..index]);
      if !extended.Ok? {
        return true, Err(InvalidData), total;
      }
      if index != 0 {
        reader.Consume(index);
      }
      if delimiterIndex.Some? || index == 0 {
        return true, Ok(total + index), total + index;
      }
      assert slice[..index] == slice;
      done, r, totalAfter := false, Ok(0), total + index;
    }

    /** The same read as evidently intended: the delimiter is consumed too. */
    method ReadUntilDelimiter(reader: BufReader, delimiter: byte) returns (r: Outcome<nat, IoErrorKind>)
      requires Valid()
      modifies this, data, reader
      ensures Valid() && data == old(data)
      ensures ReadState(r, Contents(), reader.buffer, reader.pending)
           == ReadLine(old(Contents()), data.Length, old(reader.buffer), old(reader.pending), delimiter)
    {
      r := ReadUntilDelimiterAsWritten(reader, delimiter);
      if r.Ok? && reader.buffer != [] {
        reader.Consume(1);
      }
    }

    /** `read_until_line_feed`. */
    method ReadUntilLineFeed(reader: BufReader) returns (r: Outcome<nat, IoErrorKind>)
      requires Valid()
      modifies this, data, reader
      ensures Valid() && data == old(data)
      ensures ReadState(r, Contents(), reader.buffer, reader.pending)
           == ReadLine(old(Contents()), data.Length, old(reader.buffer), old(reader.pending), LineFeed)
    {
      r := ReadUntilDelimiter(reader, LineFeed);
    }

    /** `parse_header_line`. */
    method ParseHeaderLine<V>(reader: BufReader, fieldName: seq<byte>, parse: seq<byte> -> Option<V>) returns (r: Outcome<V, IoErrorKind>)
      requires Valid()
      modifies this, data, reader
      ensures Valid() && data == old(data)
      ensures Parsed(r, Contents(), reader.buffer, reader.pending)
           == HeaderLine(old(Contents()), data.Length, old(reader.buffer), old(reader.pending), fieldName, parse)
    {
      var read := ReadUntilLineFeed(reader);
      if read.Err? {
        return Err(read.error);
      }
      if len < |fieldName| || data[..|fieldName|] != fieldName {
        return Err(InvalidData);
      }
      var value := parse(data[|fieldName|..len]);
      if value.None? {
        return Err(InvalidData);
      }
      Empty();
      r := Ok(value.value);
    }
  }
}
