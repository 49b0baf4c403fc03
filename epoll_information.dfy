/** `EPollFileDescriptor::information`: the header of an epoll descriptor's
    `/proc/<pid>/fdinfo/<fd>` file and an iterator over its `tfd:` lines. The
    file is a `BufReader` whose reads are inputs. */
module EPollInformation {
  import opened Linux
  import opened Outcomes
  import opened ByteStrings
  import opened FdInfoLine
  import opened LineReader

  /** The capacity of the line buffer. */
  const MaximumBytesPerLine: nat := 256

  const PosHeader: seq<byte> := Ascii("pos:\t")
  const FlagsHeader: seq<byte> := Ascii("flags:\t")
  const MountHeader: seq<byte> := Ascii("mnt_id:\t")

  /** `isize` (64-bit) in decimal. */
  function ParseFileOffset(s: seq<byte>): (r: Option<int>)
    ensures r.Some? ==> I64Min <= r.value <= I64Max
  {
    FromStrRadix(s, 10, I64Min, I64Max)
  }

  /** `u32` in octal. */
  function ParseFileFlags(s: seq<byte>): (r: Option<int>)
    ensures r.Some? ==> 0 <= r.value <= U32Max
  {
    FromStrRadix(s, 8, 0, U32Max)
  }

  /** `usize` (64-bit) in decimal, the radix the kernel prints it in. */
  function ParseMountIdentifier(s: seq<byte>): (r: Option<int>)
    ensures r.Some? ==> 0 <= r.value <= U64Max
  {
    FromStrRadix(s, 10, 0, U64Max)
  }

  /** The source's parser for the mount identifier, which reads it in
      hexadecimal. */
  function ParseMountIdentifierAsWritten(s: seq<byte>): (r: Option<int>)
    ensures r.Some? ==> 0 <= r.value <= U64Max
  {
    FromStrRadix(s, 16, 0, U64Max)
  }

  datatype FileDescriptorInformationHeader = FileDescriptorInformationHeader(fileOffset: int, fileFlags: int, mountIdentifier: int)

  /** The header's three lines and the state of the line buffer and the
      reader after them. */
  datatype HeaderRead = HeaderRead(result: Outcome<FileDescriptorInformationHeader, IoErrorKind>, line: seq<byte>, buffer: seq<byte>, pending: seq<ReadResult>)

  /** The three `parse_header_line` calls of `information`, in order; the first
      failure is the result. */
  function ReadHeader(buffer: seq<byte>, pending: seq<ReadResult>): (h: HeaderRead)
    ensures h.result.Ok? || h.result.Err?
    ensures h.result.Ok? ==> h.line == []
    ensures h.result.Ok? ==> I64Min <= h.result.value.fileOffset <= I64Max
                             && 0 <= h.result.value.fileFlags <= U32Max
                             && 0 <= h.result.value.mountIdentifier <= U64Max
    ensures |h.line| <= MaximumBytesPerLine
  {
    var offset := HeaderLine([], MaximumBytesPerLine, buffer, pending, PosHeader, ParseFileOffset);
    if offset.result.Err? then HeaderRead(Err(offset.result.error), offset.line, offset.buffer, offset.pending)
    else
      var flags := HeaderLine(offset.line, MaximumBytesPerLine, offset.buffer, offset.pending, FlagsHeader, ParseFileFlags);
      if flags.result.Err? then HeaderRead(Err(flags.result.error), flags.line, flags.buffer, flags.pending)
      else
        var mount := HeaderLine(flags.line, MaximumBytesPerLine, flags.buffer, flags.pending, MountHeader, ParseMountIdentifier);
        if mount.result.Err? then HeaderRead(Err(mount.result.error), mount.line, mount.buffer, mount.pending)
        else
          HeaderRead(Ok(FileDescriptorInformationHeader(offset.result.value, flags.result.value, mount.result.value)), [], mount.buffer, mount.pending)
  }

  /** What one call of `next` does to the line buffer and the reader. */
  datatype Step = Step(item: Option<EPollInformationItem>, ended: bool, line: seq<byte>, buffer: seq<byte>, pending: seq<ReadResult>)

  /** `InformationIterator::next` on a live reader: read a line; an error or an
      empty line ends the iteration, as does a line that does not parse; a
      parsed line is the item and the line buffer is cleared. */
  function NextItem(line: seq<byte>, buffer: seq<byte>, pending: seq<ReadResult>): (n: Step)
    requires |line| <= MaximumBytesPerLine
    ensures n.item.Some? <==> !n.ended
    ensures n.item.Some? ==> n.line == []
    ensures |n.line| <= MaximumBytesPerLine
  {
    var st := ReadLine(line, MaximumBytesPerLine, buffer, pending, LineFeed);
    if st.result.Err? || st.result.value == 0 then Step(None, true, st.line, st.buffer, st.pending)
    else match ParseLine(st.line)
      case Ok(item) => Step(Some(item), false, [], st.buffer, st.pending)
      case _ => Step(None, true, st.line, st.buffer, st.pending)
  }

  class InformationIterator {
    /** `None` (`null`) once the iteration has ended. */
    var bufferedReader: BufReader?
    var bytesRead: LineBuffer

    ghost predicate Valid()
      reads this, bytesRead
    {
      bytesRead.Valid() && bytesRead.data.Length == MaximumBytesPerLine
    }

    constructor (reader: BufReader, bytesRead: LineBuffer)
      requires bytesRead.Valid() && bytesRead.data.Length == MaximumBytesPerLine
      ensures Valid() && this.bufferedReader == reader && this.bytesRead == bytesRead
    {
      this.bufferedReader := reader;
      this.bytesRead := bytesRead;
    }

    /** `next`: once the iteration has ended it stays ended. */
    method Next() returns (item: Option<EPollInformationItem>)
      requires Valid()
      modifies this, bytesRead, bytesRead.data, bufferedReader
      ensures Valid() && bytesRead == old(bytesRead) && bytesRead.data == old(bytesRead.data)
      ensures old(bufferedReader) == null ==> item == None && bufferedReader == null
      ensures old(bufferedReader) != null ==>
                var n := NextItem(old(bytesRead.Contents()), old(bufferedReader.buffer), old(bufferedReader.pending));
                item == n.item && bytesRead.Contents() == n.line
                && old(bufferedReader).buffer == n.buffer && old(bufferedReader).pending == n.pending
                && (if n.ended then bufferedReader == null else bufferedReader == old(bufferedReader))
    {
      if bufferedReader == null {
        return None;
      }
      var result := bytesRead.ReadUntilLineFeed(bufferedReader);
      if result.Err? || result.value == 0 {
        bufferedReader := null;
        return None;
      }
      var parsed := ParseLine(bytesRead.data[..bytesRead.len]);
      if !parsed.Ok? {
        bufferedReader := null;
        return None;
      }
      bytesRead.Empty();
      item := Some(parsed.value);
    }
  }

  /** `information`: read the header, then hand the reader and the line
      buffer to the iterator. */
  method Information(reader: BufReader) returns (r: Outcome<(FileDescriptorInformationHeader, InformationIterator), IoErrorKind>)
    modifies reader
    ensures var h := ReadHeader(old(reader.buffer), old(reader.pending));
            (r.Ok? <==> h.result.Ok?)
            && (r.Ok? ==> r.value.0 == h.result.value)
            && (!r.Ok? ==> r == Err(h.result.error))
            && reader.buffer == h.buffer && reader.pending == h.pending
    ensures r.Ok? ==> fresh(r.value.1) && fresh(r.value.1.bytesRead) && r.value.1.Valid()
                      && r.value.1.bufferedReader == reader && r.value.1.bytesRead.Contents() == []
  {
    var bytesRead := new LineBuffer(MaximumBytesPerLine);
    var fileOffset := bytesRead.ParseHeaderLine(reader, PosHeader, ParseFileOffset);
    if fileOffset.Err? {
      return Err(fileOffset.error);
    }
    var fileFlags := bytesRead.ParseHeaderLine(reader, FlagsHeader, ParseFileFlags);
    if fileFlags.Err? {
      return Err(fileFlags.error);
    }
    var mountIdentifier := bytesRead.ParseHeaderLine(reader, MountHeader, ParseMountIdentifier);
    if mountIdentifier.Err? {
      return Err(mountIdentifier.error);
    }
    var items := new InformationIterator(reader, bytesRead);
    r := Ok((FileDescriptorInformationHeader(fileOffset.value, fileFlags.value, mountIdentifier.value), items));
  }

  // ---- Reading back what the kernel writes.

  lemma NoLineFeedInDigits(n: nat, radix: nat, width: nat)
    requires 2 <= radix <= 36
    ensures LineFeed !in ToDigits(n, radix)
    ensures LineFeed !in PadLeft(ToDigits(n, radix), width)
  {
    assert DigitOf(LineFeed) == 36;
    var digits := ToDigits(n, radix);
    assert forall i | 0 <= i < |digits| :: DigitOf(digits[i]) < radix;
  }

  /** The digits of each field fit its width. */
  lemma FieldWidths()
    ensures Pow(10, 8) == 100_000_000 && Pow(16, 8) == U32Max + 1 && Pow(16, 16) == U64Max + 1
    ensures Pow(10, 19) == 10_000_000_000_000_000_000 && Pow(8, 11) == 8_589_934_592
  {
    assert Pow(16, 8) == 0x1_0000_0000;
    assert Pow(16, 16) == Pow(16, 8) * Pow(16, 8) by {
      PowAdd(16, 8, 8);
    }
    assert Pow(10, 19) == Pow(10, 8) * Pow(10, 11) by {
      PowAdd(10, 8, 11);
    }
  }

  lemma {:induction false} PowAdd(base: nat, m: nat, n: nat)
    ensures Pow(base, m + n) == Pow(base, m) * Pow(base, n)
    decreases m
  {
    if m > 0 {
      PowAdd(base, m - 1, n);
      assert Pow(base, m + n) == base * Pow(base, m - 1 + n);
    }
  }

  /** A line in the kernel's layout holds no line feed. */
  lemma FormatLineHasNoLineFeed(item: EPollInformationItem)
    requires Printable(item)
    ensures LineFeed !in FormatLine(item)
  {
    NoLineFeedInDigits(item.targetFileDescriptor, 10, 8);
    NoLineFeedInDigits(item.eventFlags, 16, 8);
    NoLineFeedInDigits(item.token, 16, 16);
    NoLineFeedInDigits(item.position, 10, 0);
    NoLineFeedInDigits(item.inode, 16, 0);
    NoLineFeedInDigits(item.sdevice, 16, 0);
    assert LineFeed !in TfdField && LineFeed !in EventsField && LineFeed !in DataField;
    assert LineFeed !in PosField && LineFeed !in InoField && LineFeed !in SdevField;
  }

  /** A line in the kernel's layout holds no line feed and fits the line
      buffer. */
  lemma FormatLineFits(item: EPollInformationItem)
    requires Printable(item)
    ensures LineFeed !in FormatLine(item) && 0 < |FormatLine(item)| <= MaximumBytesPerLine
  {
    FieldWidths();
    PaddedFieldFits(item.targetFileDescriptor, 10, 8);
    PaddedFieldFits(item.eventFlags, 16, 8);
    PaddedFieldFits(item.token, 16, 16);
    ToDigitsFits(item.position, 10, 19);
    ToDigitsFits(item.inode, 16, 16);
    ToDigitsFits(item.sdevice, 16, 8);
    FormatLineHasNoLineFeed(item);
  }

  /** The header values this layout can hold: within their types and, for
      the file offset, not negative. */
  predicate HeaderPrintable(h: FileDescriptorInformationHeader) {
    0 <= h.fileOffset <= I64Max && 0 <= h.fileFlags <= U32Max && 0 <= h.mountIdentifier <= U64Max
  }

  /** The file flags as the kernel prints them, `0%o`: octal after a `0`. */
  function Octal(n: nat): seq<byte> { [Zero] + ToDigits(n, 8) }

  /** The three header lines as the kernel prints them: the offset in decimal,
      the flags in octal after a `0` and the mount identifier in decimal. */
  function FormatHeader(h: FileDescriptorInformationHeader): seq<byte>
    requires HeaderPrintable(h)
  {
    PosHeader + Decimal(h.fileOffset) + [LineFeed]
    + (FlagsHeader + Octal(h.fileFlags) + [LineFeed]
    + (MountHeader + Decimal(h.mountIdentifier) + [LineFeed]))
  }

  /** The header as its first line and what follows it. */
  lemma FormatHeaderLines(h: FileDescriptorInformationHeader, rest: seq<byte>)
    requires HeaderPrintable(h)
    ensures FormatHeader(h) + rest
            == PosHeader + Decimal(h.fileOffset) + [LineFeed]
               + (FlagsHeader + Octal(h.fileFlags) + [LineFeed]
                  + (MountHeader + Decimal(h.mountIdentifier) + [LineFeed] + rest))
  {
  }

  /** The `pos:` line fits the line buffer and holds no line feed. */
  lemma OffsetLineFits(offset: int)
    requires 0 <= offset <= I64Max
    ensures |PosHeader + Decimal(offset)| <= MaximumBytesPerLine && LineFeed !in PosHeader + Decimal(offset)
  {
    FieldWidths();
    ToDigitsFits(offset, 10, 19);
    NoLineFeedInDigits(offset, 10, 0);
    assert LineFeed !in PosHeader;
  }

  lemma OffsetLineOf(offset: int, buffer: seq<byte>, pending: seq<ReadResult>, rest: seq<byte>)
    requires 0 <= offset <= I64Max && OnlyInterruptions(pending)
    requires Stream(buffer, pending) == PosHeader + Decimal(offset) + [LineFeed] + rest
    ensures var p := HeaderLine([], MaximumBytesPerLine, buffer, pending, PosHeader, ParseFileOffset);
            p.result == Ok(offset) && Stream(p.buffer, p.pending) == rest && OnlyInterruptions(p.pending)
  {
    OffsetLineFits(offset);
    FromStrRadixRoundTrip(offset, 10, I64Min, I64Max);
    HeaderLineRoundTrip(MaximumBytesPerLine, buffer, pending, Decimal(offset), rest, PosHeader, ParseFileOffset);
  }

  lemma FlagsLineOf(flags: int, buffer: seq<byte>, pending: seq<ReadResult>, rest: seq<byte>)
    requires 0 <= flags <= U32Max && OnlyInterruptions(pending)
    requires Stream(buffer, pending) == FlagsHeader + Octal(flags) + [LineFeed] + rest
    ensures var p := HeaderLine([], MaximumBytesPerLine, buffer, pending, FlagsHeader, ParseFileFlags);
            p.result == Ok(flags) && Stream(p.buffer, p.pending) == rest && OnlyInterruptions(p.pending)
  {
    FieldWidths();
    ToDigitsFits(flags, 8, 11);
    NoLineFeedInDigits(flags, 8, 0);
    assert LineFeed !in FlagsHeader && LineFeed !in Octal(flags);
    FromStrRadixLeadingZero(flags, 8, 0, U32Max);
    HeaderLineRoundTrip(MaximumBytesPerLine, buffer, pending, Octal(flags), rest, FlagsHeader, ParseFileFlags);
  }

  /** The `mnt_id:` line fits the line buffer and holds no line feed. */
  lemma MountLineFits(mount: int)
    requires 0 <= mount <= U64Max
    ensures |MountHeader + Decimal(mount)| <= MaximumBytesPerLine && LineFeed !in MountHeader + Decimal(mount)
  {
    FieldWidths();
    assert Pow(10, 20) == 10 * Pow(10, 19);
    ToDigitsFits(mount, 10, 20);
    NoLineFeedInDigits(mount, 10, 0);
    assert LineFeed !in MountHeader;
  }

  lemma MountLineOf(mount: int, buffer: seq<byte>, pending: seq<ReadResult>, rest: seq<byte>)
    requires 0 <= mount <= U64Max && OnlyInterruptions(pending)
    requires Stream(buffer, pending) == MountHeader + Decimal(mount) + [LineFeed] + rest
    ensures var p := HeaderLine([], MaximumBytesPerLine, buffer, pending, MountHeader, ParseMountIdentifier);
            p.result == Ok(mount) && Stream(p.buffer, p.pending) == rest && OnlyInterruptions(p.pending)
  {
    MountLineFits(mount);
    FromStrRadixRoundTrip(mount, 10, 0, U64Max);
    HeaderLineRoundTrip(MaximumBytesPerLine, buffer, pending, Decimal(mount), rest, MountHeader, ParseMountIdentifier);
  }

  /** `information` reads back the header, however the file is split into
      reads, and leaves the reader at the first `tfd:` line. */
  lemma HeaderRoundTrip(h: FileDescriptorInformationHeader, buffer: seq<byte>, pending: seq<ReadResult>, rest: seq<byte>)
    requires HeaderPrintable(h) && OnlyInterruptions(pending)
    requires Stream(buffer, pending) == FormatHeader(h) + rest
    ensures var r := ReadHeader(buffer, pending);
            r.result == Ok(h) && Stream(r.buffer, r.pending) == rest && OnlyInterruptions(r.pending)
  {
    FormatHeaderLines(h, rest);
    var mountText := MountHeader + Decimal(h.mountIdentifier) + [LineFeed] + rest;
    var flagsText := FlagsHeader + Octal(h.fileFlags) + [LineFeed] + mountText;
    OffsetLineOf(h.fileOffset, buffer, pending, flagsText);
    var offset := HeaderLine([], MaximumBytesPerLine, buffer, pending, PosHeader, ParseFileOffset);
    FlagsLineOf(h.fileFlags, offset.buffer, offset.pending, mountText);
    var flags := HeaderLine([], MaximumBytesPerLine, offset.buffer, offset.pending, FlagsHeader, ParseFileFlags);
    MountLineOf(h.mountIdentifier, flags.buffer, flags.pending, rest);
  }

  /** `next` yields the item of a line that parses and fits the line buffer,
      and leaves the reader at the following line. */
  lemma NextItemReadsLine(line: seq<byte>, buffer: seq<byte>, pending: seq<ReadResult>, rest: seq<byte>)
    requires LineFeed !in line && 0 < |line| <= MaximumBytesPerLine && ParseLine(line).Ok?
    requires OnlyInterruptions(pending) && Stream(buffer, pending) == line + [LineFeed] + rest
    ensures var n := NextItem([], buffer, pending);
            n.item == Some(ParseLine(line).value) && Stream(n.buffer, n.pending) == rest && OnlyInterruptions(n.pending)
  {
    ReadLineOf(line, MaximumBytesPerLine, buffer, pending, rest, LineFeed);
  }

  /** `next` yields the item a line in the kernel's layout describes. */
  lemma NextItemReadsFormattedLine(item: EPollInformationItem, buffer: seq<byte>, pending: seq<ReadResult>, rest: seq<byte>)
    requires Printable(item) && OnlyInterruptions(pending)
    requires Stream(buffer, pending) == FormatLine(item) + [LineFeed] + rest
    ensures var n := NextItem([], buffer, pending);
            n.item == Some(item) && Stream(n.buffer, n.pending) == rest && OnlyInterruptions(n.pending)
  {
    FormatLineFits(item);
    ParseLineRoundTrip(item);
    NextItemReadsLine(FormatLine(item), buffer, pending, rest);
  }

  /** At the end of the file, or at an empty line, the iteration ends. */
  lemma NextItemEndsAtEmptyLine(line: seq<byte>, buffer: seq<byte>, pending: seq<ReadResult>)
    requires |line| <= MaximumBytesPerLine && OnlyInterruptions(pending)
    requires Stream(buffer, pending) == [] || Stream(buffer, pending)[0] == LineFeed
    ensures NextItem(line, buffer, pending).ended
  {
    ReadLineTakesOneLine(line, MaximumBytesPerLine, buffer, pending, LineFeed);
    var s := Stream(buffer, pending);
    assert TakeUntil(s, LineFeed) == [] by {
      if s != [] {
        assert IndexOf(s, LineFeed) == Some(0);
      }
    }
  }

  /** The lines of the kernel's layout for `items`, each ended by a line feed. */
  function FormatLines(items: seq<EPollInformationItem>): seq<byte>
    requires forall i | 0 <= i < |items| :: Printable(items[i])
  {
    if items == [] then [] else FormatLine(items[0]) + [LineFeed] + FormatLines(items[1..])
  }

  /** The items of at most `count` calls of `next`, starting with an empty line
      buffer (which each item leaves empty again). */
  function Collect(buffer: seq<byte>, pending: seq<ReadResult>, count: nat): seq<EPollInformationItem>
    decreases count
  {
    if count == 0 then []
    else
      var n := NextItem([], buffer, pending);
      if n.ended then [] else [n.item.value] + Collect(n.buffer, n.pending, count - 1)
  }

  /** The first of several lines, and the lines after it. */
  lemma FormatLinesCons(items: seq<EPollInformationItem>)
    requires items != [] && forall i | 0 <= i < |items| :: Printable(items[i])
    ensures Printable(items[0]) && forall i | 0 <= i < |items[1..]| :: Printable(items[1..][i])
    ensures FormatLines(items) == FormatLine(items[0]) + [LineFeed] + FormatLines(items[1..])
  {
  }

  /** One more call of `next` after an item. */
  lemma CollectStep(buffer: seq<byte>, pending: seq<ReadResult>, count: nat, item: EPollInformationItem)
    requires NextItem([], buffer, pending).item == Some(item)
    ensures var n := NextItem([], buffer, pending);
            Collect(buffer, pending, count + 1) == [item] + Collect(n.buffer, n.pending, count)
  {
  }

  lemma HeadTail<T>(s: seq<T>)
    requires s != []
    ensures [s[0]] + s[1..] == s
  {
  }

  /** Iterating over a file of lines in the kernel's layout yields exactly
      their items, in order, and then ends. */
  lemma {:induction false} ItemsRoundTrip(items: seq<EPollInformationItem>, buffer: seq<byte>, pending: seq<ReadResult>)
    requires forall i | 0 <= i < |items| :: Printable(items[i])
    requires OnlyInterruptions(pending) && Stream(buffer, pending) == FormatLines(items)
    ensures Collect(buffer, pending, |items| + 1) == items
    decreases |items|
  {
    if items == [] {
      NextItemEndsAtEmptyLine([], buffer, pending);
    } else {
      FormatLinesCons(items);
      var tail := items[1..];
      NextItemReadsFormattedLine(items[0], buffer, pending, FormatLines(tail));
      var n := NextItem([], buffer, pending);
      ItemsRoundTrip(tail, n.buffer, n.pending);
      CollectStep(buffer, pending, |tail| + 1, items[0]);
      HeadTail(items);
    }
  }

  /** As written, the read of the second header line starts at the first
      line's unconsumed line feed: it takes no bytes, so `flags:` is never
      found and `information` fails on every header. */
  lemma HeaderAsWrittenStallsOnFlags(h: FileDescriptorInformationHeader, buffer: seq<byte>, pending: seq<ReadResult>, rest: seq<byte>)
    requires HeaderPrintable(h) && OnlyInterruptions(pending)
    requires Stream(buffer, pending) == FormatHeader(h) + rest
    ensures var first := ReadLoop([], MaximumBytesPerLine, buffer, pending, LineFeed, 0);
            var second := ReadLoop([], MaximumBytesPerLine, first.buffer, first.pending, LineFeed, 0);
            first.line == PosHeader + Decimal(h.fileOffset)
            && second == ReadState(Ok(0), [], first.buffer, first.pending)
            && HeaderValue(second.line, FlagsHeader, ParseFileFlags) == Err(InvalidData)
  {
    FormatHeaderLines(h, rest);
    OffsetLineFits(h.fileOffset);
    var after := FlagsHeader + Octal(h.fileFlags) + [LineFeed]
                 + (MountHeader + Decimal(h.mountIdentifier) + [LineFeed] + rest);
    assert Stream(buffer, pending) == PosHeader + Decimal(h.fileOffset) + ([LineFeed] + after);
    ReadLoopOf(PosHeader + Decimal(h.fileOffset), MaximumBytesPerLine, buffer, pending, after, LineFeed);
    var first := ReadLoop([], MaximumBytesPerLine, buffer, pending, LineFeed, 0);
    ReadLoopStallsAtDelimiter([], MaximumBytesPerLine, first.buffer, first.pending, LineFeed);
  }

  /** Decimal digits read in hexadecimal: every digit is still a digit, and
      the value is at least the number they denote, and more once there are
      two of them. */
  lemma {:induction false} DecimalReadAsHex(m: nat)
    ensures AllDigits(Decimal(m), 16)
    ensures Value(Decimal(m), 16) >= m
    ensures m >= 10 ==> Value(Decimal(m), 16) > m
    decreases m
  {
    var digits := Decimal(m);
    assert AllDigits(digits, 16) by {
      forall i | 0 <= i < |digits| ensures DigitOf(digits[i]) < 16 {
        assert DigitOf(digits[i]) < 10;
      }
    }
    if m >= 10 {
      DivModBounds(m, 10);
      DecimalReadAsHex(m / 10);
      var init := Decimal(m / 10);
      assert digits == init + [DigitByte(m % 10)];
      assert digits[..|digits| - 1] == init;
      assert Value(digits, 16) == Value(init, 16) * 16 + m % 10;
      assert Value(init, 16) * 16 >= (m / 10) * 16;
    }
  }

  /** As written, the mount identifier is parsed in hexadecimal although the
      kernel prints it in decimal: every identifier of two or more digits is
      read as another number, or refused once that number exceeds `usize`. */
  lemma MountIdentifierAsWrittenMisreads(m: int)
    requires 10 <= m <= U64Max
    ensures ParseMountIdentifierAsWritten(Decimal(m)) != Some(m)
    ensures ParseMountIdentifier(Decimal(m)) == Some(m)
  {
    DecimalReadAsHex(m);
    FromStrRadixRoundTrip(m, 10, 0, U64Max);
  }

  /** The mount identifier 25, printed `mnt_id:\t25`, is read as 37. */
  lemma MountIdentifierAsWrittenExample()
    ensures ParseMountIdentifierAsWritten(Decimal(25)) == Some(37)
    ensures ParseMountIdentifier(Decimal(25)) == Some(25)
  {
    assert Decimal(2) == [50];
    assert Decimal(25) == [50, 53];
    assert [50, 53][..1] == [50];
    assert Value([50, 53], 16) == 37;
    FromStrRadixRoundTrip(25, 10, 0, U64Max);
  }

  /** As written, the header's `mnt_id:` line, read whole from the file, does
      not give back an identifier of two or more digits. */
  lemma MountLineAsWrittenMisreads(mount: int, buffer: seq<byte>, pending: seq<ReadResult>, rest: seq<byte>)
    requires 10 <= mount <= U64Max && OnlyInterruptions(pending)
    requires Stream(buffer, pending) == MountHeader + Decimal(mount) + [LineFeed] + rest
    ensures HeaderLine([], MaximumBytesPerLine, buffer, pending, MountHeader, ParseMountIdentifierAsWritten).result != Ok(mount)
  {
    MountLineFits(mount);
    HeaderLineReads(MaximumBytesPerLine, buffer, pending, Decimal(mount), rest, MountHeader, ParseMountIdentifierAsWritten);
    MountIdentifierAsWrittenMisreads(mount);
  }
}
