/** One line of an epoll descriptor's `/proc/<pid>/fdinfo/<fd>` file, one per
    watched descriptor, and its parser `parse_line` with the two field
    extractors it is built from. */
module FdInfoLine {
  import opened Linux
  import opened Outcomes
  import opened ByteStrings

  const TfdField: seq<byte> := Ascii("tfd: ")
  const EventsField: seq<byte> := Ascii(" events: ")
  const DataField: seq<byte> := Ascii(" data: ")
  const PosField: seq<byte> := Ascii("  pos:")
  const InoField: seq<byte> := Ascii("ino:")
  const SdevField: seq<byte> := Ascii("sdev:")

  /** `EPollInformationItem`. */
  datatype EPollInformationItem = EPollInformationItem(
    targetFileDescriptor: int, eventFlags: int, token: int,
    position: int, inode: int, sdevice: int)

  // The six value parsers of `parse_line` (each with the integer type it parses
  // into; `RawFd` is `i32`, `isize` is 64 bits wide).

  function ParseTargetFileDescriptor(s: seq<byte>): (r: Option<int>)
    ensures r.Some? ==> I32Min <= r.value <= I32Max
  {
    FromStrRadix(TrimStart(s), 10, I32Min, I32Max)
  }

  function ParseEventFlags(s: seq<byte>): (r: Option<int>)
    ensures r.Some? ==> 0 <= r.value <= U32Max
  {
    FromStrRadix(TrimStart(s), 16, 0, U32Max)
  }

  function ParseToken(s: seq<byte>): (r: Option<int>)
    ensures r.Some? ==> 0 <= r.value <= U64Max
  {
    FromStrRadix(TrimStart(s), 16, 0, U64Max)
  }

  function ParsePosition(s: seq<byte>): (r: Option<int>)
    ensures r.Some? ==> I64Min <= r.value <= I64Max
  {
    FromStrRadix(s, 10, I64Min, I64Max)
  }

  function ParseInode(s: seq<byte>): (r: Option<int>)
    ensures r.Some? ==> I64Min <= r.value <= I64Max
  {
    FromStrRadix(s, 16, I64Min, I64Max)
  }

  function ParseSdevice(s: seq<byte>): (r: Option<int>)
    ensures r.Some? ==> 0 <= r.value <= U32Max
  {
    FromStrRadix(s, 16, 0, U32Max)
  }

  /** `extract_fixed_width_value_from_slice`: the prefix, then exactly `width`
      bytes of value; the rest starts right after them. */
  function ExtractFixedWidth<V>(remaining: seq<byte>, prefix: seq<byte>, width: nat, parse: seq<byte> -> Option<V>): (r: Outcome<(V, seq<byte>), IoErrorKind>)
    ensures r.Ok? <==> |prefix| + width <= |remaining| && remaining[..|prefix|] == prefix
                       && parse(remaining[|prefix|..|prefix| + width]).Some?
    ensures r.Ok? ==> remaining == prefix + remaining[|prefix|..|prefix| + width] + r.value.1
                      && parse(remaining[|prefix|..|prefix| + width]) == Some(r.value.0)
    ensures !r.Ok? ==> r == Err(InvalidData)
  {
    if |remaining| < |prefix| + width then Err(InvalidData)
    else if remaining[..|prefix|] != prefix then Err(InvalidData)
    else
      var raw := remaining[|prefix|..|prefix| + width];
      match parse(raw)
      case None => Err(InvalidData)
      case Some(v) =>
        assert remaining == prefix + raw + remaining[|prefix| + width..];
        Ok((v, remaining[|prefix| + width..]))
  }

  /** `extract_space_terminated_value_from_slice` as written: the prefix, then
      the value up to the first space; when no space follows, the final
      `&remaining_bytes[raw_value.len() + 1 ..]` lies past the end and panics. */
  function ExtractSpaceTerminatedAsWritten<V>(remaining: seq<byte>, prefix: seq<byte>, parse: seq<byte> -> Option<V>): (r: Outcome<(V, seq<byte>), IoErrorKind>)
    ensures r.Ok? ==> |prefix| + |r.value.1| < |remaining|
    ensures r.Ok? ==> var raw := remaining[|prefix|..|remaining| - |r.value.1| - 1];
                      Space !in raw && parse(raw) == Some(r.value.0)
                      && remaining == prefix + raw + [Space] + r.value.1
    ensures r.Fatal? ==> |prefix| <= |remaining| && r.panic == SliceOutOfBounds
                         && Space !in remaining[|prefix|..]
    ensures !r.Ok? && !r.Fatal? ==> r == Err(InvalidData)
  {
    if |remaining| < |prefix| then Err(InvalidData)
    else if remaining[..|prefix|] != prefix then Err(InvalidData)
    else
      var value := remaining[|prefix|..];
      var index := IndexOf(value, Space);
      var raw := if index.None? then value else value[..index.value];
      match parse(raw)
      case None => Err(InvalidData)
      case Some(v) =>
        if |raw| + 1 > |value| then Fatal(SliceOutOfBounds)
        else
          assert index.Some?;
          assert remaining == prefix + raw + [Space] + value[|raw| + 1..];
          assert remaining[|prefix|..|remaining| - |value[|raw| + 1..]| - 1] == raw;
          Ok((v, value[|raw| + 1..]))
  }

  /** `extract_space_terminated_value_from_slice` as evidently intended: a
      value that runs to the end of the slice leaves nothing after it. */
  function ExtractSpaceTerminated<V>(remaining: seq<byte>, prefix: seq<byte>, parse: seq<byte> -> Option<V>): (r: Outcome<(V, seq<byte>), IoErrorKind>)
    ensures r.Ok? ==> |prefix| + |r.value.1| <= |remaining| && remaining[..|prefix|] == prefix
    ensures r.Ok? && Space !in remaining[|prefix|..] ==>
              r.value.1 == [] && parse(remaining[|prefix|..]) == Some(r.value.0)
    ensures r.Ok? && Space in remaining[|prefix|..] ==> |prefix| + |r.value.1| < |remaining|
    ensures r.Ok? && Space in remaining[|prefix|..] ==>
              var raw := remaining[|prefix|..|remaining| - |r.value.1| - 1];
              Space !in raw && parse(raw) == Some(r.value.0)
              && remaining == prefix + raw + [Space] + r.value.1
    ensures !r.Ok? ==> r == Err(InvalidData)
  {
    if |remaining| < |prefix| then Err(InvalidData)
    else if remaining[..|prefix|] != prefix then Err(InvalidData)
    else
      var value := remaining[|prefix|..];
      var index := IndexOf(value, Space);
      var raw := if index.None? then value else value[..index.value];
      match parse(raw)
      case None => Err(InvalidData)
      case Some(v) =>
        if index.None? then
          assert remaining == prefix + value;
          Ok((v, []))
        else
          assert remaining == prefix + raw + [Space] + value[|raw| + 1..];
          assert remaining[|prefix|..|remaining| - |value[|raw| + 1..]| - 1] == raw;
          Ok((v, value[|raw| + 1..]))
  }

  /** The three fixed-width fields that open a line, and the bytes after them. */
  datatype FixedFields = FixedFields(targetFileDescriptor: int, eventFlags: int, token: int, rest: seq<byte>)

  /** The first half of `parse_line`, the same in both versions below: `tfd`,
      `events` and `data`, each right-aligned in its fixed width. */
  function ParseFixedFields(line: seq<byte>): (r: Outcome<FixedFields, IoErrorKind>)
    ensures !r.Ok? ==> r == Err(InvalidData)
    ensures r.Ok? ==> |line| == 53 + |r.value.rest| && line[..5] == TfdField
    ensures r.Ok? ==> line == TfdField + line[5..13] + EventsField + line[22..30] + DataField + line[37..53] + r.value.rest
    ensures r.Ok? ==> ParseTargetFileDescriptor(line[5..13]) == Some(r.value.targetFileDescriptor)
                      && ParseEventFlags(line[22..30]) == Some(r.value.eventFlags)
                      && ParseToken(line[37..53]) == Some(r.value.token)
  {
    var tfd :- ExtractFixedWidth(line, TfdField, 8, ParseTargetFileDescriptor);
    var events :- ExtractFixedWidth(tfd.1, EventsField, 8, ParseEventFlags);
    var data :- ExtractFixedWidth(events.1, DataField, 16, ParseToken);
    assert |line| == 5 + 8 + |tfd.1| && |tfd.1| == 9 + 8 + |events.1| && |events.1| == 7 + 16 + |data.1|;
    FixedFieldsSplit(line, tfd.1, events.1, data.1);
    Ok(FixedFields(tfd.0, events.0, data.0, data.1))
  }

  /** Where the three fixed-width fields lie in the line. */
  lemma FixedFieldsSplit(line: seq<byte>, afterTfd: seq<byte>, afterEvents: seq<byte>, rest: seq<byte>)
    requires |line| == 13 + |afterTfd| && line == TfdField + line[5..13] + afterTfd
    requires |afterTfd| == 17 + |afterEvents| && afterTfd == EventsField + afterTfd[9..17] + afterEvents
    requires |afterEvents| == 23 + |rest| && afterEvents == DataField + afterEvents[7..23] + rest
    ensures afterTfd[9..17] == line[22..30] && afterEvents[7..23] == line[37..53]
    ensures line == TfdField + line[5..13] + EventsField + line[22..30] + DataField + line[37..53] + rest
  {
    assert afterTfd == line[13..];
    assert afterEvents == afterTfd[17..];
  }

  /** `parse_line` as written: six fields in order, and nothing may follow. */
  function ParseLineAsWritten(line: seq<byte>): (r: Outcome<EPollInformationItem, IoErrorKind>)
    ensures r.Fatal? ==> r.panic == SliceOutOfBounds
    ensures !r.Ok? && !r.Fatal? ==> r == Err(InvalidData)
  {
    var fixed :- ParseFixedFields(line);
    SpaceFieldsAsWritten(fixed)
  }

  /** The second half of `parse_line` as written: `pos`, `ino` and `sdev`,
      each up to a space. */
  function SpaceFieldsAsWritten(fixed: FixedFields): (r: Outcome<EPollInformationItem, IoErrorKind>)
    ensures r.Fatal? ==> r.panic == SliceOutOfBounds
    ensures !r.Ok? && !r.Fatal? ==> r == Err(InvalidData)
  {
    var pos :- ExtractSpaceTerminatedAsWritten(fixed.rest, PosField, ParsePosition);
    var ino :- ExtractSpaceTerminatedAsWritten(pos.1, InoField, ParseInode);
    var sdev :- ExtractSpaceTerminatedAsWritten(ino.1, SdevField, ParseSdevice);
    if sdev.1 != [] then Err(InvalidData)
    else Ok(EPollInformationItem(fixed.targetFileDescriptor, fixed.eventFlags, fixed.token, pos.0, ino.0, sdev.0))
  }

  /** `parse_line` built on the corrected space-terminated extractor. */
  function ParseLine(line: seq<byte>): (r: Outcome<EPollInformationItem, IoErrorKind>)
    ensures !r.Ok? ==> r == Err(InvalidData)
    ensures r.Ok? ==> |line| >= 59 && line[..5] == TfdField
  {
    var fixed :- ParseFixedFields(line);
    SpaceFields(fixed)
  }

  /** The second half of `parse_line` on the corrected extractor. */
  function SpaceFields(fixed: FixedFields): (r: Outcome<EPollInformationItem, IoErrorKind>)
    ensures !r.Ok? ==> r == Err(InvalidData)
    ensures r.Ok? ==> |fixed.rest| >= 6 && fixed.rest[..6] == PosField
  {
    var pos :- ExtractSpaceTerminated(fixed.rest, PosField, ParsePosition);
    var ino :- ExtractSpaceTerminated(pos.1, InoField, ParseInode);
    var sdev :- ExtractSpaceTerminated(ino.1, SdevField, ParseSdevice);
    if sdev.1 != [] then Err(InvalidData)
    else Ok(EPollInformationItem(fixed.targetFileDescriptor, fixed.eventFlags, fixed.token, pos.0, ino.0, sdev.0))
  }

  /** A space-terminated field that the corrected extractor reads and that
      another field follows: the prefix, the value up to a space, the space,
      and the rest. */
  lemma SpaceFieldSound<V>(remaining: seq<byte>, prefix: seq<byte>, parse: seq<byte> -> Option<V>)
      returns (raw: seq<byte>)
    requires ExtractSpaceTerminated(remaining, prefix, parse).Ok?
    requires ExtractSpaceTerminated(remaining, prefix, parse).value.1 != []
    ensures var r := ExtractSpaceTerminated(remaining, prefix, parse).value;
            remaining == prefix + raw + [Space] + r.1 && Space !in raw && parse(raw) == Some(r.0)
  {
    var r := ExtractSpaceTerminated(remaining, prefix, parse).value;
    raw := remaining[|prefix|..|remaining| - |r.1| - 1];
  }

  /** The last field: the prefix, the value up to the end of the line or to
      a final space. */
  lemma LastFieldSound<V>(remaining: seq<byte>, prefix: seq<byte>, parse: seq<byte> -> Option<V>)
      returns (raw: seq<byte>, trailing: seq<byte>)
    requires ExtractSpaceTerminated(remaining, prefix, parse).Ok?
    requires ExtractSpaceTerminated(remaining, prefix, parse).value.1 == []
    ensures var r := ExtractSpaceTerminated(remaining, prefix, parse).value;
            remaining == prefix + raw + trailing && Space !in raw && parse(raw) == Some(r.0)
            && (trailing == [] || trailing == [Space])
  {
    var r := ExtractSpaceTerminated(remaining, prefix, parse).value;
    if Space in remaining[|prefix|..] {
      raw := remaining[|prefix|..|remaining| - 1];
      trailing := [Space];
    } else {
      raw := remaining[|prefix|..];
      trailing := [];
      assert remaining == remaining[..|prefix|] + remaining[|prefix|..];
    }
  }

  /** What a parsed tail holds: `pos:`, `ino:` and `sdev:` in that order, each
      value free of spaces and parsing to the item's field, the first two
      followed by a space, the last by at most one space and the end of the
      line. */
  lemma SpaceFieldsSound(fixed: FixedFields) returns (p: seq<byte>, i: seq<byte>, s: seq<byte>, t: seq<byte>)
    requires SpaceFields(fixed).Ok?
    ensures var item := SpaceFields(fixed).value;
            fixed.rest == PosField + p + [Space] + (InoField + i + [Space] + (SdevField + s + t))
            && Space !in p && Space !in i && Space !in s && (t == [] || t == [Space])
            && ParsePosition(p) == Some(item.position) && ParseInode(i) == Some(item.inode)
            && ParseSdevice(s) == Some(item.sdevice)
            && item.targetFileDescriptor == fixed.targetFileDescriptor
            && item.eventFlags == fixed.eventFlags && item.token == fixed.token
  {
    var pos := ExtractSpaceTerminated(fixed.rest, PosField, ParsePosition).value;
    var ino := ExtractSpaceTerminated(pos.1, InoField, ParseInode).value;
    var sdev := ExtractSpaceTerminated(ino.1, SdevField, ParseSdevice).value;
    p := SpaceFieldSound(fixed.rest, PosField, ParsePosition);
    i := SpaceFieldSound(pos.1, InoField, ParseInode);
    s, t := LastFieldSound(ino.1, SdevField, ParseSdevice);
  }

  /** The converse of the round trip below: a line that parses is `tfd:`,
      `events:` and `data:` in their fixed widths, then `pos:`, `ino:` and
      `sdev:` each up to a space, with at most one space after the last, and
      every field parses to the item's value. */
  lemma ParseLineSound(line: seq<byte>) returns (p: seq<byte>, i: seq<byte>, s: seq<byte>, t: seq<byte>)
    requires ParseLine(line).Ok?
    ensures var item := ParseLine(line).value;
            line == TfdField + line[5..13] + EventsField + line[22..30] + DataField + line[37..53]
                    + (PosField + p + [Space] + (InoField + i + [Space] + (SdevField + s + t)))
            && Space !in p && Space !in i && Space !in s && (t == [] || t == [Space])
            && ParseTargetFileDescriptor(line[5..13]) == Some(item.targetFileDescriptor)
            && ParseEventFlags(line[22..30]) == Some(item.eventFlags)
            && ParseToken(line[37..53]) == Some(item.token)
            && ParsePosition(p) == Some(item.position) && ParseInode(i) == Some(item.inode)
            && ParseSdevice(s) == Some(item.sdevice)
  {
    var fixed := ParseFixedFields(line).value;
    p, i, s, t := SpaceFieldsSound(fixed);
  }

  // ---- The layout the kernel writes for each watched descriptor:
  //      "tfd: %8d events: %8x data: %16llx  pos:%lli ino:%lx sdev:%x"

  function Decimal(n: nat): seq<byte> { ToDigits(n, 10) }

  function Hex(n: nat): seq<byte> { ToDigits(n, 16) }

  /** The values the kernel can print in that layout and the parser's integer
      types can hold: a descriptor of at most eight digits and non-negative
      position and inode numbers. */
  predicate Printable(item: EPollInformationItem) {
    0 <= item.targetFileDescriptor < 100_000_000
    && 0 <= item.eventFlags <= U32Max
    && 0 <= item.token <= U64Max
    && 0 <= item.position <= I64Max
    && 0 <= item.inode <= I64Max
    && 0 <= item.sdevice <= U32Max
  }

  function FormatLine(item: EPollInformationItem): seq<byte>
    requires Printable(item)
  {
    TfdField + (PadLeft(Decimal(item.targetFileDescriptor), 8)
    + (EventsField + (PadLeft(Hex(item.eventFlags), 8)
    + (DataField + (PadLeft(Hex(item.token), 16) + KernelTail(item))))))
  }

  /** The space-terminated part of the layout, after the token. */
  function KernelTail(item: EPollInformationItem): seq<byte>
    requires Printable(item)
  {
    PosField + (Decimal(item.position) + ([Space]
    + (InoField + (Hex(item.inode) + ([Space]
    + (SdevField + Hex(item.sdevice)))))))
  }

  /** A right-aligned field of the kernel's layout holds exactly its width. */
  lemma PaddedFieldFits(n: nat, radix: nat, width: nat)
    requires 2 <= radix <= 36 && 1 <= width && n < Pow(radix, width)
    ensures |PadLeft(ToDigits(n, radix), width)| == width
  {
    ToDigitsFits(n, radix, width);
  }

  lemma FixedFieldParses(n: nat, radix: nat, width: nat, lo: int, hi: int)
    requires 2 <= radix <= 36 && 1 <= width && n < Pow(radix, width) && lo <= n <= hi
    ensures FromStrRadix(TrimStart(PadLeft(ToDigits(n, radix), width)), radix, lo, hi) == Some(n)
  {
    TrimStartPadLeft(n, radix, width);
    FromStrRadixRoundTrip(n, radix, lo, hi);
  }

  lemma ExtractFixedWidthOf<V>(prefix: seq<byte>, raw: seq<byte>, rest: seq<byte>, parse: seq<byte> -> Option<V>)
    requires parse(raw).Some?
    ensures ExtractFixedWidth(prefix + (raw + rest), prefix, |raw|, parse) == Ok((parse(raw).value, rest))
  {
    var s := prefix + (raw + rest);
    assert s[..|prefix|] == prefix;
    assert s[|prefix|..|prefix| + |raw|] == raw;
    assert s[|prefix| + |raw|..] == rest;
  }

  lemma ExtractSpaceTerminatedOf<V>(prefix: seq<byte>, raw: seq<byte>, rest: seq<byte>, parse: seq<byte> -> Option<V>)
    requires parse(raw).Some? && Space !in raw
    ensures ExtractSpaceTerminated(prefix + (raw + ([Space] + rest)), prefix, parse) == Ok((parse(raw).value, rest))
    ensures ExtractSpaceTerminatedAsWritten(prefix + (raw + ([Space] + rest)), prefix, parse) == Ok((parse(raw).value, rest))
  {
    var s := prefix + (raw + ([Space] + rest));
    assert s[..|prefix|] == prefix;
    var value := s[|prefix|..];
    assert value == raw + ([Space] + rest);
    IndexOfAfter(raw, [Space] + rest);
    assert value[..|raw|] == raw;
    assert value[|raw| + 1..] == rest;
  }

  lemma ExtractLastFieldOf<V>(prefix: seq<byte>, raw: seq<byte>, parse: seq<byte> -> Option<V>)
    requires parse(raw).Some? && Space !in raw
    ensures ExtractSpaceTerminated(prefix + raw, prefix, parse) == Ok((parse(raw).value, []))
    ensures ExtractSpaceTerminatedAsWritten(prefix + raw, prefix, parse) == Fatal(SliceOutOfBounds)
  {
    var s := prefix + raw;
    assert s[..|prefix|] == prefix;
    assert s[|prefix|..] == raw;
  }

  lemma IndexOfAfter(raw: seq<byte>, rest: seq<byte>)
    requires Space !in raw && rest != [] && rest[0] == Space
    ensures IndexOf(raw + rest, Space) == Some(|raw|)
  {
    assert (raw + rest)[|raw|] == Space;
  }

  /** The three fixed-width fields of a kernel line are read back, leaving
      the space-terminated part. */
  lemma FixedFieldsOf(item: EPollInformationItem)
    requires Printable(item)
    ensures ParseFixedFields(FormatLine(item))
         == Ok(FixedFields(item.targetFileDescriptor, item.eventFlags, item.token, KernelTail(item)))
  {
    var tfd := PadLeft(Decimal(item.targetFileDescriptor), 8);
    var events := PadLeft(Hex(item.eventFlags), 8);
    var token := PadLeft(Hex(item.token), 16);
    assert Pow(10, 8) == 100_000_000;
    assert Pow(16, 8) == U32Max + 1;
    assert Pow(16, 16) == U64Max + 1;
    PaddedFieldFits(item.targetFileDescriptor, 10, 8);
    PaddedFieldFits(item.eventFlags, 16, 8);
    PaddedFieldFits(item.token, 16, 16);
    FixedFieldParses(item.targetFileDescriptor, 10, 8, I32Min, I32Max);
    FixedFieldParses(item.eventFlags, 16, 8, 0, U32Max);
    FixedFieldParses(item.token, 16, 16, 0, U64Max);
    var afterToken := DataField + (token + KernelTail(item));
    var afterEvents := EventsField + (events + afterToken);
    ExtractFixedWidthOf(TfdField, tfd, afterEvents, ParseTargetFileDescriptor);
    ExtractFixedWidthOf(EventsField, events, afterToken, ParseEventFlags);
    ExtractFixedWidthOf(DataField, token, KernelTail(item), ParseToken);
  }

  /** The corrected parser reads back every line the kernel prints. */
  lemma {:induction false} ParseLineRoundTrip(item: EPollInformationItem)
    requires Printable(item)
    ensures ParseLine(FormatLine(item)) == Ok(item)
  {
    FixedFieldsOf(item);
    FromStrRadixRoundTrip(item.position, 10, I64Min, I64Max);
    FromStrRadixRoundTrip(item.inode, 16, I64Min, I64Max);
    FromStrRadixRoundTrip(item.sdevice, 16, 0, U32Max);
    var afterSdev := SdevField + Hex(item.sdevice);
    var afterIno := InoField + (Hex(item.inode) + ([Space] + afterSdev));
    ExtractSpaceTerminatedOf(PosField, Decimal(item.position), afterIno, ParsePosition);
    ExtractSpaceTerminatedOf(InoField, Hex(item.inode), afterSdev, ParseInode);
    ExtractLastFieldOf(SdevField, Hex(item.sdevice), ParseSdevice);
  }

  /** As written, every line the kernel prints makes `parse_line` panic: its
      last field, `sdev`, is followed by no space. */
  lemma {:induction false} ParseLineAsWrittenPanicsOnKernelLines(item: EPollInformationItem)
    requires Printable(item)
    ensures ParseLineAsWritten(FormatLine(item)) == Fatal(SliceOutOfBounds)
  {
    FixedFieldsOf(item);
    FromStrRadixRoundTrip(item.position, 10, I64Min, I64Max);
    FromStrRadixRoundTrip(item.inode, 16, I64Min, I64Max);
    FromStrRadixRoundTrip(item.sdevice, 16, 0, U32Max);
    var afterSdev := SdevField + Hex(item.sdevice);
    var afterIno := InoField + (Hex(item.inode) + ([Space] + afterSdev));
    ExtractSpaceTerminatedOf(PosField, Decimal(item.position), afterIno, ParsePosition);
    ExtractSpaceTerminatedOf(InoField, Hex(item.inode), afterSdev, ParseInode);
    ExtractLastFieldOf(SdevField, Hex(item.sdevice), ParseSdevice);
  }
}
