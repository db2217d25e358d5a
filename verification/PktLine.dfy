/**
pkt-line framing: `src/worker/git/core/pktline.ts` and the streaming reader of the
command section in `src/worker/git/receive/pktSectionStream.ts`.
 */
module PktLines {
  import opened Bytes

  const ZERO: byte := 0x30
  const FLUSH: seq<byte> := [ZERO, ZERO, ZERO, ZERO]
  const DELIM: seq<byte> := [ZERO, ZERO, ZERO, 0x31]
  const RESPONSE_END: seq<byte> := [ZERO, ZERO, ZERO, 0x32]

  const MAX_COMMAND_SECTION_BYTES: nat := 256 * 1024
  const MAX_PAYLOAD_BYTES: nat := 65531

  lemma {:induction false} SpecialPackets()
    ensures FLUSH == Ascii("0000") && DELIM == Ascii("0001") && RESPONSE_END == Ascii("0002")
  {
  }

  /** The platform's number and text decoders. */
  datatype Codec = Codec(parseLength: seq<byte> -> Option<int>, decode: seq<byte> -> string)

  function HexValue(digits: seq<byte>): (n: nat)
    requires IsHex(digits)
  {
    if digits == [] then 0 else 16 * HexValue(digits[..|digits| - 1]) + HexNibble(digits[|digits| - 1])
  }

  /** The number decoder reads four hexadecimal digits as their value; other headers may give anything. */
  ghost predicate Agrees(c: Codec) {
    forall h :: |h| == 4 && IsHex(h) ==> c.parseLength(h) == Some(HexValue(h))
  }

  // ---------- One frame ----------

  datatype Frame = Payload(raw: seq<byte>) | Flush | Delim | ResponseEnd | Malformed | Truncated

  /** The frame at the front of some bytes. */
  function FirstFrame(c: Codec, bytes: seq<byte>): (f: Frame)
    ensures f.Payload? ==> |f.raw| + 4 <= |bytes|
    ensures f.Flush? || f.Delim? || f.ResponseEnd? ==> |bytes| >= 4
  {
    if |bytes| < 4 then Truncated
    else
      var header := bytes[..4];
      if header == FLUSH then Flush
      else if header == DELIM then Delim
      else if header == RESPONSE_END then ResponseEnd
      else
        var length := c.parseLength(header);
        if length.None? || length.value < 4 then Malformed
        else if length.value > |bytes| then Truncated
        else Payload(bytes[4..length.value])
  }

  function Size(f: Frame): nat {
    if f.Payload? then |f.raw| + 4 else 4
  }

  /** A frame that is whole, or malformed, stays as it is when more bytes arrive. */
  lemma {:induction false} FrameIsStable(c: Codec, bytes: seq<byte>, more: seq<byte>)
    requires !FirstFrame(c, bytes).Truncated?
    ensures FirstFrame(c, bytes + more) == FirstFrame(c, bytes)
  {
    assert (bytes + more)[..4] == bytes[..4];
    if FirstFrame(c, bytes).Payload? {
      var n := c.parseLength(bytes[..4]).value;
      assert (bytes + more)[4..n] == bytes[4..n];
    }
  }

  // ---------- A section ----------

  /** Why a command section is refused; the error messages of the source. */
  datatype Refusal = UnexpectedDelimiter | MalformedHeader | EndedBeforeFlush | SectionTooLarge

  datatype Section = Complete(payloads: seq<seq<byte>>, offset: nat) | Incomplete | Invalid(reason: Refusal)

  /** The frames up to the flush packet. */
  function ParseSection(c: Codec, bytes: seq<byte>): (s: Section)
    ensures s.Complete? ==> s.offset <= |bytes|
    decreases |bytes|
  {
    var f := FirstFrame(c, bytes);
    match f
    case Flush => Complete([], 4)
    case Truncated => Incomplete
    case Delim => Invalid(UnexpectedDelimiter)
    case ResponseEnd => Invalid(UnexpectedDelimiter)
    case Malformed => Invalid(MalformedHeader)
    case Payload(raw) => After([raw], Size(f), ParseSection(c, bytes[Size(f)..]))
  }

  /** A section that starts with some payloads already read. */
  function After(payloads: seq<seq<byte>>, size: nat, s: Section): (r: Section)
    ensures r.Complete? == s.Complete? && r.Incomplete? == s.Incomplete?
    ensures s.Complete? ==> r.offset == size + s.offset
  {
    if s.Complete? then Complete(payloads + s.payloads, size + s.offset) else s
  }

  lemma {:induction false} AfterMore(payloads: seq<seq<byte>>, size: nat, raw: seq<byte>, n: nat, s: Section)
    ensures After(payloads, size, After([raw], n, s)) == After(payloads + [raw], size + n, s)
  {
    if s.Complete? {
      AppendAssociates(payloads, [raw], s.payloads);
    }
  }

  /** The verdicts ok and invalid are final: no further bytes change them. */
  lemma {:induction false} SectionIsStable(c: Codec, bytes: seq<byte>, more: seq<byte>)
    requires !ParseSection(c, bytes).Incomplete?
    ensures ParseSection(c, bytes + more) == ParseSection(c, bytes)
    decreases |bytes|
  {
    var f := FirstFrame(c, bytes);
    FrameIsStable(c, bytes, more);
    if f.Payload? {
      assert (bytes + more)[Size(f)..] == bytes[Size(f)..] + more;
      SectionIsStable(c, bytes[Size(f)..], more);
    }
  }

  /** `text.replace(/\r?\n$/, "")`. */
  function TrimLineEnd(text: string): string {
    var n := |text|;
    if n >= 2 && text[n - 2] == '\r' && text[n - 1] == '\n' then text[..n - 2]
    else if n >= 1 && text[n - 1] == '\n' then text[..n - 1]
    else text
  }

  /** One line ending is dropped, with or without its carriage return; other texts stay as they are. */
  lemma {:induction false} OneEndingIsTrimmed(text: string)
    ensures TrimLineEnd(text + "\r\n") == text
    ensures text == "" || text[|text| - 1] != '\r' ==> TrimLineEnd(text + "\n") == text
    ensures text == "" || text[|text| - 1] != '\n' ==> TrimLineEnd(text) == text
  {
  }

  function TextLines(c: Codec, payloads: seq<seq<byte>>): (lines: seq<string>)
    ensures |lines| == |payloads|
  {
    seq(|payloads|, i requires 0 <= i < |payloads| => TrimLineEnd(c.decode(payloads[i])))
  }

  lemma {:induction false} TextLinesSnoc(c: Codec, payloads: seq<seq<byte>>, raw: seq<byte>)
    ensures TextLines(c, payloads + [raw]) == TextLines(c, payloads) + [TrimLineEnd(c.decode(raw))]
  {
  }

  datatype ParsedPktSection = Parsed(lines: seq<string>, offset: nat) | More | Refused(reason: Refusal)

  function Texts(c: Codec, s: Section): ParsedPktSection {
    match s
    case Complete(payloads, offset) => Parsed(TextLines(c, payloads), offset)
    case Incomplete => More
    case Invalid(reason) => Refused(reason)
  }

  /** The frames before `offset` carried `payloads`, and the rest of the section follows. */
  ghost predicate Reading(c: Codec, bytes: seq<byte>, whole: Section, offset: nat, payloads: seq<seq<byte>>) {
    offset <= |bytes| && whole == After(payloads, offset, ParseSection(c, bytes[offset..]))
  }

  lemma {:induction false} StartReading(c: Codec, bytes: seq<byte>)
    ensures Reading(c, bytes, ParseSection(c, bytes), 0, [])
  {
    assert bytes[0..] == bytes;
    var s := ParseSection(c, bytes);
    if s.Complete? {
      assert [] + s.payloads == s.payloads;
    }
  }

  /** The outcome a frame that ends the loop decides. */
  function Outcome(payloads: seq<seq<byte>>, offset: nat, f: Frame): Section
    requires !f.Payload?
  {
    match f
    case Flush => Complete(payloads, offset + 4)
    case Truncated => Incomplete
    case Malformed => Invalid(MalformedHeader)
    case _ => Invalid(UnexpectedDelimiter)
  }

  /** One round of the loop: a payload to go on with, or the outcome. */
  method ReadFrame(c: Codec, bytes: seq<byte>, ghost whole: Section, offset: nat, ghost payloads: seq<seq<byte>>)
    returns (f: Frame)
    requires Reading(c, bytes, whole, offset, payloads) && offset + 4 <= |bytes|
    ensures f.Payload? ==> Reading(c, bytes, whole, offset + 4 + |f.raw|, payloads + [f.raw])
    ensures !f.Payload? ==> whole == Outcome(payloads, offset, f)
  {
    f := FrameAt(c, bytes, offset);
    FrameDecides(c, bytes[offset..], f, payloads, offset);
    if f.Payload? {
      DropDrop(bytes, offset, 4 + |f.raw|);
    }
  }

  lemma {:induction false} FrameDecides(c: Codec, rest: seq<byte>, f: Frame, payloads: seq<seq<byte>>, offset: nat)
    requires f == FirstFrame(c, rest)
    ensures f.Payload? ==>
              After(payloads, offset, ParseSection(c, rest))
              == After(payloads + [f.raw], offset + 4 + |f.raw|, ParseSection(c, rest[4 + |f.raw|..]))
    ensures !f.Payload? ==> After(payloads, offset, ParseSection(c, rest)) == Outcome(payloads, offset, f)
  {
    if f.Payload? {
      AfterMore(payloads, offset, f.raw, 4 + |f.raw|, ParseSection(c, rest[4 + |f.raw|..]));
    } else if f.Flush? {
      assert payloads + [] == payloads;
    }
  }

  lemma {:induction false} StopReading(c: Codec, bytes: seq<byte>, whole: Section, offset: nat,
                                       payloads: seq<seq<byte>>)
    requires Reading(c, bytes, whole, offset, payloads) && offset + 4 > |bytes|
    ensures whole == Incomplete
  {
  }

  method ParsePktSectionPrefix(c: Codec, bytes: seq<byte>) returns (r: ParsedPktSection)
    ensures r == Texts(c, ParseSection(c, bytes))
  {
    StartReading(c, bytes);
    ghost var whole := ParseSection(c, bytes);
    r := ReadLines(c, bytes, whole);
  }

  method ReadLines(c: Codec, bytes: seq<byte>, ghost whole: Section) returns (r: ParsedPktSection)
    requires Reading(c, bytes, whole, 0, [])
    ensures r == Texts(c, whole)
  {
    var lines: seq<string> := [];
    var offset := 0;
    ghost var payloads: seq<seq<byte>> := [];
    while offset + 4 <= |bytes|
      invariant lines == TextLines(c, payloads) && Reading(c, bytes, whole, offset, payloads)
    {
      var f := ReadFrame(c, bytes, whole, offset, payloads);
      if f.Flush? {
        return Parsed(lines, offset + 4);
      }
      if f.Delim? || f.ResponseEnd? {
        return Refused(UnexpectedDelimiter);
      }
      if f.Malformed? {
        return Refused(MalformedHeader);
      }
      if f.Truncated? {
        return More;
      }
      TextLinesSnoc(c, payloads, f.raw);
      payloads := payloads + [f.raw];
      offset := offset + 4 + |f.raw|;
      lines := lines + [TrimLineEnd(c.decode(f.raw))];
    }
    StopReading(c, bytes, whole, offset, payloads);
    return More;
  }

  /** The header checks of one round, at a cursor. */
  method FrameAt(c: Codec, bytes: seq<byte>, start: nat) returns (f: Frame)
    requires start + 4 <= |bytes|
    ensures f == FirstFrame(c, bytes[start..])
  {
    var header := bytes[start..start + 4];
    DropDrop(bytes, start, 4);
    var offset := start + 4;
    if header == FLUSH {
      return Flush;
    }
    if header == DELIM {
      return Delim;
    }
    if header == RESPONSE_END {
      return ResponseEnd;
    }
    var length := c.parseLength(header);
    if length.None? || length.value < 4 {
      return Malformed;
    }
    var payloadLength := length.value - 4;
    if offset + payloadLength > |bytes| {
      return Truncated;
    }
    SubSlice(bytes, start, |bytes|, 4, length.value);
    return Payload(bytes[offset..offset + payloadLength]);
  }

  /** The buffered parser of `pktline.ts` succeeds exactly when the prefix parser does, with the same lines. */
  method ParsePktSection(c: Codec, buf: seq<byte>) returns (r: Option<(seq<string>, nat)>)
    ensures r == match Texts(c, ParseSection(c, buf)) case Parsed(lines, offset) => Some((lines, offset)) case _ => None
  {
    StartReading(c, buf);
    r := CollectLines(c, buf, ParseSection(c, buf));
  }

  method CollectLines(c: Codec, buf: seq<byte>, ghost whole: Section) returns (r: Option<(seq<string>, nat)>)
    requires Reading(c, buf, whole, 0, [])
    ensures r == match Texts(c, whole) case Parsed(lines, offset) => Some((lines, offset)) case _ => None
  {
    var lines: seq<string> := [];
    var off := 0;
    ghost var payloads: seq<seq<byte>> := [];
    while off + 4 <= |buf|
      invariant lines == TextLines(c, payloads) && Reading(c, buf, whole, off, payloads)
    {
      var f := ReadFrame(c, buf, whole, off, payloads);
      if f.Flush? {
        return Some((lines, off + 4));
      }
      if !f.Payload? {
        return None;
      }
      TextLinesSnoc(c, payloads, f.raw);
      payloads := payloads + [f.raw];
      off := off + 4 + |f.raw|;
      lines := lines + [TrimLineEnd(c.decode(f.raw))];
    }
    StopReading(c, buf, whole, off, payloads);
    return None;
  }

  // ---------- Reading a section from a stream ----------

  datatype SectionRead =
    | Read(lines: seq<string>, bytesConsumed: nat, packStream: seq<seq<byte>>)
    | Failed(reason: Refusal)

  /** What remains for the pack: the rest of the buffer, if any, and the chunks not read yet. */
  function PackStream(remainder: seq<byte>, chunks: seq<seq<byte>>): (stream: seq<seq<byte>>)
    ensures Flatten(stream) == remainder + Flatten(chunks)
  {
    if remainder == [] then
      assert remainder + Flatten(chunks) == Flatten(chunks);
      chunks
    else
      assert ([remainder] + chunks)[1..] == chunks;
      [remainder] + chunks
  }

  /** Parses what is buffered again after each chunk. */
  function ReadSection(c: Codec, buffered: seq<byte>, chunks: seq<seq<byte>>): SectionRead
    decreases |chunks|
  {
    match ParseSection(c, buffered)
    case Complete(payloads, offset) => Read(TextLines(c, payloads), offset, PackStream(buffered[offset..], chunks))
    case Invalid(reason) => Failed(reason)
    case Incomplete =>
      if chunks == [] then Failed(EndedBeforeFlush)
      else if |buffered + chunks[0]| > MAX_COMMAND_SECTION_BYTES then Failed(SectionTooLarge)
      else ReadSection(c, buffered + chunks[0], chunks[1..])
  }

  method ReadPktSectionStream(c: Codec, body: seq<seq<byte>>) returns (r: SectionRead)
    ensures r == ReadSection(c, [], body)
  {
    var buffered: seq<byte> := [];
    var next := 0;
    assert body[0..] == body;
    while true
      invariant next <= |body| && ReadSection(c, [], body) == ReadSection(c, buffered, body[next..])
      decreases |body| - next
    {
      var parsed := ParsePktSectionPrefix(c, buffered);
      match parsed {
        case Parsed(lines, offset) => return Read(lines, offset, PackStream(buffered[offset..], body[next..]));
        case Refused(reason) => return Failed(reason);
        case More =>
          if next == |body| {
            return Failed(EndedBeforeFlush);
          }
          ReadOn(c, body, next, buffered);
          buffered := buffered + body[next];
          if |buffered| > MAX_COMMAND_SECTION_BYTES {
            return Failed(SectionTooLarge);
          }
          next := next + 1;
      }
    }
  }

  lemma {:induction false} ReadOn(c: Codec, body: seq<seq<byte>>, next: nat, buffered: seq<byte>)
    requires next < |body| && ParseSection(c, buffered).Incomplete?
    ensures ReadSection(c, buffered, body[next..])
         == if |buffered + body[next]| > MAX_COMMAND_SECTION_BYTES then Failed(SectionTooLarge)
            else ReadSection(c, buffered + body[next], body[next + 1..])
  {
    assert body[next..][1..] == body[next + 1..];
  }

  /** Success gives the lines and the offset of one parse of the whole body, and exactly the remaining bytes. */
  predicate AgreesWithWhole(c: Codec, whole: seq<byte>, r: SectionRead) {
    match r
    case Read(lines, bytesConsumed, packStream) =>
      && Texts(c, ParseSection(c, whole)) == Parsed(lines, bytesConsumed)
      && Flatten(packStream) == whole[bytesConsumed..]
    case Failed(SectionTooLarge) => |whole| > 262144
    case Failed(EndedBeforeFlush) => ParseSection(c, whole).Incomplete?
    case Failed(reason) => ParseSection(c, whole) == Invalid(reason)
  }

  lemma {:induction false} ReadIsWholeParse(c: Codec, buffered: seq<byte>, chunks: seq<seq<byte>>)
    ensures AgreesWithWhole(c, buffered + Flatten(chunks), ReadSection(c, buffered, chunks))
    decreases |chunks|
  {
    var whole := buffered + Flatten(chunks);
    match ParseSection(c, buffered)
    case Complete(payloads, offset) =>
      SectionIsStable(c, buffered, Flatten(chunks));
      assert whole[offset..] == buffered[offset..] + Flatten(chunks);
    case Invalid(reason) =>
      SectionIsStable(c, buffered, Flatten(chunks));
      InvalidReasons(c, buffered);
    case Incomplete =>
      if chunks == [] {
        assert whole == buffered;
      } else {
        AppendAssociates(buffered, chunks[0], Flatten(chunks[1..]));
        ReadIsWholeParse(c, buffered + chunks[0], chunks[1..]);
      }
  }

  lemma {:induction false} InvalidReasons(c: Codec, bytes: seq<byte>)
    requires ParseSection(c, bytes).Invalid?
    ensures ParseSection(c, bytes).reason in {UnexpectedDelimiter, MalformedHeader}
    decreases |bytes|
  {
    var f := FirstFrame(c, bytes);
    if f.Payload? {
      InvalidReasons(c, bytes[Size(f)..]);
    }
  }

  /** However the body is cut into chunks, a successful read means the same. */
  lemma {:induction false} ChunksDoNotMatter(c: Codec, body: seq<seq<byte>>, other: seq<seq<byte>>)
    requires Flatten(body) == Flatten(other)
    requires ReadSection(c, [], body).Read? && ReadSection(c, [], other).Read?
    ensures var r, o := ReadSection(c, [], body), ReadSection(c, [], other);
            r.lines == o.lines && r.bytesConsumed == o.bytesConsumed && Flatten(r.packStream) == Flatten(o.packStream)
  {
    StreamIsWholeParse(c, body);
    StreamIsWholeParse(c, other);
  }

  lemma {:induction false} StreamIsWholeParse(c: Codec, body: seq<seq<byte>>)
    ensures AgreesWithWhole(c, Flatten(body), ReadSection(c, [], body))
  {
    ReadIsWholeParse(c, [], body);
    assert [] + Flatten(body) == Flatten(body);
  }

  /** The first `k` chunks hold a whole section within the cap. */
  predicate EndsWithin(c: Codec, buffered: seq<byte>, chunks: seq<seq<byte>>, k: nat)
    requires k <= |chunks|
  {
    var read := buffered + Flatten(chunks[..k]);
    ParseSection(c, read).Complete? && (k > 0 ==> |read| <= MAX_COMMAND_SECTION_BYTES)
  }

  /** A read succeeds exactly when some number of chunks holds the section without exceeding the cap. */
  lemma {:induction false} ReadSucceeds(c: Codec, buffered: seq<byte>, chunks: seq<seq<byte>>)
    ensures ReadSection(c, buffered, chunks).Read? <==>
            exists k :: 0 <= k <= |chunks| && EndsWithin(c, buffered, chunks, k)
    decreases |chunks|
  {
    if ReadSection(c, buffered, chunks).Read? {
      var k := ReadEnds(c, buffered, chunks);
    }
    if k :| 0 <= k <= |chunks| && EndsWithin(c, buffered, chunks, k) {
      EndingIsRead(c, buffered, chunks, k);
    }
  }

  lemma {:induction false} ReadEnds(c: Codec, buffered: seq<byte>, chunks: seq<seq<byte>>) returns (k: nat)
    requires ReadSection(c, buffered, chunks).Read?
    ensures k <= |chunks| && EndsWithin(c, buffered, chunks, k)
    decreases |chunks|
  {
    if ParseSection(c, buffered).Complete? {
      k := 0;
      assert buffered + Flatten(chunks[..0]) == buffered;
    } else {
      var rest := ReadEnds(c, buffered + chunks[0], chunks[1..]);
      k := rest + 1;
      FirstChunk(buffered, chunks, k);
    }
  }

  lemma {:induction false} FirstChunk(buffered: seq<byte>, chunks: seq<seq<byte>>, k: nat)
    requires 0 < k <= |chunks|
    ensures buffered + Flatten(chunks[..k]) == buffered + chunks[0] + Flatten(chunks[1..][..k - 1])
  {
    assert chunks[..k][1..] == chunks[1..][..k - 1];
    AppendAssociates(buffered, chunks[0], Flatten(chunks[1..][..k - 1]));
  }

  lemma {:induction false} EndingIsRead(c: Codec, buffered: seq<byte>, chunks: seq<seq<byte>>, k: nat)
    requires k <= |chunks| && EndsWithin(c, buffered, chunks, k)
    ensures ReadSection(c, buffered, chunks).Read?
    decreases |chunks|
  {
    if !ParseSection(c, buffered).Incomplete? {
      SectionIsStable(c, buffered, Flatten(chunks[..k]));
    } else {
      assert k == 0 ==> buffered + Flatten(chunks[..k]) == buffered;
      FirstChunk(buffered, chunks, k);
      EndingIsRead(c, buffered + chunks[0], chunks[1..], k - 1);
    }
  }

  // ---------- Writing pkt-lines ----------

  /** `n.toString(16)`. */
  function HexDigits(n: nat): (digits: seq<byte>)
    ensures |digits| >= 1 && IsHex(digits)
  {
    if n < 16 then [HexDigit(n)] else HexDigits(n / 16) + [HexDigit(n % 16)]
  }

  function PadStart(digits: seq<byte>, width: nat): (padded: seq<byte>)
    requires IsHex(digits)
    ensures IsHex(padded) && |padded| == if |digits| < width then width else |digits|
    decreases width - |digits|
  {
    if |digits| >= width then digits else PadStart([ZERO] + digits, width)
  }

  function ToHex4(n: nat): (header: seq<byte>)
    ensures |header| >= 4 && IsHex(header)
  {
    PadStart(HexDigits(n), 4)
  }

  function PktBytes(payload: seq<byte>): seq<byte> {
    ToHex4(|payload| + 4) + payload
  }

  method PktLine(payload: seq<byte>) returns (out: seq<byte>)
    ensures out == PktBytes(payload)
  {
    var header := ToHex4(|payload| + 4);
    out := ConcatBytes(header, payload);
  }

  method ConcatBytes(header: seq<byte>, payload: seq<byte>) returns (out: seq<byte>)
    ensures out == header + payload
  {
    var buffer := new byte[|header| + |payload|];
    var fits := SetBytes(buffer, header, 0);
    assert [] + header == header;
    fits := SetBytes(buffer, payload, |header|);
    assert buffer[..buffer.Length] == buffer[..];
    return buffer[..];
  }

  lemma {:induction false} HexDigitsValue(n: nat)
    ensures HexValue(HexDigits(n)) == n
  {
    if n >= 16 {
      HexDigitsValue(n / 16);
      assert HexDigits(n)[..|HexDigits(n)| - 1] == HexDigits(n / 16);
    }
  }

  lemma {:induction false} LeadingZero(digits: seq<byte>)
    requires IsHex(digits)
    ensures HexValue([ZERO] + digits) == HexValue(digits)
  {
    var n := |digits|;
    if n > 0 {
      assert ([ZERO] + digits)[..n] == [ZERO] + digits[..n - 1];
      LeadingZero(digits[..n - 1]);
    } else {
      assert [ZERO] + digits == [ZERO];
      assert HexValue([ZERO]) == 16 * HexValue([]) + 0;
    }
  }

  lemma {:induction false} PaddedValue(digits: seq<byte>, width: nat)
    requires IsHex(digits)
    ensures HexValue(PadStart(digits, width)) == HexValue(digits)
    decreases width - |digits|
  {
    if |digits| < width {
      LeadingZero(digits);
      PaddedValue([ZERO] + digits, width);
    }
  }

  function Pow16(k: nat): (p: nat)
    ensures p >= 1
  {
    if k == 0 then 1 else 16 * Pow16(k - 1)
  }

  lemma {:induction false} HexDigitsLength(n: nat, k: nat)
    requires k >= 1 && n < Pow16(k)
    ensures |HexDigits(n)| <= k
    decreases k
  {
    if n >= 16 {
      assert k > 1;
      HexDigitsLength(n / 16, k - 1);
    }
  }

  /** Lengths up to 0xffff get exactly four digits. */
  lemma {:induction false} FourDigits(n: nat)
    ensures n < 0x1_0000 ==> |ToHex4(n)| == 4
    ensures HexValue(ToHex4(n)) == n
  {
    if n < 0x1_0000 {
      assert Pow16(4) == 0x1_0000;
      HexDigitsLength(n, 4);
    }
    HexDigitsValue(n);
    PaddedValue(HexDigits(n), 4);
  }

  lemma {:induction false} HexValueBound(digits: seq<byte>)
    requires IsHex(digits)
    ensures HexValue(digits) < Pow16(|digits|)
  {
    if digits != [] {
      HexValueBound(digits[..|digits| - 1]);
    }
  }

  /** The three special headers spell 0, 1 and 2. */
  lemma {:induction false} SpecialValues()
    ensures IsHex(FLUSH) && HexValue(FLUSH) == 0
    ensures IsHex(DELIM) && HexValue(DELIM) == 1
    ensures IsHex(RESPONSE_END) && HexValue(RESPONSE_END) == 2
  {
    var zeros := [ZERO, ZERO, ZERO];
    assert HexValue([ZERO]) == 16 * HexValue([]) + 0 == 0;
    LeadingZero([ZERO]);
    assert [ZERO] + [ZERO] == [ZERO, ZERO];
    LeadingZero([ZERO, ZERO]);
    assert [ZERO] + [ZERO, ZERO] == zeros;
    assert FLUSH[..3] == zeros && DELIM[..3] == zeros && RESPONSE_END[..3] == zeros;
  }

  /** A written pkt-line is read back whatever follows it, exactly when its payload has at most 65531 bytes. */
  lemma {:induction false} PktLineRoundTrip(c: Codec, payload: seq<byte>, rest: seq<byte>)
    requires Agrees(c)
    ensures FirstFrame(c, PktBytes(payload) + rest) == Payload(payload) <==> |payload| <= 65531
  {
    if |payload| <= MAX_PAYLOAD_BYTES {
      PktLineReadsBack(c, payload, rest);
    } else {
      HeaderLimitsPayload(c, PktBytes(payload) + rest, ToHex4(|payload| + 4));
    }
  }

  lemma {:induction false} PktLineReadsBack(c: Codec, payload: seq<byte>, rest: seq<byte>)
    requires Agrees(c) && |payload| <= MAX_PAYLOAD_BYTES
    ensures FirstFrame(c, PktBytes(payload) + rest) == Payload(payload)
  {
    var n := |payload| + 4;
    var bytes := PktBytes(payload) + rest;
    FourDigits(n);
    SpecialValues();
    assert bytes[..4] == ToHex4(n);
    assert bytes[4..n] == payload;
  }

  lemma {:induction false} HeaderLimitsPayload(c: Codec, bytes: seq<byte>, header: seq<byte>)
    requires Agrees(c) && |header| >= 4 && IsHex(header) && header <= bytes
    ensures FirstFrame(c, bytes).Payload? ==> |FirstFrame(c, bytes).raw| <= MAX_PAYLOAD_BYTES
  {
    assert bytes[..4] == header[..4];
    HexValueBound(bytes[..4]);
    assert Pow16(4) == 0x1_0000;
  }

  // ---------- Decoding a whole buffer ----------

  datatype PktItem = LineItem(text: string, raw: seq<byte>) | FlushItem | DelimItem | ResponseEndItem

  function ItemOf(c: Codec, f: Frame): PktItem
    requires !f.Malformed? && !f.Truncated?
  {
    match f
    case Payload(raw) => LineItem(c.decode(raw), raw)
    case Flush => FlushItem
    case Delim => DelimItem
    case ResponseEnd => ResponseEndItem
  }

  function Items(c: Codec, bytes: seq<byte>): seq<PktItem>
    decreases |bytes|
  {
    var f := FirstFrame(c, bytes);
    if f.Malformed? || f.Truncated? then [] else [ItemOf(c, f)] + Items(c, bytes[Size(f)..])
  }

  method DecodePktLines(c: Codec, buf: seq<byte>) returns (out: seq<PktItem>)
    ensures out == Items(c, buf)
  {
    out := [];
    var off := 0;
    assert buf[0..] == buf && [] + Items(c, buf) == Items(c, buf);
    while off + 4 <= |buf|
      invariant off <= |buf| && Items(c, buf) == out + Items(c, buf[off..])
    {
      var f := FrameAt(c, buf, off);
      ItemsUnfold(c, buf[off..], f);
      if f.Malformed? || f.Truncated? {
        assert out + [] == out;
        return;
      }
      DropDrop(buf, off, Size(f));
      AppendAssociates(out, [ItemOf(c, f)], Items(c, buf[off + Size(f)..]));
      out, off := out + [ItemOf(c, f)], off + Size(f);
    }
    ItemsUnfold(c, buf[off..], FirstFrame(c, buf[off..]));
    assert out + [] == out;
  }

  lemma {:induction false} ItemsUnfold(c: Codec, bytes: seq<byte>, f: Frame)
    requires f == FirstFrame(c, bytes)
    ensures if f.Malformed? || f.Truncated? then Items(c, bytes) == []
            else Size(f) <= |bytes| && Items(c, bytes) == [ItemOf(c, f)] + Items(c, bytes[Size(f)..])
  {
  }

  function ItemBytes(item: PktItem): seq<byte> {
    match item
    case LineItem(_, raw) => PktBytes(raw)
    case FlushItem => FLUSH
    case DelimItem => DELIM
    case ResponseEndItem => RESPONSE_END
  }

  function EncodeItems(items: seq<PktItem>): seq<byte> {
    if items == [] then [] else ItemBytes(items[0]) + EncodeItems(items[1..])
  }

  /** A line small enough for its header, with its text. */
  predicate EncodableItem(c: Codec, item: PktItem) {
    item.LineItem? ==> |item.raw| <= MAX_PAYLOAD_BYTES && item.text == c.decode(item.raw)
  }

  predicate Encodable(c: Codec, items: seq<PktItem>) {
    items == [] || (EncodableItem(c, items[0]) && Encodable(c, items[1..]))
  }

  /** Any mix of lines and special packets is decoded to itself. */
  lemma {:induction false} ItemsRoundTrip(c: Codec, items: seq<PktItem>)
    requires Agrees(c) && Encodable(c, items)
    ensures Items(c, EncodeItems(items)) == items
  {
    var bytes := EncodeItems(items);
    if items == [] {
      assert FirstFrame(c, bytes).Truncated?;
    } else {
      ItemReadsBack(c, items[0], EncodeItems(items[1..]));
      ItemsRoundTrip(c, items[1..]);
      var f := FirstFrame(c, bytes);
      ItemsUnfold(c, bytes, f);
      AppendParts(ItemBytes(items[0]), EncodeItems(items[1..]));
    }
  }

  lemma {:induction false} ItemReadsBack(c: Codec, item: PktItem, rest: seq<byte>)
    requires Agrees(c) && EncodableItem(c, item)
    ensures var f := FirstFrame(c, ItemBytes(item) + rest);
            !f.Malformed? && !f.Truncated? && ItemOf(c, f) == item && Size(f) == |ItemBytes(item)|
  {
    match item
    case LineItem(_, raw) =>
      PktLineReadsBack(c, raw, rest);
      FourDigits(|raw| + 4);
    case _ =>
      assert (ItemBytes(item) + rest)[..4] == ItemBytes(item);
  }

  function SectionBytes(payloads: seq<seq<byte>>): seq<byte> {
    if payloads == [] then FLUSH else PktBytes(payloads[0]) + SectionBytes(payloads[1..])
  }

  predicate Sendable(payloads: seq<seq<byte>>) {
    payloads == [] || (|payloads[0]| <= 65531 && Sendable(payloads[1..]))
  }

  lemma {:induction false} FirstLineReadsBack(c: Codec, payload: seq<byte>, rest: seq<byte>)
    requires Agrees(c) && |payload| <= MAX_PAYLOAD_BYTES
    ensures ParseSection(c, PktBytes(payload) + rest) == After([payload], |PktBytes(payload)|, ParseSection(c, rest))
  {
    ItemReadsBack(c, LineItem(c.decode(payload), payload), rest);
    AppendParts(PktBytes(payload), rest);
  }

  /** Any list of pkt-lines and a flush packet is read back as a section, whatever pack follows. */
  lemma {:induction false} SectionRoundTrip(c: Codec, payloads: seq<seq<byte>>, pack: seq<byte>)
    requires Agrees(c) && Sendable(payloads)
    ensures ParseSection(c, SectionBytes(payloads) + pack) == Complete(payloads, |SectionBytes(payloads)|)
  {
    var bytes := SectionBytes(payloads) + pack;
    if payloads == [] {
      ItemReadsBack(c, FlushItem, pack);
    } else {
      var rest := SectionBytes(payloads[1..]) + pack;
      AppendAssociates(PktBytes(payloads[0]), SectionBytes(payloads[1..]), pack);
      SectionRoundTrip(c, payloads[1..], pack);
      FirstLineReadsBack(c, payloads[0], rest);
      assert [payloads[0]] + payloads[1..] == payloads;
    }
  }

  /** A beginning of a body holds the whole section exactly when it is at least as long. */
  lemma {:induction false} SectionNeedsItsBytes(c: Codec, payloads: seq<seq<byte>>, pack: seq<byte>, read: seq<byte>,
                                                more: seq<byte>)
    requires Agrees(c) && Sendable(payloads) && read + more == SectionBytes(payloads) + pack
    ensures ParseSection(c, read).Complete? <==> |read| >= |SectionBytes(payloads)|
  {
    if |read| >= |SectionBytes(payloads)| {
      var rest := LongerRead(SectionBytes(payloads), pack, read, more);
      SectionRoundTrip(c, payloads, rest);
    } else if ParseSection(c, read).Complete? {
      SectionRoundTrip(c, payloads, pack);
      SectionIsStable(c, read, more);
    }
  }

  lemma {:induction false} LongerRead(section: seq<byte>, pack: seq<byte>, read: seq<byte>, more: seq<byte>)
    returns (rest: seq<byte>)
    requires read + more == section + pack && |read| >= |section|
    ensures read == section + rest
  {
    rest := read[|section|..];
    AppendParts(section, pack);
    assert (read + more)[..|section|] == read[..|section|];
  }

  /** The first `k` chunks hold `size` bytes and no more than the cap. */
  predicate ReachWithinCap(body: seq<seq<byte>>, size: nat, k: nat)
    requires k <= |body|
  {
    size <= |Flatten(body[..k])| <= 262144
  }

  lemma {:induction false} EndIsLength(c: Codec, payloads: seq<seq<byte>>, pack: seq<byte>, body: seq<seq<byte>>,
                                       k: nat)
    requires Agrees(c) && Sendable(payloads) && Flatten(body) == SectionBytes(payloads) + pack && k <= |body|
    ensures EndsWithin(c, [], body, k) <==> ReachWithinCap(body, |SectionBytes(payloads)|, k)
  {
    var read := Flatten(body[..k]);
    assert body == body[..k] + body[k..];
    FlattenAppend(body[..k], body[k..]);
    assert [] + read == read;
    SectionNeedsItsBytes(c, payloads, pack, read, Flatten(body[k..]));
    assert k == 0 ==> read == [];
  }

  /**
  A push body of any length, in any chunking: it is read exactly when some number of chunks
  brings the whole section without exceeding the cap, and then it is split into its lines
  and its pack.
   */
  lemma {:induction false} StreamRoundTrip(c: Codec, payloads: seq<seq<byte>>, pack: seq<byte>, body: seq<seq<byte>>)
    requires Agrees(c) && Sendable(payloads) && Flatten(body) == SectionBytes(payloads) + pack
    ensures var r := ReadSection(c, [], body);
            && (r.Read? <==> exists k :: 0 <= k <= |body| && ReachWithinCap(body, |SectionBytes(payloads)|, k))
            && (r.Read? ==> r.lines == TextLines(c, payloads) && Flatten(r.packStream) == pack)
  {
    ReadSucceeds(c, [], body);
    forall k | 0 <= k <= |body|
      ensures EndsWithin(c, [], body, k) <==> ReachWithinCap(body, |SectionBytes(payloads)|, k)
    {
      EndIsLength(c, payloads, pack, body, k);
    }
    if ReadSection(c, [], body).Read? {
      SectionRoundTrip(c, payloads, pack);
      StreamIsWholeParse(c, body);
      AppendParts(SectionBytes(payloads), pack);
    }
  }

  /**
  Any push over the cap in all: read when its section comes in a chunk of its own, refused
  when it comes in one chunk.
   */
  lemma {:induction false} OneChunkIsRefused(c: Codec, payloads: seq<seq<byte>>, pack: seq<byte>)
    requires Agrees(c) && Sendable(payloads) && |SectionBytes(payloads)| <= 262144
    requires |SectionBytes(payloads) + pack| > 262144
    ensures var section := SectionBytes(payloads);
            && Flatten([section, pack]) == Flatten([section + pack])
            && ReadSection(c, [], [section, pack]).Read?
            && ReadSection(c, [], [section + pack]) == Failed(SectionTooLarge)
  {
    var section := SectionBytes(payloads);
    FlattenSnoc([], section + pack);
    FlattenSnoc([], section);
    FlattenSnoc([section], pack);
    assert [section] + [pack] == [section, pack] && [section, pack][..1] == [section];
    assert ReachWithinCap([section, pack], |section|, 1);
    StreamRoundTrip(c, payloads, pack, [section, pack]);
    assert [] + (section + pack) == section + pack;
    assert ParseSection(c, []).Incomplete?;
  }

  /** For instance: no commands, and 256 KiB of pack. */
  lemma {:induction false} SameBodyTwoChunkings(c: Codec)
    requires Agrees(c)
    ensures var pack: seq<byte> := seq(262144, i => 0);
            && ReadSection(c, [], [FLUSH, pack]).Read?
            && ReadSection(c, [], [FLUSH + pack]) == Failed(SectionTooLarge)
  {
    var pack: seq<byte> := seq(262144, i => 0);
    OneChunkIsRefused(c, [], pack);
  }
}
