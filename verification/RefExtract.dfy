/**
The byte-level reference extractors of `src/worker/git/pack/refIndex.ts`, and the tree
parser of `src/worker/git/core/object-parse.ts`.
 */
module RefExtract {
  import opened Bytes

  const LF: byte := 0x0a
  const CR: byte := 0x0d
  const SPACE: byte := 0x20
  const NUL: byte := 0x00

  const TREE_LINE_PREFIX: seq<byte> := [0x74, 0x72, 0x65, 0x65, 0x20]
  const PARENT_LINE_PREFIX: seq<byte> := [0x70, 0x61, 0x72, 0x65, 0x6e, 0x74, 0x20]
  const OBJECT_LINE_PREFIX: seq<byte> := [0x6f, 0x62, 0x6a, 0x65, 0x63, 0x74, 0x20]
  const TYPE_LINE_PREFIX: seq<byte> := [0x74, 0x79, 0x70, 0x65, 0x20]
  const COMMIT: seq<byte> := [0x63, 0x6f, 0x6d, 0x6d, 0x69, 0x74]
  const TREE: seq<byte> := [0x74, 0x72, 0x65, 0x65]
  const BLOB: seq<byte> := [0x62, 0x6c, 0x6f, 0x62]
  const TAG: seq<byte> := [0x74, 0x61, 0x67]
  const GITLINK_MODE: seq<byte> := [0x31, 0x36, 0x30, 0x30, 0x30, 0x30]

  /** The words of the object formats. */
  lemma {:induction false} WordsAreSpelled()
    ensures TREE_LINE_PREFIX == Ascii("tree ") && PARENT_LINE_PREFIX == Ascii("parent ")
    ensures OBJECT_LINE_PREFIX == Ascii("object ") && TYPE_LINE_PREFIX == Ascii("type ")
    ensures COMMIT == Ascii("commit") && TREE == Ascii("tree") && BLOB == Ascii("blob") && TAG == Ascii("tag")
    ensures GITLINK_MODE == Ascii("160000")
    ensures [LF] == Ascii("\n") && [CR] == Ascii("\r") && [SPACE] == Ascii(" ") && NUL == 0
  {
  }

  /** The first index holding `b`, or the length. */
  function IndexOf(p: seq<byte>, b: byte): (i: nat)
    ensures i <= |p| && (i < |p| ==> p[i] == b)
  {
    IndexFrom(p, 0, b)
  }

  function IndexFrom(p: seq<byte>, i: nat, b: byte): (r: nat)
    requires i <= |p|
    ensures i <= r <= |p| && (r < |p| ==> p[r] == b)
    decreases |p| - i
  {
    if i == |p| || p[i] == b then i else IndexFrom(p, i + 1, b)
  }

  /** The scan loop of every parser here. */
  method ScanTo(payload: seq<byte>, start: nat, b: byte) returns (cursor: nat)
    requires start <= |payload|
    ensures cursor == start + IndexOf(payload[start..], b)
  {
    cursor := start;
    while cursor < |payload| && payload[cursor] != b
      invariant start <= cursor <= |payload|
      invariant IndexFrom(payload, start, b) == IndexFrom(payload, cursor, b)
    {
      cursor := cursor + 1;
    }
    IndexShift(payload, start, 0, b);
  }

  lemma {:induction false} IndexShift(payload: seq<byte>, start: nat, i: nat, b: byte)
    requires start + i <= |payload|
    ensures IndexFrom(payload, start + i, b) == start + IndexFrom(payload[start..], i, b)
    decreases |payload| - start - i
  {
    if start + i < |payload| && payload[start + i] != b {
      IndexShift(payload, start, i + 1, b);
    }
  }

  lemma {:induction false} IndexSkips(p: seq<byte>, i: nat, end: nat, b: byte)
    requires i <= end <= |p| && b !in p[i..end] && (end < |p| ==> p[end] == b)
    ensures IndexFrom(p, i, b) == end
    decreases end - i
  {
    if i < end {
      assert p[i] == p[i..end][0];
      assert p[i + 1..end] == p[i..end][1..];
      IndexSkips(p, i + 1, end, b);
    }
  }

  lemma {:induction false} IndexOfFirst(before: seq<byte>, b: byte, rest: seq<byte>)
    requires b !in before
    ensures IndexOf(before + [b] + rest, b) == |before|
  {
    var p := before + [b] + rest;
    assert p[0..|before|] == before;
    IndexSkips(p, 0, |before|, b);
  }

  // ---------- Hexadecimal ids ----------

  function DecodeHex(text: seq<byte>): (s: seq<byte>)
    requires |text| % 2 == 0 && IsHex(text)
    ensures |s| == |text| / 2
  {
    if text == [] then [] else [16 * HexNibble(text[0]) + HexNibble(text[1])] + DecodeHex(text[2..])
  }

  lemma {:induction false} DecodedByte(text: seq<byte>, i: nat)
    requires |text| % 2 == 0 && IsHex(text) && 2 * i + 1 < |text|
    ensures DecodeHex(text)[i] == 16 * HexNibble(text[2 * i]) + HexNibble(text[2 * i + 1])
  {
    if i > 0 {
      DecodedByte(text[2..], i - 1);
    }
  }

  function EncodeHex(s: seq<byte>): (text: seq<byte>)
    ensures |text| == 2 * |s| && IsHex(text)
  {
    if s == [] then [] else [HexDigit(s[0] / 16), HexDigit(s[0] % 16)] + EncodeHex(s[1..])
  }

  lemma {:induction false} HexRoundTrip(s: seq<byte>)
    ensures DecodeHex(EncodeHex(s)) == s
  {
    if s != [] {
      assert EncodeHex(s)[2..] == EncodeHex(s[1..]);
      HexRoundTrip(s[1..]);
    }
  }

  /** Whether forty hexadecimal digits stand at `hexStart`, before `end`. */
  predicate HexAt(payload: seq<byte>, hexStart: nat, end: nat) {
    hexStart + 40 <= end <= |payload| && IsHex(payload[hexStart..hexStart + 40])
  }

  function OidAt(payload: seq<byte>, hexStart: nat): Oid
    requires HexAt(payload, hexStart, |payload|)
  {
    DecodeHex(payload[hexStart..hexStart + 40])
  }

  method HasHexOidAt(payload: seq<byte>, hexStart: nat, lineEnd: nat) returns (has: bool)
    requires lineEnd <= |payload|
    ensures has == HexAt(payload, hexStart, lineEnd)
  {
    if hexStart + 40 > lineEnd {
      return false;
    }
    ghost var text := payload[hexStart..hexStart + 40];
    for index := 0 to 40
      invariant forall k :: 0 <= k < index ==> HexNibble(text[k]) >= 0
    {
      assert payload[hexStart + index] == text[index];
      if HexNibble(payload[hexStart + index]) < 0 {
        return false;
      }
    }
    return true;
  }

  /** Decodes forty digits in place; refuses a digit that is not hexadecimal. */
  method WriteHexOidAt(payload: seq<byte>, hexStart: nat, out: array<byte>, outStart: nat) returns (valid: bool)
    requires hexStart + 40 <= |payload| && outStart + 20 <= out.Length
    modifies out
    ensures valid == HexAt(payload, hexStart, |payload|)
    ensures valid ==> out[..outStart + 20] == old(out[..outStart]) + OidAt(payload, hexStart)
  {
    var text := payload[hexStart..hexStart + 40];
    ghost var before := out[..outStart];
    for index := 0 to 20
      invariant forall k :: 0 <= k < 2 * index ==> HexNibble(text[k]) >= 0
      invariant IsHex(text) ==> out[..outStart + index] == before + DecodeHex(text)[..index]
    {
      var k := index * 2;
      assert text[k] == payload[hexStart + k] && text[k + 1] == payload[hexStart + k + 1];
      var hi, lo := HexNibble(payload[hexStart + k]), HexNibble(payload[hexStart + k + 1]);
      if hi < 0 || lo < 0 {
        return false;
      }
      if IsHex(text) {
        DecodedByte(text, index);
      }
      out[outStart + index] := 16 * hi + lo;
    }
    return true;
  }

  // ---------- Header lines ----------

  function StripCr(line: seq<byte>): seq<byte> {
    if line != [] && line[|line| - 1] == CR then line[..|line| - 1] else line
  }

  /** The lines before the first empty one, each without its line ending. */
  function HeaderLines(p: seq<byte>): seq<seq<byte>>
    decreases |p|
  {
    var end := IndexOf(p, LF);
    var line := StripCr(p[..end]);
    if line == [] then [] else [line] + HeaderLines(AfterLine(p, end))
  }

  function AfterLine(p: seq<byte>, end: nat): (rest: seq<byte>)
    requires end <= |p|
    ensures |rest| <= |p| - end
  {
    if end < |p| then p[end + 1..] else []
  }

  /** Where each line the loop visits starts and ends. */
  datatype Span = Span(start: nat, end: nat)

  predicate InBounds(payload: seq<byte>, spans: seq<Span>) {
    forall k :: 0 <= k < |spans| ==> spans[k].start <= spans[k].end <= |payload|
  }

  function Texts(payload: seq<byte>, spans: seq<Span>): (lines: seq<seq<byte>>)
    requires InBounds(payload, spans)
    ensures |lines| == |spans|
  {
    seq(|spans|, k requires 0 <= k < |spans| => payload[spans[k].start..spans[k].end])
  }

  method HeaderLineSpans(payload: seq<byte>) returns (spans: seq<Span>)
    ensures InBounds(payload, spans) && Texts(payload, spans) == HeaderLines(payload)
  {
    spans := [];
    var cursor := 0;
    ghost var lines: seq<seq<byte>> := [];
    NothingVisited(payload);
    while cursor < |payload|
      invariant cursor <= |payload| && Visited(payload, spans, lines)
      invariant HeaderLines(payload) == lines + HeaderLines(payload[cursor..])
    {
      var lineStart := cursor;
      var lineEnd;
      lineEnd, cursor := NextLine(payload, lineStart, lines);
      if lineEnd == lineStart {
        return;
      }
      VisitedSnoc(payload, spans, lines, lineStart, lineEnd);
      lines := lines + [payload[lineStart..lineEnd]];
      spans := spans + [Span(lineStart, lineEnd)];
    }
    NoLinesLeft(payload, lines);
  }

  lemma {:induction false} NothingVisited(payload: seq<byte>)
    ensures Visited(payload, [], []) && [] + HeaderLines(payload[0..]) == HeaderLines(payload)
  {
    assert payload[0..] == payload;
  }

  lemma {:induction false} NoLinesLeft(payload: seq<byte>, lines: seq<seq<byte>>)
    ensures lines + HeaderLines(payload[|payload|..]) == lines
  {
    assert HeaderLines([]) == [];
  }

  /** The line that starts at `lineStart`, and where the next one starts. */
  method NextLine(payload: seq<byte>, lineStart: nat, ghost lines: seq<seq<byte>>) returns (lineEnd: nat, next: nat)
    requires lineStart < |payload| && HeaderLines(payload) == lines + HeaderLines(payload[lineStart..])
    ensures lineStart <= lineEnd <= |payload| && lineStart < next <= |payload|
    ensures lineEnd == lineStart ==> HeaderLines(payload) == lines
    ensures lineEnd != lineStart ==>
              HeaderLines(payload) == lines + [payload[lineStart..lineEnd]] + HeaderLines(payload[next..])
  {
    var end := ScanTo(payload, lineStart, LF);
    lineEnd := if end > lineStart && payload[end - 1] == CR then end - 1 else end;
    VisitLine(payload, lines, lineStart, end, lineEnd);
    next := if end < |payload| then end + 1 else end;
  }

  /** The spans are where these lines stand. */
  ghost predicate Visited(payload: seq<byte>, spans: seq<Span>, lines: seq<seq<byte>>) {
    InBounds(payload, spans) && Texts(payload, spans) == lines
  }

  lemma {:induction false} VisitedSnoc(payload: seq<byte>, spans: seq<Span>, lines: seq<seq<byte>>, start: nat,
                                       end: nat)
    requires Visited(payload, spans, lines) && start <= end <= |payload|
    ensures Visited(payload, spans + [Span(start, end)], lines + [payload[start..end]])
  {
  }

  lemma {:induction false} VisitLine(payload: seq<byte>, lines: seq<seq<byte>>, lineStart: nat, end: nat,
                                     lineEnd: nat)
    requires lineStart <= end <= |payload| && end == lineStart + IndexOf(payload[lineStart..], LF)
    requires lineEnd == if end > lineStart && payload[end - 1] == CR then end - 1 else end
    requires HeaderLines(payload) == lines + HeaderLines(payload[lineStart..])
    ensures lineEnd == lineStart ==> HeaderLines(payload) == lines
    ensures lineEnd != lineStart ==>
              HeaderLines(payload) == lines + [payload[lineStart..lineEnd]]
                                      + HeaderLines(payload[if end < |payload| then end + 1 else end..])
  {
    LineAt(payload, lineStart, end, lineEnd);
    assert payload[if end < |payload| then end + 1 else end..] == AfterLine(payload, end);
    if lineEnd != lineStart {
      Regroup(HeaderLines(payload), lines, HeaderLines(payload[lineStart..]), payload[lineStart..lineEnd],
              HeaderLines(AfterLine(payload, end)));
    }
  }

  lemma {:induction false} Regroup<T>(whole: seq<T>, before: seq<T>, after: seq<T>, x: T, rest: seq<T>)
    requires whole == before + after && after == [x] + rest
    ensures whole == before + [x] + rest
  {
    AppendAssociates(before, [x], rest);
  }

  lemma {:induction false} LineAt(payload: seq<byte>, lineStart: nat, end: nat, lineEnd: nat)
    requires lineStart <= end <= |payload| && end == lineStart + IndexOf(payload[lineStart..], LF)
    requires lineEnd == if end > lineStart && payload[end - 1] == CR then end - 1 else end
    ensures HeaderLines(payload[lineStart..])
         == if lineEnd == lineStart then [] else [payload[lineStart..lineEnd]] + HeaderLines(AfterLine(payload, end))
  {
    LineTextAt(payload, lineStart, end, lineEnd);
    AfterLineAt(payload, lineStart, end);
    var line, rest := payload[lineStart..lineEnd], AfterLine(payload, end);
    LinesUnfold(payload[lineStart..], end - lineStart, line, rest);
    assert line == [] <==> lineEnd == lineStart;
  }

  lemma {:induction false} LinesUnfold(p: seq<byte>, end: nat, line: seq<byte>, rest: seq<byte>)
    requires end == IndexOf(p, LF) && line == StripCr(p[..end]) && rest == AfterLine(p, end)
    ensures HeaderLines(p) == if line == [] then [] else [line] + HeaderLines(rest)
  {
  }

  lemma {:induction false} LineTextAt(payload: seq<byte>, lineStart: nat, end: nat, lineEnd: nat)
    requires lineStart <= end <= |payload|
    requires lineEnd == if end > lineStart && payload[end - 1] == CR then end - 1 else end
    ensures StripCr(payload[lineStart..][..end - lineStart]) == payload[lineStart..lineEnd]
  {
    DropDrop(payload, lineStart, end - lineStart);
    assert StripCr(payload[lineStart..end]) == payload[lineStart..lineEnd];
  }

  lemma {:induction false} AfterLineAt(payload: seq<byte>, lineStart: nat, end: nat)
    requires lineStart <= end <= |payload|
    ensures AfterLine(payload[lineStart..], end - lineStart) == AfterLine(payload, end)
  {
    if end < |payload| {
      DropDrop(payload, lineStart, end - lineStart + 1);
    }
  }

  /** The id a line names after its prefix. */
  function OidOf(prefix: seq<byte>, line: seq<byte>): Option<Oid> {
    if prefix <= line && HexAt(line, |prefix|, |line|) then Some(OidAt(line, |prefix|)) else None
  }

  method LineHasPrefix(payload: seq<byte>, lineStart: nat, lineEnd: nat, prefix: seq<byte>) returns (has: bool)
    requires lineStart <= lineEnd <= |payload|
    ensures has == (prefix <= payload[lineStart..lineEnd])
  {
    if lineStart + |prefix| > lineEnd {
      return false;
    }
    var line := payload[lineStart..lineEnd];
    for index := 0 to |prefix|
      invariant forall k :: 0 <= k < index ==> prefix[k] == line[k]
    {
      if payload[lineStart + index] != prefix[index] {
        return false;
      }
    }
    return true;
  }

  /** Where the id of a line starts, when the line names one. */
  method OidInLine(payload: seq<byte>, lineStart: nat, lineEnd: nat,
                   prefix: seq<byte>) returns (found: bool, hexStart: nat)
    requires lineStart <= lineEnd <= |payload|
    ensures found == OidOf(prefix, payload[lineStart..lineEnd]).Some?
    ensures found ==> HexAt(payload, hexStart, |payload|)
                      && OidOf(prefix, payload[lineStart..lineEnd]) == Some(OidAt(payload, hexStart))
  {
    hexStart := lineStart + |prefix|;
    found := LineHasPrefix(payload, lineStart, lineEnd, prefix);
    if found {
      found := HasHexOidAt(payload, hexStart, lineEnd);
      if hexStart + 40 <= lineEnd {
        SubSlice(payload, lineStart, lineEnd, |prefix|, |prefix| + 40);
      }
    }
  }

  function FirstOid(prefix: seq<byte>, lines: seq<seq<byte>>): Option<Oid> {
    if lines == [] then None
    else if OidOf(prefix, lines[0]).Some? then OidOf(prefix, lines[0])
    else FirstOid(prefix, lines[1..])
  }

  function AllOids(prefix: seq<byte>, lines: seq<seq<byte>>): seq<Oid> {
    if lines == [] then []
    else OptionalOid(OidOf(prefix, lines[0])) + AllOids(prefix, lines[1..])
  }

  function OptionalOid(o: Option<Oid>): seq<Oid> {
    if o.None? then [] else [o.value]
  }

  // ---------- Commits ----------

  /** The tree a commit names first, then all its parents. */
  function CommitOids(payload: seq<byte>): seq<Oid> {
    OptionalOid(FirstOid(TREE_LINE_PREFIX, HeaderLines(payload))) + AllOids(PARENT_LINE_PREFIX, HeaderLines(payload))
  }

  /** What a pass has found: where the first id of `prefix` starts, or -1 when it is still to come. */
  ghost predicate FoundFirst(payload: seq<byte>, prefix: seq<byte>, hexStart: int, rest: seq<seq<byte>>) {
    if hexStart < 0 then FirstOid(prefix, HeaderLines(payload)) == FirstOid(prefix, rest)
    else HexAt(payload, hexStart, |payload|) && FirstOid(prefix, HeaderLines(payload)) == Some(OidAt(payload, hexStart))
  }

  /** A line that names an id, when none has been found yet. */
  lemma {:induction false} FindsFirst(payload: seq<byte>, prefix: seq<byte>, lines: seq<seq<byte>>, i: nat, has: bool,
                                      hexStart: nat)
    requires i < |lines| && FoundFirst(payload, prefix, -1, lines[i..])
    requires has == OidOf(prefix, lines[i]).Some?
    requires has ==> HexAt(payload, hexStart, |payload|) && OidOf(prefix, lines[i]) == Some(OidAt(payload, hexStart))
    ensures FoundFirst(payload, prefix, if has then hexStart else -1, lines[i + 1..])
  {
    assert lines[i..][1..] == lines[i + 1..];
  }

  /** Any other line changes nothing. */
  lemma {:induction false} KeepsFirst(payload: seq<byte>, prefix: seq<byte>, lines: seq<seq<byte>>, i: nat,
                                      hexStart: int)
    requires i < |lines| && FoundFirst(payload, prefix, hexStart, lines[i..])
    requires hexStart >= 0 || !(prefix <= lines[i])
    ensures FoundFirst(payload, prefix, hexStart, lines[i + 1..])
  {
    assert lines[i..][1..] == lines[i + 1..];
  }

  method CountCommitRefs(payload: seq<byte>) returns (treeHexStart: int, parentCount: nat)
    ensures FoundFirst(payload, TREE_LINE_PREFIX, treeHexStart, [])
    ensures parentCount == |AllOids(PARENT_LINE_PREFIX, HeaderLines(payload))|
  {
    treeHexStart, parentCount := -1, 0;
    var spans := HeaderLineSpans(payload);
    ghost var lines := HeaderLines(payload);
    assert lines[0..] == lines;
    for i := 0 to |spans|
      invariant treeHexStart >= -1 && FoundFirst(payload, TREE_LINE_PREFIX, treeHexStart, lines[i..])
      invariant |AllOids(PARENT_LINE_PREFIX, lines)| == parentCount + |AllOids(PARENT_LINE_PREFIX, lines[i..])|
    {
      treeHexStart, parentCount := CountLine(payload, spans[i], treeHexStart, parentCount, lines, i);
    }
  }

  method CountLine(payload: seq<byte>, span: Span, treeHexStart: int, parentCount: nat, ghost lines: seq<seq<byte>>,
                   ghost i: nat)
    returns (hexStart: int, count: nat)
    requires i < |lines| && span.start <= span.end <= |payload| && lines[i] == payload[span.start..span.end]
    requires treeHexStart >= -1 && FoundFirst(payload, TREE_LINE_PREFIX, treeHexStart, lines[i..])
    ensures hexStart >= -1 && FoundFirst(payload, TREE_LINE_PREFIX, hexStart, lines[i + 1..])
    ensures parentCount + |AllOids(PARENT_LINE_PREFIX, lines[i..])|
         == count + |AllOids(PARENT_LINE_PREFIX, lines[i + 1..])|
  {
    hexStart, count := treeHexStart, parentCount;
    AllOidsFrom(PARENT_LINE_PREFIX, lines, i);
    var isTree := LineHasPrefix(payload, span.start, span.end, TREE_LINE_PREFIX);
    if treeHexStart < 0 && isTree {
      assert lines[i][0] != PARENT_LINE_PREFIX[0];
      var has, at := OidInLine(payload, span.start, span.end, TREE_LINE_PREFIX);
      FindsFirst(payload, TREE_LINE_PREFIX, lines, i, has, at);
      if has {
        hexStart := at;
      }
      return;
    }
    KeepsFirst(payload, TREE_LINE_PREFIX, lines, i, treeHexStart);
    var has, _ := OidInLine(payload, span.start, span.end, PARENT_LINE_PREFIX);
    if has {
      count := count + 1;
    }
  }

  lemma {:induction false} AllOidsFrom(prefix: seq<byte>, lines: seq<seq<byte>>, i: nat)
    requires i < |lines|
    ensures AllOids(prefix, lines[i..]) == OptionalOid(OidOf(prefix, lines[i])) + AllOids(prefix, lines[i + 1..])
  {
    assert lines[i..][1..] == lines[i + 1..];
  }

  method FillParents(payload: seq<byte>, out: array<byte>, start: nat) returns (valid: bool)
    requires out.Length == start + 20 * |AllOids(PARENT_LINE_PREFIX, HeaderLines(payload))|
    modifies out
    ensures valid && out[..] == old(out[..start]) + Flatten(AllOids(PARENT_LINE_PREFIX, HeaderLines(payload)))
  {
    ghost var before := out[..start];
    ghost var done: seq<Oid> := [];
    var refsOffset := start;
    var spans := HeaderLineSpans(payload);
    ghost var lines := HeaderLines(payload);
    assert lines[0..] == lines && before + [] == before;
    for i := 0 to |spans|
      invariant AllOids(PARENT_LINE_PREFIX, lines) == done + AllOids(PARENT_LINE_PREFIX, lines[i..])
      invariant refsOffset == start + 20 * |done| && out[..refsOffset] == before + Flatten(done)
    {
      AllOidsFrom(PARENT_LINE_PREFIX, lines, i);
      ghost var o := OptionalOid(OidOf(PARENT_LINE_PREFIX, lines[i]));
      FlattenMore(before, done, o);
      AppendAssociates(done, o, AllOids(PARENT_LINE_PREFIX, lines[i + 1..]));
      refsOffset, valid := CopyOid(payload, spans[i], PARENT_LINE_PREFIX, out, refsOffset);
      if !valid {
        return;
      }
      done := done + o;
    }
    assert done + [] == done && out[..out.Length] == out[..];
    return true;
  }

  lemma {:induction false} FlattenMore(before: seq<byte>, done: seq<Oid>, more: seq<Oid>)
    ensures before + Flatten(done + more) == before + Flatten(done) + Flatten(more)
  {
    FlattenAppend(done, more);
    AppendAssociates(before, Flatten(done), Flatten(more));
  }

  /** Copies the id of one line, when the line names one. */
  method CopyOid(payload: seq<byte>, span: Span, prefix: seq<byte>, out: array<byte>,
                 at: nat) returns (next: nat, valid: bool)
    requires span.start <= span.end <= |payload|
    requires at + 20 * |OptionalOid(OidOf(prefix, payload[span.start..span.end]))| <= out.Length
    modifies out
    ensures valid && next == at + 20 * |OptionalOid(OidOf(prefix, payload[span.start..span.end]))|
    ensures out[..next] == old(out[..at]) + Flatten(OptionalOid(OidOf(prefix, payload[span.start..span.end])))
  {
    var has, hexStart := OidInLine(payload, span.start, span.end, prefix);
    if !has {
      return at, true;
    }
    valid := WriteHexOidAt(payload, hexStart, out, at);
    FlattenSnoc([], OidAt(payload, hexStart));
    return at + 20, valid;
  }

  /** Both passes agree: the buffer is filled exactly, and the decoder never refuses. */
  method ParseCommitRefBytes(payload: seq<byte>) returns (r: Result<seq<byte>>)
    ensures r == Ok(Flatten(CommitOids(payload)))
  {
    ghost var tree := OptionalOid(FirstOid(TREE_LINE_PREFIX, HeaderLines(payload)));
    ghost var parents := AllOids(PARENT_LINE_PREFIX, HeaderLines(payload));
    var treeHexStart, parentCount := CountCommitRefs(payload);
    var treeCount := if treeHexStart >= 0 then 1 else 0;
    var refs := new byte[(treeCount + parentCount) * 20];
    var refsOffset := 0;
    var valid := true;
    if treeHexStart >= 0 {
      valid := WriteHexOidAt(payload, treeHexStart, refs, refsOffset);
      refsOffset := 20;
      FlattenSnoc([], OidAt(payload, treeHexStart));
    }
    if !valid {
      return Err("ref-index: invalid hex object id");
    }
    assert refs[..refsOffset] == Flatten(tree);
    valid := FillParents(payload, refs, refsOffset);
    if !valid {
      return Err("ref-index: invalid hex object id");
    }
    FlattenAppend(tree, parents);
    return Ok(refs[..]);
  }

  // ---------- Tags ----------

  predicate NamesType(value: seq<byte>) {
    COMMIT <= value || TREE <= value || BLOB <= value || TAG <= value
  }

  predicate IsTypeLine(line: seq<byte>) {
    TYPE_LINE_PREFIX <= line && NamesType(line[|TYPE_LINE_PREFIX|..])
  }

  /** A line that starts with `type` and one of the four kinds. */
  lemma {:induction false} TypeLineNamesKind(line: seq<byte>)
    ensures IsTypeLine(line) <==> exists kind :: kind in {"commit", "tree", "blob", "tag"} && SpellsKind(line, kind)
  {
    WordsAreSpelled();
    var rest := if TYPE_LINE_PREFIX <= line then line[|TYPE_LINE_PREFIX|..] else [];
    assert forall kind :: kind in {"commit", "tree", "blob", "tag"} ==>
        (SpellsKind(line, kind) <==> TYPE_LINE_PREFIX <= line && Ascii(kind) <= rest);
    assert "commit" in {"commit", "tree", "blob", "tag"};
  }

  predicate SpellsKind(line: seq<byte>, kind: string)
    requires kind in {"commit", "tree", "blob", "tag"}
  {
    Ascii("type ") <= line && Ascii(kind) <= line[5..]
  }

  predicate HasTypeLine(lines: seq<seq<byte>>) {
    lines != [] && (IsTypeLine(lines[0]) || HasTypeLine(lines[1..]))
  }

  /** The object a tag names, provided it also names a known kind. */
  function TagOids(payload: seq<byte>): seq<Oid> {
    var lines := HeaderLines(payload);
    if HasTypeLine(lines) then OptionalOid(FirstOid(OBJECT_LINE_PREFIX, lines)) else []
  }

  method IsValidTagTypeLine(payload: seq<byte>, lineStart: nat, lineEnd: nat) returns (valid: bool)
    requires lineStart <= lineEnd <= |payload|
    ensures valid == IsTypeLine(payload[lineStart..lineEnd])
  {
    var isType := LineHasPrefix(payload, lineStart, lineEnd, TYPE_LINE_PREFIX);
    if !isType {
      return false;
    }
    var valueStart := lineStart + |TYPE_LINE_PREFIX|;
    SubSlice(payload, lineStart, lineEnd, |TYPE_LINE_PREFIX|, lineEnd - lineStart);
    var isCommit := LineHasPrefix(payload, valueStart, lineEnd, COMMIT);
    var isTree := LineHasPrefix(payload, valueStart, lineEnd, TREE);
    var isBlob := LineHasPrefix(payload, valueStart, lineEnd, BLOB);
    var isTag := LineHasPrefix(payload, valueStart, lineEnd, TAG);
    return isCommit || isTree || isBlob || isTag;
  }

  method ScanTag(payload: seq<byte>) returns (objectHexStart: int, hasTargetType: bool)
    ensures FoundFirst(payload, OBJECT_LINE_PREFIX, objectHexStart, [])
    ensures hasTargetType == HasTypeLine(HeaderLines(payload))
  {
    objectHexStart, hasTargetType := -1, false;
    var spans := HeaderLineSpans(payload);
    ghost var lines := HeaderLines(payload);
    assert lines[0..] == lines;
    for i := 0 to |spans|
      invariant objectHexStart >= -1 && FoundFirst(payload, OBJECT_LINE_PREFIX, objectHexStart, lines[i..])
      invariant HasTypeLine(lines) == (hasTargetType || HasTypeLine(lines[i..]))
    {
      var isType;
      objectHexStart, isType := ScanTagLine(payload, spans[i], objectHexStart, lines, i);
      if isType {
        hasTargetType := true;
      }
    }
  }

  method ScanTagLine(payload: seq<byte>, span: Span, objectHexStart: int, ghost lines: seq<seq<byte>>, ghost i: nat)
    returns (hexStart: int, isType: bool)
    requires i < |lines| && span.start <= span.end <= |payload| && lines[i] == payload[span.start..span.end]
    requires objectHexStart >= -1 && FoundFirst(payload, OBJECT_LINE_PREFIX, objectHexStart, lines[i..])
    ensures hexStart >= -1 && FoundFirst(payload, OBJECT_LINE_PREFIX, hexStart, lines[i + 1..])
    ensures HasTypeLine(lines[i..]) == (isType || HasTypeLine(lines[i + 1..]))
  {
    hexStart := objectHexStart;
    assert lines[i..][1..] == lines[i + 1..];
    var isObject := LineHasPrefix(payload, span.start, span.end, OBJECT_LINE_PREFIX);
    if objectHexStart < 0 && isObject {
      assert lines[i][0] != TYPE_LINE_PREFIX[0];
      var has, at := OidInLine(payload, span.start, span.end, OBJECT_LINE_PREFIX);
      FindsFirst(payload, OBJECT_LINE_PREFIX, lines, i, has, at);
      return if has then at else hexStart, false;
    }
    KeepsFirst(payload, OBJECT_LINE_PREFIX, lines, i, objectHexStart);
    isType := IsValidTagTypeLine(payload, span.start, span.end);
  }

  method ParseTagRefBytes(payload: seq<byte>) returns (r: Result<seq<byte>>)
    ensures r == Ok(Flatten(TagOids(payload)))
  {
    var objectHexStart, hasTargetType := ScanTag(payload);
    if objectHexStart < 0 || !hasTargetType {
      return Ok([]);
    }
    var refs := new byte[20];
    var valid := WriteHexOidAt(payload, objectHexStart, refs, 0);
    if !valid {
      return Err("ref-index: invalid hex object id");
    }
    FlattenSnoc([], OidAt(payload, objectHexStart));
    assert refs[..20] == refs[..];
    return Ok(refs[..]);
  }

  // ---------- Trees ----------

  datatype Entry = Entry(mode: seq<byte>, name: seq<byte>, oid: Oid)

  predicate IsGitlink(e: Entry) {
    e.mode == GITLINK_MODE
  }

  /** Where the mode ends and where the name ends, when the mode ends at all. */
  function Separators(p: seq<byte>): (r: Option<Span>)
    ensures r.Some? ==> r.value.start < r.value.end <= |p|
  {
    var space := IndexOf(p, SPACE);
    if space == |p| then None else Some(Span(space, space + 1 + IndexOf(p[space + 1..], NUL)))
  }

  datatype Head = Head(entry: Entry, rest: seq<byte>)

  function FirstEntry(p: seq<byte>): (r: Option<Head>)
    ensures r.Some? ==> |r.value.rest| < |p|
  {
    match Separators(p)
    case None => None
    case Some(Span(space, nul)) =>
      if nul + 21 > |p| then None
      else Some(Head(Entry(p[..space], p[space + 1..nul], p[nul + 1..nul + 21]), p[nul + 21..]))
  }

  /** The complete entries at the front of a tree payload. */
  function TreeEntries(p: seq<byte>): seq<Entry>
    decreases |p|
  {
    match FirstEntry(p)
    case None => []
    case Some(Head(entry, rest)) => [entry] + TreeEntries(rest)
  }

  function EntryOids(entries: seq<Entry>): (oids: seq<Oid>)
    ensures |oids| == |entries|
  {
    if entries == [] then [] else [entries[0].oid] + EntryOids(entries[1..])
  }

  function WithoutGitlinks(entries: seq<Entry>): seq<Entry> {
    if entries == [] then []
    else (if IsGitlink(entries[0]) then [] else [entries[0]]) + WithoutGitlinks(entries[1..])
  }

  /** What fetch closure follows from a tree: its entries except those in other repositories. */
  function TreeOids(payload: seq<byte>): seq<Oid> {
    EntryOids(WithoutGitlinks(TreeEntries(payload)))
  }

  lemma {:induction false} SeparatorsAt(payload: seq<byte>, modeStart: nat, space: nat, nul: nat)
    requires modeStart <= space < |payload| && space == modeStart + IndexOf(payload[modeStart..], SPACE)
    requires nul == space + 1 + IndexOf(payload[space + 1..], NUL)
    ensures Separators(payload[modeStart..]) == Some(Span(space - modeStart, nul - modeStart))
  {
    DropDrop(payload, modeStart, space - modeStart + 1);
  }

  lemma {:induction false} EntriesUnfold(p: seq<byte>, head: Head)
    requires FirstEntry(p) == Some(head)
    ensures TreeEntries(p) == [head.entry] + TreeEntries(head.rest)
  {
  }

  lemma {:induction false} SuffixSlices(payload: seq<byte>, start: nat, i: nat, j: nat)
    requires start <= i <= j <= |payload|
    ensures payload[start..][i - start..j - start] == payload[i..j]
    ensures payload[start..][j - start..] == payload[j..]
    ensures i == start ==> payload[start..][..j - start] == payload[i..j]
  {
  }

  function EntryBetween(payload: seq<byte>, modeStart: nat, space: nat, nul: nat): Entry
    requires modeStart <= space < nul && nul + 21 <= |payload|
  {
    Entry(payload[modeStart..space], payload[space + 1..nul], payload[nul + 1..nul + 21])
  }

  /** The entry that starts at `modeStart`, when it is complete. */
  lemma {:induction false} EntryAt(payload: seq<byte>, modeStart: nat, space: nat, nul: nat)
    requires modeStart <= space < nul && nul + 21 <= |payload|
    requires Separators(payload[modeStart..]) == Some(Span(space - modeStart, nul - modeStart))
    ensures FirstEntry(payload[modeStart..])
         == Some(Head(EntryBetween(payload, modeStart, space, nul), payload[nul + 21..]))
  {
    SuffixSlices(payload, modeStart, modeStart, space);
    SuffixSlices(payload, modeStart, space + 1, nul);
    SuffixSlices(payload, modeStart, nul + 1, nul + 21);
  }

  lemma {:induction false} TreeOidsCons(e: Entry, rest: seq<Entry>)
    ensures EntryOids(WithoutGitlinks([e] + rest))
         == (if IsGitlink(e) then [] else [e.oid]) + EntryOids(WithoutGitlinks(rest))
  {
    assert ([e] + rest)[1..] == rest;
    assert [] + WithoutGitlinks(rest) == WithoutGitlinks(rest);
    assert ([e] + WithoutGitlinks(rest))[1..] == WithoutGitlinks(rest);
  }

  lemma {:induction false} TreeOidsUnfold(p: seq<byte>, head: Head)
    requires FirstEntry(p) == Some(head)
    ensures TreeOids(p) == (if IsGitlink(head.entry) then [] else [head.entry.oid]) + TreeOids(head.rest)
  {
    EntriesUnfold(p, head);
    TreeOidsCons(head.entry, TreeEntries(head.rest));
  }

  lemma {:induction false} NoEntries(p: seq<byte>)
    requires FirstEntry(p) == None
    ensures TreeOids(p) == []
  {
    assert TreeEntries(p) == [];
  }

  /** What the visitor gets of an entry: its id, unless it is a gitlink. */
  function VisitedOids(e: Entry): seq<Oid> {
    if IsGitlink(e) then [] else [e.oid]
  }

  /** The entry loop: every id it hands to its visitor, in order. */
  method VisitTreeClosureRawRefs(payload: seq<byte>) returns (visited: seq<Oid>)
    ensures visited == TreeOids(payload)
  {
    visited := [];
    var cursor := 0;
    assert payload[0..] == payload && [] + TreeOids(payload) == TreeOids(payload);
    while cursor < |payload|
      invariant cursor <= |payload| && TreeOids(payload) == visited + TreeOids(payload[cursor..])
    {
      var found, oids, next, head := VisitEntry(payload, cursor);
      if !found {
        NoEntries(payload[cursor..]);
        return;
      }
      VisitStep(visited, payload[cursor..], head, oids, payload[next..]);
      visited, cursor := visited + oids, next;
    }
    NoEntries(payload[cursor..]);
  }

  lemma {:induction false} VisitStep(visited: seq<Oid>, p: seq<byte>, head: Head, oids: seq<Oid>, rest: seq<byte>)
    requires FirstEntry(p) == Some(head) && oids == VisitedOids(head.entry) && rest == head.rest
    ensures visited + TreeOids(p) == visited + oids + TreeOids(rest)
  {
    TreeOidsUnfold(p, head);
    AppendAssociates(visited, oids, TreeOids(rest));
  }

  /** One round of the loop: the ids to visit, none for a gitlink, and where the next entry starts. */
  method VisitEntry(payload: seq<byte>, modeStart: nat)
    returns (found: bool, oids: seq<Oid>, next: nat, ghost head: Head)
    requires modeStart < |payload|
    ensures !found ==> FirstEntry(payload[modeStart..]) == None
    ensures found ==> FirstEntry(payload[modeStart..]) == Some(head) && oids == VisitedOids(head.entry)
    ensures found ==> modeStart < next <= |payload| && head.rest == payload[next..]
  {
    var modeEnd, nul;
    found, modeEnd, nul, head := FindEntry(payload, modeStart);
    if !found {
      oids, next := [], modeStart;
      return;
    }
    var oidStart := nul + 1;
    var isGitlink := IsGitlinkMode(payload, modeStart, modeEnd);
    oids, next := if isGitlink then [] else [payload[oidStart..oidStart + 20]], oidStart + 20;
  }

  method FindEntry(payload: seq<byte>, modeStart: nat)
    returns (found: bool, space: nat, nul: nat, ghost head: Head)
    requires modeStart < |payload|
    ensures !found ==> FirstEntry(payload[modeStart..]) == None
    ensures found ==> FirstEntry(payload[modeStart..]) == Some(head)
    ensures found ==> modeStart <= space < nul && nul + 21 <= |payload|
    ensures found ==> head.entry.mode == payload[modeStart..space] && head.entry.oid == payload[nul + 1..nul + 21]
    ensures found ==> head.rest == payload[nul + 21..]
  {
    found, nul := false, 0;
    head := Head(Entry([], [], seq(20, i => 0)), []);
    space := ScanTo(payload, modeStart, SPACE);
    if space >= |payload| {
      return;
    }
    nul := ScanTo(payload, space + 1, NUL);
    SeparatorsAt(payload, modeStart, space, nul);
    if nul + 1 + 20 > |payload| {
      return;
    }
    EntryAt(payload, modeStart, space, nul);
    head := Head(EntryBetween(payload, modeStart, space, nul), payload[nul + 21..]);
    found := true;
  }

  method IsGitlinkMode(payload: seq<byte>, modeStart: nat, modeEnd: nat) returns (yes: bool)
    requires modeStart <= modeEnd <= |payload|
    ensures yes == (payload[modeStart..modeEnd] == GITLINK_MODE)
  {
    if modeEnd - modeStart != |GITLINK_MODE| {
      return false;
    }
    yes := LineHasPrefix(payload, modeStart, modeEnd, GITLINK_MODE);
  }

  /** Both passes visit the same entries, so the buffer is filled exactly. */
  method ParseTreeClosureRefBytes(payload: seq<byte>) returns (refs: seq<byte>)
    ensures refs == Flatten(TreeOids(payload))
  {
    var visited := VisitTreeClosureRawRefs(payload);
    var refCount := |visited|;
    var out := new byte[refCount * 20];
    var refsOffset := 0;
    visited := VisitTreeClosureRawRefs(payload);
    for k := 0 to |visited|
      invariant refsOffset == 20 * k && out[..refsOffset] == Flatten(visited[..k])
    {
      assert visited[..k + 1] == visited[..k] + [visited[k]];
      FlattenSnoc(visited[..k], visited[k]);
      var fits := SetBytes(out, visited[k], refsOffset);
      refsOffset := refsOffset + 20;
    }
    assert visited[..|visited|] == visited && out[..out.Length] == out[..];
    return out[..];
  }

  // ---------- The other tree parser ----------

  datatype Child = Child(oid: seq<byte>, rest: seq<byte>)

  /** This parser's bound is one byte looser, so an id may come out one byte short. */
  function FirstChild(p: seq<byte>): (r: Option<Child>)
    ensures r.Some? ==> |r.value.rest| < |p|
  {
    match Separators(p)
    case None => None
    case Some(Span(space, nul)) =>
      if nul + 20 > |p| then None
      else if nul + 21 > |p| then Some(Child(p[nul + 1..], []))
      else Some(Child(p[nul + 1..nul + 21], p[nul + 21..]))
  }

  function ChildOids(p: seq<byte>): seq<seq<byte>>
    decreases |p|
  {
    match FirstChild(p)
    case None => []
    case Some(Child(oid, rest)) => [oid] + ChildOids(rest)
  }

  method ParseTreeChildOids(payload: seq<byte>) returns (out: seq<seq<byte>>)
    ensures out == ChildOids(payload)
  {
    out := [];
    var i := 0;
    assert payload[0..] == payload && [] + ChildOids(payload) == ChildOids(payload);
    while i < |payload|
      invariant i <= |payload| && ChildOids(payload) == out + ChildOids(payload[i..])
    {
      var found, oid, next := VisitChild(payload, i);
      ChildOidsUnfold(payload[i..]);
      if !found {
        return;
      }
      AppendAssociates(out, [oid], ChildOids(payload[next..]));
      out, i := out + [oid], next;
    }
    ChildOidsUnfold(payload[i..]);
  }

  method VisitChild(payload: seq<byte>, i: nat) returns (found: bool, oid: seq<byte>, next: nat)
    requires i < |payload|
    ensures !found ==> FirstChild(payload[i..]) == None
    ensures found ==> i < next <= |payload| && FirstChild(payload[i..]) == Some(Child(oid, payload[next..]))
  {
    var sp := ScanTo(payload, i, SPACE);
    if sp >= |payload| {
      return false, [], i;
    }
    var nul := ScanTo(payload, sp + 1, NUL);
    SeparatorsAt(payload, i, sp, nul);
    ChildAt(payload, i, sp, nul);
    if nul + 20 > |payload| {
      return false, [], i;
    }
    next := ChildEnd(payload, nul);
    return true, payload[nul + 1..next], next;
  }

  function ChildEnd(payload: seq<byte>, nul: nat): nat {
    if nul + 21 <= |payload| then nul + 21 else |payload|
  }

  lemma {:induction false} ChildAt(payload: seq<byte>, i: nat, sp: nat, nul: nat)
    requires i <= sp < nul && i <= |payload|
    requires Separators(payload[i..]) == Some(Span(sp - i, nul - i))
    ensures nul + 20 > |payload| ==> FirstChild(payload[i..]) == None
    ensures nul + 20 <= |payload| ==>
              FirstChild(payload[i..])
              == Some(Child(payload[nul + 1..ChildEnd(payload, nul)], payload[ChildEnd(payload, nul)..]))
  {
    if nul + 20 <= |payload| {
      var next := ChildEnd(payload, nul);
      SuffixSlices(payload, i, nul + 1, next);
      assert next == |payload| ==> payload[next..] == [] && payload[i..][nul + 1 - i..] == payload[nul + 1..next];
    }
  }

  lemma {:induction false} ChildOidsUnfold(p: seq<byte>)
    ensures ChildOids(p)
         == match FirstChild(p) case None => [] case Some(child) => [child.oid] + ChildOids(child.rest)
  {
  }

  /** The id of a last entry that lacks exactly its final byte. */
  function CutOid(p: seq<byte>): (r: seq<seq<byte>>)
    ensures |r| <= 1 && forall k :: 0 <= k < |r| ==> |r[k]| == 19
    decreases |p|
  {
    match FirstEntry(p)
    case Some(head) => CutOid(head.rest)
    case None =>
      match FirstChild(p)
      case None => []
      case Some(child) => [child.oid]
  }

  /** On every payload the second parser lists all complete entries, and then the id that is cut short, if any. */
  lemma {:induction false} ChildOidsAreEntries(p: seq<byte>)
    ensures ChildOids(p) == EntryOids(TreeEntries(p)) + CutOid(p)
    decreases |p|
  {
    ChildOidsUnfold(p);
    match FirstEntry(p)
    case Some(head) =>
      FirstChildIsEntry(p, head);
      ChildOidsAreEntries(head.rest);
      EntryOidsUnfold(p, head);
      CutOidUnfold(p, head);
      AppendAssociates([head.entry.oid], EntryOids(TreeEntries(head.rest)), CutOid(head.rest));
    case None =>
      assert TreeEntries(p) == [];
      if FirstChild(p).Some? {
        assert ChildOids([]) == [];
      }
  }

  lemma {:induction false} FirstChildIsEntry(p: seq<byte>, head: Head)
    requires FirstEntry(p) == Some(head)
    ensures FirstChild(p) == Some(Child(head.entry.oid, head.rest))
  {
  }

  lemma {:induction false} CutOidUnfold(p: seq<byte>, head: Head)
    requires FirstEntry(p) == Some(head)
    ensures CutOid(p) == CutOid(head.rest)
  {
  }

  lemma {:induction false} EntryOidsUnfold(p: seq<byte>, head: Head)
    requires FirstEntry(p) == Some(head)
    ensures EntryOids(TreeEntries(p)) == [head.entry.oid] + EntryOids(TreeEntries(head.rest))
  {
    EntriesUnfold(p, head);
    assert ([head.entry] + TreeEntries(head.rest))[1..] == TreeEntries(head.rest);
  }

  lemma {:induction false} AgreeUnlessCut(p: seq<byte>)
    ensures ChildOids(p) == EntryOids(TreeEntries(p)) <==> CutOid(p) == []
  {
    ChildOidsAreEntries(p);
    if CutOid(p) == [] {
      assert EntryOids(TreeEntries(p)) + [] == EntryOids(TreeEntries(p));
    } else {
      assert |ChildOids(p)| == |EntryOids(TreeEntries(p))| + 1;
    }
  }

  // ---------- Serialised trees ----------

  predicate ValidEntry(e: Entry) {
    SPACE !in e.mode && NUL !in e.name
  }

  predicate ValidEntries(entries: seq<Entry>) {
    entries == [] || (ValidEntry(entries[0]) && ValidEntries(entries[1..]))
  }

  function EntryBytes(e: Entry): seq<byte> {
    e.mode + [SPACE] + e.name + [NUL] + e.oid
  }

  function TreeBytes(entries: seq<Entry>): seq<byte> {
    if entries == [] then [] else EntryBytes(entries[0]) + TreeBytes(entries[1..])
  }

  lemma {:induction false} EntryReadsBack(e: Entry, rest: seq<byte>)
    requires ValidEntry(e)
    ensures FirstEntry(EntryBytes(e) + rest) == Some(Head(e, rest))
  {
    EntrySlices(e, rest);
    SeparatorsReadBack(e, EntryBytes(e) + rest, rest);
  }

  lemma {:induction false} SeparatorsReadBack(e: Entry, p: seq<byte>, rest: seq<byte>)
    requires ValidEntry(e) && p == EntryBytes(e) + rest
    ensures Separators(p) == Some(Span(|e.mode|, |e.mode| + 1 + |e.name|))
  {
    var afterMode := e.name + [NUL] + (e.oid + rest);
    assert p == e.mode + [SPACE] + afterMode;
    IndexOfFirst(e.mode, SPACE, afterMode);
    IndexOfFirst(e.name, NUL, e.oid + rest);
    assert p[|e.mode| + 1..] == afterMode;
  }

  lemma {:induction false} EntrySlices(e: Entry, rest: seq<byte>)
    ensures var p := EntryBytes(e) + rest;
            var space, nul := |e.mode|, |e.mode| + 1 + |e.name|;
            && nul + 21 <= |p| && p[..space] == e.mode && p[space + 1..nul] == e.name
            && p[nul + 1..nul + 21] == e.oid && p[nul + 21..] == rest
  {
  }

  /** A serialised tree gives its entries back, and both parsers their ids in order. */
  lemma {:induction false} TreeRoundTrip(entries: seq<Entry>)
    requires ValidEntries(entries)
    ensures TreeEntries(TreeBytes(entries)) == entries
    ensures TreeOids(TreeBytes(entries)) == EntryOids(WithoutGitlinks(entries))
    ensures ChildOids(TreeBytes(entries)) == EntryOids(entries)
  {
    EntriesRoundTrip(entries);
    AgreeUnlessCut(TreeBytes(entries));
  }

  lemma {:induction false} EntriesRoundTrip(entries: seq<Entry>)
    requires ValidEntries(entries)
    ensures TreeEntries(TreeBytes(entries)) == entries && CutOid(TreeBytes(entries)) == []
  {
    if entries == [] {
      assert Separators([]) == None;
    } else {
      var head := Head(entries[0], TreeBytes(entries[1..]));
      EntryReadsBack(entries[0], head.rest);
      EntriesRoundTrip(entries[1..]);
      ConsReadsBack(TreeBytes(entries), head, entries);
    }
  }

  lemma {:induction false} ConsReadsBack(p: seq<byte>, head: Head, entries: seq<Entry>)
    requires FirstEntry(p) == Some(head) && entries != [] && head.entry == entries[0]
    requires TreeEntries(head.rest) == entries[1..] && CutOid(head.rest) == []
    ensures TreeEntries(p) == entries && CutOid(p) == []
  {
    EntriesUnfold(p, head);
    CutOidUnfold(p, head);
  }

  // ---------- Where the tree parsers part ----------

  /** What is left of a payload after its complete entries. */
  function Remainder(p: seq<byte>): seq<byte>
    decreases |p|
  {
    match FirstEntry(p)
    case None => p
    case Some(head) => Remainder(head.rest)
  }

  lemma {:induction false} NotFrom(p: seq<byte>, i: nat, b: byte)
    requires i <= |p|
    ensures b !in p[i..IndexFrom(p, i, b)]
    decreases |p| - i
  {
    if i < |p| && p[i] != b {
      NotFrom(p, i + 1, b);
      var end := IndexFrom(p, i, b);
      assert p[i..end] == [p[i]] + p[i + 1..end];
    }
  }

  lemma {:induction false} NotBefore(p: seq<byte>, b: byte)
    ensures b !in p[..IndexOf(p, b)]
  {
    NotFrom(p, 0, b);
    assert p[0..IndexOf(p, b)] == p[..IndexOf(p, b)];
  }

  lemma {:induction false} NotBetween(p: seq<byte>, start: nat, b: byte, end: nat)
    requires start <= end < |p| && end == start + IndexOf(p[start..], b)
    ensures b !in p[start..end] && p[end] == b
  {
    NotBefore(p[start..], b);
    DropDrop(p, start, end - start);
    assert p[end] == p[start..][end - start];
  }

  lemma {:induction false} CutOnce(p: seq<byte>, i: nat, j: nat)
    requires i <= j <= |p|
    ensures p[i..] == p[i..j] + p[j..]
  {
  }

  lemma {:induction false} CutTwice(p: seq<byte>, i: nat, j: nat)
    requires i < j < |p|
    ensures p == p[..i] + [p[i]] + p[i + 1..j] + [p[j]] + p[j + 1..]
  {
  }

  /** What two separators cut a payload into. */
  lemma {:induction false} SeparatorsCut(p: seq<byte>, space: nat, nul: nat)
    requires Separators(p) == Some(Span(space, nul)) && nul < |p|
    ensures SPACE !in p[..space] && NUL !in p[space + 1..nul]
    ensures p == p[..space] + [SPACE] + p[space + 1..nul] + [NUL] + p[nul + 1..]
  {
    NotBefore(p, SPACE);
    NotBetween(p, space + 1, NUL, nul);
    CutTwice(p, space, nul);
  }

  lemma {:induction false} FirstEntrySpells(p: seq<byte>, head: Head)
    requires FirstEntry(p) == Some(head)
    ensures ValidEntry(head.entry) && p == EntryBytes(head.entry) + head.rest
  {
    var Span(space, nul) := Separators(p).value;
    SeparatorsCut(p, space, nul);
    CutOnce(p, nul + 1, nul + 21);
    AppendAssociates(head.entry.mode + [SPACE] + head.entry.name + [NUL], head.entry.oid, head.rest);
  }

  lemma {:induction false} EntriesSpell(p: seq<byte>)
    ensures ValidEntries(TreeEntries(p)) && p == TreeBytes(TreeEntries(p)) + Remainder(p)
    ensures FirstEntry(Remainder(p)) == None && CutOid(p) == CutOid(Remainder(p))
    decreases |p|
  {
    match FirstEntry(p)
    case None =>
      assert TreeEntries(p) == [] && [] + p == p;
    case Some(head) =>
      FirstEntrySpells(p, head);
      EntriesSpell(head.rest);
      EntriesJoin(p, head);
  }

  lemma {:induction false} EntriesJoin(p: seq<byte>, head: Head)
    requires FirstEntry(p) == Some(head) && ValidEntry(head.entry) && p == EntryBytes(head.entry) + head.rest
    requires ValidEntries(TreeEntries(head.rest))
    requires head.rest == TreeBytes(TreeEntries(head.rest)) + Remainder(head.rest)
    ensures ValidEntries(TreeEntries(p)) && p == TreeBytes(TreeEntries(p)) + Remainder(p)
    ensures Remainder(p) == Remainder(head.rest) && CutOid(p) == CutOid(head.rest)
  {
    EntriesUnfold(p, head);
    CutOidUnfold(p, head);
    var rest := TreeEntries(head.rest);
    assert ([head.entry] + rest)[1..] == rest;
    AppendAssociates(EntryBytes(head.entry), TreeBytes(rest), Remainder(head.rest));
  }

  /** An entry whose id lacks its last byte. */
  function CutBytes(mode: seq<byte>, name: seq<byte>, cut: seq<byte>): seq<byte> {
    mode + [SPACE] + name + [NUL] + cut
  }

  /** The payload is a serialised tree followed by an entry whose id has nineteen bytes. */
  ghost predicate EndsShort(p: seq<byte>, entries: seq<Entry>, mode: seq<byte>, name: seq<byte>, cut: seq<byte>) {
    && ValidEntries(entries) && SPACE !in mode && NUL !in name && |cut| == 19
    && p == TreeBytes(entries) + CutBytes(mode, name, cut)
  }

  lemma {:induction false} CutReadsBack(mode: seq<byte>, name: seq<byte>, cut: seq<byte>)
    requires SPACE !in mode && NUL !in name && |cut| == 19
    ensures FirstEntry(CutBytes(mode, name, cut)) == None && CutOid(CutBytes(mode, name, cut)) == [cut]
  {
    var p := CutBytes(mode, name, cut);
    var afterMode := name + [NUL] + cut;
    assert p == mode + [SPACE] + afterMode;
    IndexOfFirst(mode, SPACE, afterMode);
    IndexOfFirst(name, NUL, cut);
    assert p[|mode| + 1..] == afterMode;
    assert p[|mode| + 1 + |name| + 1..] == cut;
  }

  /** A payload that ends short has a cut id. */
  lemma {:induction false} ShortEndIsCut(p: seq<byte>, entries: seq<Entry>, mode: seq<byte>, name: seq<byte>,
                                         cut: seq<byte>)
    requires EndsShort(p, entries, mode, name, cut)
    ensures CutOid(p) == [cut] && TreeEntries(p) == entries
    decreases |entries|
  {
    var last := CutBytes(mode, name, cut);
    if entries == [] {
      assert [] + last == last;
      CutReadsBack(mode, name, cut);
      assert TreeEntries(last) == [];
    } else {
      var rest := TreeBytes(entries[1..]) + last;
      AppendAssociates(EntryBytes(entries[0]), TreeBytes(entries[1..]), last);
      EntryReadsBack(entries[0], rest);
      ShortEndIsCut(rest, entries[1..], mode, name, cut);
      ConsCut(p, Head(entries[0], rest), entries, cut);
    }
  }

  lemma {:induction false} ConsCut(p: seq<byte>, head: Head, entries: seq<Entry>, cut: seq<byte>)
    requires FirstEntry(p) == Some(head) && entries != [] && head.entry == entries[0]
    requires TreeEntries(head.rest) == entries[1..] && CutOid(head.rest) == [cut]
    ensures TreeEntries(p) == entries && CutOid(p) == [cut]
  {
    EntriesUnfold(p, head);
    CutOidUnfold(p, head);
  }

  /** A cut id is the end of a payload that ends short. */
  lemma {:induction false} CutIsShortEnd(p: seq<byte>)
    returns (entries: seq<Entry>, mode: seq<byte>, name: seq<byte>, cut: seq<byte>)
    requires CutOid(p) != []
    ensures EndsShort(p, entries, mode, name, cut)
  {
    EntriesSpell(p);
    entries := TreeEntries(p);
    mode, name, cut := CutParts(Remainder(p));
  }

  lemma {:induction false} CutParts(rest: seq<byte>) returns (mode: seq<byte>, name: seq<byte>, cut: seq<byte>)
    requires FirstEntry(rest) == None && CutOid(rest) != []
    ensures SPACE !in mode && NUL !in name && |cut| == 19 && rest == CutBytes(mode, name, cut)
  {
    var Span(space, nul) := Separators(rest).value;
    SeparatorsCut(rest, space, nul);
    mode, name, cut := rest[..space], rest[space + 1..nul], rest[nul + 1..];
  }

  /**
  The two tree parsers see the same entries exactly unless the payload is a tree followed by
  an entry whose id has nineteen bytes.
   */
  lemma {:induction false} TreeParsersAgree(p: seq<byte>)
    ensures ChildOids(p) == EntryOids(TreeEntries(p)) <==>
            !exists entries, mode, name, cut :: EndsShort(p, entries, mode, name, cut)
  {
    AgreeUnlessCut(p);
    if CutOid(p) != [] {
      var entries, mode, name, cut := CutIsShortEnd(p);
    }
    if entries, mode, name, cut :| EndsShort(p, entries, mode, name, cut) {
      ShortEndIsCut(p, entries, mode, name, cut);
    }
  }

  /** For instance: one entry `4 a` whose id is nineteen zeros is skipped by one parser and listed by the other. */
  lemma {:induction false} ShortTreeExample()
    ensures var cut: seq<byte> := seq(19, i => 0);
            var p := [0x34, SPACE, 0x61, NUL] + cut;
            TreeOids(p) == [] && TreeEntries(p) == [] && ChildOids(p) == [cut]
  {
    var cut: seq<byte> := seq(19, i => 0);
    var p := [0x34, SPACE, 0x61, NUL] + cut;
    assert p == CutBytes([0x34], [0x61], cut) == TreeBytes([]) + CutBytes([0x34], [0x61], cut);
    ShortEndIsCut(p, [], [0x34], [0x61], cut);
    ChildOidsAreEntries(p);
  }

  // ---------- Serialised commits and tags ----------

  /** A header line that survives being written and read: no line feed, not empty, no carriage return at its end. */
  predicate PlainLine(line: seq<byte>) {
    LF !in line && line != [] && line[|line| - 1] != CR
  }

  predicate PlainLines(lines: seq<seq<byte>>) {
    lines == [] || (PlainLine(lines[0]) && PlainLines(lines[1..]))
  }

  /** Header lines, the empty line that ends them, and a message. */
  function HeaderText(lines: seq<seq<byte>>, message: seq<byte>): seq<byte> {
    if lines == [] then [LF] + message else lines[0] + [LF] + HeaderText(lines[1..], message)
  }

  /** Nothing of the message is taken for a header line. */
  lemma {:induction false} HeaderRoundTrip(lines: seq<seq<byte>>, message: seq<byte>)
    requires PlainLines(lines)
    ensures HeaderLines(HeaderText(lines, message)) == lines
  {
    var text := HeaderText(lines, message);
    if lines == [] {
      assert text[..0] == [] && IndexOf(text, LF) == 0;
    } else {
      var rest := HeaderText(lines[1..], message);
      HeaderRoundTrip(lines[1..], message);
      IndexOfFirst(lines[0], LF, rest);
      FirstLine(lines[0], rest);
    }
  }

  /** A line that ends in a carriage return is the same line without it. */
  lemma {:induction false} CarriageReturnIsDropped(line: seq<byte>, rest: seq<byte>)
    requires PlainLine(line)
    ensures HeaderLines(line + [CR, LF] + rest) == [line] + HeaderLines(rest)
  {
    var p := line + [CR, LF] + rest;
    assert p == line + [CR] + [LF] + rest;
    IndexOfFirst(line + [CR], LF, rest);
    assert p[..|line| + 1] == line + [CR] && p[|line| + 2..] == rest;
    LinesUnfold(p, |line| + 1, line, rest);
  }

  lemma {:induction false} FirstLine(line: seq<byte>, rest: seq<byte>)
    requires PlainLine(line) && IndexOf(line + [LF] + rest, LF) == |line|
    ensures HeaderLines(line + [LF] + rest) == [line] + HeaderLines(rest)
  {
    var p := line + [LF] + rest;
    assert p[..|line|] == line && p[|line| + 1..] == rest;
  }

  function IdLine(prefix: seq<byte>, o: Oid): seq<byte> {
    prefix + EncodeHex(o)
  }

  lemma {:induction false} IdLineReadsBack(prefix: seq<byte>, o: Oid)
    ensures OidOf(prefix, IdLine(prefix, o)) == Some(o)
  {
    var line := IdLine(prefix, o);
    assert line[..|prefix|] == prefix && line[|prefix|..|prefix| + 40] == EncodeHex(o);
    HexRoundTrip(o);
  }

  function ParentLines(parents: seq<Oid>): (lines: seq<seq<byte>>) {
    if parents == [] then [] else [IdLine(PARENT_LINE_PREFIX, parents[0])] + ParentLines(parents[1..])
  }

  lemma {:induction false} FirstParentLine(parents: seq<Oid>, others: seq<seq<byte>>)
    requires parents != []
    ensures AllOids(PARENT_LINE_PREFIX, ParentLines(parents) + others)
         == [parents[0]] + AllOids(PARENT_LINE_PREFIX, ParentLines(parents[1..]) + others)
  {
    assert (ParentLines(parents) + others)[1..] == ParentLines(parents[1..]) + others;
    IdLineReadsBack(PARENT_LINE_PREFIX, parents[0]);
  }

  lemma {:induction false} ParentsReadBack(parents: seq<Oid>, others: seq<seq<byte>>)
    ensures AllOids(PARENT_LINE_PREFIX, ParentLines(parents) + others) == parents + AllOids(PARENT_LINE_PREFIX, others)
  {
    if parents == [] {
      assert [] + others == others;
      assert [] + AllOids(PARENT_LINE_PREFIX, others) == AllOids(PARENT_LINE_PREFIX, others);
    } else {
      FirstParentLine(parents, others);
      ParentsReadBack(parents[1..], others);
      assert parents == [parents[0]] + parents[1..];
      AppendAssociates([parents[0]], parents[1..], AllOids(PARENT_LINE_PREFIX, others));
    }
  }

  function CommitLines(tree: Oid, parents: seq<Oid>, others: seq<seq<byte>>): seq<seq<byte>> {
    [IdLine(TREE_LINE_PREFIX, tree)] + (ParentLines(parents) + others)
  }

  /**
  A written commit gives back its tree and its parents in order, and then the ids of those
  other lines that name parents themselves; nothing of the message counts.
   */
  lemma {:induction false} CommitRoundTrip(tree: Oid, parents: seq<Oid>, others: seq<seq<byte>>, message: seq<byte>)
    requires PlainLines(others)
    ensures CommitOids(HeaderText(CommitLines(tree, parents, others), message))
         == [tree] + (parents + AllOids(PARENT_LINE_PREFIX, others))
  {
    var lines := CommitLines(tree, parents, others);
    CommitLinesArePlain(tree, parents, others);
    HeaderRoundTrip(lines, message);
    IdLineReadsBack(TREE_LINE_PREFIX, tree);
    assert lines[0][0] != PARENT_LINE_PREFIX[0];
    assert lines[1..] == ParentLines(parents) + others;
    ParentsReadBack(parents, others);
    var all := parents + AllOids(PARENT_LINE_PREFIX, others);
    assert AllOids(PARENT_LINE_PREFIX, lines) == [] + all == all;
  }

  lemma {:induction false} IdLineIsPlain(prefix: seq<byte>, o: Oid)
    requires LF !in prefix
    ensures PlainLine(IdLine(prefix, o))
  {
    var hex := EncodeHex(o);
    assert IdLine(prefix, o)[|prefix| + 39] == hex[39];
    forall k | 0 <= k < |hex| ensures hex[k] != LF && hex[k] != CR {
      assert HexNibble(hex[k]) >= 0;
    }
  }

  lemma {:induction false} CommitLinesArePlain(tree: Oid, parents: seq<Oid>, others: seq<seq<byte>>)
    requires PlainLines(others)
    ensures PlainLines(CommitLines(tree, parents, others))
  {
    ParentLinesArePlain(parents, others);
    IdLineIsPlain(TREE_LINE_PREFIX, tree);
    assert CommitLines(tree, parents, others)[1..] == ParentLines(parents) + others;
  }

  lemma {:induction false} ParentLinesArePlain(parents: seq<Oid>, others: seq<seq<byte>>)
    requires PlainLines(others)
    ensures PlainLines(ParentLines(parents) + others)
  {
    if parents == [] {
      assert [] + others == others;
    } else {
      assert (ParentLines(parents) + others)[1..] == ParentLines(parents[1..]) + others;
      IdLineIsPlain(PARENT_LINE_PREFIX, parents[0]);
      ParentLinesArePlain(parents[1..], others);
    }
  }

  /** A written tag gives back its object exactly when it names a known kind. */
  lemma {:induction false} TagRoundTrip(o: Oid, others: seq<seq<byte>>, message: seq<byte>)
    requires PlainLines(others)
    ensures TagOids(HeaderText([IdLine(OBJECT_LINE_PREFIX, o)] + others, message))
         == if HasTypeLine(others) then [o] else []
  {
    var lines := [IdLine(OBJECT_LINE_PREFIX, o)] + others;
    assert lines[1..] == others;
    IdLineIsPlain(OBJECT_LINE_PREFIX, o);
    HeaderRoundTrip(lines, message);
    IdLineReadsBack(OBJECT_LINE_PREFIX, o);
    assert lines[0][0] != TYPE_LINE_PREFIX[0];
  }

  // ---------- Any object ----------

  datatype ObjectType = CommitType | TreeType | BlobType | TagType

  /** The references the sidecar records for an object. */
  function ObjectOids(kind: ObjectType, payload: seq<byte>): seq<Oid> {
    match kind
    case CommitType => CommitOids(payload)
    case TreeType => TreeOids(payload)
    case TagType => TagOids(payload)
    case BlobType => []
  }

  method ObjectRefBytes(kind: ObjectType, payload: seq<byte>) returns (r: Result<seq<byte>>)
    ensures r == Ok(Flatten(ObjectOids(kind, payload)))
  {
    match kind
    case CommitType => r := ParseCommitRefBytes(payload);
    case TreeType =>
      var refs := ParseTreeClosureRefBytes(payload);
      return Ok(refs);
    case TagType => r := ParseTagRefBytes(payload);
    case BlobType => return Ok([]);
  }

  lemma {:induction false} OidsAreAligned(oids: seq<Oid>)
    ensures |Flatten(oids)| == 20 * |oids|
  {
    if oids != [] {
      OidsAreAligned(oids[1..]);
    }
  }
}
