/**
The `.refs` sidecar of `src/worker/git/pack/refIndex.ts`: the binary writer, the
validating reader, and the accessors of a parsed view.
 */
module RefIndex {
  import opened Bytes
  import opened IdxViews
  import RefExtract

  const PACK_REF_MAGIC: nat := 0x5052_4546
  const PACK_REF_VERSION: nat := 1
  const PACK_REF_HEADER_BYTES: nat := 60

  lemma {:induction false} MagicIsSpelled()
    ensures PutUint32(PACK_REF_MAGIC) == Ascii("PREF") && PACK_REF_VERSION == 1
  {
  }

  datatype PackRefView = PackRefView(
    packKey: string,
    objectCount: nat,
    packBytes: nat,
    packChecksum: seq<byte>,
    idxChecksum: seq<byte>,
    typeCodes: seq<byte>,
    refStartsBytes: seq<byte>,
    rawRefs: seq<byte>)

  datatype LoadResult = Ready(view: PackRefView) | Invalid(kind: string, reason: string)

  predicate IsValidTypeCode(code: int) {
    1 <= code <= 4
  }

  // ---------- Building ----------

  function PutUint64(n: nat): (s: seq<byte>)
    ensures |s| == 8
  {
    PutUint32(n / UINT32_SPAN) + PutUint32(n)
  }

  /** The recorded references of each sorted row, or the first row's error. */
  function Rows(types: seq<byte>, refs: seq<Option<seq<byte>>>, sorted: seq<nat>): (r: Result<seq<seq<byte>>>)
    requires |types| == |refs| && forall i :: 0 <= i < |sorted| ==> sorted[i] < |refs|
    ensures r.Ok? ==> |r.value| == |sorted|
    ensures r.Ok? ==> forall i :: 0 <= i < |sorted| ==>
              IsValidTypeCode(types[sorted[i]]) && refs[sorted[i]] == Some(r.value[i]) && |r.value[i]| % 20 == 0
  {
    if sorted == [] then Ok([])
    else if !IsValidTypeCode(types[sorted[0]]) then Err("ref-index: unresolved object type")
    else if refs[sorted[0]].None? then Err("ref-index: missing logical refs")
    else if |refs[sorted[0]].value| % 20 != 0 then Err("ref-index: invalid logical refs")
    else
      Prepend([refs[sorted[0]].value], Rows(types, refs, sorted[1..]))
  }

  /** A sidecar is built exactly when every object has a known kind and whole recorded references. */
  lemma {:induction false} RowsAreComplete(types: seq<byte>, refs: seq<Option<seq<byte>>>, sorted: seq<nat>)
    requires |types| == |refs| && forall i :: 0 <= i < |sorted| ==> sorted[i] < |refs|
    ensures Rows(types, refs, sorted).Ok? <==>
            forall i :: 0 <= i < |sorted| ==>
              1 <= types[sorted[i]] <= 4 && refs[sorted[i]].Some? && |refs[sorted[i]].value| % 20 == 0
  {
    if sorted != [] {
      RowsAreComplete(types, refs, sorted[1..]);
      assert forall i :: 0 < i < |sorted| ==> sorted[i] == sorted[1..][i - 1];
      assert forall i :: 0 <= i < |sorted[1..]| ==> sorted[1..][i] == sorted[i + 1];
    }
  }

  /** How many references the first `i` rows hold. */
  function CountBefore(rows: seq<seq<byte>>, i: nat): nat
    requires i <= |rows|
  {
    if i == 0 then 0 else CountBefore(rows, i - 1) + |rows[i - 1]| / 20
  }

  function StartsBytes(starts: seq<nat>): (s: seq<byte>)
    ensures |s| == 4 * |starts|
  {
    if starts == [] then [] else PutUint32(starts[0]) + StartsBytes(starts[1..])
  }

  function RefStarts(rows: seq<seq<byte>>): (starts: seq<nat>)
    ensures |starts| == |rows| + 1
  {
    seq(|rows| + 1, i requires 0 <= i <= |rows| => CountBefore(rows, i))
  }

  function TypeBytes(types: seq<byte>, sorted: seq<nat>): (s: seq<byte>)
    requires forall i :: 0 <= i < |sorted| ==> sorted[i] < |types|
    ensures |s| == |sorted|
  {
    seq(|sorted|, i requires 0 <= i < |sorted| => types[sorted[i]])
  }

  function Header(objectCount: nat, packBytes: nat, packChecksum: seq<byte>, idxChecksum: seq<byte>): (s: seq<byte>)
    requires |packChecksum| == |idxChecksum| == 20
    ensures |s| == PACK_REF_HEADER_BYTES
  {
    PutUint32(PACK_REF_MAGIC) + PutUint32(PACK_REF_VERSION) + PutUint32(objectCount) + PutUint64(packBytes)
    + packChecksum + idxChecksum
  }

  function SidecarBytes(typeCodes: seq<byte>, rows: seq<seq<byte>>, packBytes: nat, packChecksum: seq<byte>,
                        idxChecksum: seq<byte>): seq<byte>
    requires |packChecksum| == |idxChecksum| == 20
  {
    Header(|rows|, packBytes, packChecksum, idxChecksum) + typeCodes + StartsBytes(RefStarts(rows)) + Flatten(rows)
  }

  function BuildSidecar(types: seq<byte>, refs: seq<Option<seq<byte>>>, sorted: seq<nat>, packBytes: int,
                        packChecksum: seq<byte>, idxChecksum: seq<byte>): Result<seq<byte>>
    requires |types| == |refs| && forall i :: 0 <= i < |sorted| ==> sorted[i] < |refs|
    requires |packChecksum| == |idxChecksum| == 20
  {
    var rows :- Rows(types, refs, sorted);
    if !(0 <= packBytes <= MAX_SAFE_INTEGER) then Err("ref-index: unsupported 64-bit value")
    else Ok(SidecarBytes(TypeBytes(types, sorted), rows, packBytes, packChecksum, idxChecksum))
  }

  class PackRefsBuilder {
    var rawRefsByEntry: seq<Option<seq<byte>>>

    constructor (objectCount: nat)
      ensures |rawRefsByEntry| == objectCount && forall i :: 0 <= i < objectCount ==> rawRefsByEntry[i] == None
    {
      rawRefsByEntry := seq(objectCount, i => None);
    }

    /** Records the references found in one object; the extractors never refuse a payload. */
    method RecordObject(index: nat, kind: RefExtract.ObjectType, payload: seq<byte>)
      requires index < |rawRefsByEntry|
      modifies this
      ensures rawRefsByEntry == old(rawRefsByEntry)[index := Some(Flatten(RefExtract.ObjectOids(kind, payload)))]
    {
      var refs := RefExtract.ObjectRefBytes(kind, payload);
      rawRefsByEntry := rawRefsByEntry[index := Some(refs.value)];
    }

    /** Records what `RecordObject` would for any blob, without its payload. */
    method RecordBlob(index: nat)
      requires index < |rawRefsByEntry|
      modifies this
      ensures rawRefsByEntry == old(rawRefsByEntry)[index := Some([])]
      ensures forall payload: seq<byte> ::
                rawRefsByEntry[index] == Some(Flatten(RefExtract.ObjectOids(RefExtract.BlobType, payload)))
    {
      rawRefsByEntry := rawRefsByEntry[index := Some([])];
    }

    method Build(types: seq<byte>, sorted: seq<nat>, packBytes: int, packChecksum: seq<byte>, idxChecksum: seq<byte>)
      returns (r: Result<seq<byte>>)
      requires |types| == |rawRefsByEntry| && forall i :: 0 <= i < |sorted| ==> sorted[i] < |rawRefsByEntry|
      requires |packChecksum| == |idxChecksum| == 20
      ensures r == BuildSidecar(types, rawRefsByEntry, sorted, packBytes, packChecksum, idxChecksum)
    {
      var starts := CountRefs(types, rawRefsByEntry, sorted);
      if starts.Err? {
        return Err(starts.message);
      }
      if !(0 <= packBytes <= MAX_SAFE_INTEGER) {
        return Err("ref-index: unsupported 64-bit value");
      }
      var bytes := WriteSidecar(TypeBytes(types, sorted), starts.value, rawRefsByEntry, sorted, packBytes, packChecksum,
                                idxChecksum, Rows(types, rawRefsByEntry, sorted).value);
      return Ok(bytes);
    }
  }

  /** The first pass: checks every row and adds up the reference counts. */
  method CountRefs(types: seq<byte>, refs: seq<Option<seq<byte>>>, sorted: seq<nat>) returns (r: Result<seq<nat>>)
    requires |types| == |refs| && forall i :: 0 <= i < |sorted| ==> sorted[i] < |refs|
    ensures r == match Rows(types, refs, sorted)
                 case Err(message) => Err(message)
                 case Ok(rows) => Ok(RefStarts(rows))
  {
    var starts: seq<nat> := [];
    var refCount := 0;
    ghost var rows: seq<seq<byte>> := [];
    assert sorted[0..] == sorted;
    PrependNothing(Rows(types, refs, sorted));
    assert starts + [refCount] == RefStarts(rows);
    for i := 0 to |sorted|
      invariant |rows| == i && starts + [refCount] == RefStarts(rows)
      invariant Rows(types, refs, sorted) == Prepend(rows, Rows(types, refs, sorted[i..]))
    {
      var entryIndex := sorted[i];
      assert sorted[i..][1..] == sorted[i + 1..];
      if !IsValidTypeCode(types[entryIndex]) {
        return Err("ref-index: unresolved object type");
      }
      if refs[entryIndex].None? {
        return Err("ref-index: missing logical refs");
      }
      var row := refs[entryIndex].value;
      if |row| % 20 != 0 {
        return Err("ref-index: invalid logical refs");
      }
      RefStartsAppend(rows, row);
      starts := starts + [refCount];
      refCount := refCount + |row| / 20;
      PrependMore(rows, row, Rows(types, refs, sorted[i + 1..]));
      rows := rows + [row];
    }
    assert rows + [] == rows && sorted[|sorted|..] == [];
    return Ok(starts + [refCount]);
  }

  function Prepend(rows: seq<seq<byte>>, r: Result<seq<seq<byte>>>): Result<seq<seq<byte>>> {
    match r
    case Err(message) => Err(message)
    case Ok(rest) => Ok(rows + rest)
  }

  lemma {:induction false} PrependNothing(r: Result<seq<seq<byte>>>)
    ensures Prepend([], r) == r
  {
    if r.Ok? {
      assert [] + r.value == r.value;
    }
  }

  lemma {:induction false} PrependMore(rows: seq<seq<byte>>, row: seq<byte>, r: Result<seq<seq<byte>>>)
    ensures Prepend(rows, Prepend([row], r)) == Prepend(rows + [row], r)
  {
    if r.Ok? {
      AppendAssociates(rows, [row], r.value);
    }
  }

  lemma {:induction false} RefStartsAppend(rows: seq<seq<byte>>, row: seq<byte>)
    ensures RefStarts(rows + [row]) == RefStarts(rows) + [RefStarts(rows)[|rows|] + |row| / 20]
  {
    forall k | 0 <= k <= |rows| ensures CountBefore(rows + [row], k) == CountBefore(rows, k) {
      CountBeforePrefix(rows, row, k);
    }
  }

  lemma {:induction false} CountBeforePrefix(rows: seq<seq<byte>>, row: seq<byte>, k: nat)
    requires k <= |rows|
    ensures CountBefore(rows + [row], k) == CountBefore(rows, k)
  {
    if k > 0 {
      CountBeforePrefix(rows, row, k - 1);
    }
  }

  lemma {:induction false} FlattenLength(rows: seq<seq<byte>>, i: nat)
    requires i <= |rows| && forall k :: 0 <= k < |rows| ==> |rows[k]| % 20 == 0
    ensures |Flatten(rows[..i])| == 20 * CountBefore(rows, i)
  {
    if i == 0 {
      assert rows[..0] == [];
    } else {
      FlattenLength(rows, i - 1);
      assert rows[..i] == rows[..i - 1] + [rows[i - 1]];
      FlattenSnoc(rows[..i - 1], rows[i - 1]);
    }
  }

  /** The second pass: fills one buffer of exactly the computed size, left to right. */
  method WriteSidecar(typeCodes: seq<byte>, starts: seq<nat>, refs: seq<Option<seq<byte>>>, sorted: seq<nat>,
                      packBytes: nat, packChecksum: seq<byte>, idxChecksum: seq<byte>, ghost rows: seq<seq<byte>>)
    returns (bytes: seq<byte>)
    requires |packChecksum| == |idxChecksum| == 20
    requires |typeCodes| == |sorted| == |rows| && starts == RefStarts(rows)
    requires forall i :: 0 <= i < |rows| ==>
               sorted[i] < |refs| && refs[sorted[i]] == Some(rows[i]) && |rows[i]| % 20 == 0
    ensures bytes == SidecarBytes(typeCodes, rows, packBytes, packChecksum, idxChecksum)
  {
    var objectCount := |sorted|;
    var refCount := starts[objectCount];
    var out := new byte[PACK_REF_HEADER_BYTES + objectCount + (objectCount + 1) * 4 + refCount * 20];
    FlattenLength(rows, |rows|);
    assert rows[..|rows|] == rows;
    assert |Flatten(rows)| == refCount * 20;

    var header := Header(objectCount, packBytes, packChecksum, idxChecksum);
    var fits := SetBytes(out, header, 0);
    assert out[..0] == [] && [] + header == header;
    var pos := |header|;
    fits := SetBytes(out, typeCodes, pos);
    pos := pos + |typeCodes|;
    WriteStarts(out, pos, starts);
    pos := pos + 4 * |starts|;
    WriteRows(out, pos, refs, sorted, rows);
    assert out[..out.Length] == out[..];
    bytes := out[..];
  }

  method WriteStarts(out: array<byte>, at: nat, starts: seq<nat>)
    requires at + 4 * |starts| <= out.Length
    modifies out
    ensures out[..at + 4 * |starts|] == old(out[..at]) + StartsBytes(starts)
  {
    ghost var before := out[..at];
    var pos := at;
    ghost var written: seq<byte> := [];
    assert before + [] == before && starts[0..] == starts;
    for i := 0 to |starts|
      invariant pos == at + 4 * i && out[..pos] == before + written
      invariant StartsBytes(starts) == written + StartsBytes(starts[i..])
    {
      assert starts[i..][1..] == starts[i + 1..];
      AppendAssociates(before, written, PutUint32(starts[i]));
      AppendAssociates(written, PutUint32(starts[i]), StartsBytes(starts[i + 1..]));
      var fits := SetBytes(out, PutUint32(starts[i]), pos);
      written := written + PutUint32(starts[i]);
      pos := pos + 4;
    }
    assert written + StartsBytes([]) == written;
  }

  method WriteRows(out: array<byte>, at: nat, refs: seq<Option<seq<byte>>>, sorted: seq<nat>,
                   ghost rows: seq<seq<byte>>)
    requires |rows| == |sorted|
    requires forall i :: 0 <= i < |rows| ==> sorted[i] < |refs| && refs[sorted[i]] == Some(rows[i])
    requires at + |Flatten(rows)| == out.Length
    modifies out
    ensures out[..out.Length] == old(out[..at]) + Flatten(rows)
  {
    ghost var before := out[..at];
    var pos := at;
    assert rows[..0] == [] && before + [] == before;
    for i := 0 to |sorted|
      invariant pos == at + |Flatten(rows[..i])| && pos + |Flatten(rows[i..])| == out.Length
      invariant out[..pos] == before + Flatten(rows[..i])
    {
      assert rows[..i + 1] == rows[..i] + [rows[i]] && rows[i..][1..] == rows[i + 1..];
      FlattenSnoc(rows[..i], rows[i]);
      AppendAssociates(before, Flatten(rows[..i]), rows[i]);
      var fits := SetBytes(out, refs[sorted[i]].value, pos);
      pos := pos + |refs[sorted[i]].value|;
    }
    assert rows[..|rows|] == rows;
  }

  lemma {:induction false} CountBeforeMonotone(rows: seq<seq<byte>>, i: nat, j: nat)
    requires i <= j <= |rows|
    ensures CountBefore(rows, i) <= CountBefore(rows, j)
    decreases j - i
  {
    if i < j {
      CountBeforeMonotone(rows, i, j - 1);
    }
  }

  // ---------- Parsing ----------

  predicate ValidTypeCodes(codes: seq<byte>) {
    forall i :: 0 <= i < |codes| ==> IsValidTypeCode(codes[i])
  }

  /** The starts a table spells. */
  function DecodeStarts(table: seq<byte>): (starts: seq<nat>)
    ensures |starts| == |table| / 4
    decreases |table|
  {
    if |table| < 4 then [] else [GetUint32(table, 0)] + DecodeStarts(table[4..])
  }

  lemma {:induction false} DecodedAt(table: seq<byte>, i: nat)
    requires 4 * i + 4 <= |table|
    ensures DecodeStarts(table)[i] == GetUint32(table, 4 * i)
    decreases i
  {
    if i > 0 {
      DecodedAt(table[4..], i - 1);
    }
  }

  predicate Monotonic(starts: seq<nat>) {
    forall i :: 0 < i < |starts| ==> starts[i - 1] <= starts[i]
  }

  /** The last checks of the parser, on the sections they look at. */
  function AcceptTable(view: PackRefView): LoadResult
    requires |view.refStartsBytes| == 4 * (view.objectCount + 1)
  {
    var starts := DecodeStarts(view.refStartsBytes);
    if !Monotonic(starts) then Invalid("corrupt", "non-monotonic-ref-starts")
    else if starts[view.objectCount] * 20 != |view.rawRefs| then Invalid("corrupt", "invalid-final-ref-offset")
    else Ready(view)
  }

  function ParseBody(packKey: string, bytes: seq<byte>, objectCount: nat, packBytes: nat): LoadResult
    requires |bytes| >= PACK_REF_HEADER_BYTES
  {
    var typesEnd := PACK_REF_HEADER_BYTES + objectCount;
    var startsEnd := typesEnd + (objectCount + 1) * 4;
    if typesEnd > |bytes| then Invalid("corrupt", "truncated-type-codes")
    else if !ValidTypeCodes(bytes[PACK_REF_HEADER_BYTES..typesEnd]) then Invalid("corrupt", "invalid-type-code")
    else if startsEnd > |bytes| then Invalid("corrupt", "truncated-ref-starts")
    else
      AcceptTable(PackRefView(packKey, objectCount, packBytes, bytes[20..40], bytes[40..60],
                              bytes[PACK_REF_HEADER_BYTES..typesEnd], bytes[typesEnd..startsEnd], bytes[startsEnd..]))
  }

  datatype Fields = Fields(magic: nat, version: nat, objectCount: nat, packBytes: nat, packChecksum: seq<byte>,
                           idxChecksum: seq<byte>)

  function ReadHeader(bytes: seq<byte>): Fields
    requires |bytes| >= PACK_REF_HEADER_BYTES
  {
    Fields(GetUint32(bytes, 0), GetUint32(bytes, 4), GetUint32(bytes, 8),
           GetUint32(bytes, 12) * UINT32_SPAN + GetUint32(bytes, 16), bytes[20..40], bytes[40..60])
  }

  /** The first header check that fails, in the order the parser makes them. */
  function CheckHeader(header: Fields, idx: IdxView): Option<LoadResult> {
    if header.magic != PACK_REF_MAGIC then Some(Invalid("corrupt", "bad-magic"))
    else if header.version != PACK_REF_VERSION then Some(Invalid("corrupt", "bad-version"))
    else if header.objectCount != idx.count then Some(Invalid("stale", "object-count-mismatch"))
    else if header.packBytes > MAX_SAFE_INTEGER then Some(Invalid("corrupt", "pack-bytes-overflow"))
    else if header.packBytes != idx.packSize then Some(Invalid("stale", "pack-bytes-mismatch"))
    else if header.packChecksum != idx.packChecksum then Some(Invalid("stale", "pack-checksum-mismatch"))
    else if header.idxChecksum != idx.idxChecksum then Some(Invalid("stale", "idx-checksum-mismatch"))
    else None
  }

  function ParseSidecar(packKey: string, bytes: seq<byte>, idx: IdxView): LoadResult {
    if |bytes| < PACK_REF_HEADER_BYTES then Invalid("corrupt", "truncated-header")
    else
      var header := ReadHeader(bytes);
      match CheckHeader(header, idx)
      case Some(refusal) => refusal
      case None => ParseBody(packKey, bytes, header.objectCount, header.packBytes)
  }

  method ParsePackRefView(packKey: string, bytes: seq<byte>, idx: IdxView) returns (r: LoadResult)
    ensures r == ParseSidecar(packKey, bytes, idx)
  {
    if |bytes| < PACK_REF_HEADER_BYTES {
      return Invalid("corrupt", "truncated-header");
    }
    var pos := 0;
    if GetUint32(bytes, pos) != PACK_REF_MAGIC {
      return Invalid("corrupt", "bad-magic");
    }
    pos := pos + 4;
    if GetUint32(bytes, pos) != PACK_REF_VERSION {
      return Invalid("corrupt", "bad-version");
    }
    pos := pos + 4;
    var objectCount := GetUint32(bytes, pos);
    pos := pos + 4;
    if objectCount != idx.count {
      return Invalid("stale", "object-count-mismatch");
    }
    var packBytes := GetUint32(bytes, pos) * UINT32_SPAN + GetUint32(bytes, pos + 4);
    if packBytes > MAX_SAFE_INTEGER {
      return Invalid("corrupt", "pack-bytes-overflow");
    }
    pos := pos + 8;
    if packBytes != idx.packSize {
      return Invalid("stale", "pack-bytes-mismatch");
    }
    if bytes[pos..pos + 20] != idx.packChecksum {
      return Invalid("stale", "pack-checksum-mismatch");
    }
    pos := pos + 20;
    if bytes[pos..pos + 20] != idx.idxChecksum {
      return Invalid("stale", "idx-checksum-mismatch");
    }
    r := ParseTables(packKey, bytes, objectCount, packBytes);
  }

  method ParseTables(packKey: string, bytes: seq<byte>, objectCount: nat, packBytes: nat) returns (r: LoadResult)
    requires |bytes| >= PACK_REF_HEADER_BYTES
    ensures r == ParseBody(packKey, bytes, objectCount, packBytes)
  {
    var pos := PACK_REF_HEADER_BYTES;
    var typeCodesEnd := pos + objectCount;
    if typeCodesEnd > |bytes| {
      return Invalid("corrupt", "truncated-type-codes");
    }
    var typeCodes := bytes[pos..typeCodesEnd];
    assert typeCodes == bytes[PACK_REF_HEADER_BYTES..PACK_REF_HEADER_BYTES + objectCount];
    for i := 0 to |typeCodes|
      invariant forall k :: 0 <= k < i ==> IsValidTypeCode(typeCodes[k])
    {
      if !IsValidTypeCode(typeCodes[i]) {
        assert !ValidTypeCodes(typeCodes);
        return Invalid("corrupt", "invalid-type-code");
      }
    }
    pos := typeCodesEnd;
    var startsBytes := (objectCount + 1) * 4;
    if pos + startsBytes > |bytes| {
      return Invalid("corrupt", "truncated-ref-starts");
    }
    var table := bytes[pos..pos + startsBytes];
    var ordered := CheckStarts(table);
    if !ordered {
      return Invalid("corrupt", "non-monotonic-ref-starts");
    }
    pos := pos + startsBytes;
    DecodedAt(table, objectCount);
    var finalRefOffset := GetUint32(table, objectCount * 4);
    if finalRefOffset * 20 != |bytes| - pos {
      return Invalid("corrupt", "invalid-final-ref-offset");
    }
    return Ready(PackRefView(packKey, objectCount, packBytes, bytes[20..40], bytes[40..60], typeCodes, table,
                             bytes[pos..]));
  }

  method CheckStarts(table: seq<byte>) returns (ordered: bool)
    ensures ordered == Monotonic(DecodeStarts(table))
  {
    ghost var starts := DecodeStarts(table);
    var previous := 0;
    for i := 0 to |table| / 4
      invariant i > 0 ==> previous == starts[i - 1]
      invariant forall k :: 0 < k < i ==> starts[k - 1] <= starts[k]
    {
      DecodedAt(table, i);
      var value := GetUint32(table, i * 4);
      if i > 0 && value < previous {
        assert starts[i - 1] > starts[i];
        return false;
      }
      previous := value;
    }
    return true;
  }

  // ---------- Accessors ----------

  function TypeCodeAt(view: PackRefView, row: int): Option<byte>
    requires |view.typeCodes| == view.objectCount
  {
    if row < 0 || row >= view.objectCount then None else Some(view.typeCodes[row])
  }

  function StartsOf(view: PackRefView): seq<nat> {
    DecodeStarts(view.refStartsBytes)
  }

  /** Every accepted view: the ranges of the rows are ordered, adjacent, and end with the raw references. */
  ghost predicate ValidView(view: PackRefView) {
    && |view.typeCodes| == view.objectCount && (forall i :: 0 <= i < |view.typeCodes| ==> 1 <= view.typeCodes[i] <= 4)
    && |StartsOf(view)| == view.objectCount + 1
    && (forall i, j :: 0 <= i <= j <= view.objectCount ==> StartsOf(view)[i] <= StartsOf(view)[j])
    && StartsOf(view)[view.objectCount] * 20 == |view.rawRefs|
  }

  lemma {:induction false} MonotonicSpans(starts: seq<nat>, i: nat, j: nat)
    requires Monotonic(starts) && i <= j < |starts|
    ensures starts[i] <= starts[j]
    decreases j - i
  {
    if i < j {
      MonotonicSpans(starts, i, j - 1);
      assert starts[j - 1] <= starts[j];
    }
  }

  lemma {:induction false} AcceptedTableIsValid(view: PackRefView)
    requires |view.refStartsBytes| == 4 * (view.objectCount + 1) && AcceptTable(view).Ready?
    requires |view.typeCodes| == view.objectCount && ValidTypeCodes(view.typeCodes)
    ensures ValidView(view)
  {
    forall i, j | 0 <= i <= j <= view.objectCount ensures StartsOf(view)[i] <= StartsOf(view)[j] {
      MonotonicSpans(StartsOf(view), i, j);
    }
  }

  /** Whatever bytes are accepted, the row ranges are in bounds, ordered, and adjacent up to the end. */
  lemma {:induction false} AcceptedViewIsValid(packKey: string, bytes: seq<byte>, idx: IdxView)
    requires ParseSidecar(packKey, bytes, idx).Ready?
    ensures ValidView(ParseSidecar(packKey, bytes, idx).view)
  {
    AcceptedTableIsValid(ParseSidecar(packKey, bytes, idx).view);
  }

  function Slots(raw: seq<byte>, from: nat, to: nat): (r: seq<Oid>)
    requires from <= to && 20 * to <= |raw|
    ensures |r| == to - from
  {
    if from == to then [] else Slots(raw, from, to - 1) + [NameAt(raw, to - 1)]
  }

  lemma {:induction false} SlotsIndex(raw: seq<byte>, from: nat, to: nat, k: nat)
    requires from <= to && 20 * to <= |raw| && k < to - from
    ensures Slots(raw, from, to)[k] == NameAt(raw, from + k)
  {
    if k < to - from - 1 {
      SlotsIndex(raw, from, to - 1, k);
    }
  }

  /** The references of a row. */
  function RefsAt(view: PackRefView, row: int): seq<Oid>
    requires ValidView(view)
  {
    if row < 0 || row >= view.objectCount then []
    else Slots(view.rawRefs, StartsOf(view)[row], StartsOf(view)[row + 1])
  }

  method StartOf(view: PackRefView, row: nat) returns (start: nat)
    requires row < |StartsOf(view)|
    ensures start == StartsOf(view)[row]
  {
    DecodedAt(view.refStartsBytes, row);
    start := GetUint32(view.refStartsBytes, row * 4);
  }

  method GetPackRefRefsAt(view: PackRefView, row: int) returns (refs: seq<Oid>)
    requires ValidView(view)
    ensures refs == RefsAt(view, row)
  {
    refs := [];
    if row < 0 || row >= view.objectCount {
      return;
    }
    var refStart := StartOf(view, row);
    var refEnd := StartOf(view, row + 1);
    for refIndex := refStart to refEnd
      invariant refs == Slots(view.rawRefs, refStart, refIndex)
    {
      refs := refs + [NameAt(view.rawRefs, refIndex)];
    }
  }

  method GetPackRefRawRefAt(view: PackRefView, row: int, refOffset: int) returns (r: Option<Oid>)
    requires ValidView(view)
    ensures r == if 0 <= refOffset < |RefsAt(view, row)| then Some(RefsAt(view, row)[refOffset]) else None
  {
    if row < 0 || row >= view.objectCount || refOffset < 0 {
      return None;
    }
    var refStart := StartOf(view, row);
    var refEnd := StartOf(view, row + 1);
    var refIndex := refStart + refOffset;
    if refIndex >= refEnd {
      return None;
    }
    SlotsIndex(view.rawRefs, refStart, refEnd, refOffset);
    return Some(NameAt(view.rawRefs, refIndex));
  }

  // ---------- Writer and reader undo each other ----------

  function Low32(n: nat): (r: nat)
    ensures n < UINT32_SPAN ==> r == n
    ensures n >= UINT32_SPAN ==> r < n
  {
    n % UINT32_SPAN
  }

  /** Starts read back as their low 32 bits. */
  lemma {:induction false} StartsReadBack(starts: seq<nat>, i: nat)
    requires i < |starts|
    ensures DecodeStarts(StartsBytes(starts))[i] == Low32(starts[i])
  {
    AppendParts(PutUint32(starts[0]), StartsBytes(starts[1..]));
    if i == 0 {
      ReadsBack(StartsBytes(starts), 0, starts[0]);
    } else {
      StartsReadBack(starts[1..], i - 1);
    }
  }

  lemma {:induction false} HeaderParts(objectCount: nat, packBytes: nat, packChecksum: seq<byte>,
                                       idxChecksum: seq<byte>)
    requires |packChecksum| == |idxChecksum| == 20
    ensures var h := Header(objectCount, packBytes, packChecksum, idxChecksum);
            && h[0..4] == PutUint32(PACK_REF_MAGIC) && h[4..8] == PutUint32(PACK_REF_VERSION)
            && h[8..12] == PutUint32(objectCount)
            && h[12..16] == PutUint32(packBytes / UINT32_SPAN) && h[16..20] == PutUint32(packBytes)
            && h[20..40] == packChecksum && h[40..60] == idxChecksum
  {
  }

  lemma {:induction false} HeaderReadsBack(bytes: seq<byte>, objectCount: nat, packBytes: nat,
                                           packChecksum: seq<byte>, idxChecksum: seq<byte>)
    requires |packChecksum| == |idxChecksum| == 20 && objectCount < UINT32_SPAN && packBytes <= MAX_SAFE_INTEGER
    requires |bytes| >= 60 && bytes[..60] == Header(objectCount, packBytes, packChecksum, idxChecksum)
    ensures ReadHeader(bytes)
         == Fields(PACK_REF_MAGIC, PACK_REF_VERSION, objectCount, packBytes, packChecksum, idxChecksum)
  {
    HeaderParts(objectCount, packBytes, packChecksum, idxChecksum);
    NumbersReadBack(bytes, bytes[..60], PACK_REF_MAGIC, PACK_REF_VERSION, objectCount, packBytes);
    SubSlice(bytes, 0, 60, 20, 40);
    SubSlice(bytes, 0, 60, 40, 60);
  }

  lemma {:induction false} NumbersReadBack(bytes: seq<byte>, h: seq<byte>, magic: nat, version: nat, objectCount: nat,
                                           packBytes: nat)
    requires |bytes| >= 60 && h == bytes[..60]
    requires h[0..4] == PutUint32(magic) && h[4..8] == PutUint32(version) && h[8..12] == PutUint32(objectCount)
    requires h[12..16] == PutUint32(packBytes / UINT32_SPAN) && h[16..20] == PutUint32(packBytes)
    requires magic < UINT32_SPAN && version < UINT32_SPAN && objectCount < UINT32_SPAN
    requires packBytes / UINT32_SPAN < UINT32_SPAN
    ensures var f := ReadHeader(bytes);
            f.magic == magic && f.version == version && f.objectCount == objectCount && f.packBytes == packBytes
  {
    FieldReadsBack(bytes, 0, magic);
    FieldReadsBack(bytes, 4, version);
    FieldReadsBack(bytes, 8, objectCount);
    WideReadsBack(bytes, packBytes);
  }

  lemma {:induction false} WideReadsBack(bytes: seq<byte>, n: nat)
    requires |bytes| >= 60 && n / UINT32_SPAN < UINT32_SPAN
    requires bytes[..60][12..16] == PutUint32(n / UINT32_SPAN) && bytes[..60][16..20] == PutUint32(n)
    ensures GetUint32(bytes, 12) * UINT32_SPAN + GetUint32(bytes, 16) == n
  {
    FieldReadsBack(bytes, 12, n / UINT32_SPAN);
    SubSlice(bytes, 0, 60, 16, 20);
    ReadsBack(bytes, 16, n);
  }

  lemma {:induction false} FieldReadsBack(bytes: seq<byte>, pos: nat, n: nat)
    requires |bytes| >= 60 && pos + 4 <= 60 && bytes[..60][pos..pos + 4] == PutUint32(n) && n < UINT32_SPAN
    ensures GetUint32(bytes, pos) == n
  {
    SubSlice(bytes, 0, 60, pos, pos + 4);
    ReadsBack(bytes, pos, n);
  }

  ghost predicate RowsAligned(rows: seq<seq<byte>>) {
    forall k :: 0 <= k < |rows| ==> |rows[k]| % 20 == 0
  }

  /** Parsing a body whose three sections are known. */
  lemma {:induction false} ParseOfSections(packKey: string, bytes: seq<byte>, packBytes: nat, typeCodes: seq<byte>,
                                           table: seq<byte>, raw: seq<byte>)
    requires |bytes| == PACK_REF_HEADER_BYTES + |typeCodes| + |table| + |raw| && |table| == 4 * (|typeCodes| + 1)
    requires bytes[PACK_REF_HEADER_BYTES..PACK_REF_HEADER_BYTES + |typeCodes|] == typeCodes && ValidTypeCodes(typeCodes)
    requires bytes[PACK_REF_HEADER_BYTES + |typeCodes|..PACK_REF_HEADER_BYTES + |typeCodes| + |table|] == table
    requires bytes[PACK_REF_HEADER_BYTES + |typeCodes| + |table|..] == raw
    ensures ParseBody(packKey, bytes, |typeCodes|, packBytes)
         == AcceptTable(PackRefView(packKey, |typeCodes|, packBytes, bytes[20..40], bytes[40..60], typeCodes, table,
                                    raw))
  {
  }

  /** The table of a built sidecar is accepted exactly when its references number less than 2^32. */
  lemma {:induction false} TableFits(rows: seq<seq<byte>>)
    requires RowsAligned(rows)
    ensures var starts := DecodeStarts(StartsBytes(RefStarts(rows)));
            Monotonic(starts) && starts[|rows|] * 20 == |Flatten(rows)| <==> CountBefore(rows, |rows|) < UINT32_SPAN
  {
    FlattenLength(rows, |rows|);
    assert rows[..|rows|] == rows;
    TableIsAccepted(rows);
  }

  lemma {:induction false} FourParts(header: seq<byte>, typeCodes: seq<byte>, table: seq<byte>, raw: seq<byte>)
    ensures var bytes := header + typeCodes + table + raw;
            var i, j, k := |header|, |header| + |typeCodes|, |header| + |typeCodes| + |table|;
            && |bytes| == k + |raw| && bytes[..i] == header && bytes[i..j] == typeCodes
            && bytes[j..k] == table && bytes[k..] == raw
  {
  }

  lemma {:induction false} TableIsAccepted(rows: seq<seq<byte>>)
    ensures var starts := DecodeStarts(StartsBytes(RefStarts(rows)));
            && starts[|rows|] == Low32(CountBefore(rows, |rows|))
            && (CountBefore(rows, |rows|) < UINT32_SPAN ==> Monotonic(starts))
  {
    StartsReadBack(RefStarts(rows), |rows|);
    if CountBefore(rows, |rows|) < UINT32_SPAN {
      forall i | 0 <= i <= |rows| ensures DecodeStarts(StartsBytes(RefStarts(rows)))[i] == CountBefore(rows, i) {
        StartsAreCounts(rows, i);
      }
      forall i | 0 < i <= |rows| ensures CountBefore(rows, i - 1) <= CountBefore(rows, i) {
        CountBeforeMonotone(rows, i - 1, i);
      }
    }
  }

  lemma {:induction false} StartsAreCounts(rows: seq<seq<byte>>, i: nat)
    requires i <= |rows| && CountBefore(rows, |rows|) < UINT32_SPAN
    ensures DecodeStarts(StartsBytes(RefStarts(rows)))[i] == CountBefore(rows, i)
  {
    CountBeforeMonotone(rows, i, |rows|);
    StartsReadBack(RefStarts(rows), i);
  }

  /** `idx` is the index of the pack the sidecar was built for. */
  predicate Matching(idx: IdxView, objectCount: nat, packBytes: int, packChecksum: seq<byte>, idxChecksum: seq<byte>) {
    && idx.count == objectCount && idx.packSize == packBytes
    && idx.packChecksum == packChecksum && idx.idxChecksum == idxChecksum
  }

  /** The recorded references of an entry, as ids. */
  function Recorded(refs: seq<byte>): seq<Oid> {
    Slots(refs, 0, |refs| / 20)
  }

  /**
  Parsing built bytes gives Ready exactly when the index matches and the references number
  less than 2^32; every row then has the kind and the references recorded for its entry.
  Against any other index the sidecar is reported stale.
   */
  lemma {:induction false} SidecarRoundTrip(packKey: string, types: seq<byte>, refs: seq<Option<seq<byte>>>,
                                            sorted: seq<nat>, packBytes: int, packChecksum: seq<byte>,
                                            idxChecksum: seq<byte>, idx: IdxView)
    requires |types| == |refs| && forall i :: 0 <= i < |sorted| ==> sorted[i] < |refs|
    requires |packChecksum| == |idxChecksum| == 20 && |sorted| < UINT32_SPAN
    requires BuildSidecar(types, refs, sorted, packBytes, packChecksum, idxChecksum).Ok?
    ensures var bytes := BuildSidecar(types, refs, sorted, packBytes, packChecksum, idxChecksum).value;
            var rows := Rows(types, refs, sorted).value;
            var r := ParseSidecar(packKey, bytes, idx);
            && (r.Ready? <==> Matching(idx, |sorted|, packBytes, packChecksum, idxChecksum)
                              && CountBefore(rows, |rows|) < UINT32_SPAN)
            && (!Matching(idx, |sorted|, packBytes, packChecksum, idxChecksum) ==> r.Invalid? && r.kind == "stale")
            && (r.Ready? ==> ValidView(r.view) && forall row :: 0 <= row < |sorted| ==>
                  && TypeCodeAt(r.view, row) == Some(types[sorted[row]])
                  && RefsAt(r.view, row) == Recorded(refs[sorted[row]].value))
  {
    var rows := Rows(types, refs, sorted).value;
    var bytes := SidecarBytes(TypeBytes(types, sorted), rows, packBytes, packChecksum, idxChecksum);
    BuiltBytesParse(packKey, TypeBytes(types, sorted), rows, packBytes, packChecksum, idxChecksum, idx);
    var r := ParseSidecar(packKey, bytes, idx);
    if r.Ready? {
      AcceptedViewIsValid(packKey, bytes, idx);
      forall row | 0 <= row < |sorted| ensures RefsAt(r.view, row) == Recorded(refs[sorted[row]].value) {
        RowReadsBack(r.view, rows, row);
      }
    }
  }

  /** The header of a built sidecar lets the parser through exactly when the index matches. */
  lemma {:induction false} HeaderDecides(packKey: string, bytes: seq<byte>, objectCount: nat, packBytes: nat,
                                         packChecksum: seq<byte>, idxChecksum: seq<byte>, idx: IdxView)
    requires |packChecksum| == |idxChecksum| == 20 && objectCount < UINT32_SPAN && packBytes <= MAX_SAFE_INTEGER
    requires |bytes| >= 60 && bytes[..60] == Header(objectCount, packBytes, packChecksum, idxChecksum)
    ensures var r := ParseSidecar(packKey, bytes, idx);
            if Matching(idx, objectCount, packBytes, packChecksum, idxChecksum) then
              r == ParseBody(packKey, bytes, objectCount, packBytes)
            else
              r.Invalid? && r.kind == "stale"
  {
    HeaderReadsBack(bytes, objectCount, packBytes, packChecksum, idxChecksum);
  }

  /** Recorded ids come back as they were. */
  lemma {:induction false} RecordedOids(oids: seq<Oid>)
    ensures Recorded(Flatten(oids)) == oids
  {
    RefExtract.OidsAreAligned(oids);
    forall k | 0 <= k < |oids| ensures NameAt(Flatten(oids), k) == oids[k] {
      SlotOfFlat(oids, k);
    }
    SlotsAre(Flatten(oids), oids, |oids|);
  }

  lemma {:induction false} SlotOfFlat(oids: seq<Oid>, k: nat)
    requires k < |oids| && |Flatten(oids)| == 20 * |oids|
    ensures NameAt(Flatten(oids), k) == oids[k]
  {
    RefExtract.OidsAreAligned(oids[..k]);
    FlattenAround(oids, k);
  }

  lemma {:induction false} SlotsAre(raw: seq<byte>, oids: seq<Oid>, k: nat)
    requires k <= |oids| && |raw| == 20 * |oids|
    requires forall i :: 0 <= i < |oids| ==> NameAt(raw, i) == oids[i]
    ensures Slots(raw, 0, k) == oids[..k]
  {
    if k > 0 {
      SlotsAre(raw, oids, k - 1);
    }
  }

  /**
  End to end: when every entry's references were recorded from its object, a sidecar that
  is accepted answers each row with exactly the references of the object at that row.
   */
  lemma {:induction false} SidecarHoldsReferences(packKey: string, types: seq<byte>,
                                                  kinds: seq<RefExtract.ObjectType>, payloads: seq<seq<byte>>,
                                                  refs: seq<Option<seq<byte>>>, sorted: seq<nat>, packBytes: int,
                                                  packChecksum: seq<byte>, idxChecksum: seq<byte>, idx: IdxView)
    requires |types| == |kinds| == |payloads| == |refs| && forall i :: 0 <= i < |sorted| ==> sorted[i] < |refs|
    requires forall e :: 0 <= e < |refs| ==> refs[e] == Some(Flatten(RefExtract.ObjectOids(kinds[e], payloads[e])))
    requires |packChecksum| == |idxChecksum| == 20 && |sorted| < UINT32_SPAN
    requires BuildSidecar(types, refs, sorted, packBytes, packChecksum, idxChecksum).Ok?
    ensures var sidecar := BuildSidecar(types, refs, sorted, packBytes, packChecksum, idxChecksum).value;
            var r := ParseSidecar(packKey, sidecar, idx);
            r.Ready? ==> ValidView(r.view) && forall row :: 0 <= row < |sorted| ==>
              RefsAt(r.view, row) == RefExtract.ObjectOids(kinds[sorted[row]], payloads[sorted[row]])
  {
    SidecarRoundTrip(packKey, types, refs, sorted, packBytes, packChecksum, idxChecksum, idx);
    forall row | 0 <= row < |sorted|
      ensures Recorded(refs[sorted[row]].value) == RefExtract.ObjectOids(kinds[sorted[row]], payloads[sorted[row]])
    {
      RecordedOids(RefExtract.ObjectOids(kinds[sorted[row]], payloads[sorted[row]]));
    }
  }

  lemma {:induction false} BuiltBytesParse(packKey: string, typeCodes: seq<byte>, rows: seq<seq<byte>>,
                                           packBytes: nat, packChecksum: seq<byte>, idxChecksum: seq<byte>,
                                           idx: IdxView)
    requires |packChecksum| == |idxChecksum| == 20 && |rows| < UINT32_SPAN && packBytes <= MAX_SAFE_INTEGER
    requires |typeCodes| == |rows| && ValidTypeCodes(typeCodes) && RowsAligned(rows)
    ensures var r := ParseSidecar(packKey, SidecarBytes(typeCodes, rows, packBytes, packChecksum, idxChecksum), idx);
            && (!Matching(idx, |rows|, packBytes, packChecksum, idxChecksum) ==> r.Invalid? && r.kind == "stale")
            && (Matching(idx, |rows|, packBytes, packChecksum, idxChecksum) ==>
                  (r.Ready? <==> CountBefore(rows, |rows|) < UINT32_SPAN))
            && (r.Ready? ==>
                  && r.view.objectCount == |rows| && r.view.typeCodes == typeCodes
                  && r.view.refStartsBytes == StartsBytes(RefStarts(rows)) && r.view.rawRefs == Flatten(rows))
  {
    var header := Header(|rows|, packBytes, packChecksum, idxChecksum);
    var table, raw := StartsBytes(RefStarts(rows)), Flatten(rows);
    var bytes := SidecarBytes(typeCodes, rows, packBytes, packChecksum, idxChecksum);
    FourParts(header, typeCodes, table, raw);
    HeaderDecides(packKey, bytes, |rows|, packBytes, packChecksum, idxChecksum, idx);
    ParseOfSections(packKey, bytes, packBytes, typeCodes, table, raw);
    TableFits(rows);
  }

  lemma {:induction false} RowReadsBack(view: PackRefView, rows: seq<seq<byte>>, row: nat)
    requires ValidView(view) && row < |rows| == view.objectCount && RowsAligned(rows)
    requires CountBefore(rows, |rows|) < UINT32_SPAN
    requires view.refStartsBytes == StartsBytes(RefStarts(rows)) && view.rawRefs == Flatten(rows)
    ensures RefsAt(view, row) == Recorded(rows[row])
  {
    StartsAreCounts(rows, row);
    StartsAreCounts(rows, row + 1);
    SlotsOfRow(rows, row);
  }

  lemma {:induction false} SlotsOfRow(rows: seq<seq<byte>>, row: nat)
    requires row < |rows| && RowsAligned(rows)
    ensures var start, end := CountBefore(rows, row), CountBefore(rows, row + 1);
            start <= end && 20 * end <= |Flatten(rows)| && Slots(Flatten(rows), start, end) == Recorded(rows[row])
  {
    RowInPlace(rows, row);
    SlotsOfSlice(Flatten(rows), CountBefore(rows, row), rows[row], |rows[row]| / 20);
  }

  lemma {:induction false} RowInPlace(rows: seq<seq<byte>>, row: nat)
    requires row < |rows| && RowsAligned(rows)
    ensures var at := 20 * CountBefore(rows, row);
            at + |rows[row]| <= |Flatten(rows)| && Flatten(rows)[at..at + |rows[row]|] == rows[row]
  {
    FlattenLength(rows, row);
    FlattenAround(rows, row);
  }

  lemma {:induction false} FlattenAround(rows: seq<seq<byte>>, row: nat)
    requires row < |rows|
    ensures var at := |Flatten(rows[..row])|;
            at + |rows[row]| <= |Flatten(rows)| && Flatten(rows)[at..at + |rows[row]|] == rows[row]
  {
    assert rows == rows[..row] + [rows[row]] + rows[row + 1..];
    FlattenSnoc(rows[..row], rows[row]);
    FlattenAppend(rows[..row] + [rows[row]], rows[row + 1..]);
    MiddleSlice(Flatten(rows[..row]), rows[row], Flatten(rows[row + 1..]));
  }

  lemma {:induction false} SlotsOfSlice(raw: seq<byte>, start: nat, part: seq<byte>, k: nat)
    requires 20 * start + |part| <= |raw| && raw[20 * start..20 * start + |part|] == part && 20 * k <= |part|
    ensures Slots(raw, start, start + k) == Slots(part, 0, k)
    decreases k
  {
    if k > 0 {
      SlotsOfSlice(raw, start, part, k - 1);
      SubSlice(raw, 20 * start, 20 * start + |part|, 20 * (k - 1), 20 * k);
    }
  }
}
