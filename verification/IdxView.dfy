/**
Parsed pack-index views of `src/worker/git/object-store/idxView.ts`: the binary
parser, the two binary searches, and the offset of the next pack entry.
 */
module IdxViews {
  import opened Bytes

  const IDX_TRAILER_BYTES: nat := 40
  const NAMES_START: nat := 8 + 256 * 4

  datatype IdxTables = IdxTables(
    packKey: string,
    count: nat,
    fanout: seq<nat>,
    rawNames: seq<byte>,
    offsets: seq<nat>,
    nextOffsetByIndex: seq<int>,
    sortedOffsets: seq<nat>,
    sortedOffsetIndices: seq<nat>,
    packSize: nat,
    packChecksum: seq<byte>,
    idxChecksum: seq<byte>)

  /** The table sizes of a view. */
  predicate Shaped(v: IdxTables) {
    && |v.fanout| == 256
    && |v.rawNames| == 20 * v.count
    && |v.offsets| == |v.nextOffsetByIndex| == |v.sortedOffsets| == |v.sortedOffsetIndices| == v.count
  }

  /** A view allocates its tables with exactly these sizes. */
  type IdxView = v: IdxTables | Shaped(v)
    witness IdxTables("", 0, seq(256, i => 0), [], [], [], [], [], 20, [], [])

  /** The parser returns a view, returns undefined, or throws. */
  datatype Parsed<+T> = View(value: T) | Undefined | Threw(message: string)

  // ---------- Rows ordered by pack offset ----------

  /** Rows compare by offset; a stable sort of `0, 1, 2, ...` breaks ties by row. */
  predicate Before(offsets: seq<nat>, x: nat, y: nat)
    requires x < |offsets| && y < |offsets|
  {
    offsets[x] < offsets[y] || (offsets[x] == offsets[y] && x < y)
  }

  ghost predicate RowsOf(offsets: seq<nat>, rows: seq<nat>) {
    forall k :: 0 <= k < |rows| ==> rows[k] < |offsets|
  }

  ghost predicate Ordered(offsets: seq<nat>, rows: seq<nat>)
    requires RowsOf(offsets, rows)
  {
    forall j, k :: 0 <= j < k < |rows| ==> Before(offsets, rows[j], rows[k])
  }

  function InsertRow(offsets: seq<nat>, rows: seq<nat>, row: nat): (r: seq<nat>)
    requires RowsOf(offsets, rows) && row < |offsets|
    ensures |r| == |rows| + 1 && RowsOf(offsets, r)
    ensures forall x :: x in r <==> x == row || x in rows
  {
    if rows == [] || Before(offsets, row, rows[0]) then [row] + rows
    else [rows[0]] + InsertRow(offsets, rows[1..], row)
  }

  lemma {:induction false} InsertKeepsOrder(offsets: seq<nat>, rows: seq<nat>, row: nat)
    requires RowsOf(offsets, rows) && Ordered(offsets, rows) && row < |offsets| && row !in rows
    ensures Ordered(offsets, InsertRow(offsets, rows, row))
  {
    if rows != [] && !Before(offsets, row, rows[0]) {
      InsertKeepsOrder(offsets, rows[1..], row);
      var r := InsertRow(offsets, rows[1..], row);
      forall k | 0 <= k < |r| ensures Before(offsets, rows[0], r[k]) {
        assert r[k] in r;
        if r[k] != row {
          assert r[k] in rows[1..];
        }
      }
    }
  }

  /** The rows `0 .. n` in the order `sortedOffsetIndices.sort` leaves them. */
  function SortedRows(offsets: seq<nat>, n: nat): (rows: seq<nat>)
    requires n <= |offsets|
    ensures |rows| == n && RowsOf(offsets, rows)
    ensures forall x :: x in rows <==> 0 <= x < n
  {
    if n == 0 then [] else InsertRow(offsets, SortedRows(offsets, n - 1), n - 1)
  }

  lemma {:induction false} SortedRowsOrdered(offsets: seq<nat>, n: nat)
    requires n <= |offsets|
    ensures Ordered(offsets, SortedRows(offsets, n))
  {
    if n > 0 {
      SortedRowsOrdered(offsets, n - 1);
      InsertKeepsOrder(offsets, SortedRows(offsets, n - 1), n - 1);
    }
  }

  function PositionOf(s: seq<nat>, x: nat): (i: nat)
    requires x in s
    ensures i < |s| && s[i] == x
  {
    if s[0] == x then 0 else 1 + PositionOf(s[1..], x)
  }

  /** What follows position `k` of the offset order: the next offset, or the pack trailer. */
  function NextAt(offsets: seq<nat>, rows: seq<nat>, packSize: int, k: nat): int
    requires k < |rows| && RowsOf(offsets, rows)
  {
    if k + 1 < |rows| then offsets[rows[k + 1]] else packSize - 20
  }

  // ---------- Parsing ----------

  predicate Fits(buf: seq<byte>, count: nat) {
    NAMES_START + count * 28 <= |buf| - IDX_TRAILER_BYTES
  }

  function OffsetAt(buf: seq<byte>, count: nat, row: nat): (r: Parsed<nat>)
    requires Fits(buf, count) && row < count
    ensures r.View? ==> r.value <= MAX_SAFE_INTEGER
  {
    var offsetsStart := NAMES_START + count * 24;
    var u32 := GetUint32(buf, offsetsStart + row * 4);
    if u32 >= 0x8000_0000 then
      var pos := offsetsStart + count * 4 + (u32 - 0x8000_0000) * 8;
      if pos + 8 > |buf| - IDX_TRAILER_BYTES then Undefined
      else
        var value: nat := GetUint32(buf, pos) * UINT32_SPAN + GetUint32(buf, pos + 4);
        if value > MAX_SAFE_INTEGER then Threw("idx: 64-bit offset exceeds safe integer support")
        else View(value)
    else View(u32)
  }

  /** The offset table from row `row` on; the first row that cannot be read decides. */
  function OffsetsFrom(buf: seq<byte>, count: nat, row: nat): (r: Parsed<seq<nat>>)
    requires Fits(buf, count) && row <= count
    ensures r.View? ==> |r.value| == count - row
    ensures r.View? ==> forall k :: row <= k < count ==> OffsetAt(buf, count, k) == View(r.value[k - row])
    decreases count - row
  {
    if row == count then View([])
    else
      match OffsetAt(buf, count, row)
      case Undefined => Undefined
      case Threw(message) => Threw(message)
      case View(first) =>
        match OffsetsFrom(buf, count, row + 1)
        case Undefined => Undefined
        case Threw(message) => Threw(message)
        case View(rest) => View([first] + rest)
  }

  function Fanout(buf: seq<byte>): (fanout: seq<nat>)
    requires |buf| >= NAMES_START
    ensures |fanout| == 256
  {
    seq(256, b requires 0 <= b < 256 => GetUint32(buf, 8 + b * 4))
  }

  function BuildView(packKey: string, buf: seq<byte>, packSize: nat, count: nat, offsets: seq<nat>): IdxView
    requires Fits(buf, count) && |offsets| == count
  {
    var rows := SortedRows(offsets, count);
    IdxTables(
      packKey,
      count,
      Fanout(buf),
      buf[NAMES_START..NAMES_START + count * 20],
      offsets,
      seq(count, row requires 0 <= row < count => NextAt(offsets, rows, packSize, PositionOf(rows, row))),
      seq(count, k requires 0 <= k < count => offsets[rows[k]]),
      rows,
      packSize,
      buf[|buf| - 40..|buf| - 20],
      buf[|buf| - 20..])
  }

  function ParseIdx(packKey: string, buf: seq<byte>, packSize: int): Parsed<IdxView> {
    if !(20 <= packSize <= MAX_SAFE_INTEGER) then Threw("idx: unsupported pack size")
    else if |buf| < NAMES_START + IDX_TRAILER_BYTES then Undefined
    else if buf[..4] != [0xff, 0x74, 0x4f, 0x63] then Undefined
    else if GetUint32(buf, 4) != 2 && GetUint32(buf, 4) != 3 then Undefined
    else
      var count := GetUint32(buf, 8 + 255 * 4);
      if !Fits(buf, count) then Undefined
      else
        match OffsetsFrom(buf, count, 0)
        case Undefined => Undefined
        case Threw(message) => Threw(message)
        case View(offsets) => View(BuildView(packKey, buf, packSize, count, offsets))
  }

  method ParseIdxView(packKey: string, buf: seq<byte>, packSize: int) returns (r: Parsed<IdxView>)
    ensures r == ParseIdx(packKey, buf, packSize)
  {
    if !(20 <= packSize <= MAX_SAFE_INTEGER) {
      return Threw("idx: unsupported pack size");
    }
    if |buf| < NAMES_START + IDX_TRAILER_BYTES {
      return Undefined;
    }
    if !(buf[0] == 0xff && buf[1] == 0x74 && buf[2] == 0x4f && buf[3] == 0x63) {
      return Undefined;
    }
    assert buf[..4] == [0xff, 0x74, 0x4f, 0x63];
    var version := GetUint32(buf, 4);
    if version != 2 && version != 3 {
      return Undefined;
    }

    var fanout := ReadFanout(buf);
    var count := fanout[255];
    var namesEnd := NAMES_START + count * 20;
    var offsetsEnd := namesEnd + count * 4 + count * 4;
    if namesEnd > |buf| || offsetsEnd > |buf| - IDX_TRAILER_BYTES {
      return Undefined;
    }
    var offsets := ReadOffsets(buf, count);
    if !offsets.View? {
      return if offsets.Undefined? then Undefined else Threw(offsets.message);
    }
    var view := AssembleView(packKey, buf, packSize, fanout, offsets.value);
    return View(view);
  }

  method AssembleView(packKey: string, buf: seq<byte>, packSize: nat, fanout: seq<nat>, offsets: seq<nat>)
    returns (view: IdxView)
    requires Fits(buf, |offsets|) && fanout == Fanout(buf)
    ensures view == BuildView(packKey, buf, packSize, |offsets|, offsets)
  {
    var count := |offsets|;
    var sorted, next := LinkOffsets(offsets, packSize);
    view := IdxTables(packKey, count, fanout, buf[NAMES_START..NAMES_START + count * 20], offsets, next, sorted,
                      SortedRows(offsets, count), packSize, buf[|buf| - 40..|buf| - 20], buf[|buf| - 20..]);
  }

  method ReadFanout(buf: seq<byte>) returns (fanout: seq<nat>)
    requires |buf| >= NAMES_START
    ensures fanout == Fanout(buf)
  {
    var table := new nat[256];
    var pos := 8;
    for b := 0 to 256
      invariant pos == 8 + b * 4
      invariant forall j :: 0 <= j < b ==> table[j] == GetUint32(buf, 8 + j * 4)
    {
      table[b] := GetUint32(buf, pos);
      pos := pos + 4;
    }
    fanout := table[..];
  }

  method ReadOffsets(buf: seq<byte>, count: nat) returns (r: Parsed<seq<nat>>)
    requires Fits(buf, count)
    ensures r == OffsetsFrom(buf, count, 0)
  {
    var offsets: seq<nat> := [];
    assert forall rest: seq<nat> :: offsets + rest == rest;
    for row := 0 to count
      invariant |offsets| == row
      invariant OffsetsFrom(buf, count, 0) ==
                match OffsetsFrom(buf, count, row)
                case View(rest) => View(offsets + rest)
                case Undefined => Undefined
                case Threw(message) => Threw(message)
    {
      var offset := OffsetAt(buf, count, row);
      if !offset.View? {
        return if offset.Undefined? then Undefined else Threw(offset.message);
      }
      assert forall rest: seq<nat> :: offsets + ([offset.value] + rest) == offsets + [offset.value] + rest;
      offsets := offsets + [offset.value];
    }
    assert offsets + [] == offsets;
    r := View(offsets);
  }

  /** The two tables derived from the offset order. */
  method LinkOffsets(offsets: seq<nat>, packSize: int) returns (sorted: seq<nat>, next: seq<int>)
    ensures |sorted| == |next| == |offsets|
    ensures var rows := SortedRows(offsets, |offsets|);
            && (forall k :: 0 <= k < |offsets| ==> sorted[k] == offsets[rows[k]])
            && (forall row :: 0 <= row < |offsets| ==>
                  next[row] == NextAt(offsets, rows, packSize, PositionOf(rows, row)))
  {
    var rows := SortedRows(offsets, |offsets|);
    SortedRowsOrdered(offsets, |offsets|);
    sorted, next := LinkRows(offsets, rows, packSize);
    forall row | 0 <= row < |offsets| ensures next[row] == NextAt(offsets, rows, packSize, PositionOf(rows, row)) {
      assert rows[PositionOf(rows, row)] == row;
    }
  }

  method LinkRows(offsets: seq<nat>, rows: seq<nat>, packSize: int) returns (sorted: seq<nat>, next: seq<int>)
    requires |rows| == |offsets| && RowsOf(offsets, rows) && Ordered(offsets, rows)
    ensures |sorted| == |next| == |offsets|
    ensures forall k :: 0 <= k < |rows| ==> sorted[k] == offsets[rows[k]]
    ensures forall k :: 0 <= k < |rows| ==> next[rows[k]] == NextAt(offsets, rows, packSize, k)
  {
    var count := |offsets|;
    var sortedOffsets := new nat[count];
    var nextOffsets := new int[count];
    for k := 0 to count
      invariant forall j :: 0 <= j < k ==> sortedOffsets[j] == offsets[rows[j]]
      invariant forall j :: 0 <= j < k ==> nextOffsets[rows[j]] == NextAt(offsets, rows, packSize, j)
    {
      EarlierRowsDiffer(offsets, rows, k);
      sortedOffsets[k] := offsets[rows[k]];
      nextOffsets[rows[k]] := if k + 1 < count then offsets[rows[k + 1]] else packSize - 20;
    }
    sorted, next := sortedOffsets[..], nextOffsets[..];
  }

  lemma {:induction false} EarlierRowsDiffer(offsets: seq<nat>, rows: seq<nat>, k: nat)
    requires RowsOf(offsets, rows) && Ordered(offsets, rows) && k < |rows|
    ensures forall j :: 0 <= j < k ==> rows[j] != rows[k]
  {
    forall j | 0 <= j < k ensures rows[j] != rows[k] {
      assert Before(offsets, rows[j], rows[k]);
    }
  }

  // ---------- What every parsed view satisfies ----------

  ghost predicate WellFormed(v: IdxView) {
    && 20 <= v.packSize
    && v.sortedOffsetIndices == SortedRows(v.offsets, v.count)
    && (forall k :: 0 <= k < v.count ==> v.sortedOffsets[k] == v.offsets[v.sortedOffsetIndices[k]])
    && (forall row :: 0 <= row < v.count ==>
          v.nextOffsetByIndex[row] ==
          NextAt(v.offsets, v.sortedOffsetIndices, v.packSize, PositionOf(v.sortedOffsetIndices, row)))
  }

  lemma {:induction false} ParsedViewIsWellFormed(packKey: string, buf: seq<byte>, packSize: int)
    requires ParseIdx(packKey, buf, packSize).View?
    ensures var v := ParseIdx(packKey, buf, packSize).value;
            WellFormed(v) && v.packSize == packSize && v.packKey == packKey
  {
  }

  lemma {:induction false} OrderIsByPosition(offsets: seq<nat>, rows: seq<nat>, j: nat, k: nat)
    requires RowsOf(offsets, rows) && Ordered(offsets, rows) && j < |rows| && k < |rows|
    ensures Before(offsets, rows[j], rows[k]) <==> j < k
  {
    assert j > k ==> Before(offsets, rows[k], rows[j]);
  }

  /** The entry after position `k` is at most any entry that sorts later. */
  lemma {:induction false} NextIsAtMost(offsets: seq<nat>, rows: seq<nat>, packSize: int, j: nat, k: nat)
    requires RowsOf(offsets, rows) && Ordered(offsets, rows) && k < j < |rows|
    ensures offsets[rows[k]] <= NextAt(offsets, rows, packSize, k) <= offsets[rows[j]]
  {
    assert Before(offsets, rows[k], rows[k + 1]);
    assert j > k + 1 ==> Before(offsets, rows[k + 1], rows[j]);
  }

  /**
  The entry of a row ends at the least larger offset, or at the pack trailer when
  there is none; only a later row with the very same offset makes its span empty.
   */
  lemma {:induction false} NextOffsetIsLeastLarger(v: IdxView, row: nat)
    requires WellFormed(v) && row < v.count
    ensures (exists r :: row < r < v.count && v.offsets[r] == v.offsets[row]) ==>
              v.nextOffsetByIndex[row] == v.offsets[row]
    ensures (forall r :: row < r < v.count ==> v.offsets[r] != v.offsets[row]) ==>
              if exists r :: 0 <= r < v.count && v.offsets[r] > v.offsets[row]
              then v.nextOffsetByIndex[row] > v.offsets[row]
                   && (exists r :: 0 <= r < v.count && v.nextOffsetByIndex[row] == v.offsets[r])
                   && (forall r :: 0 <= r < v.count && v.offsets[r] > v.offsets[row] ==>
                         v.nextOffsetByIndex[row] <= v.offsets[r])
              else v.nextOffsetByIndex[row] == v.packSize - 20
  {
    var offsets, rows := v.offsets, v.sortedOffsetIndices;
    SortedRowsOrdered(offsets, v.count);
    var k := PositionOf(rows, row);
    var next := NextAt(offsets, rows, v.packSize, k);
    assert next == v.nextOffsetByIndex[row];
    forall r | 0 <= r < v.count && Before(offsets, row, r)
      ensures k + 1 < v.count && offsets[row] <= next <= offsets[r]
    {
      OrderIsByPosition(offsets, rows, k, PositionOf(rows, r));
      NextIsAtMost(offsets, rows, v.packSize, PositionOf(rows, r), k);
    }
    assert forall r :: row < r < v.count && offsets[r] == offsets[row] ==> Before(offsets, row, r);
    assert forall r :: 0 <= r < v.count && offsets[r] > offsets[row] ==> Before(offsets, row, r);
    if k + 1 < v.count {
      OrderIsByPosition(offsets, rows, k, k + 1);
      assert next == offsets[rows[k + 1]] && rows[k + 1] < v.count;
    }
  }

  // ---------- Lookup by offset ----------

  function SearchOffset(v: IdxView, offset: int, lo: nat, hi: int): (r: Option<nat>)
    requires hi < |v.sortedOffsets|
    decreases hi - lo + 1
  {
    if lo > hi then None
    else
      var mid := (lo + hi) / 2;
      if v.sortedOffsets[mid] == offset then Some(v.sortedOffsetIndices[mid])
      else if v.sortedOffsets[mid] < offset then SearchOffset(v, offset, mid + 1, hi)
      else SearchOffset(v, offset, lo, mid - 1)
  }

  function RowAtOffset(v: IdxView, offset: int): Option<nat>
  {
    SearchOffset(v, offset, 0, |v.sortedOffsets| - 1)
  }

  method FindOffsetIndex(v: IdxView, offset: int) returns (r: Option<nat>)
    ensures r == RowAtOffset(v, offset)
  {
    var lo, hi := 0, |v.sortedOffsets| - 1;
    while lo <= hi
      invariant 0 <= lo && hi < |v.sortedOffsets|
      invariant RowAtOffset(v, offset) == SearchOffset(v, offset, lo, hi)
      decreases hi - lo + 1
    {
      var mid := (lo + hi) / 2;
      if v.sortedOffsets[mid] == offset {
        return Some(v.sortedOffsetIndices[mid]);
      }
      if v.sortedOffsets[mid] < offset {
        lo := mid + 1;
      } else {
        hi := mid - 1;
      }
    }
    return None;
  }

  lemma {:induction false} SearchOffsetFinds(v: IdxView, offset: int, lo: nat, hi: int) returns (k: nat)
    requires hi < |v.sortedOffsets| && SearchOffset(v, offset, lo, hi).Some?
    ensures lo <= k <= hi && v.sortedOffsets[k] == offset
    ensures SearchOffset(v, offset, lo, hi) == Some(v.sortedOffsetIndices[k])
    decreases hi - lo + 1
  {
    k := (lo + hi) / 2;
    if v.sortedOffsets[k] < offset {
      k := SearchOffsetFinds(v, offset, k + 1, hi);
    } else if v.sortedOffsets[k] > offset {
      k := SearchOffsetFinds(v, offset, lo, k - 1);
    }
  }

  ghost predicate Ascending(s: seq<nat>) {
    forall j, k :: 0 <= j < k < |s| ==> s[j] <= s[k]
  }

  lemma {:induction false} SearchOffsetMissesNone(v: IdxView, offset: int, lo: nat, hi: int, k: nat)
    requires Ascending(v.sortedOffsets) && lo <= k <= hi < |v.sortedOffsets| && v.sortedOffsets[k] == offset
    ensures SearchOffset(v, offset, lo, hi).Some?
    decreases hi - lo + 1
  {
    var mid := (lo + hi) / 2;
    if v.sortedOffsets[mid] < offset {
      SearchOffsetMissesNone(v, offset, mid + 1, hi, k);
    } else if v.sortedOffsets[mid] > offset {
      SearchOffsetMissesNone(v, offset, lo, mid - 1, k);
    }
  }

  lemma {:induction false} SortedOffsetsAscend(v: IdxView)
    requires WellFormed(v)
    ensures Ascending(v.sortedOffsets)
  {
    SortedRowsOrdered(v.offsets, v.count);
    forall j, k | 0 <= j < k < v.count ensures v.sortedOffsets[j] <= v.sortedOffsets[k] {
      assert Before(v.offsets, v.sortedOffsetIndices[j], v.sortedOffsetIndices[k]);
    }
  }

  /** Offset lookup hits exactly the offsets of the table, and returns a row that has it. */
  lemma {:induction false} FindOffsetIsLinearScan(v: IdxView, offset: int)
    requires WellFormed(v)
    ensures RowAtOffset(v, offset).Some? <==> exists row :: 0 <= row < v.count && v.offsets[row] == offset
    ensures RowAtOffset(v, offset).Some? ==>
              RowAtOffset(v, offset).value < v.count && v.offsets[RowAtOffset(v, offset).value] == offset
  {
    SortedOffsetsAscend(v);
    if RowAtOffset(v, offset).Some? {
      var k := SearchOffsetFinds(v, offset, 0, v.count - 1);
      assert v.sortedOffsetIndices[k] in v.sortedOffsetIndices;
    }
    forall row | 0 <= row < v.count && v.offsets[row] == offset ensures RowAtOffset(v, offset).Some? {
      SearchOffsetMissesNone(v, offset, 0, v.count - 1, PositionOf(v.sortedOffsetIndices, row));
    }
  }

  // ---------- Lookup by object id ----------

  /** How every row of the name table compares with `needle`. */
  function Comparisons(v: IdxView, needle: Oid): (cmps: seq<int>)
    ensures |cmps| == v.count
  {
    seq(v.count, row requires 0 <= row < v.count => Compare(NameAt(v.rawNames, row), needle))
  }

  /**
  Binary search for a row that compares equal. A row past the table reads as NaN,
  which is neither zero nor negative.
   */
  function SearchRow(cmps: seq<int>, left: nat, right: int): (r: int)
    ensures r == -1 || (left <= r <= right && r < |cmps| && cmps[r] == 0)
    decreases right - left + 1
  {
    if left > right then -1
    else
      var mid := (left + right) / 2;
      if mid < |cmps| && cmps[mid] == 0 then mid
      else if mid < |cmps| && cmps[mid] < 0 then SearchRow(cmps, mid + 1, right)
      else SearchRow(cmps, left, mid - 1)
  }

  function FanoutLow(v: IdxView, first: byte): nat
  {
    if first == 0 then 0 else v.fanout[first - 1]
  }

  function OidRow(v: IdxView, needle: Oid): (r: int)
    ensures r == -1 || (0 <= r < v.count && NameAt(v.rawNames, r) == needle)
  {
    var row := SearchRow(Comparisons(v, needle), FanoutLow(v, needle[0]), v.fanout[needle[0]] as int - 1);
    if row != -1 then
      CompareIsOrder(NameAt(v.rawNames, row), needle);
      row
    else -1
  }

  function OidIn(bytes: seq<byte>, start: nat): (o: Oid)
    requires start + 20 <= |bytes|
    ensures forall k :: 0 <= k < 20 ==> o[k] == bytes[start + k]
  {
    bytes[start..start + 20]
  }

  /** Compares a row with twenty bytes of `needle`, byte by byte. */
  method CompareOidAt(v: IdxView, row: nat, needle: seq<byte>, needleStart: nat) returns (cmp: int)
    requires row < v.count && needleStart + 20 <= |needle|
    ensures cmp == Compare(NameAt(v.rawNames, row), OidIn(needle, needleStart))
  {
    var start := row * 20;
    ghost var x, y := NameAt(v.rawNames, row), OidIn(needle, needleStart);
    for i := 0 to 20
      invariant Compare(x, y) == Compare(x[i..], y[i..])
    {
      assert x[i] == v.rawNames[start + i] && y[i] == needle[needleStart + i];
      var diff := v.rawNames[start + i] as int - needle[needleStart + i] as int;
      if diff != 0 {
        return diff;
      }
    }
    return 0;
  }

  method FindOidIndexFromBytes(v: IdxView, needle: seq<byte>, needleStart: int) returns (r: int)
    ensures r == if needleStart < 0 || needleStart + 20 > |needle| then -1
                 else OidRow(v, OidIn(needle, needleStart))
  {
    if needleStart < 0 || needleStart + 20 > |needle| {
      return -1;
    }
    var first := needle[needleStart];
    var lo := if first == 0 then 0 else v.fanout[first - 1];
    var hi := v.fanout[first] as int - 1;
    if hi < lo {
      return -1;
    }
    r := SearchRows(v, needle, needleStart, lo, hi);
  }

  method SearchRows(v: IdxView, needle: seq<byte>, needleStart: nat, lo: nat, hi: int) returns (r: int)
    requires needleStart + 20 <= |needle|
    ensures r == SearchRow(Comparisons(v, OidIn(needle, needleStart)), lo, hi)
  {
    var left, right := lo, hi;
    while left <= right
      invariant 0 <= left
      invariant SearchRow(Comparisons(v, OidIn(needle, needleStart)), lo, hi)
             == SearchRow(Comparisons(v, OidIn(needle, needleStart)), left, right)
      decreases right - left + 1
    {
      var hit;
      hit, left, right := Halve(v, needle, needleStart, left, right);
      if hit {
        return left;
      }
    }
    return -1;
  }

  /** One turn of the search: the row it hits, or the half that is left. */
  method Halve(v: IdxView, needle: seq<byte>, needleStart: nat, lo: nat, hi: int)
    returns (hit: bool, left: nat, right: int)
    requires needleStart + 20 <= |needle| && lo <= hi
    ensures SearchRow(Comparisons(v, OidIn(needle, needleStart)), lo, hi)
         == if hit then left else SearchRow(Comparisons(v, OidIn(needle, needleStart)), left, right)
    ensures lo <= left && right <= hi && (!hit ==> right - left < hi - lo)
  {
    ghost var cmps := Comparisons(v, OidIn(needle, needleStart));
    var mid := (lo + hi) / 2;
    if mid < v.count {
      var cmp := CompareOidAt(v, mid, needle, needleStart);
      assert cmp == cmps[mid];
      if cmp == 0 {
        return true, mid, hi;
      }
      if cmp < 0 {
        return false, mid + 1, hi;
      }
    }
    return false, lo, mid - 1;
  }

  ghost predicate SortedNames(v: IdxView)
  {
    forall j, k :: 0 <= j < k < v.count ==> Compare(NameAt(v.rawNames, j), NameAt(v.rawNames, k)) <= 0
  }

  /** `fanout[b]` is the number of rows whose first byte is at most `b`. */
  ghost predicate ConsistentFanout(v: IdxView)
  {
    forall b: byte :: v.fanout[b] <= v.count &&
                      forall row :: 0 <= row < v.count ==> (row < v.fanout[b] <==> NameAt(v.rawNames, row)[0] <= b)
  }

  lemma {:induction false} SideOfRow(v: IdxView, mid: nat, row: nat)
    requires SortedNames(v) && mid < v.count && row < v.count
    ensures Compare(NameAt(v.rawNames, mid), NameAt(v.rawNames, row)) < 0 ==> mid < row
    ensures Compare(NameAt(v.rawNames, mid), NameAt(v.rawNames, row)) > 0 ==> row < mid
  {
    CompareIsOrder(NameAt(v.rawNames, mid), NameAt(v.rawNames, row));
  }

  lemma {:induction false} SearchRowComplete(cmps: seq<int>, left: nat, right: int, row: nat)
    requires left <= row <= right < |cmps|
    requires forall mid :: 0 <= mid < |cmps| ==> (cmps[mid] < 0 ==> mid < row) && (cmps[mid] > 0 ==> row < mid)
    ensures SearchRow(cmps, left, right) != -1
    decreases right - left + 1
  {
    var mid := (left + right) / 2;
    if cmps[mid] < 0 {
      SearchRowComplete(cmps, mid + 1, right, row);
    } else if cmps[mid] > 0 {
      SearchRowComplete(cmps, left, mid - 1, row);
    }
  }

  /** On sorted names and a consistent fanout, the binary search hits iff a linear scan does. */
  lemma {:induction false} FindOidIsLinearScan(v: IdxView, needle: Oid)
    requires SortedNames(v) && ConsistentFanout(v)
    ensures OidRow(v, needle) != -1 <==> exists row :: 0 <= row < v.count && NameAt(v.rawNames, row) == needle
  {
    forall row | 0 <= row < v.count && NameAt(v.rawNames, row) == needle ensures OidRow(v, needle) != -1 {
      RowIsFound(v, needle, row);
    }
  }

  lemma {:induction false} RowIsFound(v: IdxView, needle: Oid, row: nat)
    requires SortedNames(v) && ConsistentFanout(v) && row < v.count && NameAt(v.rawNames, row) == needle
    ensures OidRow(v, needle) != -1
  {
    BucketHoldsRow(v, row, needle[0]);
    var cmps := Comparisons(v, needle);
    forall mid | 0 <= mid < v.count ensures (cmps[mid] < 0 ==> mid < row) && (cmps[mid] > 0 ==> row < mid) {
      SideOfRow(v, mid, row);
    }
    SearchRowComplete(cmps, FanoutLow(v, needle[0]), v.fanout[needle[0]] as int - 1, row);
  }

  lemma {:induction false} BucketHoldsRow(v: IdxView, row: nat, first: byte)
    requires ConsistentFanout(v) && row < v.count && NameAt(v.rawNames, row)[0] == first
    ensures FanoutLow(v, first) <= row < v.fanout[first] <= v.count
  {
    assert row < v.fanout[first] && v.fanout[first] <= v.count;
    if first > 0 {
      var previous: byte := first - 1;
      assert !(row < v.fanout[previous]);
    }
  }
}
