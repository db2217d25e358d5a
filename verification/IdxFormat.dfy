/**
The pack index of `src/worker/git/pack/indexer/writeIdx.ts`, laid out as gitformat-pack(5),
"Version 2 pack-*.idx files", has it, and what the parser makes of it.
 */
module IdxFormat {
  import opened Bytes
  import opened IdxViews
  import opened Candidates

  /** One object of a pack: its name, the CRC-32 of its entry, and where that entry starts. */
  datatype IdxRow = IdxRow(name: Oid, crc: nat, offset: nat)

  // ---------- Tables of cells of one width ----------

  predicate Wide(cells: seq<seq<byte>>, w: nat) {
    cells == [] || (|cells[0]| == w && Wide(cells[1..], w))
  }

  lemma {:induction false} TableLength(cells: seq<seq<byte>>, w: nat)
    requires Wide(cells, w)
    ensures |Flatten(cells)| == w * |cells|
  {
    if cells != [] {
      TableLength(cells[1..], w);
      MoreCells(w, |cells| - 1);
    }
  }

  lemma {:induction false} MoreCells(w: nat, n: nat)
    ensures w * (n + 1) == w + w * n && w * n >= 0
  {
  }

  lemma {:induction false} FewerCells(w: nat, k: nat, n: nat)
    requires k < n
    ensures 0 <= w * k <= w * k + w <= w * n
  {
    Distribute(w, k, n - k - 1);
  }

  lemma {:induction false} Distribute(w: nat, k: nat, m: nat)
    ensures w * (k + 1 + m) == w * k + w + w * m && w * m >= 0 && w * k >= 0
  {
  }

  /** Cell `k` stands at `w * k`. */
  lemma {:induction false} CellInTable(cells: seq<seq<byte>>, w: nat, k: nat)
    requires Wide(cells, w) && k < |cells|
    ensures 0 <= w * k <= w * k + w <= |Flatten(cells)|
    ensures Flatten(cells)[w * k..w * k + w] == cells[k]
  {
    TableLength(cells, w);
    FewerCells(w, k, |cells|);
    if k == 0 {
      AppendParts(cells[0], Flatten(cells[1..]));
      assert w * 0 == 0;
    } else {
      CellInTable(cells[1..], w, k - 1);
      MoreCells(w, k - 1);
      PastFirst(cells[0], Flatten(cells[1..]), w * (k - 1), w);
    }
  }

  lemma {:induction false} PastFirst(first: seq<byte>, rest: seq<byte>, i: nat, w: nat)
    requires i + w <= |rest|
    ensures (first + rest)[|first| + i..|first| + i + w] == rest[i..i + w]
  {
  }

  /** A cell of a table that stands in a file. */
  lemma {:induction false} CellInFile(buf: seq<byte>, start: nat, cells: seq<seq<byte>>, w: nat, k: nat)
    requires Wide(cells, w) && k < |cells| && start + |Flatten(cells)| <= |buf|
    requires buf[start..start + |Flatten(cells)|] == Flatten(cells)
    ensures 0 <= w * k <= w * k + w <= |Flatten(cells)|
    ensures buf[start + w * k..start + w * k + w] == cells[k]
  {
    CellInTable(cells, w, k);
    SubSlice(buf, start, start + |Flatten(cells)|, w * k, w * k + w);
  }

  // ---------- The layout ----------

  /** How many rows have a first byte of at most `b`. */
  function CountUpTo(rows: seq<IdxRow>, b: nat): (n: nat)
    ensures n <= |rows|
  {
    if rows == [] then 0 else (if rows[0].name[0] <= b then 1 else 0) + CountUpTo(rows[1..], b)
  }

  function FanoutCells(rows: seq<IdxRow>): (cells: seq<seq<byte>>)
    ensures |cells| == 256
  {
    seq(256, b requires 0 <= b < 256 => PutUint32(CountUpTo(rows, b)))
  }

  function NameCells(rows: seq<IdxRow>): (cells: seq<seq<byte>>)
    ensures |cells| == |rows|
  {
    if rows == [] then [] else [rows[0].name] + NameCells(rows[1..])
  }

  function CrcCells(rows: seq<IdxRow>): (cells: seq<seq<byte>>)
    ensures |cells| == |rows|
  {
    if rows == [] then [] else [PutUint32(rows[0].crc)] + CrcCells(rows[1..])
  }

  predicate IsLarge(row: IdxRow) {
    row.offset >= 0x8000_0000
  }

  function LargeCount(rows: seq<IdxRow>): (n: nat)
    ensures n <= |rows|
  {
    if rows == [] then 0 else (if IsLarge(rows[0]) then 1 else 0) + LargeCount(rows[1..])
  }

  /** Offsets below 2^31, or the high bit and the number of a 64-bit offset; `large` of those came before. */
  function OffsetCells(rows: seq<IdxRow>, large: nat): (cells: seq<seq<byte>>)
    ensures |cells| == |rows|
  {
    if rows == [] then []
    else if IsLarge(rows[0]) then [PutUint32(0x8000_0000 + large)] + OffsetCells(rows[1..], large + 1)
    else [PutUint32(rows[0].offset)] + OffsetCells(rows[1..], large)
  }

  function LargeCells(rows: seq<IdxRow>): (cells: seq<seq<byte>>)
    ensures |cells| == LargeCount(rows)
  {
    if rows == [] then []
    else if IsLarge(rows[0]) then
      [PutUint32(rows[0].offset / 0x1_0000_0000) + PutUint32(rows[0].offset % 0x1_0000_0000)] + LargeCells(rows[1..])
    else LargeCells(rows[1..])
  }

  const IDX_HEADER: seq<byte> := [0xff, 0x74, 0x4f, 0x63, 0, 0, 0, 2]

  /** The index of a pack, rows in the order given. */
  function WriteIdx(rows: seq<IdxRow>, packChecksum: seq<byte>, idxChecksum: seq<byte>): seq<byte> {
    IDX_HEADER + Flatten(FanoutCells(rows)) + Flatten(NameCells(rows)) + Flatten(CrcCells(rows))
    + Flatten(OffsetCells(rows, 0)) + Flatten(LargeCells(rows)) + packChecksum + idxChecksum
  }

  // ---------- Where each table stands ----------

  predicate StandsIn(buf: seq<byte>, start: nat, part: seq<byte>) {
    start + |part| <= |buf| && buf[start..start + |part|] == part
  }

  lemma {:induction false} Appended(x: seq<byte>, part: seq<byte>)
    ensures StandsIn(x + part, |x|, part)
  {
  }

  lemma {:induction false} StillStands(x: seq<byte>, y: seq<byte>, start: nat, part: seq<byte>)
    requires StandsIn(x, start, part)
    ensures StandsIn(x + y, start, part)
  {
  }

  lemma {:induction false} AllWide(cells: seq<seq<byte>>, w: nat)
    requires forall i :: 0 <= i < |cells| ==> |cells[i]| == w
    ensures Wide(cells, w)
  {
    if cells != [] {
      AllWide(cells[1..], w);
    }
  }

  lemma {:induction false} FanoutIsWide(rows: seq<IdxRow>)
    ensures Wide(FanoutCells(rows), 4)
  {
    AllWide(FanoutCells(rows), 4);
  }

  lemma {:induction false} CellsAreWide(rows: seq<IdxRow>, large: nat)
    ensures Wide(NameCells(rows), 20) && Wide(CrcCells(rows), 4)
    ensures Wide(OffsetCells(rows, large), 4) && Wide(LargeCells(rows), 8)
  {
    if rows != [] {
      CellsAreWide(rows[1..], large);
      CellsAreWide(rows[1..], large + 1);
    }
  }

  lemma {:induction false} TableLengths(rows: seq<IdxRow>)
    ensures |Flatten(FanoutCells(rows))| == 1024 && |Flatten(NameCells(rows))| == 20 * |rows|
    ensures |Flatten(CrcCells(rows))| == 4 * |rows| && |Flatten(OffsetCells(rows, 0))| == 4 * |rows|
    ensures |Flatten(LargeCells(rows))| == 8 * LargeCount(rows)
  {
    CellsAreWide(rows, 0);
    FanoutIsWide(rows);
    TableLength(FanoutCells(rows), 4);
    TableLength(NameCells(rows), 20);
    TableLength(CrcCells(rows), 4);
    TableLength(OffsetCells(rows, 0), 4);
    TableLength(LargeCells(rows), 8);
  }

  /** Eight parts in a row, each where the ones before it end. */
  lemma {:induction false} Parts(a: seq<byte>, b: seq<byte>, c: seq<byte>, d: seq<byte>, e: seq<byte>, f: seq<byte>,
                                 g: seq<byte>, h: seq<byte>, atC: nat, atE: nat, atF: nat, atG: nat)
    requires atC == |a| + |b| && atE == atC + |c| + |d| && atF == atE + |e| && atG == atF + |f|
    ensures var s := a + b + c + d + e + f + g + h;
            && StandsIn(s, 0, a) && StandsIn(s, |a|, b) && StandsIn(s, atC, c)
            && StandsIn(s, atE, e) && StandsIn(s, atF, f) && StandsIn(s, atG, g) && StandsIn(s, atG + |g|, h)
            && |s| == atG + |g| + |h|
  {
    var head := a + b + c;
    FrontParts(a, b, c);
    var tail := d + (e + f + (g + h));
    MiddleParts(head, d, e, f, g + h);
    EndParts(a + b + c + d + e + f, g, h);
    OneTail(head, d, e, f, g, h);
    StillStands(head, tail, 0, a);
    StillStands(head, tail, |a|, b);
    StillStands(head, tail, |a| + |b|, c);
  }

  lemma {:induction false} OneTail(head: seq<byte>, d: seq<byte>, e: seq<byte>, f: seq<byte>, g: seq<byte>,
                                   h: seq<byte>)
    ensures head + d + e + f + g + h == head + (d + (e + f + (g + h)))
  {
    AppendAssociates(head + d + e + f, g, h);
    AppendAssociates(head + d, e, f);
    AppendAssociates(head + d, e + f, g + h);
    AppendAssociates(head, d, e + f + (g + h));
  }

  lemma {:induction false} FrontParts(a: seq<byte>, b: seq<byte>, c: seq<byte>)
    ensures var s := a + b + c; StandsIn(s, 0, a) && StandsIn(s, |a|, b) && StandsIn(s, |a| + |b|, c)
  {
  }

  lemma {:induction false} MiddleParts(head: seq<byte>, d: seq<byte>, e: seq<byte>, f: seq<byte>, tail: seq<byte>)
    ensures var s := head + (d + (e + f + tail));
            StandsIn(s, |head| + |d|, e) && StandsIn(s, |head| + |d| + |e|, f)
  {
  }

  lemma {:induction false} EndParts(head: seq<byte>, g: seq<byte>, h: seq<byte>)
    ensures var s := head + g + h; StandsIn(s, |head|, g) && StandsIn(s, |head| + |g|, h)
  {
  }

  // ---------- What the cells say ----------

  lemma {:induction false} NameCell(rows: seq<IdxRow>, k: nat)
    requires k < |rows|
    ensures NameCells(rows)[k] == rows[k].name
  {
    if k > 0 {
      NameCell(rows[1..], k - 1);
    }
  }

  lemma {:induction false} OffsetCell(rows: seq<IdxRow>, large: nat, k: nat)
    requires k < |rows|
    ensures OffsetCells(rows, large)[k]
         == PutUint32(if IsLarge(rows[k]) then 0x8000_0000 + large + LargeCount(rows[..k]) else rows[k].offset)
  {
    if k > 0 {
      assert rows[..k][1..] == rows[1..][..k - 1];
      OffsetCell(rows[1..], if IsLarge(rows[0]) then large + 1 else large, k - 1);
    }
  }

  lemma {:induction false} LargeCell(rows: seq<IdxRow>, k: nat)
    requires k < |rows| && IsLarge(rows[k])
    ensures LargeCount(rows[..k]) < LargeCount(rows)
    ensures LargeCells(rows)[LargeCount(rows[..k])]
         == PutUint32(rows[k].offset / 0x1_0000_0000) + PutUint32(rows[k].offset % 0x1_0000_0000)
  {
    if k > 0 {
      assert rows[..k][1..] == rows[1..][..k - 1];
      LargeCell(rows[1..], k - 1);
    }
  }

  lemma {:induction false} AllUpToLast(rows: seq<IdxRow>)
    ensures CountUpTo(rows, 255) == |rows|
  {
    if rows != [] {
      AllUpToLast(rows[1..]);
    }
  }

  // ---------- The parser reads it back ----------

  /** What the layout has room for. */
  ghost predicate Fit(rows: seq<IdxRow>) {
    && |rows| < 0x1_0000_0000 && LargeCount(rows) < 0x8000_0000
    && forall k :: 0 <= k < |rows| ==> rows[k].offset < 0x1_0000_0000_0000_0000
  }

  /** A file with the tables of an index, each where it belongs. */
  ghost predicate Laid(buf: seq<byte>, rows: seq<IdxRow>, packChecksum: seq<byte>, idxChecksum: seq<byte>) {
    && |buf| == 1072 + 28 * |rows| + 8 * LargeCount(rows)
    && StandsIn(buf, 0, IDX_HEADER)
    && StandsIn(buf, 8, Flatten(FanoutCells(rows)))
    && StandsIn(buf, 1032, Flatten(NameCells(rows)))
    && StandsIn(buf, 1032 + 24 * |rows|, Flatten(OffsetCells(rows, 0)))
    && StandsIn(buf, 1032 + 28 * |rows|, Flatten(LargeCells(rows)))
    && StandsIn(buf, |buf| - 40, packChecksum)
    && StandsIn(buf, |buf| - 20, idxChecksum)
  }

  lemma {:induction false} WrittenIsLaid(rows: seq<IdxRow>, packChecksum: seq<byte>, idxChecksum: seq<byte>)
    requires |packChecksum| == |idxChecksum| == 20
    ensures Laid(WriteIdx(rows, packChecksum, idxChecksum), rows, packChecksum, idxChecksum)
  {
    TableLengths(rows);
    PartsAreLaid(Flatten(FanoutCells(rows)), Flatten(NameCells(rows)), Flatten(CrcCells(rows)),
                 Flatten(OffsetCells(rows, 0)), Flatten(LargeCells(rows)), packChecksum, idxChecksum, |rows|,
                 LargeCount(rows));
  }

  lemma {:induction false} PartsAreLaid(fanout: seq<byte>, names: seq<byte>, crcs: seq<byte>, offsets: seq<byte>,
                                        large: seq<byte>, packChecksum: seq<byte>, idxChecksum: seq<byte>, n: nat,
                                        l: nat)
    requires |fanout| == 1024 && |names| == 20 * n && |crcs| == |offsets| == 4 * n && |large| == 8 * l
    requires |packChecksum| == |idxChecksum| == 20
    ensures var buf := IDX_HEADER + fanout + names + crcs + offsets + large + packChecksum + idxChecksum;
            && |buf| == 1072 + 28 * n + 8 * l
            && StandsIn(buf, 0, IDX_HEADER) && StandsIn(buf, 8, fanout) && StandsIn(buf, 1032, names)
            && StandsIn(buf, 1032 + 24 * n, offsets) && StandsIn(buf, 1032 + 28 * n, large)
            && StandsIn(buf, |buf| - 40, packChecksum) && StandsIn(buf, |buf| - 20, idxChecksum)
  {
    Parts(IDX_HEADER, fanout, names, crcs, offsets, large, packChecksum, idxChecksum,
          1032, 1032 + 24 * n, 1032 + 28 * n, 1032 + 28 * n + 8 * l);
  }

  lemma {:induction false} WordIsRead(buf: seq<byte>, start: nat, cells: seq<seq<byte>>, k: nat, n: nat)
    requires Wide(cells, 4) && k < |cells| && StandsIn(buf, start, Flatten(cells))
    requires cells[k] == PutUint32(n) && n < UINT32_SPAN
    ensures start + 4 * k + 4 <= start + |Flatten(cells)| && GetUint32(buf, start + 4 * k) == n
  {
    CellInFile(buf, start, cells, 4, k);
    WordReads(buf, start + 4 * k, n);
  }

  lemma {:induction false} WordReads(buf: seq<byte>, pos: nat, n: nat)
    requires pos + 4 <= |buf| && buf[pos..pos + 4] == PutUint32(n) && n < UINT32_SPAN
    ensures GetUint32(buf, pos) == n
  {
    ReadsBack(buf, pos, n);
  }

  lemma {:induction false} FanoutIsRead(buf: seq<byte>, rows: seq<IdxRow>, packChecksum: seq<byte>,
                                        idxChecksum: seq<byte>, b: nat)
    requires Laid(buf, rows, packChecksum, idxChecksum) && Fit(rows) && b < 256
    ensures GetUint32(buf, 8 + b * 4) == CountUpTo(rows, b)
  {
    FanoutIsWide(rows);
    WordIsRead(buf, 8, FanoutCells(rows), b, CountUpTo(rows, b));
  }

  /** What a 64-bit offset of this size reads as. */
  function OffsetRead(offset: nat): Parsed<nat> {
    if offset > 0x1F_FFFF_FFFF_FFFF then Threw("idx: 64-bit offset exceeds safe integer support") else View(offset)
  }

  lemma {:induction false} LargeIsRead(buf: seq<byte>, start: nat, cells: seq<seq<byte>>, m: nat, offset: nat)
    requires Wide(cells, 8) && m < |cells| && StandsIn(buf, start, Flatten(cells))
    requires cells[m] == PutUint32(offset / 0x1_0000_0000) + PutUint32(offset % 0x1_0000_0000)
    requires offset < 0x1_0000_0000_0000_0000
    ensures start + 8 * m + 8 <= start + 8 * |cells| <= |buf|
    ensures GetUint32(buf, start + 8 * m) * UINT32_SPAN + GetUint32(buf, start + 8 * m + 4) == offset
  {
    TableLength(cells, 8);
    CellInFile(buf, start, cells, 8, m);
    HalvesRead(buf, start + 8 * m, offset / 0x1_0000_0000, offset % 0x1_0000_0000);
  }

  lemma {:induction false} HalvesRead(buf: seq<byte>, pos: nat, high: nat, low: nat)
    requires pos + 8 <= |buf| && buf[pos..pos + 8] == PutUint32(high) + PutUint32(low)
    requires high < UINT32_SPAN && low < UINT32_SPAN
    ensures GetUint32(buf, pos) == high && GetUint32(buf, pos + 4) == low
  {
    TwoWords(buf, pos, PutUint32(high), PutUint32(low));
    WordReads(buf, pos, high);
    WordReads(buf, pos + 4, low);
  }

  lemma {:induction false} TwoWords(buf: seq<byte>, pos: nat, x: seq<byte>, y: seq<byte>)
    requires pos + 8 <= |buf| && |x| == |y| == 4 && buf[pos..pos + 8] == x + y
    ensures buf[pos..pos + 4] == x && buf[pos + 4..pos + 4 + 4] == y
  {
    AppendParts(x, y);
    SubSlice(buf, pos, pos + 8, 0, 4);
    SubSlice(buf, pos, pos + 8, 4, 8);
  }

  lemma {:induction false} SmallOffset(buf: seq<byte>, n: nat, cells: seq<seq<byte>>, k: nat, offset: nat)
    requires Fits(buf, n) && Wide(cells, 4) && k < n == |cells| && StandsIn(buf, 1032 + 24 * n, Flatten(cells))
    requires cells[k] == PutUint32(offset) && offset < 0x8000_0000
    ensures OffsetAt(buf, n, k) == View(offset)
  {
    WordIsRead(buf, 1032 + 24 * n, cells, k, offset);
    SmallWord(buf, n, k, offset);
  }

  lemma {:induction false} SmallWord(buf: seq<byte>, n: nat, k: nat, offset: nat)
    requires Fits(buf, n) && k < n && GetUint32(buf, 1032 + 24 * n + 4 * k) == offset < 0x8000_0000
    ensures OffsetAt(buf, n, k) == View(offset)
  {
  }

  lemma {:induction false} LargeOffset(buf: seq<byte>, n: nat, cells: seq<seq<byte>>, k: nat, large: seq<seq<byte>>,
                                       m: nat, offset: nat)
    requires Fits(buf, n) && Wide(cells, 4) && k < n == |cells| && StandsIn(buf, 1032 + 24 * n, Flatten(cells))
    requires cells[k] == PutUint32(0x8000_0000 + m) && m < 0x8000_0000
    requires Wide(large, 8) && m < |large| && StandsIn(buf, 1032 + 28 * n, Flatten(large))
    requires |buf| == 1072 + 28 * n + 8 * |large|
    requires large[m] == PutUint32(offset / 0x1_0000_0000) + PutUint32(offset % 0x1_0000_0000)
    requires offset < 0x1_0000_0000_0000_0000
    ensures OffsetAt(buf, n, k) == OffsetRead(offset)
  {
    WordIsRead(buf, 1032 + 24 * n, cells, k, 0x8000_0000 + m);
    LargeIsRead(buf, 1032 + 28 * n, large, m, offset);
    LargeWord(buf, n, k, m, offset, 1032 + 24 * n + 4 * k, 1032 + 28 * n + 8 * m);
  }

  lemma {:induction false} LargeWord(buf: seq<byte>, n: nat, k: nat, m: nat, offset: nat, word: nat, pos: nat)
    requires Fits(buf, n) && k < n && word == 1032 + 24 * n + 4 * k
    requires pos == 1032 + 28 * n + 8 * m && pos + 8 <= |buf| - 40
    requires GetUint32(buf, word) == 0x8000_0000 + m
    requires GetUint32(buf, pos) * UINT32_SPAN + GetUint32(buf, pos + 4) == offset
    ensures OffsetAt(buf, n, k) == OffsetRead(offset)
  {
  }

  /** Both offset tables, in a file with room for them and the checksums. */
  ghost predicate OffsetsStand(buf: seq<byte>, n: nat, cells: seq<seq<byte>>, large: seq<seq<byte>>) {
    && Fits(buf, n) && |buf| == 1072 + 28 * n + 8 * |large|
    && Wide(cells, 4) && |cells| == n && StandsIn(buf, 1032 + 24 * n, Flatten(cells))
    && Wide(large, 8) && StandsIn(buf, 1032 + 28 * n, Flatten(large))
  }

  lemma {:induction false} OffsetIsRead(buf: seq<byte>, rows: seq<IdxRow>, k: nat)
    requires OffsetsStand(buf, |rows|, OffsetCells(rows, 0), LargeCells(rows)) && Fit(rows) && k < |rows|
    ensures OffsetAt(buf, |rows|, k) == OffsetRead(rows[k].offset)
  {
    OffsetCell(rows, 0, k);
    if IsLarge(rows[k]) {
      LargeCell(rows, k);
      LargeOffset(buf, |rows|, OffsetCells(rows, 0), k, LargeCells(rows), LargeCount(rows[..k]), rows[k].offset);
    } else {
      SmallOffset(buf, |rows|, OffsetCells(rows, 0), k, rows[k].offset);
    }
  }

  lemma {:induction false} LaidOffsets(buf: seq<byte>, rows: seq<IdxRow>, packChecksum: seq<byte>,
                                       idxChecksum: seq<byte>)
    requires Laid(buf, rows, packChecksum, idxChecksum) && Fit(rows)
    ensures OffsetsStand(buf, |rows|, OffsetCells(rows, 0), LargeCells(rows))
  {
    CellsAreWide(rows, 0);
  }

  predicate AllSafe(rows: seq<IdxRow>) {
    forall k :: 0 <= k < |rows| ==> rows[k].offset <= 0x1F_FFFF_FFFF_FFFF
  }

  lemma {:induction false} OffsetsAreRead(buf: seq<byte>, rows: seq<IdxRow>, k: nat)
    requires Fits(buf, |rows|) && k <= |rows|
    requires forall i :: 0 <= i < |rows| ==> OffsetAt(buf, |rows|, i) == OffsetRead(rows[i].offset)
    ensures var r := OffsetsFrom(buf, |rows|, k);
            if AllSafe(rows[k..]) then
              r.View? && forall i :: k <= i < |rows| ==> r.value[i - k] == rows[i].offset
            else r == Threw("idx: 64-bit offset exceeds safe integer support")
    decreases |rows| - k
  {
    if k < |rows| {
      OffsetsAreRead(buf, rows, k + 1);
      SafeFrom(rows, k);
    }
  }

  lemma {:induction false} SafeFrom(rows: seq<IdxRow>, k: nat)
    requires k < |rows|
    ensures AllSafe(rows[k..]) <==> rows[k].offset <= 0x1F_FFFF_FFFF_FFFF && AllSafe(rows[k + 1..])
  {
    assert rows[k..] == [rows[k]] + rows[k + 1..];
  }

  /** The view holds exactly what was written. */
  ghost predicate Shows(v: IdxView, rows: seq<IdxRow>, packChecksum: seq<byte>, idxChecksum: seq<byte>) {
    && v.count == |rows|
    && (forall k :: 0 <= k < |rows| ==> NameAt(v.rawNames, k) == rows[k].name)
    && (forall k :: 0 <= k < |rows| ==> v.offsets[k] == rows[k].offset)
    && (forall b :: 0 <= b < 256 ==> v.fanout[b] == CountUpTo(rows, b))
    && v.packChecksum == packChecksum && v.idxChecksum == idxChecksum
  }

  lemma {:induction false} TablesAreShown(packKey: string, buf: seq<byte>, rows: seq<IdxRow>, packChecksum: seq<byte>,
                                          idxChecksum: seq<byte>, packSize: nat, offsets: seq<nat>)
    requires Laid(buf, rows, packChecksum, idxChecksum) && Fit(rows) && Fits(buf, |rows|)
    requires |packChecksum| == |idxChecksum| == 20
    requires |offsets| == |rows| && forall k :: 0 <= k < |rows| ==> offsets[k] == rows[k].offset
    ensures Shows(BuildView(packKey, buf, packSize, |rows|, offsets), rows, packChecksum, idxChecksum)
  {
    ViewTables(packKey, buf, packSize, |rows|, offsets);
    TableLengths(rows);
    NamesAreShown(buf, rows);
    FanoutIsShown(buf, rows, packChecksum, idxChecksum);
  }

  lemma {:induction false} ViewTables(packKey: string, buf: seq<byte>, packSize: nat, n: nat, offsets: seq<nat>)
    requires Fits(buf, n) && |offsets| == n
    ensures var v := BuildView(packKey, buf, packSize, n, offsets);
            && v.count == n && v.fanout == Fanout(buf) && v.rawNames == buf[1032..1032 + 20 * n]
            && v.offsets == offsets && v.packChecksum == buf[|buf| - 40..|buf| - 20]
            && v.idxChecksum == buf[|buf| - 20..]
  {
  }

  lemma {:induction false} NamesAreShown(buf: seq<byte>, rows: seq<IdxRow>)
    requires StandsIn(buf, 1032, Flatten(NameCells(rows))) && |Flatten(NameCells(rows))| == 20 * |rows|
    ensures var names := buf[1032..1032 + 20 * |rows|];
            |names| == 20 * |rows| && forall k :: 0 <= k < |rows| ==> NameAt(names, k) == rows[k].name
  {
    CellsAreWide(rows, 0);
    forall k | 0 <= k < |rows| ensures NameAt(Flatten(NameCells(rows)), k) == rows[k].name {
      CellInTable(NameCells(rows), 20, k);
      NameCell(rows, k);
    }
  }

  lemma {:induction false} FanoutIsShown(buf: seq<byte>, rows: seq<IdxRow>, packChecksum: seq<byte>,
                                         idxChecksum: seq<byte>)
    requires Laid(buf, rows, packChecksum, idxChecksum) && Fit(rows)
    ensures forall b :: 0 <= b < 256 ==> Fanout(buf)[b] == CountUpTo(rows, b)
  {
    forall b | 0 <= b < 256 ensures Fanout(buf)[b] == CountUpTo(rows, b) {
      FanoutIsRead(buf, rows, packChecksum, idxChecksum, b);
    }
  }

  /**
  A written index is parsed to exactly its names, offsets, fanout and checksums, in the
  order of its rows, when its offsets are safe integers, and refused with an error otherwise.
   */
  lemma {:induction false} IndexRoundTrip(packKey: string, rows: seq<IdxRow>, packChecksum: seq<byte>,
                                          idxChecksum: seq<byte>, packSize: nat)
    requires Fit(rows) && |packChecksum| == |idxChecksum| == 20 && 20 <= packSize <= MAX_SAFE_INTEGER
    ensures var r := ParseIdx(packKey, WriteIdx(rows, packChecksum, idxChecksum), packSize);
            if AllSafe(rows) then r.View? && Shows(r.value, rows, packChecksum, idxChecksum)
            else r == Threw("idx: 64-bit offset exceeds safe integer support")
  {
    var buf := WriteIdx(rows, packChecksum, idxChecksum);
    WrittenIsLaid(rows, packChecksum, idxChecksum);
    LaidIsParsed(packKey, buf, rows, packChecksum, idxChecksum, packSize);
  }

  lemma {:induction false} LaidIsParsed(packKey: string, buf: seq<byte>, rows: seq<IdxRow>, packChecksum: seq<byte>,
                                        idxChecksum: seq<byte>, packSize: nat)
    requires Laid(buf, rows, packChecksum, idxChecksum) && Fit(rows)
    requires |packChecksum| == |idxChecksum| == 20 && 20 <= packSize <= MAX_SAFE_INTEGER
    ensures var r := ParseIdx(packKey, buf, packSize);
            if AllSafe(rows) then r.View? && Shows(r.value, rows, packChecksum, idxChecksum)
            else r == Threw("idx: 64-bit offset exceeds safe integer support")
  {
    HeaderIsRead(buf, rows, packChecksum, idxChecksum);
    LaidOffsets(buf, rows, packChecksum, idxChecksum);
    forall k | 0 <= k < |rows| ensures OffsetAt(buf, |rows|, k) == OffsetRead(rows[k].offset) {
      OffsetIsRead(buf, rows, k);
    }
    OffsetsAreRead(buf, rows, 0);
    assert rows[0..] == rows;
    var offsets := OffsetsFrom(buf, |rows|, 0);
    if AllSafe(rows) {
      TablesAreShown(packKey, buf, rows, packChecksum, idxChecksum, packSize, offsets.value);
    }
  }

  lemma {:induction false} HeaderIsRead(buf: seq<byte>, rows: seq<IdxRow>, packChecksum: seq<byte>,
                                        idxChecksum: seq<byte>)
    requires Laid(buf, rows, packChecksum, idxChecksum) && Fit(rows)
    ensures Fits(buf, |rows|) && buf[..4] == [0xff, 0x74, 0x4f, 0x63] && GetUint32(buf, 4) == 2
    ensures GetUint32(buf, 8 + 255 * 4) == |rows|
  {
    FirstWords(buf);
    AllUpToLast(rows);
    FanoutIsRead(buf, rows, packChecksum, idxChecksum, 255);
  }

  lemma {:induction false} FirstWords(buf: seq<byte>)
    requires StandsIn(buf, 0, IDX_HEADER)
    ensures buf[..4] == [0xff, 0x74, 0x4f, 0x63] && GetUint32(buf, 4) == 2
  {
    var header := buf[0..8];
    assert buf[4] == header[4] && buf[5] == header[5] && buf[6] == header[6] && buf[7] == header[7];
  }

  // ---------- A written index can be searched ----------

  /** Names in ascending order; equal ones next to each other. */
  predicate Ascending(rows: seq<IdxRow>) {
    forall j, k :: 0 <= j < k < |rows| ==> Compare(rows[j].name, rows[k].name) <= 0
  }

  lemma {:induction false} CountIsPrefix(rows: seq<IdxRow>, b: nat, k: nat)
    requires Ascending(rows) && k < |rows|
    ensures k < CountUpTo(rows, b) <==> rows[k].name[0] <= b
  {
    var rest := rows[1..];
    assert forall j :: 0 <= j < |rest| ==> rest[j] == rows[j + 1];
    if rows[0].name[0] > b {
      NoneUpTo(rows, b);
      assert k > 0 ==> Compare(rows[0].name, rows[k].name) <= 0;
    } else if k > 0 {
      CountIsPrefix(rest, b, k - 1);
    }
  }

  lemma {:induction false} NoneUpTo(rows: seq<IdxRow>, b: nat)
    requires Ascending(rows) && (rows != [] ==> rows[0].name[0] > b)
    ensures CountUpTo(rows, b) == 0
  {
    if |rows| > 1 {
      assert Compare(rows[0].name, rows[1].name) <= 0;
      assert forall j :: 0 <= j < |rows[1..]| ==> rows[1..][j] == rows[j + 1];
      NoneUpTo(rows[1..], b);
    }
  }

  /** Rows written in ascending order give an index in which every name and offset is found. */
  lemma {:induction false} WrittenIndexIsSearchable(v: IdxView, rows: seq<IdxRow>, packChecksum: seq<byte>,
                                                    idxChecksum: seq<byte>)
    requires Shows(v, rows, packChecksum, idxChecksum) && Ascending(rows)
    ensures Searchable(v)
    ensures forall k :: 0 <= k < |rows| ==> OidRow(v, rows[k].name) != -1
  {
    SortedShown(v, rows, packChecksum, idxChecksum);
    FanoutCounts(v, rows, packChecksum, idxChecksum);
    forall k | 0 <= k < |rows| ensures OidRow(v, rows[k].name) != -1 {
      RowIsFound(v, rows[k].name, k);
    }
  }

  lemma {:induction false} SortedShown(v: IdxView, rows: seq<IdxRow>, packChecksum: seq<byte>, idxChecksum: seq<byte>)
    requires Shows(v, rows, packChecksum, idxChecksum) && Ascending(rows)
    ensures SortedNames(v)
  {
  }

  lemma {:induction false} FanoutCounts(v: IdxView, rows: seq<IdxRow>, packChecksum: seq<byte>,
                                        idxChecksum: seq<byte>)
    requires Shows(v, rows, packChecksum, idxChecksum) && Ascending(rows)
    ensures ConsistentFanout(v)
  {
    forall b: byte, row | 0 <= row < v.count
      ensures row < v.fanout[b] <==> NameAt(v.rawNames, row)[0] <= b
    {
      CountIsPrefix(rows, b, row);
    }
  }
}
