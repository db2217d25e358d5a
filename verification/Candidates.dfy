/**
Packed-object candidates of `src/worker/git/object-store/candidates.ts`: all rows
of a pack snapshot that hold an object id, and the first of them.
 */
module Candidates {
  import opened Bytes
  import opened IdxViews

  datatype IndexedPackSource = IndexedPackSource(packKey: string, packBytes: nat, idx: IdxView)

  datatype PackedObjectCandidate = PackedObjectCandidate(
    source: IndexedPackSource,
    packSlot: nat,
    objectIndex: nat,
    offset: nat,
    nextOffset: int,
    oid: Oid)

  /** An inclusive range of rows. */
  datatype OidRun = OidRun(startIndex: nat, endIndex: nat)

  /** What a well-formed idx file promises: sorted names under a fanout that counts them. */
  ghost predicate Searchable(v: IdxView) {
    SortedNames(v) && ConsistentFanout(v)
  }

  ghost predicate AllSearchable(sources: seq<IndexedPackSource>) {
    forall i :: 0 <= i < |sources| ==> Searchable(sources[i].idx)
  }

  function CandidateAt(source: IndexedPackSource, packSlot: nat, row: nat, oid: Oid): PackedObjectCandidate
    requires row < source.idx.count
  {
    PackedObjectCandidate(source, packSlot, row, source.idx.offsets[row], source.idx.nextOffsetByIndex[row], oid)
  }

  // ---------- The linear scan that lookups are measured against ----------

  /** Which rows of a pack hold the name. */
  function Hits(v: IdxView, oid: Oid): (hits: seq<bool>)
    ensures |hits| == v.count
  {
    seq(v.count, row requires 0 <= row < v.count => NameAt(v.rawNames, row) == oid)
  }

  /** The candidates of a pack from `row` on, by looking at every row. */
  function ScanRows(source: IndexedPackSource, packSlot: nat, oid: Oid, row: nat): seq<PackedObjectCandidate>
    requires row <= source.idx.count
    decreases source.idx.count - row
  {
    if row == source.idx.count then []
    else if Hits(source.idx, oid)[row] then
      [CandidateAt(source, packSlot, row, oid)] + ScanRows(source, packSlot, oid, row + 1)
    else ScanRows(source, packSlot, oid, row + 1)
  }

  function ScanPack(source: IndexedPackSource, packSlot: nat, oid: Oid): seq<PackedObjectCandidate> {
    ScanRows(source, packSlot, oid, 0)
  }

  /** The candidates of every pack from slot `packSlot` on that is not excluded, pack by pack. */
  function ScanPacks(sources: seq<IndexedPackSource>, oid: Oid, exclude: Option<string>, packSlot: nat)
    : (r: seq<PackedObjectCandidate>)
    requires packSlot <= |sources|
    decreases |sources| - packSlot
  {
    if packSlot == |sources| then []
    else
      (if exclude == Some(sources[packSlot].packKey) then [] else ScanPack(sources[packSlot], packSlot, oid))
      + ScanPacks(sources, oid, exclude, packSlot + 1)
  }

  // ---------- Runs of equal names ----------

  method OidAtIndexMatches(v: IdxView, row: nat, oid: Oid) returns (matches: bool)
    requires row < v.count
    ensures matches == Hits(v, oid)[row]
  {
    var rawStart := row * 20;
    ghost var name := NameAt(v.rawNames, row);
    for offset := 0 to 20
      invariant forall k :: 0 <= k < offset ==> name[k] == oid[k]
    {
      assert name[offset] == v.rawNames[rawStart + offset];
      if v.rawNames[rawStart + offset] != oid[offset] {
        return false;
      }
    }
    assert name == oid;
    return true;
  }

  /** A widest run of hits. */
  ghost predicate IsRun(hits: seq<bool>, run: OidRun) {
    && run.startIndex <= run.endIndex < |hits|
    && (forall row :: run.startIndex <= row <= run.endIndex ==> hits[row])
    && (run.startIndex > 0 ==> !hits[run.startIndex - 1])
    && (run.endIndex + 1 < |hits| ==> !hits[run.endIndex + 1])
  }

  /** The widest run of equal names around the row that the search hits. */
  method FindOidRunInIdx(v: IdxView, oid: seq<byte>) returns (r: Option<OidRun>)
    ensures r.None? <==> |oid| != 20 || OidRow(v, oid) == -1
    ensures r.Some? ==> IsRun(Hits(v, oid), r.value)
    ensures r.Some? ==> r.value.startIndex <= OidRow(v, oid) <= r.value.endIndex
  {
    if |oid| != 20 {
      return None;
    }
    var hitIndex := FindOidIndexFromBytes(v, oid, 0);
    assert OidIn(oid, 0) == oid;
    if hitIndex < 0 {
      return None;
    }
    var startIndex := ExpandLeft(v, oid, hitIndex);
    var endIndex := ExpandRight(v, oid, hitIndex);
    return Some(OidRun(startIndex, endIndex));
  }

  method ExpandLeft(v: IdxView, oid: Oid, hitIndex: nat) returns (startIndex: nat)
    requires hitIndex < v.count && Hits(v, oid)[hitIndex]
    ensures startIndex <= hitIndex
    ensures forall row :: startIndex <= row <= hitIndex ==> Hits(v, oid)[row]
    ensures startIndex > 0 ==> !Hits(v, oid)[startIndex - 1]
  {
    ghost var hits := Hits(v, oid);
    startIndex := hitIndex;
    while startIndex > 0
      invariant startIndex <= hitIndex
      invariant forall row :: startIndex <= row <= hitIndex ==> hits[row]
    {
      var more := OidAtIndexMatches(v, startIndex - 1, oid);
      if !more {
        break;
      }
      startIndex := startIndex - 1;
    }
  }

  method ExpandRight(v: IdxView, oid: Oid, hitIndex: nat) returns (endIndex: nat)
    requires hitIndex < v.count && Hits(v, oid)[hitIndex]
    ensures hitIndex <= endIndex < v.count
    ensures forall row :: hitIndex <= row <= endIndex ==> Hits(v, oid)[row]
    ensures endIndex + 1 < v.count ==> !Hits(v, oid)[endIndex + 1]
  {
    ghost var hits := Hits(v, oid);
    endIndex := hitIndex;
    while endIndex + 1 < v.count
      invariant hitIndex <= endIndex < v.count
      invariant forall row :: hitIndex <= row <= endIndex ==> hits[row]
    {
      var more := OidAtIndexMatches(v, endIndex + 1, oid);
      if !more {
        break;
      }
      endIndex := endIndex + 1;
    }
  }

  /** Hits with no miss in between. */
  ghost predicate Contiguous(hits: seq<bool>) {
    forall i, j, k :: 0 <= i < j < k < |hits| && hits[i] && hits[k] ==> hits[j]
  }

  lemma {:induction false} SortedHitsAreContiguous(v: IdxView, oid: Oid)
    requires SortedNames(v)
    ensures Contiguous(Hits(v, oid))
  {
    var hits := Hits(v, oid);
    forall i, j, k | 0 <= i < j < k < |hits| && hits[i] && hits[k] ensures hits[j] {
      CompareIsOrder(NameAt(v.rawNames, j), oid);
      assert Compare(NameAt(v.rawNames, i), NameAt(v.rawNames, j)) <= 0;
      CompareIsOrder(oid, NameAt(v.rawNames, j));
    }
  }

  lemma {:induction false} NoGap(hits: seq<bool>, i: nat, j: nat, k: nat)
    requires Contiguous(hits) && i < j < k < |hits|
    ensures hits[i] && hits[k] ==> hits[j]
  {
  }

  lemma {:induction false} OutsideRun(hits: seq<bool>, run: OidRun, row: nat)
    requires Contiguous(hits) && IsRun(hits, run) && row < |hits|
    ensures hits[row] <==> run.startIndex <= row <= run.endIndex
  {
    if row + 1 < run.startIndex {
      NoGap(hits, row, run.startIndex - 1, run.startIndex);
    } else if run.endIndex + 1 < row {
      NoGap(hits, run.endIndex, run.endIndex + 1, row);
    }
  }

  /** A row that holds the name is scanned. */
  lemma {:induction false} ScanFindsRow(source: IndexedPackSource, packSlot: nat, oid: Oid, start: nat, row: nat)
    requires start <= row < source.idx.count && Hits(source.idx, oid)[row]
    ensures CandidateAt(source, packSlot, row, oid) in ScanRows(source, packSlot, oid, start)
    decreases row - start
  {
    if start < row {
      ScanFindsRow(source, packSlot, oid, start + 1, row);
    }
  }

  lemma {:induction false} ScanIsOfPack(source: IndexedPackSource, packSlot: nat, oid: Oid, start: nat)
    requires start <= source.idx.count
    ensures forall c :: c in ScanRows(source, packSlot, oid, start) ==> c.packSlot == packSlot
    decreases source.idx.count - start
  {
    if start < source.idx.count {
      ScanIsOfPack(source, packSlot, oid, start + 1);
    }
  }

  lemma {:induction false} NothingToScan(source: IndexedPackSource, packSlot: nat, oid: Oid, start: nat)
    requires start <= source.idx.count && forall k :: start <= k < source.idx.count ==> !Hits(source.idx, oid)[k]
    ensures ScanRows(source, packSlot, oid, start) == []
    decreases source.idx.count - start
  {
    if start < source.idx.count {
      NothingToScan(source, packSlot, oid, start + 1);
    }
  }

  // ---------- Collection ----------

  /** `c` is a row with this name in a pack of the snapshot that is not excluded. */
  ghost predicate HoldsOid(sources: seq<IndexedPackSource>, oid: Oid, exclude: Option<string>,
                           c: PackedObjectCandidate) {
    && c.packSlot < |sources|
    && exclude != Some(sources[c.packSlot].packKey)
    && IsHit(sources[c.packSlot], c.packSlot, oid, c)
  }

  ghost predicate IsHit(source: IndexedPackSource, packSlot: nat, oid: Oid, c: PackedObjectCandidate) {
    && c.objectIndex < source.idx.count && Hits(source.idx, oid)[c.objectIndex]
    && c.source == source && c.packSlot == packSlot && c.oid == oid
    && c.offset == source.idx.offsets[c.objectIndex] && c.nextOffset == source.idx.nextOffsetByIndex[c.objectIndex]
  }

  ghost predicate AllAreHits(source: IndexedPackSource, packSlot: nat, oid: Oid, cs: seq<PackedObjectCandidate>) {
    forall c :: c in cs ==> IsHit(source, packSlot, oid, c)
  }

  /**
  Every candidate is a matching row of a pack that is not excluded; when the packs
  are searchable, the result is exactly the linear scan, in pack then row order.
   */
  method CollectPackedObjectCandidates(sources: seq<IndexedPackSource>, oid: seq<byte>, exclude: Option<string>)
    returns (candidates: seq<PackedObjectCandidate>)
    ensures |oid| != 20 ==> candidates == []
    ensures |oid| == 20 && AllSearchable(sources) ==> candidates == ScanPacks(sources, oid, exclude, 0)
    ensures |oid| == 20 ==> forall c :: c in candidates ==> HoldsOid(sources, oid, exclude, c)
  {
    candidates := [];
    if |oid| != 20 {
      return;
    }
    for packSlot := 0 to |sources|
      invariant forall c :: c in candidates ==> HoldsOid(sources, oid, exclude, c)
      invariant AllSearchable(sources) ==>
                  ScanPacks(sources, oid, exclude, 0) == candidates + ScanPacks(sources, oid, exclude, packSlot)
    {
      var rows := [];
      if exclude != Some(sources[packSlot].packKey) {
        rows := CollectFromPack(sources[packSlot], packSlot, oid);
      }
      AppendRows(candidates, rows, ScanPacks(sources, oid, exclude, packSlot + 1));
      candidates := candidates + rows;
    }
  }

  lemma {:induction false} AppendRows<T>(before: seq<T>, rows: seq<T>, rest: seq<T>)
    ensures before + (rows + rest) == before + rows + rest
    ensures forall c :: c in before + rows <==> c in before || c in rows
  {
  }

  /** The candidates of one pack: the rows of the run around the hit, in row order. */
  method CollectFromPack(source: IndexedPackSource, packSlot: nat, oid: Oid)
    returns (candidates: seq<PackedObjectCandidate>)
    ensures Searchable(source.idx) ==> candidates == ScanPack(source, packSlot, oid)
    ensures AllAreHits(source, packSlot, oid, candidates)
  {
    var run := FindOidRunInIdx(source.idx, oid);
    candidates := [];
    if run.Some? {
      candidates := CollectRows(source, packSlot, oid, run.value.startIndex, run.value.endIndex + 1);
      RunIsHits(source, packSlot, oid, run.value);
    }
    SearchableScan(source, packSlot, oid, run);
  }

  lemma {:induction false} SearchableScan(source: IndexedPackSource, packSlot: nat, oid: Oid, run: Option<OidRun>)
    requires run.None? <==> OidRow(source.idx, oid) == -1
    requires run.Some? ==> IsRun(Hits(source.idx, oid), run.value)
    ensures Searchable(source.idx) ==> ScanPack(source, packSlot, oid) == RunOrNone(source, packSlot, oid, run)
  {
    if Searchable(source.idx) {
      ScanIsSearch(source, packSlot, oid, run);
    }
  }

  function RunOrNone(source: IndexedPackSource, packSlot: nat, oid: Oid, run: Option<OidRun>)
    : seq<PackedObjectCandidate>
    requires run.Some? ==> run.value.endIndex < source.idx.count
  {
    if run.None? then [] else RunCandidates(source, packSlot, oid, run.value.startIndex, run.value.endIndex + 1)
  }

  /** One candidate for every row from `lo` to `hi`. */
  function RunCandidates(source: IndexedPackSource, packSlot: nat, oid: Oid, lo: nat, hi: nat)
    : seq<PackedObjectCandidate>
    requires hi <= source.idx.count
    decreases hi - lo
  {
    if lo >= hi then [] else [CandidateAt(source, packSlot, lo, oid)] + RunCandidates(source, packSlot, oid, lo + 1, hi)
  }

  ghost predicate AllHits(v: IdxView, oid: Oid, lo: nat, hi: nat) {
    hi <= v.count && forall row :: lo <= row < hi ==> Hits(v, oid)[row]
  }

  lemma {:induction false} RunIsInTable(v: IdxView, oid: Oid, run: OidRun)
    requires IsRun(Hits(v, oid), run)
    ensures AllHits(v, oid, run.startIndex, run.endIndex + 1)
  {
  }

  lemma {:induction false} RunIsHits(source: IndexedPackSource, packSlot: nat, oid: Oid, run: OidRun)
    requires IsRun(Hits(source.idx, oid), run)
    ensures AllAreHits(source, packSlot, oid,
                       RunCandidates(source, packSlot, oid, run.startIndex, run.endIndex + 1))
  {
    RunIsInTable(source.idx, oid, run);
    RunRowsAreHits(source, packSlot, oid, run.startIndex, run.endIndex + 1);
  }

  lemma {:induction false} RunRowsAreHits(source: IndexedPackSource, packSlot: nat, oid: Oid, lo: nat, hi: nat)
    requires AllHits(source.idx, oid, lo, hi)
    ensures AllAreHits(source, packSlot, oid, RunCandidates(source, packSlot, oid, lo, hi))
    decreases hi - lo
  {
    if lo < hi {
      RunRowsAreHits(source, packSlot, oid, lo + 1, hi);
      assert IsHit(source, packSlot, oid, CandidateAt(source, packSlot, lo, oid));
    }
  }

  /** Where the hits are one run, the scan gives the rows of the run. */
  lemma {:induction false} ScanIsRun(source: IndexedPackSource, packSlot: nat, oid: Oid, run: OidRun, row: nat)
    requires Contiguous(Hits(source.idx, oid)) && IsRun(Hits(source.idx, oid), run) && row <= source.idx.count
    ensures ScanRows(source, packSlot, oid, row)
         == RunCandidates(source, packSlot, oid, if row < run.startIndex then run.startIndex else row, run.endIndex + 1)
    decreases source.idx.count - row
  {
    if row < source.idx.count {
      ScanIsRun(source, packSlot, oid, run, row + 1);
      OutsideRun(Hits(source.idx, oid), run, row);
    }
  }

  lemma {:induction false} ScanIsSearch(source: IndexedPackSource, packSlot: nat, oid: Oid, run: Option<OidRun>)
    requires Searchable(source.idx)
    requires run.None? <==> OidRow(source.idx, oid) == -1
    requires run.Some? ==> IsRun(Hits(source.idx, oid), run.value)
    ensures ScanPack(source, packSlot, oid) == RunOrNone(source, packSlot, oid, run)
  {
    if run.None? {
      MissIsEmptyScan(source, packSlot, oid);
    } else {
      HitIsRun(source, packSlot, oid, run.value);
    }
  }

  lemma {:induction false} MissIsEmptyScan(source: IndexedPackSource, packSlot: nat, oid: Oid)
    requires Searchable(source.idx) && OidRow(source.idx, oid) == -1
    ensures ScanPack(source, packSlot, oid) == []
  {
    FindOidIsLinearScan(source.idx, oid);
    NothingToScan(source, packSlot, oid, 0);
  }

  lemma {:induction false} HitIsRun(source: IndexedPackSource, packSlot: nat, oid: Oid, run: OidRun)
    requires SortedNames(source.idx) && IsRun(Hits(source.idx, oid), run)
    ensures ScanPack(source, packSlot, oid)
         == RunCandidates(source, packSlot, oid, run.startIndex, run.endIndex + 1)
  {
    SortedHitsAreContiguous(source.idx, oid);
    ScanIsRun(source, packSlot, oid, run, 0);
  }

  method CollectRows(source: IndexedPackSource, packSlot: nat, oid: Oid, lo: nat, hi: nat)
    returns (candidates: seq<PackedObjectCandidate>)
    requires lo <= hi <= source.idx.count
    ensures candidates == RunCandidates(source, packSlot, oid, lo, hi)
  {
    candidates := [];
    for row := lo to hi
      invariant RunCandidates(source, packSlot, oid, lo, hi)
             == candidates + RunCandidates(source, packSlot, oid, row, hi)
    {
      var candidate := CandidateAt(source, packSlot, row, oid);
      AppendAssociates(candidates, [candidate], RunCandidates(source, packSlot, oid, row + 1, hi));
      candidates := candidates + [candidate];
    }
  }

  // ---------- The first hit ----------

  function FirstCandidate(sources: seq<IndexedPackSource>, oid: Oid, exclude: Option<string>, packSlot: nat)
    : (r: Option<PackedObjectCandidate>)
    requires packSlot <= |sources|
    decreases |sources| - packSlot
  {
    if packSlot == |sources| then None
    else
      var source := sources[packSlot];
      if exclude == Some(source.packKey) || OidRow(source.idx, oid) == -1 then
        FirstCandidate(sources, oid, exclude, packSlot + 1)
      else Some(CandidateAt(source, packSlot, OidRow(source.idx, oid), oid))
  }

  /** The first candidate is a row with this name, with the place of that row. */
  lemma {:induction false} FirstCandidateIsHit(sources: seq<IndexedPackSource>, oid: Oid, exclude: Option<string>,
                                               packSlot: nat)
    requires packSlot <= |sources|
    ensures var r := FirstCandidate(sources, oid, exclude, packSlot);
            r.Some? ==> HoldsOid(sources, oid, exclude, r.value)
    decreases |sources| - packSlot
  {
    if packSlot < |sources| {
      FirstCandidateIsHit(sources, oid, exclude, packSlot + 1);
    }
  }

  method FindFirstPackedObjectCandidate(sources: seq<IndexedPackSource>, oid: seq<byte>, exclude: Option<string>)
    returns (r: Option<PackedObjectCandidate>)
    ensures r == if |oid| == 20 then FirstCandidate(sources, oid, exclude, 0) else None
  {
    if |oid| != 20 {
      return None;
    }
    for packSlot := 0 to |sources|
      invariant FirstCandidate(sources, oid, exclude, 0) == FirstCandidate(sources, oid, exclude, packSlot)
    {
      var source := sources[packSlot];
      if exclude != Some(source.packKey) {
        var objectIndex := FindOidIndexFromBytes(source.idx, oid, 0);
        assert OidIn(oid, 0) == oid;
        if objectIndex >= 0 {
          return Some(CandidateAt(source, packSlot, objectIndex, NameAt(source.idx.rawNames, objectIndex)));
        }
      }
    }
    return None;
  }

  /** `first` is found iff there are rows, and then it is one of them, in the pack of the first row. */
  predicate FirstOf(first: Option<PackedObjectCandidate>, all: seq<PackedObjectCandidate>) {
    if all == [] then first.None? else first.Some? && first.value in all && first.value.packSlot == all[0].packSlot
  }

  /** The first hit exists iff the scan is non-empty; it is one of its rows, in the same pack as the first. */
  lemma {:induction false} FirstCandidateIsInScan(sources: seq<IndexedPackSource>, oid: Oid, exclude: Option<string>,
                                                  packSlot: nat)
    requires AllSearchable(sources) && packSlot <= |sources|
    ensures FirstOf(FirstCandidate(sources, oid, exclude, packSlot), ScanPacks(sources, oid, exclude, packSlot))
    decreases |sources| - packSlot
  {
    if packSlot < |sources| {
      var source, rest := sources[packSlot], ScanPacks(sources, oid, exclude, packSlot + 1);
      FirstCandidateIsInScan(sources, oid, exclude, packSlot + 1);
      if exclude == Some(source.packKey) {
        assert [] + rest == rest;
      } else {
        FirstIsInPack(source, packSlot, oid, FirstCandidate(sources, oid, exclude, packSlot + 1), rest);
      }
    }
  }

  /** The step of one pack: its own hit comes first, and without one the rest decides. */
  lemma {:induction false} FirstIsInPack(source: IndexedPackSource, packSlot: nat, oid: Oid,
                                         later: Option<PackedObjectCandidate>, rest: seq<PackedObjectCandidate>)
    requires Searchable(source.idx) && FirstOf(later, rest)
    ensures var row := OidRow(source.idx, oid);
            FirstOf(if row == -1 then later else Some(CandidateAt(source, packSlot, row, oid)),
                    ScanPack(source, packSlot, oid) + rest)
  {
    PackHasHit(source, packSlot, oid);
    var found := ScanPack(source, packSlot, oid);
    if found == [] {
      assert found + rest == rest;
    } else {
      assert (found + rest)[0] == found[0];
    }
  }

  lemma {:induction false} PackHasHit(source: IndexedPackSource, packSlot: nat, oid: Oid)
    requires Searchable(source.idx)
    ensures var row, found := OidRow(source.idx, oid), ScanPack(source, packSlot, oid);
            if row == -1 then found == []
            else found != [] && found[0].packSlot == packSlot && CandidateAt(source, packSlot, row, oid) in found
  {
    var row := OidRow(source.idx, oid);
    if row == -1 {
      MissIsEmptyScan(source, packSlot, oid);
    } else {
      ScanFindsRow(source, packSlot, oid, 0, row);
      ScanIsOfPack(source, packSlot, oid, 0);
    }
  }
}
