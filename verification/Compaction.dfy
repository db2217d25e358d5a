/**
The k-way merge of `src/worker/git/compaction/plan.ts`: the object ids of several
packs, merged with a heap of one cursor per pack and deduplicated on the way out.
 */
module Compaction {
  import opened Bytes
  import opened IdxViews
  import opened Heap

  datatype CompactionHeapEntry = CompactionHeapEntry(packSlot: nat, objectIndex: nat)

  predicate IsRow(packs: seq<IdxView>, e: CompactionHeapEntry) {
    e.packSlot < |packs| && e.objectIndex < packs[e.packSlot].count
  }

  /** The name of a row; entries that name no row never enter the heap. */
  function NameOf(packs: seq<IdxView>, e: CompactionHeapEntry): Oid {
    if IsRow(packs, e) then NameAt(packs[e.packSlot].rawNames, e.objectIndex) else seq(20, i => 0)
  }

  method CompareRawOid(left: IdxView, leftIndex: nat, right: IdxView, rightIndex: nat) returns (cmp: int)
    requires leftIndex < left.count && rightIndex < right.count
    ensures cmp == Compare(NameAt(left.rawNames, leftIndex), NameAt(right.rawNames, rightIndex))
  {
    var leftStart, rightStart := leftIndex * 20, rightIndex * 20;
    ghost var x, y := NameAt(left.rawNames, leftIndex), NameAt(right.rawNames, rightIndex);
    for byteIndex := 0 to 20
      invariant Compare(x, y) == Compare(x[byteIndex..], y[byteIndex..])
    {
      assert x[byteIndex] == left.rawNames[leftStart + byteIndex];
      assert y[byteIndex] == right.rawNames[rightStart + byteIndex];
      var diff := left.rawNames[leftStart + byteIndex] as int - right.rawNames[rightStart + byteIndex] as int;
      if diff != 0 {
        return diff;
      }
    }
    return 0;
  }

  /** The heap priority: by name, then by pack, then by row. */
  function CompareEntries(packs: seq<IdxView>, x: CompactionHeapEntry, y: CompactionHeapEntry): int {
    var cmp := Compare(NameOf(packs, x), NameOf(packs, y));
    if cmp != 0 then cmp
    else if x.packSlot != y.packSlot then x.packSlot - y.packSlot
    else x.objectIndex - y.objectIndex
  }

  function Comparator(packs: seq<IdxView>): (CompactionHeapEntry, CompactionHeapEntry) -> int {
    (x, y) => CompareEntries(packs, x, y)
  }

  lemma {:induction false} ComparatorIsTotal(packs: seq<IdxView>)
    ensures TotalPreorder(Comparator(packs))
  {
    var cmp := Comparator(packs);
    forall x, y ensures cmp(x, y) < 0 <==> cmp(y, x) > 0 {
      CompareIsOrder(NameOf(packs, x), NameOf(packs, y));
    }
    forall x, y, z {:trigger cmp(x, y), cmp(y, z), cmp(x, z)} | cmp(x, y) <= 0 && cmp(y, z) <= 0
      ensures cmp(x, z) <= 0
    {
      EntriesTransitive(packs, x, y, z);
    }
  }

  lemma {:induction false} EntriesTransitive(packs: seq<IdxView>, x: CompactionHeapEntry, y: CompactionHeapEntry,
                                             z: CompactionHeapEntry)
    requires CompareEntries(packs, x, y) <= 0 && CompareEntries(packs, y, z) <= 0
    ensures CompareEntries(packs, x, z) <= 0
  {
    CompareTransitive(NameOf(packs, x), NameOf(packs, y), NameOf(packs, z));
  }

  // ---------- What the merge promises ----------

  ghost predicate StrictlyAscending(oids: seq<Oid>) {
    forall j, k :: 0 <= j < k < |oids| ==> Compare(oids[j], oids[k]) < 0
  }

  ghost predicate AllSorted(packs: seq<IdxView>) {
    forall slot :: 0 <= slot < |packs| ==> SortedNames(packs[slot])
  }

  /** The rows of every pack before its cursor. */
  ghost predicate Merged(packs: seq<IdxView>, cursors: seq<nat>, e: CompactionHeapEntry) {
    IsRow(packs, e) && |cursors| == |packs| && e.objectIndex < cursors[e.packSlot]
  }

  ghost predicate IsSourceName(packs: seq<IdxView>, oid: Oid) {
    exists e :: IsRow(packs, e) && NameOf(packs, e) == oid
  }

  ghost predicate IsMergedName(packs: seq<IdxView>, cursors: seq<nat>, oid: Oid) {
    exists e :: Merged(packs, cursors, e) && NameOf(packs, e) == oid
  }

  /** The heap holds exactly the row under each cursor that is not at its end. */
  ghost predicate HeapHoldsCursors(packs: seq<IdxView>, cursors: seq<nat>, a: seq<CompactionHeapEntry>) {
    && |cursors| == |packs|
    && (forall slot :: 0 <= slot < |packs| ==> cursors[slot] <= packs[slot].count)
    && (forall e :: e in a <==> IsRow(packs, e) && e.objectIndex == cursors[e.packSlot])
    && (forall e :: multiset(a)[e] <= 1)
  }

  /** The output so far is the set of names merged so far. */
  ghost predicate OutputIsMerged(packs: seq<IdxView>, cursors: seq<nat>, needed: seq<Oid>) {
    && (forall e :: Merged(packs, cursors, e) ==> NameOf(packs, e) in needed)
    && (forall oid :: oid in needed ==> IsMergedName(packs, cursors, oid))
  }

  /** Nothing still in the heap precedes the last output. */
  ghost predicate OutputIsBehind(packs: seq<IdxView>, cursors: seq<nat>, needed: seq<Oid>) {
    && StrictlyAscending(needed)
    && (needed != [] ==> forall e :: IsRow(packs, e) && |cursors| == |packs| && e.objectIndex == cursors[e.packSlot] ==>
          Compare(needed[|needed| - 1], NameOf(packs, e)) <= 0)
  }

  function Remaining(packs: seq<IdxView>, cursors: seq<nat>): (n: int)
    requires |cursors| == |packs|
  {
    if packs == [] then 0 else packs[0].count - cursors[0] + Remaining(packs[1..], cursors[1..])
  }

  lemma {:induction false} RemainingIsPositive(packs: seq<IdxView>, cursors: seq<nat>)
    requires |cursors| == |packs| && forall slot :: 0 <= slot < |packs| ==> cursors[slot] <= packs[slot].count
    ensures Remaining(packs, cursors) >= 0
  {
    if packs != [] {
      RemainingIsPositive(packs[1..], cursors[1..]);
    }
  }

  lemma {:induction false} AdvanceShrinks(packs: seq<IdxView>, cursors: seq<nat>, slot: nat)
    requires |cursors| == |packs| && slot < |packs|
    ensures Remaining(packs, cursors[slot := cursors[slot] + 1]) == Remaining(packs, cursors) - 1
  {
    if slot > 0 {
      AdvanceShrinks(packs[1..], cursors[1..], slot - 1);
      assert cursors[slot := cursors[slot] + 1][1..] == cursors[1..][slot - 1 := cursors[slot] + 1];
    } else {
      assert cursors[0 := cursors[0] + 1][1..] == cursors[1..];
    }
  }

  ghost predicate MergeInvariant(packs: seq<IdxView>, cursors: seq<nat>, a: seq<CompactionHeapEntry>,
                                 needed: seq<Oid>) {
    && HeapHoldsCursors(packs, cursors, a)
    && OutputIsMerged(packs, cursors, needed)
    && (AllSorted(packs) ==> OutputIsBehind(packs, cursors, needed))
  }

  lemma {:induction false} SourceNamesAreNames(packs: seq<IdxView>, oid: Oid)
    ensures IsSourceName(packs, oid) <==>
            exists slot, row :: 0 <= slot < |packs| && 0 <= row < packs[slot].count
                                && NameAt(packs[slot].rawNames, row) == oid
  {
    if slot, row :| 0 <= slot < |packs| && 0 <= row < packs[slot].count && NameAt(packs[slot].rawNames, row) == oid {
      assert NameOf(packs, CompactionHeapEntry(slot, row)) == oid;
    }
  }

  // ---------- The merge ----------

  /**
  The output is the union of all source names, whatever their order; it is strictly
  ascending, so free of duplicates, when every source table is sorted.
   */
  method BuildCompactionNeededOids(packs: seq<IdxView>) returns (needed: seq<Oid>)
    ensures forall oid :: oid in needed <==> IsSourceName(packs, oid)
    ensures AllSorted(packs) ==> StrictlyAscending(needed)
  {
    var heap := SeedHeap(packs);
    ghost var cursors: seq<nat> := seq(|packs|, i => 0);
    needed := [];
    var previousOid: Option<Oid> := None;
    var empty := heap.IsEmpty();
    while !empty
      invariant heap.Valid() && heap.cmp == Comparator(packs) && fresh(heap)
      invariant empty == (|heap.a| == 0)
      invariant previousOid == LastOf(needed)
      invariant MergeInvariant(packs, cursors, heap.a, needed)
      decreases Remaining(packs, cursors)
    {
      needed, previousOid, cursors := MergeNext(packs, heap, needed, previousOid, cursors);
      empty := heap.IsEmpty();
    }
    AllMerged(packs, cursors, heap.a, needed);
  }

  function LastOf(oids: seq<Oid>): Option<Oid> {
    if oids == [] then None else Some(oids[|oids| - 1])
  }

  /** One turn of the merge loop: pop a row, emit its name if it is new, push the next row of its pack. */
  method MergeNext(packs: seq<IdxView>, heap: BinaryHeap<CompactionHeapEntry>, emitted: seq<Oid>,
                   previous: Option<Oid>, ghost cursors: seq<nat>)
    returns (needed: seq<Oid>, previousOid: Option<Oid>, ghost advanced: seq<nat>)
    requires heap.Valid() && heap.cmp == Comparator(packs) && |heap.a| > 0
    requires previous == LastOf(emitted)
    requires MergeInvariant(packs, cursors, heap.a, emitted)
    modifies heap`a
    ensures heap.Valid() && previousOid == LastOf(needed)
    ensures MergeInvariant(packs, advanced, heap.a, needed)
    ensures |cursors| == |packs| == |advanced|
    ensures 0 <= Remaining(packs, advanced) < Remaining(packs, cursors)
  {
    ghost var before := heap.a;
    var popped := heap.Pop();
    var current := popped.value;
    PoppedIsRow(packs, cursors, before, current);
    var currentPack := packs[current.packSlot];
    var oid := NameAt(currentPack.rawNames, current.objectIndex);
    needed, previousOid := emitted, previous;
    if previousOid != Some(oid) {
      needed := emitted + [oid];
      previousOid := Some(oid);
    }
    var nextObjectIndex := current.objectIndex + 1;
    ghost var rest := heap.a;
    if nextObjectIndex < currentPack.count {
      heap.Push(CompactionHeapEntry(current.packSlot, nextObjectIndex));
    }
    MergeStep(packs, cursors, before, rest, heap.a, emitted, needed, current);
    advanced := cursors[current.packSlot := cursors[current.packSlot] + 1];
  }

  /** The first rows of the first `k` packs, each once. */
  ghost predicate HoldsFirstRows(packs: seq<IdxView>, k: nat, a: seq<CompactionHeapEntry>) {
    forall e :: multiset(a)[e] == if IsRow(packs, e) && e.objectIndex == 0 && e.packSlot < k then 1 else 0
  }

  method SeedHeap(packs: seq<IdxView>) returns (heap: BinaryHeap<CompactionHeapEntry>)
    ensures fresh(heap) && heap.Valid() && heap.cmp == Comparator(packs)
    ensures HeapHoldsCursors(packs, seq(|packs|, i => 0), heap.a)
  {
    ComparatorIsTotal(packs);
    heap := new BinaryHeap(Comparator(packs), []);
    NoFirstRows(packs, heap.a);
    for packSlot := 0 to |packs|
      invariant fresh(heap) && heap.Valid() && heap.cmp == Comparator(packs)
      invariant HoldsFirstRows(packs, packSlot, heap.a)
    {
      ghost var before := heap.a;
      if packs[packSlot].count > 0 {
        heap.Push(CompactionHeapEntry(packSlot, 0));
      }
      FirstRowStep(packs, packSlot, before, heap.a);
    }
    FirstRowsAreCursors(packs, heap.a);
  }

  lemma {:induction false} NoFirstRows(packs: seq<IdxView>, a: seq<CompactionHeapEntry>)
    requires multiset(a) == multiset([])
    ensures HoldsFirstRows(packs, 0, a)
  {
  }

  lemma {:induction false} FirstRowStep(packs: seq<IdxView>, k: nat, before: seq<CompactionHeapEntry>,
                                        after: seq<CompactionHeapEntry>)
    requires k < |packs| && HoldsFirstRows(packs, k, before)
    requires multiset(after)
          == multiset(before) + if packs[k].count > 0 then multiset{CompactionHeapEntry(k, 0)} else multiset{}
    ensures HoldsFirstRows(packs, k + 1, after)
  {
  }

  lemma {:induction false} FirstRowsAreCursors(packs: seq<IdxView>, a: seq<CompactionHeapEntry>)
    requires HoldsFirstRows(packs, |packs|, a)
    ensures HeapHoldsCursors(packs, seq(|packs|, i => 0), a)
  {
    MembershipIsCount(a);
  }

  lemma {:induction false} MembershipIsCount<T>(a: seq<T>)
    ensures forall e :: e in a <==> multiset(a)[e] >= 1
  {
  }

  lemma {:induction false} PoppedIsRow(packs: seq<IdxView>, cursors: seq<nat>, before: seq<CompactionHeapEntry>,
                                       current: CompactionHeapEntry)
    requires HeapHoldsCursors(packs, cursors, before) && multiset{current} <= multiset(before)
    ensures current in before && IsRow(packs, current) && |cursors| == |packs|
    ensures current.objectIndex == cursors[current.packSlot]
  {
    assert current in multiset(before);
  }

  /** One pop, the output it may cause, and the push of the next row of its pack. */
  lemma {:induction false} MergeStep(packs: seq<IdxView>, cursors: seq<nat>, before: seq<CompactionHeapEntry>,
                                     rest: seq<CompactionHeapEntry>, after: seq<CompactionHeapEntry>,
                                     previous: seq<Oid>, needed: seq<Oid>, current: CompactionHeapEntry)
    requires MergeInvariant(packs, cursors, before, previous)
    requires multiset(before) == multiset(rest) + multiset{current}
    requires forall e :: e in before ==> Comparator(packs)(current, e) <= 0
    requires var next := CompactionHeapEntry(current.packSlot, current.objectIndex + 1);
             multiset(after) == multiset(rest) + if IsRow(packs, next) then multiset{next} else multiset{}
    requires var oid := NameOf(packs, current);
             needed == if LastOf(previous) != Some(oid) then previous + [oid] else previous
    ensures |cursors| == |packs| && current.packSlot < |packs|
    ensures var advanced := cursors[current.packSlot := cursors[current.packSlot] + 1];
            MergeInvariant(packs, advanced, after, needed)
            && 0 <= Remaining(packs, advanced) < Remaining(packs, cursors)
  {
    PoppedIsRow(packs, cursors, before, current);
    HeapStep(packs, cursors, before, rest, after, current);
    OutputStep(packs, cursors, previous, needed, current);
    if AllSorted(packs) {
      OrderStep(packs, cursors, before, previous, needed, current);
    }
    AdvanceShrinks(packs, cursors, current.packSlot);
    RemainingIsPositive(packs, cursors[current.packSlot := cursors[current.packSlot] + 1]);
  }

  lemma {:induction false} HeapStep(packs: seq<IdxView>, cursors: seq<nat>, before: seq<CompactionHeapEntry>,
                                    middle: seq<CompactionHeapEntry>, after: seq<CompactionHeapEntry>,
                                    current: CompactionHeapEntry)
    requires HeapHoldsCursors(packs, cursors, before)
    requires multiset(before) == multiset(middle) + multiset{current}
    requires current in before
    requires var next := CompactionHeapEntry(current.packSlot, current.objectIndex + 1);
             multiset(after) == multiset(middle) + if IsRow(packs, next) then multiset{next} else multiset{}
    ensures HeapHoldsCursors(packs, cursors[current.packSlot := cursors[current.packSlot] + 1], after)
  {
    MembershipIsCount(before);
    MembershipIsCount(middle);
    MembershipIsCount(after);
    assert multiset(before)[current] == 1;
  }

  lemma {:induction false} OutputStep(packs: seq<IdxView>, cursors: seq<nat>, previous: seq<Oid>, needed: seq<Oid>,
                                      current: CompactionHeapEntry)
    requires |cursors| == |packs| && IsRow(packs, current) && current.objectIndex == cursors[current.packSlot]
    requires OutputIsMerged(packs, cursors, previous)
    requires var oid := NameOf(packs, current);
             needed == if previous == [] || oid != previous[|previous| - 1] then previous + [oid] else previous
    ensures OutputIsMerged(packs, cursors[current.packSlot := cursors[current.packSlot] + 1], needed)
  {
    var advanced := cursors[current.packSlot := cursors[current.packSlot] + 1];
    forall e | Merged(packs, advanced, e) ensures NameOf(packs, e) in needed {
      assert e == current || Merged(packs, cursors, e);
    }
    assert Merged(packs, advanced, current);
    forall o | o in needed ensures IsMergedName(packs, advanced, o) {
      if o in previous {
        assert IsMergedName(packs, cursors, o);
        var e :| Merged(packs, cursors, e) && NameOf(packs, e) == o;
        assert Merged(packs, advanced, e);
      }
    }
  }

  /** The popped name precedes or ties the next name of every pack. */
  lemma {:induction false} PoppedIsLeast(packs: seq<IdxView>, cursors: seq<nat>, before: seq<CompactionHeapEntry>,
                                         current: CompactionHeapEntry, e: CompactionHeapEntry)
    requires AllSorted(packs) && HeapHoldsCursors(packs, cursors, before) && current in before
    requires forall x :: x in before ==> Comparator(packs)(current, x) <= 0
    requires IsRow(packs, e)
    requires e.objectIndex == cursors[current.packSlot := cursors[current.packSlot] + 1][e.packSlot]
    ensures Compare(NameOf(packs, current), NameOf(packs, e)) <= 0
  {
    if e.packSlot == current.packSlot {
      assert SortedNames(packs[e.packSlot]);
    } else {
      assert e in before;
      assert Comparator(packs)(current, e) <= 0;
    }
  }

  lemma {:induction false} OrderStep(packs: seq<IdxView>, cursors: seq<nat>, before: seq<CompactionHeapEntry>,
                                     previous: seq<Oid>, needed: seq<Oid>, current: CompactionHeapEntry)
    requires AllSorted(packs) && HeapHoldsCursors(packs, cursors, before) && current in before
    requires forall e :: e in before ==> Comparator(packs)(current, e) <= 0
    requires OutputIsBehind(packs, cursors, previous)
    requires var oid := NameOf(packs, current);
             needed == if previous == [] || oid != previous[|previous| - 1] then previous + [oid] else previous
    ensures OutputIsBehind(packs, cursors[current.packSlot := cursors[current.packSlot] + 1], needed)
  {
    var advanced := cursors[current.packSlot := cursors[current.packSlot] + 1];
    var oid := NameOf(packs, current);
    forall e | IsRow(packs, e) && e.objectIndex == advanced[e.packSlot]
      ensures Compare(oid, NameOf(packs, e)) <= 0
    {
      PoppedIsLeast(packs, cursors, before, current, e);
    }
    if needed != previous {
      forall j | 0 <= j < |previous| ensures Compare(needed[j], oid) < 0 {
        var last := previous[|previous| - 1];
        CompareIsOrder(last, oid);
        if j < |previous| - 1 {
          CompareTransitive(needed[j], last, oid);
        }
      }
    }
  }

  lemma {:induction false} AllMerged(packs: seq<IdxView>, cursors: seq<nat>, a: seq<CompactionHeapEntry>,
                                     needed: seq<Oid>)
    requires HeapHoldsCursors(packs, cursors, a) && |a| == 0
    requires OutputIsMerged(packs, cursors, needed)
    ensures forall oid :: oid in needed <==> IsSourceName(packs, oid)
  {
    forall oid | IsSourceName(packs, oid) ensures oid in needed {
      var e :| IsRow(packs, e) && NameOf(packs, e) == oid;
      assert CompactionHeapEntry(e.packSlot, cursors[e.packSlot]) !in a;
      assert Merged(packs, cursors, e);
    }
    forall oid | oid in needed ensures IsSourceName(packs, oid) {
      assert IsMergedName(packs, cursors, oid);
    }
  }
}
