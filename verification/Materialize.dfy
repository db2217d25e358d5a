/**
Packed object reads of `src/worker/git/object-store/materialize.ts` and `store.ts`: delta
chains are followed recursively, guarded by a shared set of the entries being visited.
 */
module Materialize {
  import opened Bytes
  import opened IdxViews
  import opened Candidates
  import PackMeta
  import Delta

  type VisitKey = (string, nat)

  /** The pack snapshot, the object bucket, and zlib. */
  datatype Env = Env(
    sources: seq<IndexedPackSource>,
    read: (string, nat, nat) -> Option<seq<byte>>,
    inflate: seq<byte> -> Result<seq<byte>>)

  datatype Outcome =
    | Found(location: PackedObjectCandidate, kind: nat, payload: seq<byte>)
    | Miss
    | Failed(message: string)

  /** What one pack entry holds: a whole object, a delta on a base entry, nothing usable, or an error. */
  datatype Entry =
    | Whole(kind: nat, payload: seq<byte>)
    | DeltaOn(base: PackedObjectCandidate, delta: seq<byte>)
    | NoEntry
    | Broken(message: string)

  function KeyOf(c: PackedObjectCandidate): VisitKey {
    (c.source.packKey, c.objectIndex)
  }

  function RowCandidate(env: Env, packSlot: nat, row: nat): PackedObjectCandidate
    requires packSlot < |env.sources| && row < env.sources[packSlot].idx.count
  {
    var source := env.sources[packSlot];
    CandidateAt(source, packSlot, row, NameAt(source.idx.rawNames, row))
  }

  /** `c` is a row of the snapshot. */
  ghost predicate InSnapshot(env: Env, c: PackedObjectCandidate) {
    && c.packSlot < |env.sources|
    && c.objectIndex < env.sources[c.packSlot].idx.count
    && c == RowCandidate(env, c.packSlot, c.objectIndex)
  }

  ghost predicate WellFormedEnv(env: Env) {
    forall i :: 0 <= i < |env.sources| ==> WellFormed(env.sources[i].idx)
  }

  predicate IsWholeKind(kind: nat) {
    1 <= kind <= 4
  }

  /** The base of a REF_DELTA is the first hit for its id, of an OFS_DELTA the row at its offset. */
  function BaseOf(env: Env, c: PackedObjectCandidate, header: PackMeta.PackHeaderEx): Option<PackedObjectCandidate> {
    if header.kind == PackMeta.OFS_DELTA then
      var baseOffset := c.offset - if header.baseRel.Some? then header.baseRel.value else 0;
      var row := RowAtOffset(c.source.idx, baseOffset);
      if row.Some? && row.value < c.source.idx.count then
        Some(CandidateAt(c.source, c.packSlot, row.value, NameAt(c.source.idx.rawNames, row.value)))
      else None
    else if header.kind == PackMeta.REF_DELTA && header.baseOid.Some? then
      FirstCandidate(env.sources, header.baseOid.value, None, 0)
    else None
  }

  function ReadEntry(env: Env, c: PackedObjectCandidate): Entry {
    if c.nextOffset <= c.offset then NoEntry
    else
      match env.read(c.source.packKey, c.offset, c.nextOffset - c.offset)
      case None => NoEntry
      case Some(entry) =>
        match PackMeta.ParseHeader(entry, 0)
        case None => NoEntry
        case Some(header) =>
          match env.inflate(entry[header.headerLen..])
          case Err(message) => Broken(message)
          case Ok(payload) =>
            if IsWholeKind(header.kind) then Whole(header.kind, payload)
            else
              match BaseOf(env, c, header)
              case None => NoEntry
              case Some(base) => DeltaOn(base, payload)
  }

  lemma {:induction false} FirstCandidateInSnapshot(env: Env, oid: Oid, packSlot: nat)
    requires packSlot <= |env.sources|
    ensures var r := FirstCandidate(env.sources, oid, None, packSlot); r.Some? ==> InSnapshot(env, r.value)
    decreases |env.sources| - packSlot
  {
    if packSlot < |env.sources| {
      FirstCandidateInSnapshot(env, oid, packSlot + 1);
    }
  }

  lemma {:induction false} BaseIsInSnapshot(env: Env, c: PackedObjectCandidate)
    requires WellFormedEnv(env) && InSnapshot(env, c) && ReadEntry(env, c).DeltaOn?
    ensures InSnapshot(env, ReadEntry(env, c).base)
  {
    var entry := env.read(c.source.packKey, c.offset, c.nextOffset - c.offset).value;
    var header := PackMeta.ParseHeader(entry, 0).value;
    assert ReadEntry(env, c).base == BaseOf(env, c, header).value;
    if header.kind == PackMeta.REF_DELTA {
      FirstCandidateInSnapshot(env, header.baseOid.value, 0);
    }
  }

  // ---------- Termination ----------

  function PackKeys(source: IndexedPackSource): (keys: set<VisitKey>) {
    set row | 0 <= row < source.idx.count :: (source.packKey, row)
  }

  /** The keys of all entries of the snapshot. */
  function AllKeys(sources: seq<IndexedPackSource>): set<VisitKey> {
    if sources == [] then {} else PackKeys(sources[0]) + AllKeys(sources[1..])
  }

  lemma {:induction false} KeyIsKnown(sources: seq<IndexedPackSource>, packSlot: nat, row: nat)
    requires packSlot < |sources| && row < sources[packSlot].idx.count
    ensures (sources[packSlot].packKey, row) in AllKeys(sources)
  {
    if packSlot > 0 {
      KeyIsKnown(sources[1..], packSlot - 1, row);
    }
  }

  function Unvisited(env: Env, visited: set<VisitKey>): nat {
    |AllKeys(env.sources) - visited|
  }

  lemma {:induction false} VisitShrinks(env: Env, c: PackedObjectCandidate, visited: set<VisitKey>)
    requires InSnapshot(env, c) && KeyOf(c) !in visited
    ensures Unvisited(env, visited + {KeyOf(c)}) < Unvisited(env, visited)
  {
    KeyIsKnown(env.sources, c.packSlot, c.objectIndex);
    var left := AllKeys(env.sources) - visited;
    assert AllKeys(env.sources) - (visited + {KeyOf(c)}) == left - {KeyOf(c)};
  }

  // ---------- The code ----------

  function OnBase(c: PackedObjectCandidate, base: Outcome, delta: seq<byte>): Outcome {
    match base
    case Miss => Miss
    case Failed(message) => Failed(message)
    case Found(_, kind, payload) =>
      match Delta.Apply(payload, delta)
      case Err(message) => Failed(message)
      case Ok(result) => Found(c, kind, result)
  }

  function OnCycle(missOnCycle: bool): Outcome {
    if missOnCycle then Miss else Failed("pack object recursion cycle")
  }

  /** The answer for an entry while the entries of `visited` are being read. */
  function Read(env: Env, c: PackedObjectCandidate, visited: set<VisitKey>, missOnCycle: bool): Outcome
    requires WellFormedEnv(env) && InSnapshot(env, c)
    decreases Unvisited(env, visited)
  {
    if KeyOf(c) in visited then OnCycle(missOnCycle)
    else
      match ReadEntry(env, c)
      case NoEntry => Miss
      case Broken(message) => Failed(message)
      case Whole(kind, payload) => Found(c, kind, payload)
      case DeltaOn(base, delta) =>
        BaseIsInSnapshot(env, c);
        VisitShrinks(env, c, visited);
        OnBase(c, Read(env, base, visited + {KeyOf(c)}, missOnCycle), delta)
  }

  /** The set of entries being read, shared by the whole recursion. */
  class VisitSet {
    var keys: set<VisitKey>

    constructor ()
      ensures keys == {}
    {
      keys := {};
    }
  }

  /** Whatever the outcome, the entry is taken off the visited set again. */
  method MaterializeCandidate(env: Env, c: PackedObjectCandidate, visited: VisitSet, missOnCycle: bool)
    returns (r: Outcome)
    requires WellFormedEnv(env) && InSnapshot(env, c)
    modifies visited
    ensures visited.keys == old(visited.keys)
    ensures r == Read(env, c, old(visited.keys), missOnCycle)
    decreases Unvisited(env, visited.keys)
  {
    var visitKey := KeyOf(c);
    if visitKey in visited.keys {
      return OnCycle(missOnCycle);
    }
    ghost var before := visited.keys;
    visited.keys := visited.keys + {visitKey};
    match ReadEntry(env, c) {
      case NoEntry => r := Miss;
      case Broken(message) => r := Failed(message);
      case Whole(kind, payload) => r := Found(c, kind, payload);
      case DeltaOn(base, delta) =>
        BaseIsInSnapshot(env, c);
        VisitShrinks(env, c, before);
        var baseResult := MaterializeCandidate(env, base, visited, missOnCycle);
        r := OnBase(c, baseResult, delta);
    }
    visited.keys := visited.keys - {visitKey};
    assert visited.keys == before;
  }

  /** What reading an object by name gives. */
  function ReadByName(env: Env, oid: Oid): Outcome
    requires WellFormedEnv(env)
  {
    FirstCandidateInSnapshot(env, oid, 0);
    var first := FirstCandidate(env.sources, oid, None, 0);
    if first.None? then Miss else Read(env, first.value, {}, false)
  }

  /** `readObject` without a memo: the first hit, materialised with cycles as errors. */
  method ReadObject(env: Env, oid: Oid) returns (r: Outcome)
    requires WellFormedEnv(env)
    ensures var first := FirstCandidate(env.sources, oid, None, 0);
            && (first.Some? ==> InSnapshot(env, first.value))
            && r == (if first.None? then Miss else Read(env, first.value, {}, false)) == ReadByName(env, oid)
  {
    FirstCandidateInSnapshot(env, oid, 0);
    var first := FindFirstPackedObjectCandidate(env.sources, oid, None);
    if first.None? {
      return Miss;
    }
    var visited := new VisitSet();
    r := MaterializeCandidate(env, first.value, visited, false);
  }

  // ---------- The meaning of an entry ----------

  /**
  The meaning of a chain of entries, each the base of the one before: the kind of the
  whole object at its end, with every delta applied in order on the way back.
   */
  function Denote(env: Env, chain: seq<PackedObjectCandidate>): Option<(nat, seq<byte>)> {
    if chain == [] then None
    else
      match ReadEntry(env, chain[0])
      case NoEntry => None
      case Broken(_) => None
      case Whole(kind, payload) => if |chain| == 1 then Some((kind, payload)) else None
      case DeltaOn(base, delta) =>
        if |chain| == 1 || chain[1] != base then None
        else
          match Denote(env, chain[1..])
          case None => None
          case Some((kind, payload)) =>
            match Delta.Apply(payload, delta)
            case Err(_) => None
            case Ok(result) => Some((kind, result))
  }

  ghost predicate Unvisits(chain: seq<PackedObjectCandidate>, visited: set<VisitKey>) {
    forall i :: 0 <= i < |chain| ==> KeyOf(chain[i]) !in visited
  }

  /** Soundness: a result is the meaning of some chain that starts at the entry. */
  lemma {:induction false} ReadIsMeaning(env: Env, c: PackedObjectCandidate, visited: set<VisitKey>, missOnCycle: bool)
    returns (chain: seq<PackedObjectCandidate>)
    requires WellFormedEnv(env) && InSnapshot(env, c) && Read(env, c, visited, missOnCycle).Found?
    ensures chain != [] && chain[0] == c
    ensures var r := Read(env, c, visited, missOnCycle);
            r.location == c && Denote(env, chain) == Some((r.kind, r.payload))
    decreases Unvisited(env, visited)
  {
    var entry := ReadEntry(env, c);
    if entry.Whole? {
      chain := [c];
    } else {
      BaseIsInSnapshot(env, c);
      VisitShrinks(env, c, visited);
      var rest := ReadIsMeaning(env, entry.base, visited + {KeyOf(c)}, missOnCycle);
      chain := [c] + rest;
      assert chain[1..] == rest;
    }
  }

  // ---------- Chains of links ----------

  /** Each element is linked to the next, and the last one to nothing. */
  predicate Links<T(==)>(link: T -> Option<T>, chain: seq<T>) {
    && chain != []
    && (if link(chain[0]).None? then |chain| == 1
        else |chain| > 1 && chain[1] == link(chain[0]).value && Links(link, chain[1..]))
  }

  lemma {:induction false} LinksUnique<T>(link: T -> Option<T>, x: seq<T>, y: seq<T>)
    requires Links(link, x) && Links(link, y) && x[0] == y[0]
    ensures x == y
    decreases |x|
  {
    assert x == [x[0]] + x[1..] && y == [y[0]] + y[1..];
    if link(x[0]).Some? {
      LinksUnique(link, x[1..], y[1..]);
    }
  }

  lemma {:induction false} LinksSuffix<T>(link: T -> Option<T>, chain: seq<T>, k: nat)
    requires Links(link, chain) && k < |chain|
    ensures Links(link, chain[k..])
  {
    if k == 0 {
      assert chain[0..] == chain;
    } else {
      LinksSuffix(link, chain[1..], k - 1);
      DropDrop(chain, 1, k - 1);
    }
  }

  lemma {:induction false} LinksDoNotReturn<T>(link: T -> Option<T>, chain: seq<T>, k: nat)
    requires Links(link, chain) && 0 < k < |chain|
    ensures chain[k] != chain[0]
  {
    LinksSuffix(link, chain, k);
    if chain[k] == chain[0] {
      LinksUnique(link, chain[k..], chain);
    }
  }

  /** The base of a delta entry. */
  function BaseLink(env: Env): PackedObjectCandidate -> Option<PackedObjectCandidate> {
    c => if ReadEntry(env, c).DeltaOn? then Some(ReadEntry(env, c).base) else None
  }

  lemma {:induction false} MeaningLinks(env: Env, chain: seq<PackedObjectCandidate>)
    requires Denote(env, chain).Some?
    ensures Links(BaseLink(env), chain)
  {
    if ReadEntry(env, chain[0]).DeltaOn? {
      MeaningLinks(env, chain[1..]);
    }
  }

  /** An entry has at most one chain with a meaning. */
  lemma {:induction false} ChainIsUnique(env: Env, x: seq<PackedObjectCandidate>, y: seq<PackedObjectCandidate>)
    requires Denote(env, x).Some? && Denote(env, y).Some? && x[0] == y[0]
    ensures x == y
  {
    MeaningLinks(env, x);
    MeaningLinks(env, y);
    LinksUnique(BaseLink(env), x, y);
  }

  lemma {:induction false} LinkIsInSnapshot(env: Env, c: PackedObjectCandidate)
    requires WellFormedEnv(env) && InSnapshot(env, c) && BaseLink(env)(c).Some?
    ensures InSnapshot(env, BaseLink(env)(c).value)
  {
    BaseIsInSnapshot(env, c);
  }

  lemma {:induction false} LinksKeep<T>(link: T -> Option<T>, good: T -> bool, chain: seq<T>, i: nat)
    requires forall x :: good(x) && link(x).Some? ==> good(link(x).value)
    requires Links(link, chain) && good(chain[0]) && i < |chain|
    ensures good(chain[i])
  {
    if i > 0 {
      LinksKeep(link, good, chain[1..], i - 1);
    }
  }

  lemma {:induction false} LinksInSnapshot(env: Env, chain: seq<PackedObjectCandidate>, i: nat)
    requires WellFormedEnv(env)
    requires Links(BaseLink(env), chain) && InSnapshot(env, chain[0]) && i < |chain|
    ensures InSnapshot(env, chain[i])
  {
    var good := (c: PackedObjectCandidate) => InSnapshot(env, c);
    forall c | good(c) && BaseLink(env)(c).Some? ensures good(BaseLink(env)(c).value) {
      LinkIsInSnapshot(env, c);
    }
    LinksKeep(BaseLink(env), good, chain, i);
  }

  /** The catalog holds one row per pack key. */
  ghost predicate UniquePackKeys(env: Env) {
    forall i, j :: 0 <= i < j < |env.sources| ==> env.sources[i].packKey != env.sources[j].packKey
  }

  lemma {:induction false} KeyDetermines(env: Env, x: PackedObjectCandidate, y: PackedObjectCandidate)
    requires UniquePackKeys(env) && InSnapshot(env, x) && InSnapshot(env, y) && KeyOf(x) == KeyOf(y)
    ensures x == y
  {
  }

  /** Completeness: an entry with a meaning is read, whatever other entries are being visited. */
  lemma {:induction false} MeaningIsRead(env: Env, chain: seq<PackedObjectCandidate>, visited: set<VisitKey>,
                                         missOnCycle: bool)
    requires WellFormedEnv(env) && UniquePackKeys(env)
    requires Denote(env, chain).Some? && InSnapshot(env, chain[0]) && Unvisits(chain, visited)
    ensures var (kind, payload) := Denote(env, chain).value;
            Read(env, chain[0], visited, missOnCycle) == Found(chain[0], kind, payload)
    decreases |chain|
  {
    var c, rest := chain[0], chain[1..];
    assert KeyOf(chain[0]) !in visited;
    if ReadEntry(env, c).DeltaOn? {
      BaseIsInSnapshot(env, c);
      MeaningLinks(env, chain);
      RestUnvisited(env, chain, visited);
      MeaningIsRead(env, rest, visited + {KeyOf(c)}, missOnCycle);
    }
  }

  /** A read from scratch succeeds exactly on the entries that have a meaning, and returns it. */
  lemma {:induction false} ReadIffMeaning(env: Env, c: PackedObjectCandidate, missOnCycle: bool, kind: nat,
                                          payload: seq<byte>)
    requires WellFormedEnv(env) && UniquePackKeys(env) && InSnapshot(env, c)
    ensures Read(env, c, {}, missOnCycle) == Found(c, kind, payload) <==>
            exists chain :: chain != [] && chain[0] == c && Denote(env, chain) == Some((kind, payload))
  {
    if Read(env, c, {}, missOnCycle) == Found(c, kind, payload) {
      var chain := ReadIsMeaning(env, c, {}, missOnCycle);
    }
    if chain :| chain != [] && chain[0] == c && Denote(env, chain) == Some((kind, payload)) {
      MeaningIsRead(env, chain, {}, missOnCycle);
    }
  }

  // ---------- Every outcome ----------

  /** What the end of a chain gives, with every delta applied in order on the way back. */
  function Folded(env: Env, chain: seq<PackedObjectCandidate>): Outcome
    requires chain != []
  {
    match ReadEntry(env, chain[0])
    case NoEntry => Miss
    case Broken(message) => Failed(message)
    case Whole(kind, payload) => Found(chain[0], kind, payload)
    case DeltaOn(_, delta) => if |chain| == 1 then Miss else OnBase(chain[0], Folded(env, chain[1..]), delta)
  }

  /** `chain` leads from `c` to an entry that is no delta. */
  predicate EndsFrom(env: Env, c: PackedObjectCandidate, chain: seq<PackedObjectCandidate>) {
    Links(BaseLink(env), chain) && chain[0] == c
  }

  /** The rest of a chain meets no entry that is being read. */
  lemma {:induction false} RestUnvisited(env: Env, chain: seq<PackedObjectCandidate>, visited: set<VisitKey>)
    requires WellFormedEnv(env) && UniquePackKeys(env)
    requires Links(BaseLink(env), chain) && InSnapshot(env, chain[0]) && Unvisits(chain, visited)
    ensures Unvisits(chain[1..], visited + {KeyOf(chain[0])})
  {
    var rest := chain[1..];
    forall i | 0 <= i < |rest| ensures KeyOf(rest[i]) !in visited + {KeyOf(chain[0])} {
      assert rest[i] == chain[i + 1];
      LinksInSnapshot(env, chain, i + 1);
      LinksDoNotReturn(BaseLink(env), chain, i + 1);
      if KeyOf(rest[i]) == KeyOf(chain[0]) {
        KeyDetermines(env, rest[i], chain[0]);
      }
    }
  }

  lemma {:induction false} ChainIsRead(env: Env, chain: seq<PackedObjectCandidate>, visited: set<VisitKey>,
                                       missOnCycle: bool)
    requires WellFormedEnv(env) && UniquePackKeys(env)
    requires Links(BaseLink(env), chain) && InSnapshot(env, chain[0]) && Unvisits(chain, visited)
    ensures Read(env, chain[0], visited, missOnCycle) == Folded(env, chain)
    decreases |chain|
  {
    var c := chain[0];
    assert KeyOf(c) !in visited;
    if ReadEntry(env, c).DeltaOn? {
      BaseIsInSnapshot(env, c);
      RestUnvisited(env, chain, visited);
      ChainIsRead(env, chain[1..], visited + {KeyOf(c)}, missOnCycle);
    }
  }

  /** No chain of bases from `c` ends. */
  ghost predicate Endless(env: Env, c: PackedObjectCandidate) {
    !exists chain :: EndsFrom(env, c, chain)
  }

  lemma {:induction false} LongerChain(env: Env, c: PackedObjectCandidate)
    ensures !ReadEntry(env, c).DeltaOn? ==> EndsFrom(env, c, [c])
    ensures ReadEntry(env, c).DeltaOn? ==>
              forall chain :: EndsFrom(env, ReadEntry(env, c).base, chain) ==> EndsFrom(env, c, [c] + chain)
  {
    if ReadEntry(env, c).DeltaOn? {
      forall chain | EndsFrom(env, ReadEntry(env, c).base, chain) ensures EndsFrom(env, c, [c] + chain) {
        assert ([c] + chain)[1..] == chain;
      }
    }
  }

  lemma {:induction false} BaseIsEndless(env: Env, c: PackedObjectCandidate)
    requires Endless(env, c)
    ensures ReadEntry(env, c).DeltaOn? && Endless(env, ReadEntry(env, c).base)
  {
    LongerChain(env, c);
  }

  lemma {:induction false} CycleIsPassedOn(env: Env, c: PackedObjectCandidate, base: PackedObjectCandidate,
                                           visited: set<VisitKey>, missOnCycle: bool)
    requires WellFormedEnv(env) && InSnapshot(env, c) && InSnapshot(env, base)
    requires ReadEntry(env, c).DeltaOn? && ReadEntry(env, c).base == base && KeyOf(c) !in visited
    requires Read(env, base, visited + {KeyOf(c)}, missOnCycle) == OnCycle(missOnCycle)
    ensures Read(env, c, visited, missOnCycle) == OnCycle(missOnCycle)
  {
  }

  /** An entry whose bases never end is refused as a cycle, whatever is being read. */
  lemma {:induction false} EndlessIsCycle(env: Env, c: PackedObjectCandidate, visited: set<VisitKey>,
                                          missOnCycle: bool)
    requires WellFormedEnv(env) && InSnapshot(env, c) && Endless(env, c)
    ensures Read(env, c, visited, missOnCycle) == OnCycle(missOnCycle)
    decreases Unvisited(env, visited)
  {
    if KeyOf(c) !in visited {
      BaseIsEndless(env, c);
      BaseIsInSnapshot(env, c);
      VisitShrinks(env, c, visited);
      EndlessIsCycle(env, ReadEntry(env, c).base, visited + {KeyOf(c)}, missOnCycle);
      CycleIsPassedOn(env, c, ReadEntry(env, c).base, visited, missOnCycle);
    }
  }

  /**
  Every outcome of a read from scratch: what the end of the chain of bases gives, be it an
  object, a missing entry or an error; an entry whose bases never end is refused as a cycle.
   */
  lemma {:induction false} ReadOutcome(env: Env, c: PackedObjectCandidate, missOnCycle: bool)
    requires WellFormedEnv(env) && UniquePackKeys(env) && InSnapshot(env, c)
    ensures forall chain :: EndsFrom(env, c, chain) ==> Read(env, c, {}, missOnCycle) == Folded(env, chain)
    ensures Endless(env, c) ==>
              Read(env, c, {}, missOnCycle) == if missOnCycle then Miss else Failed("pack object recursion cycle")
  {
    forall chain | EndsFrom(env, c, chain) ensures Read(env, c, {}, missOnCycle) == Folded(env, chain) {
      ChainIsRead(env, chain, {}, missOnCycle);
    }
    if Endless(env, c) {
      EndlessIsCycle(env, c, {}, missOnCycle);
    }
  }
}
