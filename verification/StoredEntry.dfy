/**
Pack entries as gitformat-pack(5), "pack-*.pack files have the following format", stores
them, and what `src/worker/git/object-store/materialize.ts` reads from them.
 */
module StoredEntries {
  import opened Bytes
  import opened IdxViews
  import opened Candidates
  import opened Materialize
  import PackMeta
  import Delta

  /** An entry of a pack: a whole object, or a delta on the entry so many bytes before, or on an object by name. */
  datatype Form =
    | WholeForm(kind: nat, size: nat, data: seq<byte>, deflated: seq<byte>)
    | OfsForm(distance: nat, size: nat, data: seq<byte>, deflated: seq<byte>)
    | RefForm(baseOid: Oid, size: nat, data: seq<byte>, deflated: seq<byte>)

  predicate ValidForm(f: Form) {
    match f
    case WholeForm(kind, _, _, _) => 1 <= kind <= 4
    case OfsForm(distance, _, _, _) => distance < 0x8000_0000
    case RefForm(_, _, _, _) => true
  }

  /** The type codes are 1 to 4 for whole objects, 6 for a distance and 7 for a name. */
  function FormBytes(f: Form): seq<byte>
    requires ValidForm(f)
  {
    match f
    case WholeForm(kind, size, _, deflated) => PackMeta.EncodeHeader(kind, size) + deflated
    case OfsForm(distance, size, _, deflated) =>
      PackMeta.EncodeHeader(6, size) + PackMeta.EncodeDistance(distance) + deflated
    case RefForm(baseOid, size, _, deflated) => PackMeta.EncodeHeader(7, size) + baseOid + deflated
  }

  /** The pack holds this entry at the place of `c`. */
  ghost predicate Stored(env: Env, c: PackedObjectCandidate, f: Form) {
    && ValidForm(f) && c.offset < c.nextOffset
    && env.read(c.source.packKey, c.offset, c.nextOffset - c.offset) == Some(FormBytes(f))
    && env.inflate(f.deflated) == Ok(f.data)
  }

  /** The only entry of its pack at its offset. */
  ghost predicate OnlyAtOffset(c: PackedObjectCandidate) {
    forall row :: 0 <= row < c.source.idx.count && c.source.idx.offsets[row] == c.offset ==> row == c.objectIndex
  }

  /** The only entry with its name in its pack, and no pack before that one has the name. */
  ghost predicate FirstNamed(env: Env, c: PackedObjectCandidate) {
    && (forall row :: 0 <= row < c.source.idx.count && NameAt(c.source.idx.rawNames, row) == c.oid ==>
          row == c.objectIndex)
    && (forall slot :: 0 <= slot < c.packSlot && slot < |env.sources| ==> NoneNamed(env.sources[slot].idx, c.oid))
  }

  ghost predicate NoneNamed(v: IdxView, oid: Oid) {
    forall row :: 0 <= row < v.count ==> NameAt(v.rawNames, row) != oid
  }

  /** The entry a delta is to be applied to: in the same pack so many bytes before, or the first of that name. */
  ghost predicate IsBase(env: Env, c: PackedObjectCandidate, f: Form, base: PackedObjectCandidate) {
    InSnapshot(env, base) &&
    match f
    case WholeForm(_, _, _, _) => false
    case OfsForm(distance, _, _, _) =>
      && base.source == c.source && base.packSlot == c.packSlot && base.offset == c.offset - distance
      && OnlyAtOffset(base)
    case RefForm(baseOid, _, _, _) => base.oid == baseOid && FirstNamed(env, base)
  }

  /** What is stored besides the header: the type code, and a distance or a name. */
  lemma {:induction false} HeaderIsRead(f: Form)
    requires ValidForm(f)
    ensures var header := PackMeta.ParseHeader(FormBytes(f), 0);
            && header.Some? && FormBytes(f)[header.value.headerLen..] == f.deflated
            && header.value.kind == (match f case WholeForm(kind, _, _, _) => kind case OfsForm(_, _, _, _) => 6
                                             case RefForm(_, _, _, _) => 7)
            && header.value.baseRel == (if f.OfsForm? then Some(f.distance as int) else None)
            && header.value.baseOid == (if f.RefForm? then Some(f.baseOid) else None)
  {
    var none: Oid := seq(20, i => 0);
    match f
    case WholeForm(kind, size, _, deflated) =>
      PackMeta.HeaderRoundTrip([], kind, size, 0, none, deflated);
      HeaderParts(PackMeta.EncodeHeader(kind, size), [], deflated);
    case OfsForm(distance, size, _, deflated) =>
      PackMeta.HeaderRoundTrip([], 6, size, distance, none, deflated);
      HeaderParts(PackMeta.EncodeHeader(6, size), PackMeta.EncodeDistance(distance), deflated);
    case RefForm(baseOid, size, _, deflated) =>
      PackMeta.HeaderRoundTrip([], 7, size, 0, baseOid, deflated);
      HeaderParts(PackMeta.EncodeHeader(7, size), baseOid, deflated);
  }

  lemma {:induction false} HeaderParts(s: seq<byte>, base: seq<byte>, deflated: seq<byte>)
    ensures [] + (s + base) + deflated == s + base + deflated
    ensures (s + base + deflated)[|s| + |base|..] == deflated
    ensures base == [] ==> s + base == s
  {
  }

  /** A stored whole object is read as it is. */
  lemma {:induction false} WholeIsRead(env: Env, c: PackedObjectCandidate, f: Form)
    requires Stored(env, c, f) && f.WholeForm?
    ensures ReadEntry(env, c) == Whole(f.kind, f.data)
  {
    HeaderIsRead(f);
  }

  lemma {:induction false} DeltaIsRead(env: Env, c: PackedObjectCandidate, f: Form, header: PackMeta.PackHeaderEx)
    requires Stored(env, c, f) && !f.WholeForm? && PackMeta.ParseHeader(FormBytes(f), 0) == Some(header)
    requires header.kind in {6, 7} && FormBytes(f)[header.headerLen..] == f.deflated
    ensures ReadEntry(env, c)
         == match BaseOf(env, c, header) case None => NoEntry case Some(base) => DeltaOn(base, f.data)
  {
  }

  /** A stored delta by distance is read as a delta on the entry so many bytes before. */
  lemma {:induction false} OfsIsRead(env: Env, c: PackedObjectCandidate, f: Form, base: PackedObjectCandidate)
    requires WellFormedEnv(env) && InSnapshot(env, c) && Stored(env, c, f)
    requires f.OfsForm? && IsBase(env, c, f, base)
    ensures ReadEntry(env, c) == DeltaOn(base, f.data)
  {
    HeaderIsRead(f);
    var header := PackMeta.ParseHeader(FormBytes(f), 0).value;
    OfsBase(env, c, header, f.distance, base);
    DeltaIsRead(env, c, f, header);
  }

  /** Without an entry at that place there is nothing to read. */
  lemma {:induction false} OfsWithoutBase(env: Env, c: PackedObjectCandidate, f: Form)
    requires WellFormedEnv(env) && InSnapshot(env, c) && Stored(env, c, f) && f.OfsForm?
    requires forall row :: 0 <= row < c.source.idx.count ==> c.source.idx.offsets[row] != c.offset - f.distance
    ensures ReadEntry(env, c) == NoEntry
  {
    HeaderIsRead(f);
    var header := PackMeta.ParseHeader(FormBytes(f), 0).value;
    NoOfsBase(env, c, header, f.distance);
    DeltaIsRead(env, c, f, header);
  }

  lemma {:induction false} NoOfsBase(env: Env, c: PackedObjectCandidate, header: PackMeta.PackHeaderEx, distance: nat)
    requires WellFormedEnv(env) && InSnapshot(env, c)
    requires header.kind == 6 && header.baseRel == Some(distance as int)
    requires forall row :: 0 <= row < c.source.idx.count ==> c.source.idx.offsets[row] != c.offset - distance
    ensures BaseOf(env, c, header) == None
  {
    FindOffsetIsLinearScan(c.source.idx, c.offset - distance);
  }

  lemma {:induction false} OfsBase(env: Env, c: PackedObjectCandidate, header: PackMeta.PackHeaderEx, distance: nat,
                                   base: PackedObjectCandidate)
    requires WellFormedEnv(env) && InSnapshot(env, c) && InSnapshot(env, base)
    requires header.kind == 6 && header.baseRel == Some(distance as int)
    requires base.source == c.source && base.packSlot == c.packSlot && base.offset == c.offset - distance
    requires OnlyAtOffset(base)
    ensures BaseOf(env, c, header) == Some(base)
  {
    FindOffsetIsLinearScan(c.source.idx, c.offset - distance);
    assert c.source.idx.offsets[base.objectIndex] == base.offset;
  }

  lemma {:induction false} FirstNamedIsFound(env: Env, base: PackedObjectCandidate, slot: nat)
    requires AllSearchable(env.sources) && InSnapshot(env, base) && FirstNamed(env, base) && slot <= base.packSlot
    ensures FirstCandidate(env.sources, base.oid, None, slot) == Some(base)
    decreases base.packSlot - slot
  {
    FindOidIsLinearScan(env.sources[slot].idx, base.oid);
    if slot < base.packSlot {
      assert NoneNamed(env.sources[slot].idx, base.oid);
      FirstNamedIsFound(env, base, slot + 1);
    } else {
      assert NameAt(base.source.idx.rawNames, base.objectIndex) == base.oid;
    }
  }

  /** A stored delta by name is read as a delta on the first entry of that name. */
  lemma {:induction false} RefIsRead(env: Env, c: PackedObjectCandidate, f: Form, base: PackedObjectCandidate)
    requires AllSearchable(env.sources) && InSnapshot(env, c) && Stored(env, c, f)
    requires f.RefForm? && IsBase(env, c, f, base)
    ensures ReadEntry(env, c) == DeltaOn(base, f.data)
  {
    HeaderIsRead(f);
    FirstNamedIsFound(env, base, 0);
    DeltaIsRead(env, c, f, PackMeta.ParseHeader(FormBytes(f), 0).value);
  }

  lemma {:induction false} NoneIsFound(env: Env, oid: Oid, slot: nat)
    requires AllSearchable(env.sources) && slot <= |env.sources|
    requires forall k :: slot <= k < |env.sources| ==> NoneNamed(env.sources[k].idx, oid)
    ensures FirstCandidate(env.sources, oid, None, slot) == None
    decreases |env.sources| - slot
  {
    if slot < |env.sources| {
      FindOidIsLinearScan(env.sources[slot].idx, oid);
      assert NoneNamed(env.sources[slot].idx, oid);
      NoneIsFound(env, oid, slot + 1);
    }
  }

  lemma {:induction false} RefWithoutBase(env: Env, c: PackedObjectCandidate, f: Form)
    requires AllSearchable(env.sources) && InSnapshot(env, c) && Stored(env, c, f) && f.RefForm?
    requires forall k :: 0 <= k < |env.sources| ==> NoneNamed(env.sources[k].idx, f.baseOid)
    ensures ReadEntry(env, c) == NoEntry
  {
    HeaderIsRead(f);
    NoneIsFound(env, f.baseOid, 0);
    DeltaIsRead(env, c, f, PackMeta.ParseHeader(FormBytes(f), 0).value);
  }

  // ---------- Stored chains ----------

  /** Entries stored as these forms, each the base of the one before, the last one whole. */
  ghost predicate StoredChain(env: Env, chain: seq<PackedObjectCandidate>, forms: seq<Form>) {
    && |chain| == |forms| > 0
    && InSnapshot(env, chain[0]) && Stored(env, chain[0], forms[0])
    && (if forms[0].WholeForm? then |chain| == 1
        else |chain| > 1 && IsBase(env, chain[0], forms[0], chain[1]) && StoredChain(env, chain[1..], forms[1..]))
  }

  /** The object they stand for: the whole one at the end, with every delta applied on the way back. */
  function Undeltified(forms: seq<Form>): Option<(nat, seq<byte>)> {
    if forms == [] then None
    else if forms[0].WholeForm? then Some((forms[0].kind, forms[0].data))
    else
      match Undeltified(forms[1..])
      case None => None
      case Some((kind, payload)) =>
        match Delta.Apply(payload, forms[0].data)
        case Err(_) => None
        case Ok(result) => Some((kind, result))
  }

  lemma {:induction false} StoredChainMeans(env: Env, chain: seq<PackedObjectCandidate>, forms: seq<Form>)
    requires WellFormedEnv(env) && AllSearchable(env.sources) && StoredChain(env, chain, forms)
    ensures Denote(env, chain) == Undeltified(forms)
  {
    var c, f := chain[0], forms[0];
    match f
    case WholeForm(_, _, _, _) => WholeIsRead(env, c, f);
    case OfsForm(_, _, _, _) =>
      OfsIsRead(env, c, f, chain[1]);
      StoredChainMeans(env, chain[1..], forms[1..]);
    case RefForm(_, _, _, _) =>
      RefIsRead(env, c, f, chain[1]);
      StoredChainMeans(env, chain[1..], forms[1..]);
  }

  /**
  From bytes to objects: if the first entry of a name is stored as a whole object or as a
  delta on an entry that is, at any depth, reading the name gives the object it stands for.
   */
  lemma {:induction false} StoredObjectIsRead(env: Env, chain: seq<PackedObjectCandidate>, forms: seq<Form>)
    requires WellFormedEnv(env) && AllSearchable(env.sources) && UniquePackKeys(env)
    requires StoredChain(env, chain, forms) && FirstNamed(env, chain[0]) && Undeltified(forms).Some?
    ensures var (kind, payload) := Undeltified(forms).value;
            ReadByName(env, chain[0].oid) == Found(chain[0], kind, payload)
  {
    StoredChainMeans(env, chain, forms);
    MeaningIsRead(env, chain, {}, false);
    FirstNamedIsFound(env, chain[0], 0);
  }
}
