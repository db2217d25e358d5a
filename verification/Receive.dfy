/**
Receive transactions of `src/worker/do/repo/catalog/receive.ts` and `leases.ts`: the
exclusive receive lease and the commit of a push, one atomic step per RPC.
 */
module Receive {
  import opened Bytes
  import opened Validation

  const RECEIVE_LEASE_TTL_MS: int := 30 * 60000
  const LEASE_RETRY_AFTER_SECONDS: nat := 10
  const COMPACTION_FAN_IN: nat := 4
  const DEFAULT_TARGET: string := "refs/heads/main"

  datatype Head = Head(target: string, oid: Option<string>, unborn: bool)

  datatype Lease = Lease(token: string, createdAt: int, expiresAt: int)

  datatype PackCatalogRow = PackCatalogRow(
    packKey: string,
    kind: string,
    state: string,
    tier: nat,
    seqLo: nat,
    seqHi: nat,
    objectCount: nat,
    packBytes: nat,
    idxBytes: nat,
    createdAt: int,
    supersededBy: Option<string>)

  datatype StagedPack = StagedPack(packKey: string, packBytes: nat, idxBytes: nat, objectCount: nat)

  /** The stored keys of one repository; `None` is a key that was never put. */
  datatype Repo = Repo(
    refs: Option<seq<Ref>>,
    head: Option<Head>,
    refsVersion: Option<nat>,
    packsetVersion: Option<nat>,
    nextPackSeq: Option<nat>,
    receiveLease: Option<Lease>,
    compactLease: Option<Lease>,
    compactionWantedAt: Option<int>,
    catalog: seq<PackCatalogRow>)

  datatype BeginResult =
    | Busy(retryAfter: nat)
    | Began(lease: Lease, refs: seq<Ref>, head: Head, refsVersion: nat, packsetVersion: nat, nextPackSeq: nat,
            activeCatalog: seq<PackCatalogRow>)

  datatype FinalizeResult =
    | Committed(statuses: seq<ReceiveStatus>, changed: bool, empty: bool, shouldQueueCompaction: bool)
    | RefConflict(statuses: seq<ReceiveStatus>)
    | LeaseMismatch

  // ---------- Reading stored values ----------

  function RefsOf(s: Repo): seq<Ref> {
    if s.refs.Some? then s.refs.value else []
  }

  /** `value || 0`. */
  function OrZero(n: Option<nat>): nat {
    if n.Some? then n.value else 0
  }

  /** `value || 1`: a stored zero is falsy too. */
  function OrOne(n: Option<nat>): (r: nat)
    ensures r >= 1
  {
    if n.Some? && n.value != 0 then n.value else 1
  }

  function EnsureDefaults(s: Repo): Repo {
    s.(refsVersion := Some(OrZero(s.refsVersion)),
       packsetVersion := Some(OrZero(s.packsetVersion)),
       nextPackSeq := if s.nextPackSeq.None? then Some(1) else s.nextPackSeq)
  }

  function TargetOf(head: Option<Head>): string {
    if head.None? || head.value.target == "" then DEFAULT_TARGET else head.value.target
  }

  /** HEAD keeps its target and takes the id that target has among the refs. */
  function ResolveHead(head: Option<Head>, refs: seq<Ref>): Head {
    var target := TargetOf(head);
    match Find(refs, target)
    case Some(oid) => Head(target, Some(oid), false)
    case None => Head(target, None, true)
  }

  /** `ORDER BY seqHi DESC, tier DESC`. */
  predicate Precedes(x: PackCatalogRow, y: PackCatalogRow) {
    x.seqHi > y.seqHi || (x.seqHi == y.seqHi && x.tier >= y.tier)
  }

  function InsertRow(row: PackCatalogRow, rows: seq<PackCatalogRow>): seq<PackCatalogRow> {
    if rows == [] || Precedes(row, rows[0]) then [row] + rows else [rows[0]] + InsertRow(row, rows[1..])
  }

  /** `listActivePackCatalog`: the active rows, newest first. */
  function Active(catalog: seq<PackCatalogRow>): seq<PackCatalogRow> {
    if catalog == [] then []
    else if catalog[0].state == "active" then InsertRow(catalog[0], Active(catalog[1..]))
    else Active(catalog[1..])
  }

  lemma {:induction false} InsertMembers(row: PackCatalogRow, rows: seq<PackCatalogRow>)
    ensures multiset(InsertRow(row, rows)) == multiset(rows) + multiset{row}
  {
    if rows != [] {
      assert rows == [rows[0]] + rows[1..];
      if !Precedes(row, rows[0]) {
        InsertMembers(row, rows[1..]);
      }
    }
  }

  ghost predicate NewestFirst(rows: seq<PackCatalogRow>) {
    forall i, j :: 0 <= i < j < |rows| ==>
      rows[i].seqHi > rows[j].seqHi || (rows[i].seqHi == rows[j].seqHi && rows[i].tier >= rows[j].tier)
  }

  lemma {:induction false} InsertKeepsNewestFirst(row: PackCatalogRow, rows: seq<PackCatalogRow>)
    requires NewestFirst(rows)
    ensures NewestFirst(InsertRow(row, rows))
  {
    if rows != [] && !Precedes(row, rows[0]) {
      InsertKeepsNewestFirst(row, rows[1..]);
      InsertMembers(row, rows[1..]);
      var r := InsertRow(row, rows[1..]);
      forall k | 0 <= k < |r| ensures Precedes(rows[0], r[k]) {
        assert r[k] in multiset(r);
      }
    }
  }

  /** The active rows are exactly the rows in state `active`, each as often, newest first. */
  lemma {:induction false} ActiveIsExact(catalog: seq<PackCatalogRow>)
    ensures forall row :: multiset(Active(catalog))[row] == if row.state == "active" then multiset(catalog)[row] else 0
    ensures NewestFirst(Active(catalog))
  {
    if catalog != [] {
      ActiveIsExact(catalog[1..]);
      assert catalog == [catalog[0]] + catalog[1..];
      InsertMembers(catalog[0], Active(catalog[1..]));
      InsertKeepsNewestFirst(catalog[0], Active(catalog[1..]));
    }
  }

  lemma {:induction false} ActiveMembers(catalog: seq<PackCatalogRow>, row: PackCatalogRow)
    ensures row in Active(catalog) <==> row in catalog && row.state == "active"
  {
    ActiveIsExact(catalog);
    assert row in Active(catalog) <==> multiset(Active(catalog))[row] > 0;
    assert row in catalog <==> multiset(catalog)[row] > 0;
  }

  function CountTier(catalog: seq<PackCatalogRow>, tier: nat): nat {
    if catalog == [] then 0 else (if catalog[0].tier == tier then 1 else 0) + CountTier(catalog[1..], tier)
  }

  /** A plan exists iff some tier holds more packs than the fan-in. */
  predicate NeedsCompaction(active: seq<PackCatalogRow>) {
    exists i :: 0 <= i < |active| && CountTier(active, active[i].tier) > COMPACTION_FAN_IN
  }

  /** Insert, or replace the row with the same pack key. */
  function Upsert(catalog: seq<PackCatalogRow>, row: PackCatalogRow): seq<PackCatalogRow> {
    if catalog == [] then [row]
    else if catalog[0].packKey == row.packKey then [row] + catalog[1..]
    else [catalog[0]] + Upsert(catalog[1..], row)
  }

  /** The catalog without the rows of a pack. */
  function WithoutPack(catalog: seq<PackCatalogRow>, packKey: string): (r: seq<PackCatalogRow>)
    ensures forall row :: row in r <==> row in catalog && row.packKey != packKey
  {
    if catalog == [] then []
    else (if catalog[0].packKey == packKey then [] else [catalog[0]]) + WithoutPack(catalog[1..], packKey)
  }

  /** `getPackCatalogRow(packKey)?.state`. */
  function StateOf(catalog: seq<PackCatalogRow>, packKey: string): string {
    if catalog == [] then "unknown"
    else if catalog[0].packKey == packKey then catalog[0].state
    else StateOf(catalog[1..], packKey)
  }

  const EMPTY_REPO: Repo := Repo(None, None, None, None, None, None, None, None, [])

  // ---------- The steps ----------

  function ClearExpired(s: Repo, now: int): Repo {
    s.(receiveLease := if s.receiveLease.Some? && s.receiveLease.value.expiresAt <= now then None else s.receiveLease,
       compactLease := if s.compactLease.Some? && s.compactLease.value.expiresAt <= now then None else s.compactLease)
  }

  function BeginStep(s: Repo, clearAt: int, now: int, token: string): (Repo, BeginResult) {
    var cleared := ClearExpired(s, clearAt);
    if cleared.receiveLease.Some? then (cleared, Busy(LEASE_RETRY_AFTER_SECONDS))
    else
      var lease := Lease(token, now, now + RECEIVE_LEASE_TTL_MS);
      var t := EnsureDefaults(cleared.(receiveLease := Some(lease)));
      (t, Began(lease, RefsOf(t), if t.head.Some? then t.head.value else Head(DEFAULT_TARGET, None, true),
                OrZero(t.refsVersion), OrZero(t.packsetVersion), OrOne(t.nextPackSeq), Active(t.catalog)))
  }

  function AbortStep(s: Repo, token: string): (Repo, bool) {
    if s.receiveLease.None? || s.receiveLease.value.token != token then (s, false)
    else (s.(receiveLease := None), true)
  }

  /** A short pack name stands for a key under the prefix of the repository. */
  function FullPackKey(prefix: string, packKey: string): string {
    if prefix <= packKey then packKey else prefix + "/objects/pack/" + packKey
  }

  /** Only a superseded pack may be removed by hand. */
  function RemovePackStep(s: Repo, prefix: string, packKey: string): (Repo, bool) {
    if StateOf(s.catalog, FullPackKey(prefix, packKey)) != "superseded" then (s, false)
    else (s.(catalog := WithoutPack(s.catalog, FullPackKey(prefix, packKey))), true)
  }

  function InvalidStatuses(commands: seq<ReceiveCommand>): seq<ReceiveStatus> {
    if commands == [] then []
    else
      (if IsValidRefName(commands[0].ref) then [] else [ReceiveStatus(commands[0].ref, false, "invalid")])
      + InvalidStatuses(commands[1..])
  }

  function CatalogStep(s: Repo, pack: StagedPack, now: int): Repo {
    var seqNo := OrOne(s.nextPackSeq);
    var row := PackCatalogRow(pack.packKey, "receive", "active", 0, seqNo, seqNo, pack.objectCount, pack.packBytes,
                              pack.idxBytes, now, None);
    var catalog := Upsert(s.catalog, row);
    s.(catalog := catalog,
       nextPackSeq := Some(seqNo + 1),
       packsetVersion := Some(OrZero(s.packsetVersion) + 1),
       compactionWantedAt := if NeedsCompaction(Active(catalog)) then Some(now) else s.compactionWantedAt)
  }

  function CommitStep(s: Repo, commands: seq<ReceiveCommand>, pack: Option<StagedPack>, now: int): Repo {
    var t := if pack.Some? then CatalogStep(s, pack.value, now) else s;
    var refs := Apply(RefsOf(s), commands);
    t.(refs := Some(refs),
       head := Some(ResolveHead(s.head, refs)),
       refsVersion := Some(OrZero(s.refsVersion) + 1),
       receiveLease := None)
  }

  /** Only the token is checked: a lease past its expiry still commits until it is cleared. */
  function FinalizeStep(s0: Repo, token: string, commands: seq<ReceiveCommand>, pack: Option<StagedPack>, now: int)
    : (Repo, FinalizeResult)
  {
    var s := EnsureDefaults(s0);
    if s.receiveLease.None? || s.receiveLease.value.token != token then (s, LeaseMismatch)
    else if InvalidStatuses(commands) != [] then (s.(receiveLease := None), RefConflict(InvalidStatuses(commands)))
    else
      var statuses := Validate(RefsOf(s), commands);
      if !AllOk(statuses) then (s.(receiveLease := None), RefConflict(statuses))
      else
        var t := CommitStep(s, commands, pack, now);
        (t, Committed(statuses, |commands| > 0, RefsOf(t) == [],
                      pack.Some? && NeedsCompaction(Active(t.catalog))))
  }

  // ---------- The steps, as the storage sees them ----------

  method FilterInvalid(commands: seq<ReceiveCommand>) returns (statuses: seq<ReceiveStatus>)
    ensures statuses == InvalidStatuses(commands)
  {
    statuses := [];
    for i := 0 to |commands|
      invariant InvalidStatuses(commands) == statuses + InvalidStatuses(commands[i..])
    {
      assert commands[i..][1..] == commands[i + 1..];
      var valid := IsValidRefName(commands[i].ref);
      var more := if valid then [] else [ReceiveStatus(commands[i].ref, false, "invalid")];
      AppendAssociates(statuses, more, InvalidStatuses(commands[i + 1..]));
      statuses := statuses + more;
    }
  }

  class RepoStore {
    var refs: Option<seq<Ref>>
    var head: Option<Head>
    var refsVersion: Option<nat>
    var packsetVersion: Option<nat>
    var nextPackSeq: Option<nat>
    var receiveLease: Option<Lease>
    var compactLease: Option<Lease>
    var compactionWantedAt: Option<int>
    var catalog: seq<PackCatalogRow>

    function Snapshot(): Repo
      reads this
    {
      Repo(refs, head, refsVersion, packsetVersion, nextPackSeq, receiveLease, compactLease, compactionWantedAt,
           catalog)
    }

    method EnsureRepoMetadataDefaults()
      modifies this
      ensures Snapshot() == EnsureDefaults(old(Snapshot()))
      ensures refsVersion == if old(refsVersion).None? then Some(0) else old(refsVersion)
      ensures packsetVersion == if old(packsetVersion).None? then Some(0) else old(packsetVersion)
      ensures nextPackSeq == if old(nextPackSeq).None? then Some(1) else old(nextPackSeq)
    {
      if refsVersion.None? {
        refsVersion := Some(0);
      }
      if packsetVersion.None? {
        packsetVersion := Some(0);
      }
      if nextPackSeq.None? {
        nextPackSeq := Some(1);
      }
    }

    method ClearExpiredLeases(now: int)
      modifies this
      ensures Snapshot() == ClearExpired(old(Snapshot()), now)
      ensures receiveLease
           == if old(receiveLease).Some? && old(receiveLease).value.expiresAt > now then old(receiveLease) else None
      ensures compactLease
           == if old(compactLease).Some? && old(compactLease).value.expiresAt > now then old(compactLease) else None
    {
      if receiveLease.Some? && receiveLease.value.expiresAt <= now {
        receiveLease := None;
      }
      if compactLease.Some? && compactLease.value.expiresAt <= now {
        compactLease := None;
      }
    }

    /** A lease is granted iff none is held that has not expired. */
    method BeginReceiveLease(clearAt: int, now: int, token: string) returns (r: BeginResult)
      modifies this
      ensures (Snapshot(), r) == BeginStep(old(Snapshot()), clearAt, now, token)
      ensures r.Began? <==> old(receiveLease).None? || old(receiveLease).value.expiresAt <= clearAt
      ensures r.Began? ==> receiveLease == Some(r.lease) && r.lease == Lease(token, now, now + 1_800_000)
      ensures r.Began? ==>
                && r.refs == (if old(refs).Some? then old(refs).value else [])
                && r.head == (if old(head).Some? then old(head).value else Head("refs/heads/main", None, true))
                && r.refsVersion == (if old(refsVersion).Some? then old(refsVersion).value else 0)
                && r.packsetVersion == (if old(packsetVersion).Some? then old(packsetVersion).value else 0)
                && r.nextPackSeq == (if old(nextPackSeq) in {None, Some(0)} then 1 else old(nextPackSeq).value)
                && r.activeCatalog == Active(old(catalog))
      ensures r.Busy? ==> r.retryAfter == 10 && receiveLease == old(receiveLease)
      ensures refs == old(refs) && head == old(head) && catalog == old(catalog)
    {
      ClearExpiredLeases(clearAt);
      if receiveLease.Some? {
        return Busy(LEASE_RETRY_AFTER_SECONDS);
      }
      var lease := Lease(token, now, now + RECEIVE_LEASE_TTL_MS);
      receiveLease := Some(lease);
      var activeCatalog := Active(catalog);
      EnsureRepoMetadataDefaults();
      return Began(lease, if refs.Some? then refs.value else [],
                   if head.Some? then head.value else Head(DEFAULT_TARGET, None, true),
                   OrZero(refsVersion), OrZero(packsetVersion), OrOne(nextPackSeq), activeCatalog);
    }

    method AbortReceiveLease(token: string) returns (aborted: bool)
      modifies this
      ensures (Snapshot(), aborted) == AbortStep(old(Snapshot()), token)
      ensures aborted <==> old(receiveLease).Some? && old(receiveLease).value.token == token
      ensures Snapshot() == old(Snapshot()).(receiveLease := if aborted then None else old(receiveLease))
    {
      if receiveLease.None? || receiveLease.value.token != token {
        return false;
      }
      receiveLease := None;
      return true;
    }

    /** `prefix` is where the packs of this repository are stored. */
    method RemovePack(prefix: string, packKey: string) returns (removed: bool)
      modifies this
      ensures (Snapshot(), removed) == RemovePackStep(old(Snapshot()), prefix, packKey)
      ensures removed <==> StateOf(old(catalog), FullPackKey(prefix, packKey)) == "superseded"
      ensures removed ==>
                forall row :: row in catalog <==> row in old(catalog) && row.packKey != FullPackKey(prefix, packKey)
      ensures Snapshot() == old(Snapshot()).(catalog := if removed then catalog else old(catalog))
    {
      var fullPackKey := packKey;
      if !(prefix <= packKey) {
        fullPackKey := prefix + "/objects/pack/" + packKey;
      }
      if StateOf(catalog, fullPackKey) != "superseded" {
        return false;
      }
      catalog := WithoutPack(catalog, fullPackKey);
      return true;
    }

    /** `storage.deleteAll()`. */
    method ClearRepositoryStorage()
      modifies this
      ensures Snapshot() == EMPTY_REPO
    {
      refs, head, refsVersion, packsetVersion, nextPackSeq := None, None, None, None, None;
      receiveLease, compactLease, compactionWantedAt, catalog := None, None, None, [];
    }

    method RecordPack(pack: StagedPack, now: int) returns (shouldQueueCompaction: bool)
      modifies this
      ensures Snapshot() == CatalogStep(old(Snapshot()), pack, now)
      ensures shouldQueueCompaction == NeedsCompaction(Active(catalog))
    {
      var seqNo := OrOne(nextPackSeq);
      catalog := Upsert(catalog, PackCatalogRow(pack.packKey, "receive", "active", 0, seqNo, seqNo, pack.objectCount,
                                                pack.packBytes, pack.idxBytes, now, None));
      nextPackSeq := Some(seqNo + 1);
      packsetVersion := Some(OrZero(packsetVersion) + 1);
      shouldQueueCompaction := NeedsCompaction(Active(catalog));
      if shouldQueueCompaction {
        compactionWantedAt := Some(now);
      }
    }

    method CommitReceive(commands: seq<ReceiveCommand>, pack: Option<StagedPack>, now: int)
      returns (empty: bool, shouldQueueCompaction: bool)
      modifies this
      ensures Snapshot() == CommitStep(old(Snapshot()), commands, pack, now)
      ensures empty == (RefsOf(Snapshot()) == [])
      ensures shouldQueueCompaction == (pack.Some? && NeedsCompaction(Active(catalog)))
    {
      var nextRefs := ApplyReceiveCommands(if refs.Some? then refs.value else [], commands);
      var nextHead := ResolveHead(head, nextRefs);
      var nextRefsVersion := OrZero(refsVersion) + 1;
      shouldQueueCompaction := false;
      if pack.Some? {
        shouldQueueCompaction := RecordPack(pack.value, now);
      }
      refs := Some(nextRefs);
      head := Some(nextHead);
      refsVersion := Some(nextRefsVersion);
      receiveLease := None;
      empty := |nextRefs| == 0;
    }

    method FinalizeReceiveState(token: string, commands: seq<ReceiveCommand>, pack: Option<StagedPack>, now: int)
      returns (r: FinalizeResult)
      modifies this
      ensures (Snapshot(), r) == FinalizeStep(old(Snapshot()), token, commands, pack, now)
    {
      EnsureRepoMetadataDefaults();
      if receiveLease.None? || receiveLease.value.token != token {
        return LeaseMismatch;
      }
      var currentRefs := if refs.Some? then refs.value else [];
      var invalid := FilterInvalid(commands);
      if |invalid| > 0 {
        receiveLease := None;
        return RefConflict(invalid);
      }
      var statuses := ValidateReceiveCommands(currentRefs, commands);
      if !AllOk(statuses) {
        receiveLease := None;
        return RefConflict(statuses);
      }
      var empty, shouldQueueCompaction := CommitReceive(commands, pack, now);
      return Committed(statuses, |commands| > 0, empty, shouldQueueCompaction);
    }
  }
}
