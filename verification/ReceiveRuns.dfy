/**
Facts about every run of a repository's receive RPCs: lease exclusivity, pushes that
cannot conflict, and what refs, HEAD, counters and the pack catalog add up to.
 */
module ReceiveRuns {
  import opened Bytes
  import opened Validation
  import opened Receive

  /** One RPC or alarm. Times are whatever the clock says; tokens of `Abort` and `Finalize` are the caller's. */
  datatype Event =
    | Begin(clearAt: int, now: int, token: string)
    | Abort(token: string)
    | Finalize(token: string, commands: seq<ReceiveCommand>, pack: Option<StagedPack>, now: int)
    | Alarm(now: int)
    | GetHead
    | SetRefs(refs: seq<Ref>)
    | SetHead(head: Head)
    | RemovePack(prefix: string, packKey: string)
    | Clear

  /** `resolveHead` stores the resolved value unless the stored one already says the same. */
  function RefreshHead(stored: Option<Head>, refs: seq<Ref>): Option<Head> {
    var resolved := ResolveHead(stored, refs);
    if stored.Some? && stored.value.target == resolved.target && stored.value.oid == resolved.oid
       && (resolved.oid.Some? || stored.value.unborn == resolved.unborn)
    then stored else Some(resolved)
  }

  function Step(s: Repo, e: Event): Repo {
    match e
    case Begin(clearAt, now, token) => BeginStep(s, clearAt, now, token).0
    case Abort(token) => AbortStep(s, token).0
    case Finalize(token, commands, pack, now) => FinalizeStep(s, token, commands, pack, now).0
    case Alarm(now) => ClearExpired(s, now)
    case GetHead => s.(head := RefreshHead(s.head, RefsOf(s)))
    case SetRefs(refs) => s.(refs := Some(refs))
    case SetHead(head) => s.(head := Some(head))
    case RemovePack(prefix, packKey) => RemovePackStep(s, prefix, packKey).0
    case Clear => EMPTY_REPO
  }

  /** The state after a run. */
  function After(s: Repo, events: seq<Event>): Repo {
    if events == [] then s else Step(After(s, events[..|events| - 1]), events[|events| - 1])
  }

  /** The state before event `k` of a run. */
  function Before(s: Repo, events: seq<Event>, k: nat): Repo
    requires k <= |events|
  {
    After(s, events[..k])
  }

  lemma {:induction false} BeforeNext(s: Repo, events: seq<Event>, k: nat)
    requires k < |events|
    ensures Before(s, events, k + 1) == Step(Before(s, events, k), events[k])
  {
    assert events[..k + 1][..k] == events[..k];
  }

  predicate Holds(s: Repo, token: string) {
    s.receiveLease.Some? && s.receiveLease.value.token == token
  }

  function ResultOf(s: Repo, e: Event): FinalizeResult
    requires e.Finalize?
  {
    FinalizeStep(s, e.token, e.commands, e.pack, e.now).1
  }

  predicate Commits(s: Repo, e: Event) {
    e.Finalize? && ResultOf(s, e).Committed?
  }

  predicate BeginsWith(e: Event, token: string) {
    e.Begin? && e.token == token
  }

  /** Every `Begin` draws a token that was never seen before. */
  ghost predicate FreshTokens(s: Repo, events: seq<Event>) {
    forall j :: 0 <= j < |events| && events[j].Begin? ==>
      !Holds(s, events[j].token) && forall i :: 0 <= i < j ==> !BeginsWith(events[i], events[j].token)
  }

  // ---------- A lease that is still held was held all along ----------

  lemma {:induction false} StepBack(s: Repo, e: Event, token: string)
    requires Holds(Step(s, e), token) && !BeginsWith(e, token)
    ensures Holds(s, token) && Step(s, e).receiveLease == s.receiveLease
    ensures !Commits(s, e)
    ensures !e.SetRefs? ==> RefsOf(Step(s, e)) == RefsOf(s)
  {
  }

  lemma {:induction false} HeldThroughout(s: Repo, events: seq<Event>, i: nat, j: nat, token: string)
    requires i <= j <= |events| && Holds(Before(s, events, j), token)
    requires forall k :: i <= k < j ==> !BeginsWith(events[k], token)
    ensures forall k :: i <= k <= j ==> Holds(Before(s, events, k), token)
    decreases j - i
  {
    if i < j {
      BeforeNext(s, events, j - 1);
      StepBack(Before(s, events, j - 1), events[j - 1], token);
      HeldThroughout(s, events, i, j - 1, token);
    }
  }

  lemma {:induction false} HeldKeepsRefs(s: Repo, events: seq<Event>, i: nat, j: nat, token: string)
    requires i <= j <= |events| && Holds(Before(s, events, j), token)
    requires forall k :: i <= k < j ==> !BeginsWith(events[k], token) && !events[k].SetRefs?
    ensures RefsOf(Before(s, events, j)) == RefsOf(Before(s, events, i))
    decreases j - i
  {
    if i < j {
      BeforeNext(s, events, j - 1);
      StepBack(Before(s, events, j - 1), events[j - 1], token);
      HeldKeepsRefs(s, events, i, j - 1, token);
    }
  }

  /** A token in the lease was there at the start or was begun since. */
  lemma {:induction false} HeldTokenHasOrigin(s: Repo, events: seq<Event>, j: nat, token: string)
    requires j <= |events| && Holds(Before(s, events, j), token)
    ensures Holds(s, token) || exists i :: 0 <= i < j && BeginsWith(events[i], token)
  {
    if j == 0 {
      assert events[..0] == [];
    } else if !BeginsWith(events[j - 1], token) {
      BeforeNext(s, events, j - 1);
      StepBack(Before(s, events, j - 1), events[j - 1], token);
      HeldTokenHasOrigin(s, events, j - 1, token);
    }
  }

  lemma {:induction false} NoLaterBegin(s: Repo, events: seq<Event>, i: nat, j: nat, token: string)
    requires FreshTokens(s, events) && i < |events| && j <= |events|
    requires BeginsWith(events[i], token) || Holds(Before(s, events, i), token)
    ensures forall k :: i < k < j ==> !BeginsWith(events[k], token)
  {
    if Holds(Before(s, events, i), token) {
      HeldTokenHasOrigin(s, events, i, token);
    }
  }

  /** With a fresh token, being still in the lease at `j` means the begin at `i` granted it. */
  lemma {:induction false} BeginGranted(s: Repo, events: seq<Event>, i: nat, j: nat)
    requires FreshTokens(s, events) && i < j <= |events| && events[i].Begin?
    requires Holds(Before(s, events, j), events[i].token)
    ensures var begun := BeginStep(Before(s, events, i), events[i].clearAt, events[i].now, events[i].token).1;
            && begun.Began? && begun.refs == RefsOf(Before(s, events, i)) == RefsOf(Before(s, events, i + 1))
  {
    var token := events[i].token;
    NoLaterBegin(s, events, i, j, token);
    HeldThroughout(s, events, i + 1, j, token);
    BeforeNext(s, events, i);
    if Holds(Before(s, events, i), token) {
      HeldTokenHasOrigin(s, events, i, token);
    }
  }

  /**
  Exclusivity: when a token begun at `i` commits at `j`, no other receive has committed
  in between, and without an administrative `SetRefs` the refs it commits against are the
  ones its begin returned.
   */
  lemma {:induction false} CommitIsExclusive(s: Repo, events: seq<Event>, i: nat, j: nat)
    requires FreshTokens(s, events) && i < j < |events|
    requires events[i].Begin? && events[j].Finalize? && events[j].token == events[i].token
    requires !ResultOf(Before(s, events, j), events[j]).LeaseMismatch?
    ensures var begun := BeginStep(Before(s, events, i), events[i].clearAt, events[i].now, events[i].token).1;
            && begun.Began?
            && (forall k :: i < k < j ==> !Commits(Before(s, events, k), events[k]))
            && ((forall k :: i < k < j ==> !events[k].SetRefs?) ==> RefsOf(Before(s, events, j)) == begun.refs)
  {
    var token := events[i].token;
    CommitCondition(Before(s, events, j), events[j]);
    BeginGranted(s, events, i, j);
    NoLaterBegin(s, events, i, j, token);
    HeldThroughout(s, events, i + 1, j, token);
    forall k | i < k < j ensures !Commits(Before(s, events, k), events[k]) {
      BeforeNext(s, events, k);
      StepBack(Before(s, events, k), events[k], token);
    }
    if forall k :: i < k < j ==> !events[k].SetRefs? {
      HeldKeepsRefs(s, events, i + 1, j, token);
    }
  }

  /** A token commits, or is refused for its refs, at most once. */
  lemma {:induction false} TokenFinalizesOnce(s: Repo, events: seq<Event>, i: nat, j: nat)
    requires FreshTokens(s, events) && i < j < |events|
    requires events[i].Finalize? && events[j].Finalize? && events[i].token == events[j].token
    requires !ResultOf(Before(s, events, i), events[i]).LeaseMismatch?
    ensures ResultOf(Before(s, events, j), events[j]).LeaseMismatch?
  {
    var token := events[i].token;
    if !ResultOf(Before(s, events, j), events[j]).LeaseMismatch? {
      NoLaterBegin(s, events, i, j, token);
      HeldThroughout(s, events, i + 1, j, token);
      BeforeNext(s, events, i);
      assert false;
    }
  }

  predicate PassesPreflight(refs: seq<Ref>, commands: seq<ReceiveCommand>) {
    && (forall i :: 0 <= i < |commands| ==> IsValidRefName(commands[i].ref))
    && AllOk(Validate(refs, commands))
  }

  lemma {:induction false} ValidNamesPass(commands: seq<ReceiveCommand>)
    ensures InvalidStatuses(commands) == [] <==> forall i :: 0 <= i < |commands| ==> IsValidRefName(commands[i].ref)
  {
    if commands != [] {
      ValidNamesPass(commands[1..]);
      assert forall i :: 0 <= i < |commands[1..]| ==> commands[1..][i] == commands[i + 1];
      if InvalidStatuses(commands) == [] {
        forall i | 0 <= i < |commands| ensures IsValidRefName(commands[i].ref) {
          assert i > 0 ==> commands[i] == commands[1..][i - 1];
        }
      }
    }
  }

  /** The statuses of a refusal for names are those of exactly the commands with invalid names. */
  lemma {:induction false} InvalidNamesAreListed(commands: seq<ReceiveCommand>, status: ReceiveStatus)
    ensures status in InvalidStatuses(commands) <==>
            exists i :: 0 <= i < |commands| && !IsValidRefName(commands[i].ref)
                        && status == ReceiveStatus(commands[i].ref, false, "invalid")
  {
    if commands != [] {
      InvalidNamesAreListed(commands[1..], status);
      assert forall i :: 0 < i < |commands| ==> commands[i] == commands[1..][i - 1];
      assert forall i :: 0 <= i < |commands[1..]| ==> commands[1..][i] == commands[i + 1];
    }
  }

  /** A finalize commits iff its token is in the lease and its commands pass against the current refs. */
  lemma {:induction false} CommitCondition(s: Repo, e: Event)
    requires e.Finalize?
    ensures ResultOf(s, e).LeaseMismatch? <==> !Holds(s, e.token)
    ensures ResultOf(s, e).Committed? <==> Holds(s, e.token) && PassesPreflight(RefsOf(s), e.commands)
  {
    ValidNamesPass(e.commands);
  }

  /**
  A push whose commands passed the preflight checks against the refs its begin returned
  never gets a ref conflict, whatever the clock says: it commits iff its lease is still
  there, even past its expiry. The only thing excluded is an administrative `SetRefs`.
   */
  lemma {:induction false} PreflightedPushNeverConflicts(s: Repo, events: seq<Event>, i: nat, j: nat)
    requires FreshTokens(s, events) && i < j < |events|
    requires events[i].Begin? && events[j].Finalize? && events[j].token == events[i].token
    requires forall k :: i < k < j ==> !events[k].SetRefs?
    requires var begun := BeginStep(Before(s, events, i), events[i].clearAt, events[i].now, events[i].token).1;
             begun.Began? ==> PassesPreflight(begun.refs, events[j].commands)
    ensures ResultOf(Before(s, events, j), events[j]).Committed? <==> Holds(Before(s, events, j), events[i].token)
    ensures !ResultOf(Before(s, events, j), events[j]).RefConflict?
  {
    CommitCondition(Before(s, events, j), events[j]);
    if Holds(Before(s, events, j), events[i].token) {
      CommitIsExclusive(s, events, i, j);
    }
  }

  /**
  With administrative writes in between, the refs the last of them stored decide instead:
  a finalize whose lease is still there conflicts exactly when its commands fail against them.
   */
  lemma {:induction false} SetRefsDecides(s: Repo, events: seq<Event>, i: nat, k: nat, j: nat)
    requires FreshTokens(s, events) && i < k < j < |events|
    requires events[i].Begin? && events[j].Finalize? && events[j].token == events[i].token
    requires events[k].SetRefs? && forall l :: k < l < j ==> !events[l].SetRefs?
    requires Holds(Before(s, events, j), events[i].token)
    ensures ResultOf(Before(s, events, j), events[j]).RefConflict? <==>
            !PassesPreflight(events[k].refs, events[j].commands)
  {
    RefsSinceWrite(s, events, i, k, j);
    HeldConflicts(Before(s, events, j), events[j]);
  }

  lemma {:induction false} RefsSinceWrite(s: Repo, events: seq<Event>, i: nat, k: nat, j: nat)
    requires FreshTokens(s, events) && i < k < j < |events| && events[i].Begin? && events[k].SetRefs?
    requires forall l :: k < l < j ==> !events[l].SetRefs?
    requires Holds(Before(s, events, j), events[i].token)
    ensures RefsOf(Before(s, events, j)) == events[k].refs
  {
    NoLaterBegin(s, events, i, j, events[i].token);
    HeldKeepsRefs(s, events, k + 1, j, events[i].token);
    RefsAfterWrite(s, events, k);
  }

  lemma {:induction false} RefsAfterWrite(s: Repo, events: seq<Event>, k: nat)
    requires k < |events| && events[k].SetRefs?
    ensures RefsOf(Before(s, events, k + 1)) == events[k].refs
  {
    BeforeNext(s, events, k);
  }

  lemma {:induction false} HeldConflicts(s: Repo, e: Event)
    requires e.Finalize? && Holds(s, e.token)
    ensures ResultOf(s, e).RefConflict? <==> !PassesPreflight(RefsOf(s), e.commands)
  {
    CommitCondition(s, e);
  }

  /** A create passes on an empty repository, not once the branch exists. */
  lemma {:induction false} CreateNeedsAbsence(name: string, oid: string)
    requires oid != "" && !IsZero(oid)
    ensures var commands := [ReceiveCommand(ZERO_OID, oid, name)];
            AllOk(Validate([], commands)) && !AllOk(Validate([Ref(name, oid)], commands))
  {
    var commands := [ReceiveCommand(ZERO_OID, oid, name)];
    ValidationIsCompareAndSwap([], commands, 0);
    ValidationIsCompareAndSwap([Ref(name, oid)], commands, 0);
    ZeroIsCaseFree(oid);
    MapOfUnique([Ref(name, oid)]);
    assert !Validate([Ref(name, oid)], commands)[0].ok;
  }

  /**
  For instance: a push that creates a branch passes its preflight checks on a new repository,
  an administrative write creates the branch, and the finalize conflicts.
   */
  lemma {:induction false} CreateConflictsOnceCreated(name: string, oid: string)
    requires IsValidRefName(name) && oid != "" && !IsZero(oid)
    ensures var commands := [ReceiveCommand(ZERO_OID, oid, name)];
            var events := [Begin(0, 0, "t"), SetRefs([Ref(name, oid)]), Finalize("t", commands, None, 1)];
            var begun := BeginStep(EMPTY_REPO, 0, 0, "t").1;
            && FreshTokens(EMPTY_REPO, events)
            && begun.Began? && PassesPreflight(begun.refs, commands)
            && ResultOf(Before(EMPTY_REPO, events, 2), events[2]).RefConflict?
  {
    var commands := [ReceiveCommand(ZERO_OID, oid, name)];
    var events := [Begin(0, 0, "t"), SetRefs([Ref(name, oid)]), Finalize("t", commands, None, 1)];
    CreateNeedsAbsence(name, oid);
    assert events[..0] == [];
    BeforeNext(EMPTY_REPO, events, 0);
    BeforeNext(EMPTY_REPO, events, 1);
    HeldConflicts(Before(EMPTY_REPO, events, 2), events[2]);
  }

  // ---------- What a run of commits adds up to ----------

  /** The command lists committed by a run, in order. */
  function Committed(s: Repo, events: seq<Event>): seq<seq<ReceiveCommand>> {
    if events == [] then []
    else
      var init, e := events[..|events| - 1], events[|events| - 1];
      Committed(s, init) + if Commits(After(s, init), e) then [e.commands] else []
  }

  function ApplyBatches(refs: seq<Ref>, batches: seq<seq<ReceiveCommand>>): seq<Ref> {
    if batches == [] then refs
    else Apply(ApplyBatches(refs, batches[..|batches| - 1]), batches[|batches| - 1])
  }

  predicate HeadMatches(s: Repo) {
    && s.head.Some? && s.head.value.target != ""
    && s.head.value.oid == Find(RefsOf(s), s.head.value.target)
    && (s.head.value.oid.None? ==> s.head.value.unborn)
  }

  lemma {:induction false} StepEffects(s: Repo, e: Event)
    requires !e.SetRefs? && !e.Clear?
    ensures RefsOf(Step(s, e)) == if Commits(s, e) then Apply(RefsOf(s), e.commands) else RefsOf(s)
    ensures OrZero(Step(s, e).refsVersion) == OrZero(s.refsVersion) + if Commits(s, e) then 1 else 0
  {
  }

  /**
  As long as no one writes the refs by hand or clears the storage, the refs after any run
  are the fold of the committed command lists, the version counts the commits, and from the
  first commit on no two refs share a name.
   */
  lemma {:induction false} RunAddsUp(s: Repo, events: seq<Event>)
    requires forall k :: 0 <= k < |events| ==> !events[k].SetRefs? && !events[k].Clear?
    ensures var t, batches := After(s, events), Committed(s, events);
            && RefsOf(t) == ApplyBatches(RefsOf(s), batches)
            && OrZero(t.refsVersion) == OrZero(s.refsVersion) + |batches|
            && (batches != [] || UniqueNames(RefsOf(s)) ==> UniqueNames(RefsOf(t)))
  {
    if events != [] {
      var init, e := events[..|events| - 1], events[|events| - 1];
      RunAddsUp(s, init);
      StepEffects(After(s, init), e);
      var batches := Committed(s, init);
      if Commits(After(s, init), e) {
        assert (batches + [e.commands])[..|batches|] == batches;
        ApplyEffect(RefsOf(After(s, init)), e.commands, "");
      } else {
        assert batches + [] == batches;
      }
    }
  }

  lemma {:induction false} StepKeepsHead(s: Repo, e: Event)
    requires !e.SetRefs? && !e.SetHead? && !e.Clear?
    ensures Commits(s, e) || e.GetHead? || HeadMatches(s) ==> HeadMatches(Step(s, e))
  {
    StepEffects(s, e);
    var t := Step(s, e);
    if !Commits(s, e) && !e.GetHead? {
      assert t.head == s.head && RefsOf(t) == RefsOf(s);
    }
  }

  /** If no one writes HEAD by hand either, it matches the refs from the first commit on. */
  lemma {:induction false} RunKeepsHead(s: Repo, events: seq<Event>)
    requires forall k :: 0 <= k < |events| ==> !events[k].SetRefs? && !events[k].SetHead? && !events[k].Clear?
    ensures Committed(s, events) != [] || HeadMatches(s) ==> HeadMatches(After(s, events))
  {
    if events != [] {
      RunKeepsHead(s, events[..|events| - 1]);
      StepKeepsHead(After(s, events[..|events| - 1]), events[|events| - 1]);
    }
  }

  /**
  Each committed command swapped exactly the value its old id named, as of just before
  the commit; refs it did not name are untouched and each named one has its last write.
   */
  lemma {:induction false} CommitSwaps(s: Repo, e: Event, name: string)
    requires Commits(s, e)
    ensures forall i :: 0 <= i < |e.commands| ==>
              Lower(e.commands[i].oldOid) == Lower(ExpectedOld(RefsOf(s), e.commands[i].ref))
    ensures Find(RefsOf(Step(s, e)), name) ==
            match LastWrite(e.commands, name)
            case None => Find(MapOf(RefsOf(s)), name)
            case Some(written) => written
    ensures UniqueNames(RefsOf(Step(s, e)))
  {
    StepEffects(s, e);
    ApplyEffect(RefsOf(s), e.commands, name);
    CommitCondition(s, e);
    forall i | 0 <= i < |e.commands|
      ensures Lower(e.commands[i].oldOid) == Lower(ExpectedOld(RefsOf(s), e.commands[i].ref))
    {
      assert Validate(RefsOf(s), e.commands)[i].ok;
      ValidationIsCompareAndSwap(RefsOf(s), e.commands, i);
    }
  }

  // ---------- The pack catalog ----------

  predicate IsReceive(row: PackCatalogRow) {
    row.kind == "receive"
  }

  ghost predicate Apart(row: PackCatalogRow, other: PackCatalogRow) {
    row.packKey != other.packKey && (IsReceive(row) && IsReceive(other) ==> row.seqLo != other.seqLo)
  }

  /** Keys are unique, and receive rows carry distinct sequence numbers below `bound`. */
  ghost predicate CatalogOk(catalog: seq<PackCatalogRow>, bound: nat) {
    catalog == [] ||
    (&& (IsReceive(catalog[0]) ==> catalog[0].seqLo == catalog[0].seqHi < bound)
     && (forall row :: row in catalog[1..] ==> Apart(catalog[0], row))
     && CatalogOk(catalog[1..], bound))
  }

  lemma {:induction false} UpsertMembers(catalog: seq<PackCatalogRow>, row: PackCatalogRow)
    ensures forall r :: r in Upsert(catalog, row) ==> r == row || r in catalog
  {
    if catalog != [] && catalog[0].packKey != row.packKey {
      UpsertMembers(catalog[1..], row);
    }
  }

  lemma {:induction false} CatalogRowsAreBelow(catalog: seq<PackCatalogRow>, bound: nat, row: PackCatalogRow)
    requires CatalogOk(catalog, bound) && row in catalog && IsReceive(row)
    ensures row.seqLo < bound
  {
    if row != catalog[0] {
      CatalogRowsAreBelow(catalog[1..], bound, row);
    }
  }

  lemma {:induction false} RaiseBound(catalog: seq<PackCatalogRow>, bound: nat)
    requires CatalogOk(catalog, bound)
    ensures CatalogOk(catalog, bound + 1)
  {
    if catalog != [] {
      RaiseBound(catalog[1..], bound);
    }
  }

  lemma {:induction false} UpsertOk(catalog: seq<PackCatalogRow>, bound: nat, row: PackCatalogRow)
    requires CatalogOk(catalog, bound) && IsReceive(row) && row.seqLo == row.seqHi == bound
    ensures CatalogOk(Upsert(catalog, row), bound + 1)
  {
    if catalog != [] {
      var rest := catalog[1..];
      if catalog[0].packKey == row.packKey {
        RaiseBound(rest, bound);
        forall r | r in rest && IsReceive(r) ensures r.seqLo < bound {
          CatalogRowsAreBelow(rest, bound, r);
        }
      } else {
        UpsertOk(rest, bound, row);
        UpsertMembers(rest, row);
      }
    }
  }

  lemma {:induction false} RemovalOk(catalog: seq<PackCatalogRow>, packKey: string, bound: nat)
    requires CatalogOk(catalog, bound)
    ensures CatalogOk(WithoutPack(catalog, packKey), bound)
  {
    if catalog != [] {
      var rest := WithoutPack(catalog[1..], packKey);
      RemovalOk(catalog[1..], packKey, bound);
      assert WithoutPack(catalog, packKey) == if catalog[0].packKey == packKey then rest else [catalog[0]] + rest;
    }
  }

  /** Every modelled step keeps the catalog in order, pack removal and clearing the storage included. */
  lemma {:induction false} StepKeepsCatalog(s: Repo, e: Event)
    requires CatalogOk(s.catalog, OrOne(s.nextPackSeq))
    ensures CatalogOk(Step(s, e).catalog, OrOne(Step(s, e).nextPackSeq))
  {
    if Commits(s, e) && e.pack.Some? {
      CatalogStepOk(EnsureDefaults(s), e.pack.value, e.now);
    }
    if e.RemovePack? {
      RemovalOk(s.catalog, FullPackKey(e.prefix, e.packKey), OrOne(s.nextPackSeq));
    }
  }

  lemma {:induction false} CatalogStepOk(s: Repo, pack: StagedPack, now: int)
    requires CatalogOk(s.catalog, OrOne(s.nextPackSeq))
    ensures CatalogOk(CatalogStep(s, pack, now).catalog, OrOne(CatalogStep(s, pack, now).nextPackSeq))
  {
    var seqNo := OrOne(s.nextPackSeq);
    UpsertOk(s.catalog, seqNo, PackCatalogRow(pack.packKey, "receive", "active", 0, seqNo, seqNo, pack.objectCount,
                                              pack.packBytes, pack.idxBytes, now, None));
  }

  lemma {:induction false} RunKeepsCatalog(s: Repo, events: seq<Event>)
    requires CatalogOk(s.catalog, OrOne(s.nextPackSeq))
    ensures CatalogOk(After(s, events).catalog, OrOne(After(s, events).nextPackSeq))
  {
    if events != [] {
      RunKeepsCatalog(s, events[..|events| - 1]);
      StepKeepsCatalog(After(s, events[..|events| - 1]), events[|events| - 1]);
    }
  }

  /** In such a catalog any two receive rows have different sequence numbers. */
  lemma {:induction false} ReceiveSequenceNumbersDiffer(catalog: seq<PackCatalogRow>, bound: nat, i: nat, j: nat)
    requires CatalogOk(catalog, bound) && i < j < |catalog| && IsReceive(catalog[i]) && IsReceive(catalog[j])
    ensures catalog[i].seqLo != catalog[j].seqLo && catalog[i].packKey != catalog[j].packKey
  {
    if i == 0 {
      assert catalog[j] == catalog[1..][j - 1];
      assert Apart(catalog[0], catalog[j]);
    } else {
      ReceiveSequenceNumbersDiffer(catalog[1..], bound, i - 1, j - 1);
    }
  }

  // ---------- Committed packs stay listed ----------

  /** What a committed push must leave in the catalog. */
  predicate Records(row: PackCatalogRow, pack: StagedPack) {
    && row.packKey == pack.packKey && row.packBytes == pack.packBytes && row.idxBytes == pack.idxBytes
    && row.objectCount == pack.objectCount
    && row.kind == "receive" && row.state == "active" && row.tier == 0 && row.supersededBy == None
  }

  /** The row of a pack. */
  function RowOf(catalog: seq<PackCatalogRow>, packKey: string): Option<PackCatalogRow> {
    if catalog == [] then None
    else if catalog[0].packKey == packKey then Some(catalog[0])
    else RowOf(catalog[1..], packKey)
  }

  predicate IsActive(catalog: seq<PackCatalogRow>, packKey: string) {
    RowOf(catalog, packKey).Some? && RowOf(catalog, packKey).value.state == "active"
  }

  lemma {:induction false} RowOfIsRow(catalog: seq<PackCatalogRow>, packKey: string)
    ensures var row := RowOf(catalog, packKey);
            && (row.Some? ==> row.value in catalog && row.value.packKey == packKey)
            && (row.Some? ==> StateOf(catalog, packKey) == row.value.state)
  {
    if catalog != [] && catalog[0].packKey != packKey {
      RowOfIsRow(catalog[1..], packKey);
    }
  }

  lemma {:induction false} UpsertRowOf(catalog: seq<PackCatalogRow>, row: PackCatalogRow, packKey: string)
    ensures RowOf(Upsert(catalog, row), packKey)
         == if packKey == row.packKey then Some(row) else RowOf(catalog, packKey)
  {
    if catalog != [] && catalog[0].packKey != row.packKey {
      UpsertRowOf(catalog[1..], row, packKey);
    }
  }

  lemma {:induction false} RemovalRowOf(catalog: seq<PackCatalogRow>, gone: string, packKey: string)
    requires packKey != gone
    ensures RowOf(WithoutPack(catalog, gone), packKey) == RowOf(catalog, packKey)
  {
    if catalog != [] {
      RemovalRowOf(catalog[1..], gone, packKey);
      var rest := WithoutPack(catalog[1..], gone);
      assert WithoutPack(catalog, gone) == if catalog[0].packKey == gone then rest else [catalog[0]] + rest;
    }
  }

  predicate CommitsPack(s: Repo, e: Event, packKey: string) {
    Commits(s, e) && e.pack.Some? && e.pack.value.packKey == packKey
  }

  /** The catalog after a commit with a pack. */
  lemma {:induction false} CommitCatalog(s: Repo, e: Event) returns (row: PackCatalogRow)
    requires Commits(s, e) && e.pack.Some?
    ensures Step(s, e).catalog == Upsert(s.catalog, row) && Records(row, e.pack.value)
    ensures row.seqLo == row.seqHi == OrOne(s.nextPackSeq) && row.createdAt == e.now
    ensures Step(s, e).nextPackSeq == Some(OrOne(s.nextPackSeq) + 1)
    ensures Step(s, e).packsetVersion == Some(OrZero(s.packsetVersion) + 1)
  {
    var pack, seqNo := e.pack.value, OrOne(s.nextPackSeq);
    row := PackCatalogRow(pack.packKey, "receive", "active", 0, seqNo, seqNo, pack.objectCount, pack.packBytes,
                          pack.idxBytes, e.now, None);
  }

  /** What a commit with a pack records: its row, under the next sequence number, and one more version. */
  lemma {:induction false} CommitRecordsPack(s: Repo, e: Event)
    requires Commits(s, e) && e.pack.Some?
    ensures var row := RowOf(Step(s, e).catalog, e.pack.value.packKey);
            && row.Some? && Records(row.value, e.pack.value) && row.value in Active(Step(s, e).catalog)
            && row.value.seqLo == row.value.seqHi == OrOne(s.nextPackSeq) && row.value.createdAt == e.now
    ensures Step(s, e).nextPackSeq == Some(OrOne(s.nextPackSeq) + 1)
    ensures Step(s, e).packsetVersion == Some(OrZero(s.packsetVersion) + 1)
  {
    var row := CommitCatalog(s, e);
    UpsertRowOf(s.catalog, row, row.packKey);
    RowOfIsRow(Upsert(s.catalog, row), row.packKey);
    ActiveMembers(Upsert(s.catalog, row), row);
  }

  /** Every row is older than the next push. */
  ghost predicate Numbered(s: Repo) {
    forall row :: row in s.catalog ==> row.seqHi < OrOne(s.nextPackSeq)
  }

  lemma {:induction false} StepKeepsNumbered(s: Repo, e: Event)
    requires Numbered(s)
    ensures Numbered(Step(s, e))
  {
    if Commits(s, e) && e.pack.Some? {
      var row := CommitCatalog(s, e);
      UpsertMembers(s.catalog, row);
    }
  }

  /** Where every row is older, a committed pack is the first of the active catalog. */
  lemma {:induction false} CommittedPackIsFirst(s: Repo, e: Event)
    requires Commits(s, e) && e.pack.Some? && Numbered(s)
    ensures var active := Active(Step(s, e).catalog);
            active != [] && Records(active[0], e.pack.value)
  {
    var row := CommitCatalog(s, e);
    var catalog := Upsert(s.catalog, row);
    UpsertRowOf(s.catalog, row, row.packKey);
    RowOfIsRow(catalog, row.packKey);
    UpsertMembers(s.catalog, row);
    ActiveMembers(catalog, row);
    ActiveMembers(catalog, Active(catalog)[0]);
    ActiveIsExact(catalog);
    NewestIsFirst(Active(catalog), row);
  }

  lemma {:induction false} NewestIsFirst(rows: seq<PackCatalogRow>, row: PackCatalogRow)
    requires NewestFirst(rows) && row in rows && (rows[0] != row ==> rows[0].seqHi < row.seqHi)
    ensures rows[0] == row
  {
  }

  /** How many rows each tier has. */
  function Tiers(rows: seq<PackCatalogRow>): multiset<nat> {
    multiset(seq(|rows|, i requires 0 <= i < |rows| => rows[i].tier))
  }

  lemma {:induction false} CountIsMultiplicity(rows: seq<PackCatalogRow>, tier: nat)
    ensures CountTier(rows, tier) == Tiers(rows)[tier]
  {
    if rows != [] {
      CountIsMultiplicity(rows[1..], tier);
      var tiers := seq(|rows|, i requires 0 <= i < |rows| => rows[i].tier);
      var rest := seq(|rows[1..]|, i requires 0 <= i < |rows[1..]| => rows[1..][i].tier);
      assert tiers == [rows[0].tier] + rest;
    }
  }

  lemma {:induction false} TierHasRow(rows: seq<PackCatalogRow>, tier: nat) returns (i: nat)
    requires Tiers(rows)[tier] > 0
    ensures i < |rows| && rows[i].tier == tier
  {
    var tiers := seq(|rows|, i requires 0 <= i < |rows| => rows[i].tier);
    assert tier in tiers;
    i :| 0 <= i < |tiers| && tiers[i] == tier;
  }

  /** Compaction is needed exactly when some tier has five or more active packs. */
  lemma {:induction false} CompactionNeedsFive(rows: seq<PackCatalogRow>)
    ensures NeedsCompaction(rows) <==> exists tier :: Tiers(rows)[tier] >= 5
  {
    if i :| 0 <= i < |rows| && CountTier(rows, rows[i].tier) > COMPACTION_FAN_IN {
      CountIsMultiplicity(rows, rows[i].tier);
    }
    if tier :| Tiers(rows)[tier] >= 5 {
      var i := TierHasRow(rows, tier);
      CountIsMultiplicity(rows, tier);
    }
  }

  /** What a commit reports and stores beside refs and packs: HEAD keeps its target, the lease is gone. */
  lemma {:induction false} CommitReports(s: Repo, e: Event)
    requires Commits(s, e)
    ensures var t, r := Step(s, e), ResultOf(s, e);
            && t.receiveLease == None && t.compactLease == s.compactLease
            && t.head.Some? && t.head.value.target
               == (if s.head.Some? && s.head.value.target != "" then s.head.value.target else "refs/heads/main")
            && (r.changed <==> e.commands != []) && (r.empty <==> RefsOf(t) == [])
            && |r.statuses| == |e.commands| && AllOk(r.statuses)
  {
  }

  /** A finalize that does not commit keeps everything but default counters, and drops the lease if it was its own. */
  lemma {:induction false} RefusalKeepsState(s: Repo, e: Event)
    requires e.Finalize? && !Commits(s, e)
    ensures var t := Step(s, e);
            && t.refs == s.refs && t.head == s.head && t.catalog == s.catalog
            && t.compactLease == s.compactLease && t.compactionWantedAt == s.compactionWantedAt
            && OrZero(t.refsVersion) == OrZero(s.refsVersion) && OrZero(t.packsetVersion) == OrZero(s.packsetVersion)
            && OrOne(t.nextPackSeq) == OrOne(s.nextPackSeq)
            && t.receiveLease == if Holds(s, e.token) then None else s.receiveLease
  {
  }

  /** Asking for HEAD refreshes its id and keeps its target. */
  lemma {:induction false} GetHeadKeepsTarget(s: Repo)
    ensures var t := Step(s, GetHead);
            && t.head.Some? && t.head.value.oid == Find(RefsOf(s), t.head.value.target)
            && t.head.value.target
               == (if s.head.Some? && s.head.value.target != "" then s.head.value.target else "refs/heads/main")
            && t == s.(head := t.head)
  {
  }

  lemma {:induction false} CommitChecksCompaction(s: Repo, e: Event)
    requires Commits(s, e)
    ensures var wanted := e.pack.Some? && NeedsCompaction(Active(Step(s, e).catalog));
            && ResultOf(s, e).shouldQueueCompaction == wanted
            && Step(s, e).compactionWantedAt == if wanted then Some(e.now) else s.compactionWantedAt
  {
  }

  /** A commit asks for compaction exactly when it added a pack and some tier now has five or more active packs. */
  lemma {:induction false} CommitAsksForCompaction(s: Repo, e: Event)
    requires Commits(s, e)
    ensures ResultOf(s, e).shouldQueueCompaction <==>
            e.pack.Some? && exists tier :: Tiers(Active(Step(s, e).catalog))[tier] >= 5
    ensures Step(s, e).compactionWantedAt
         == if ResultOf(s, e).shouldQueueCompaction then Some(e.now) else s.compactionWantedAt
  {
    CommitChecksCompaction(s, e);
    CompactionNeedsFive(Active(Step(s, e).catalog));
  }

  /** A begin within thirty minutes of a granted one is refused while that lease is stored. */
  lemma {:induction false} LeaseLastsThirtyMinutes(s: Repo, events: seq<Event>, i: nat, j: nat, clearAt: int, now: int,
                                                   token: string)
    requires FreshTokens(s, events) && i < j <= |events| && events[i].Begin?
    requires Holds(Before(s, events, j), events[i].token) && clearAt < events[i].now + 30 * 60 * 1000
    ensures BeginStep(Before(s, events, j), clearAt, now, token).1 == Busy(10)
  {
    var granted := events[i].token;
    BeginGranted(s, events, i, j);
    NoLaterBegin(s, events, i, j, granted);
    BeforeNext(s, events, i);
    HeldLeaseIsSame(s, events, i + 1, j, granted);
  }

  lemma {:induction false} HeldLeaseIsSame(s: Repo, events: seq<Event>, i: nat, j: nat, token: string)
    requires i <= j <= |events| && Holds(Before(s, events, j), token)
    requires forall k :: i <= k < j ==> !BeginsWith(events[k], token)
    ensures Before(s, events, j).receiveLease == Before(s, events, i).receiveLease
    decreases j - i
  {
    if i < j {
      BeforeNext(s, events, j - 1);
      StepBack(Before(s, events, j - 1), events[j - 1], token);
      HeldLeaseIsSame(s, events, i, j - 1, token);
    }
  }

  /** An active pack stays active through every step but clearing the storage; only its own commit replaces its row. */
  lemma {:induction false} StepKeepsActive(s: Repo, e: Event, packKey: string)
    requires IsActive(s.catalog, packKey) && !e.Clear?
    ensures IsActive(Step(s, e).catalog, packKey)
    ensures !CommitsPack(s, e, packKey) ==> RowOf(Step(s, e).catalog, packKey) == RowOf(s.catalog, packKey)
  {
    RowOfIsRow(s.catalog, packKey);
    if e.RemovePack? && FullPackKey(e.prefix, e.packKey) != packKey {
      RemovalRowOf(s.catalog, FullPackKey(e.prefix, e.packKey), packKey);
    }
    if Commits(s, e) && e.pack.Some? {
      CommitUpserts(s, e, packKey);
    }
  }

  lemma {:induction false} CommitUpserts(s: Repo, e: Event, packKey: string)
    requires Commits(s, e) && e.pack.Some?
    ensures packKey != e.pack.value.packKey ==> RowOf(Step(s, e).catalog, packKey) == RowOf(s.catalog, packKey)
    ensures packKey == e.pack.value.packKey ==> IsActive(Step(s, e).catalog, packKey)
  {
    var row := CommitCatalog(s, e);
    UpsertRowOf(s.catalog, row, packKey);
  }

  /** No event between `i` and `j` commits this pack. */
  predicate NotAgain(s: Repo, events: seq<Event>, i: nat, j: nat, packKey: string)
    requires j <= |events|
  {
    forall k :: i < k < j ==> !CommitsPack(Before(s, events, k), events[k], packKey)
  }

  lemma {:induction false} CommittedRow(s: Repo, events: seq<Event>, i: nat, pack: StagedPack)
    requires i < |events| && Commits(Before(s, events, i), events[i]) && events[i].pack == Some(pack)
    ensures IsActive(Before(s, events, i + 1).catalog, pack.packKey)
    ensures Records(RowOf(Before(s, events, i + 1).catalog, pack.packKey).value, pack)
  {
    BeforeNext(s, events, i);
    CommitRecordsPack(Before(s, events, i), events[i]);
  }

  lemma {:induction false} NextKeepsActive(s: Repo, events: seq<Event>, k: nat, packKey: string)
    requires k < |events| && !events[k].Clear? && IsActive(Before(s, events, k).catalog, packKey)
    ensures IsActive(Before(s, events, k + 1).catalog, packKey)
    ensures !CommitsPack(Before(s, events, k), events[k], packKey) ==>
              RowOf(Before(s, events, k + 1).catalog, packKey) == RowOf(Before(s, events, k).catalog, packKey)
  {
    BeforeNext(s, events, k);
    StepKeepsActive(Before(s, events, k), events[k], packKey);
  }

  lemma {:induction false} CommittedRowStays(s: Repo, events: seq<Event>, i: nat, j: nat, pack: StagedPack)
    requires i < j <= |events| && Commits(Before(s, events, i), events[i]) && events[i].pack == Some(pack)
    requires forall k :: i < k < j ==> !events[k].Clear?
    ensures IsActive(Before(s, events, j).catalog, pack.packKey)
    ensures NotAgain(s, events, i, j, pack.packKey) ==>
              Records(RowOf(Before(s, events, j).catalog, pack.packKey).value, pack)
    decreases j - i
  {
    if j == i + 1 {
      CommittedRow(s, events, i, pack);
    } else {
      CommittedRowStays(s, events, i, j - 1, pack);
      NextKeepsActive(s, events, j - 1, pack.packKey);
    }
  }

  /**
  Over any run a committed pack stays in the active catalog until the storage is cleared, with
  the sizes and the object count of its push unless the same key was committed again; any
  later begin that is granted lists it, and it cannot be removed by hand.
   */
  lemma {:induction false} CommittedPackStays(s: Repo, events: seq<Event>, i: nat, j: nat, clearAt: int, now: int,
                                              token: string)
    requires i < j <= |events| && Commits(Before(s, events, i), events[i]) && events[i].pack.Some?
    requires forall k :: i < k < j ==> !events[k].Clear?
    ensures var pack, t := events[i].pack.value, Before(s, events, j);
            var once := NotAgain(s, events, i, j, pack.packKey);
            var begun := BeginStep(t, clearAt, now, token).1;
            && (exists row :: row in Active(t.catalog) && row.packKey == pack.packKey && (once ==> Records(row, pack)))
            && (begun.Began? ==> exists row :: row in begun.activeCatalog && row.packKey == pack.packKey
                                               && (once ==> Records(row, pack)))
            && (forall prefix :: prefix <= pack.packKey ==> RemovePackStep(t, prefix, pack.packKey) == (t, false))
  {
    CommittedRowStays(s, events, i, j, events[i].pack.value);
    var t, key := Before(s, events, j), events[i].pack.value.packKey;
    RowOfIsRow(t.catalog, key);
    ActiveMembers(t.catalog, RowOf(t.catalog, key).value);
  }
}
