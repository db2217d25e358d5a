/**
Repository routing: `src/worker/repositories/route.ts`, and the cache repair of
`src/worker/tasks/routeCacheSync.ts`.
 */
module Routes {
  import opened Bytes

  datatype Visibility = Public | Private

  datatype Namespace = Namespace(id: string, slug: string)

  datatype Repository = Repository(
    id: string,
    namespaceId: string,
    slug: string,
    doName: string,
    visibility: Visibility,
    updatedAt: int)

  /** One snapshot of the relational store. */
  datatype Db = Db(namespaces: seq<Namespace>, repositories: seq<Repository>)

  datatype Record = Record(repositoryId: string, namespaceId: string, doName: string, updatedAt: int)

  /** What a key of the key-value store holds; a malformed value reads as no record. */
  datatype Stored = Valid(record: Record) | Malformed

  type Kv = map<string, Stored>

  const KEY_PREFIX: string := "repo-route:v1:"

  function RouteCacheKey(namespaceSlug: string, repoSlug: string): string {
    KEY_PREFIX + namespaceSlug + ['/'] + repoSlug
  }

  function GetRecord(kv: Kv, namespaceSlug: string, repoSlug: string): Option<Record> {
    var key := RouteCacheKey(namespaceSlug, repoSlug);
    if key in kv && kv[key].Valid? then Some(kv[key].record) else None
  }

  // ---------- Queries ----------

  function FindNamespaceById(rows: seq<Namespace>, id: string): (r: Option<Namespace>)
    ensures r.Some? ==> r.value in rows && r.value.id == id
    ensures r.None? ==> forall n :: n in rows ==> n.id != id
  {
    if rows == [] then None else if rows[0].id == id then Some(rows[0]) else FindNamespaceById(rows[1..], id)
  }

  function FindNamespaceBySlug(rows: seq<Namespace>, slug: string): (r: Option<Namespace>)
    ensures r.Some? ==> r.value in rows && r.value.slug == slug
    ensures r.None? ==> forall n :: n in rows ==> n.slug != slug
  {
    if rows == [] then None else if rows[0].slug == slug then Some(rows[0]) else FindNamespaceBySlug(rows[1..], slug)
  }

  function FindRepositoryById(rows: seq<Repository>, id: string): (r: Option<Repository>)
    ensures r.Some? ==> r.value in rows && r.value.id == id
    ensures r.None? ==> forall x :: x in rows ==> x.id != id
  {
    if rows == [] then None else if rows[0].id == id then Some(rows[0]) else FindRepositoryById(rows[1..], id)
  }

  function FindRepositoryBySlug(rows: seq<Repository>, namespaceId: string, slug: string): (r: Option<Repository>)
    ensures r.Some? ==> r.value in rows && r.value.namespaceId == namespaceId && r.value.slug == slug
    ensures r.None? ==> forall x :: x in rows ==> !(x.namespaceId == namespaceId && x.slug == slug)
  {
    if rows == [] then None
    else if rows[0].namespaceId == namespaceId && rows[0].slug == slug then Some(rows[0])
    else FindRepositoryBySlug(rows[1..], namespaceId, slug)
  }

  /** The unique keys of the schema. */
  ghost predicate UniqueKeys(db: Db) {
    && (forall x, y :: x in db.namespaces && y in db.namespaces && (x.id == y.id || x.slug == y.slug) ==> x == y)
    && (forall x, y :: x in db.repositories && y in db.repositories
                       && (x.id == y.id || x.doName == y.doName || (x.namespaceId == y.namespaceId && x.slug == y.slug))
          ==> x == y)
  }

  // ---------- Resolution ----------

  datatype Source = FromKv | FromD1

  datatype Route = Route(routeNamespaceSlug: string, routeRepoSlug: string, namespaceId: string, repositoryId: string,
                         doName: string, visibility: Visibility, source: Source)

  datatype Mode = RouteCacheOnly | AllowD1Fallback

  function RouteTo(namespaceSlug: string, repoSlug: string, r: Repository, source: Source): Route {
    Route(namespaceSlug, repoSlug, r.namespaceId, r.id, r.doName, r.visibility, source)
  }

  /** The cached candidate, when every field is confirmed by the row it names. */
  function ResolveCached(db: Db, kv: Kv, namespaceSlug: string, repoSlug: string): Option<Route> {
    var cached := GetRecord(kv, namespaceSlug, repoSlug);
    if cached.None? then None
    else
      var repository := FindRepositoryById(db.repositories, cached.value.repositoryId);
      if repository.None? || repository.value.namespaceId != cached.value.namespaceId
         || repository.value.doName != cached.value.doName || repository.value.slug != repoSlug then None
      else
        var namespace := FindNamespaceById(db.namespaces, repository.value.namespaceId);
        if namespace.None? || namespace.value.slug != namespaceSlug then None
        else Some(RouteTo(namespaceSlug, repoSlug, repository.value, FromKv))
  }

  function ResolveD1(db: Db, namespaceSlug: string, repoSlug: string): Option<Route> {
    var namespace := FindNamespaceBySlug(db.namespaces, namespaceSlug);
    if namespace.None? then None
    else
      var repository := FindRepositoryBySlug(db.repositories, namespace.value.id, repoSlug);
      if repository.None? then None
      else
        Some(Route(namespaceSlug, repoSlug, namespace.value.id, repository.value.id, repository.value.doName,
                   repository.value.visibility, FromD1))
  }

  function ResolveRepositoryRoute(db: Db, kv: Kv, namespaceSlug: string, repoSlug: string, mode: Mode): Option<Route> {
    var cached := ResolveCached(db, kv, namespaceSlug, repoSlug);
    if cached.Some? then cached
    else if mode == RouteCacheOnly then None
    else ResolveD1(db, namespaceSlug, repoSlug)
  }

  /** The store's answer: the route of the row with these slugs, field by field, or none. */
  lemma {:induction false} StoreAnswers(db: Db, namespaceSlug: string, repoSlug: string)
    requires UniqueKeys(db)
    ensures var r := ResolveD1(db, namespaceSlug, repoSlug);
            && (r.Some? <==> exists n, x :: n in db.namespaces && x in db.repositories && x.namespaceId == n.id
                                            && n.slug == namespaceSlug && x.slug == repoSlug)
            && (forall n, x :: n in db.namespaces && x in db.repositories && x.namespaceId == n.id
                               && n.slug == namespaceSlug && x.slug == repoSlug ==>
                  && r.Some? && r.value.routeNamespaceSlug == n.slug && r.value.routeRepoSlug == x.slug
                  && r.value.namespaceId == n.id && r.value.repositoryId == x.id && r.value.doName == x.doName
                  && r.value.visibility == x.visibility && r.value.source == FromD1)
  {
    var namespace := FindNamespaceBySlug(db.namespaces, namespaceSlug);
    if namespace.Some? {
      var repository := FindRepositoryBySlug(db.repositories, namespace.value.id, repoSlug);
    }
  }

  /** A route apart from where it was found. */
  function Target(r: Option<Route>): Option<Route> {
    if r.None? then None else Some(r.value.(source := FromD1))
  }

  /** The cache entry names exactly the row that the store resolves these slugs to. */
  predicate NamesTarget(cached: Option<Record>, r: Option<Route>) {
    cached.Some? && r.Some? && cached.value.repositoryId == r.value.repositoryId
    && cached.value.namespaceId == r.value.namespaceId && cached.value.doName == r.value.doName
  }

  lemma {:induction false} CachedIsConfirmed(db: Db, kv: Kv, namespaceSlug: string, repoSlug: string)
    requires UniqueKeys(db)
    ensures var cached := ResolveCached(db, kv, namespaceSlug, repoSlug);
            cached.Some? ==> Target(cached) == ResolveD1(db, namespaceSlug, repoSlug)
                             && NamesTarget(GetRecord(kv, namespaceSlug, repoSlug),
                                            ResolveD1(db, namespaceSlug, repoSlug))
  {
    var cached := ResolveCached(db, kv, namespaceSlug, repoSlug);
    if cached.Some? {
      var repository := FindRepositoryById(db.repositories, cached.value.repositoryId).value;
      var namespace := FindNamespaceById(db.namespaces, repository.namespaceId).value;
      assert FindNamespaceBySlug(db.namespaces, namespaceSlug) == Some(namespace);
      assert FindRepositoryBySlug(db.repositories, namespace.id, repoSlug) == Some(repository);
    }
  }

  lemma {:induction false} NamedIsCached(db: Db, kv: Kv, namespaceSlug: string, repoSlug: string)
    requires UniqueKeys(db)
    requires NamesTarget(GetRecord(kv, namespaceSlug, repoSlug), ResolveD1(db, namespaceSlug, repoSlug))
    ensures ResolveCached(db, kv, namespaceSlug, repoSlug).Some?
  {
    var namespace := FindNamespaceBySlug(db.namespaces, namespaceSlug).value;
    var repository := FindRepositoryBySlug(db.repositories, namespace.id, repoSlug).value;
    assert FindRepositoryById(db.repositories, repository.id) == Some(repository);
    assert FindNamespaceById(db.namespaces, namespace.id) == Some(namespace);
  }

  /**
  For any cache content: with fallback the route is the one the store alone gives, apart from
  `source`; and from the cache alone it is that route exactly when the entry names its row.
   */
  lemma {:induction false} CacheNeverMisroutes(db: Db, kv: Kv, namespaceSlug: string, repoSlug: string)
    requires UniqueKeys(db)
    ensures var truth := ResolveD1(db, namespaceSlug, repoSlug);
            && Target(ResolveRepositoryRoute(db, kv, namespaceSlug, repoSlug, AllowD1Fallback)) == truth
            && Target(ResolveRepositoryRoute(db, kv, namespaceSlug, repoSlug, RouteCacheOnly))
               == if NamesTarget(GetRecord(kv, namespaceSlug, repoSlug), truth) then truth else None
  {
    CachedIsConfirmed(db, kv, namespaceSlug, repoSlug);
    if NamesTarget(GetRecord(kv, namespaceSlug, repoSlug), ResolveD1(db, namespaceSlug, repoSlug)) {
      NamedIsCached(db, kv, namespaceSlug, repoSlug);
    }
  }

  // ---------- Cache repair ----------

  datatype Message = Message(repositoryId: string, namespaceSlug: string, repoSlug: string)

  function CapturedKey(m: Message): string {
    RouteCacheKey(m.namespaceSlug, m.repoSlug)
  }

  /** Where a row's route belongs, if its namespace exists. */
  function CanonicalKey(db: Db, r: Repository): Option<string> {
    var namespace := FindNamespaceById(db.namespaces, r.namespaceId);
    if namespace.None? then None else Some(RouteCacheKey(namespace.value.slug, r.slug))
  }

  function RecordOf(r: Repository): Record {
    Record(r.id, r.namespaceId, r.doName, r.updatedAt)
  }

  function Synced(db: Db, kv: Kv, m: Message): Kv {
    var repository := FindRepositoryById(db.repositories, m.repositoryId);
    if repository.None? || CanonicalKey(db, repository.value).None? then kv - {CapturedKey(m)}
    else
      var canonicalKey := CanonicalKey(db, repository.value).value;
      if repository.value.visibility == Private then kv - {CapturedKey(m), canonicalKey}
      else (kv - {CapturedKey(m)})[canonicalKey := Valid(RecordOf(repository.value))]
  }

  /** The effect of a delivery that fails after its first store operation. */
  function Stopped(db: Db, kv: Kv, m: Message): Kv {
    var repository := FindRepositoryById(db.repositories, m.repositoryId);
    if repository.Some? && CanonicalKey(db, repository.value) == Some(CapturedKey(m)) then Synced(db, kv, m)
    else kv - {CapturedKey(m)}
  }

  class RouteCache {
    var routes: Kv

    method PutRouteCacheRecord(namespaceSlug: string, repoSlug: string, record: Record)
      modifies this
      ensures routes == old(routes)[RouteCacheKey(namespaceSlug, repoSlug) := Valid(record)]
    {
      routes := routes[RouteCacheKey(namespaceSlug, repoSlug) := Valid(record)];
    }

    method DeleteRouteCacheRecord(namespaceSlug: string, repoSlug: string)
      modifies this
      ensures routes == old(routes) - {RouteCacheKey(namespaceSlug, repoSlug)}
    {
      routes := routes - {RouteCacheKey(namespaceSlug, repoSlug)};
    }

    /** With `fails`, the store refuses every operation after the first; the message is then retried. */
    method HandleRouteCacheSyncMessage(db: Db, body: Message, fails: bool) returns (acked: bool)
      modifies this
      ensures routes == if acked then Synced(db, old(routes), body) else Stopped(db, old(routes), body)
      ensures !fails ==> acked
    {
      var repository := FindRepositoryById(db.repositories, body.repositoryId);
      if repository.None? {
        DeleteRouteCacheRecord(body.namespaceSlug, body.repoSlug);
        return true;
      }
      var namespace := FindNamespaceById(db.namespaces, repository.value.namespaceId);
      if namespace.None? {
        DeleteRouteCacheRecord(body.namespaceSlug, body.repoSlug);
        return true;
      }
      var canonicalNamespaceSlug, canonicalRepoSlug := namespace.value.slug, repository.value.slug;
      var capturedDiffers := CapturedKey(body) != RouteCacheKey(canonicalNamespaceSlug, canonicalRepoSlug);
      if capturedDiffers {
        DeleteRouteCacheRecord(body.namespaceSlug, body.repoSlug);
        if fails {
          return false;
        }
      }
      if repository.value.visibility == Private {
        DeleteRouteCacheRecord(canonicalNamespaceSlug, canonicalRepoSlug);
        return true;
      }
      PutRouteCacheRecord(canonicalNamespaceSlug, canonicalRepoSlug, RecordOf(repository.value));
      return true;
    }
  }

  /** Redelivery changes nothing. */
  lemma {:induction false} SyncIsIdempotent(db: Db, kv: Kv, m: Message)
    ensures Synced(db, Synced(db, kv, m), m) == Synced(db, kv, m)
  {
  }

  /** A delivery that failed after its first operation is made good by the retry. */
  lemma {:induction false} RetryCompletes(db: Db, kv: Kv, m: Message)
    ensures Synced(db, Stopped(db, kv, m), m) == Synced(db, kv, m)
  {
  }

  /** Namespace slugs hold no slash, so keys of different rows differ. */
  predicate SlugsAreSegments(db: Db) {
    forall n :: n in db.namespaces ==> '/' !in n.slug
  }

  lemma {:induction false} KeyInjective(namespaceSlug: string, repoSlug: string, otherNamespace: string,
                                        otherRepo: string)
    requires '/' !in namespaceSlug && '/' !in otherNamespace
    requires RouteCacheKey(namespaceSlug, repoSlug) == RouteCacheKey(otherNamespace, otherRepo)
    ensures namespaceSlug == otherNamespace && repoSlug == otherRepo
  {
    var s, t := namespaceSlug + ['/'] + repoSlug, otherNamespace + ['/'] + otherRepo;
    assert RouteCacheKey(namespaceSlug, repoSlug)[|KEY_PREFIX|..] == s;
    assert RouteCacheKey(otherNamespace, otherRepo)[|KEY_PREFIX|..] == t;
    FirstSlash(namespaceSlug, repoSlug);
    FirstSlash(otherNamespace, otherRepo);
    assert s[..|namespaceSlug|] == namespaceSlug && s[|namespaceSlug| + 1..] == repoSlug;
    assert t[..|otherNamespace|] == otherNamespace && t[|otherNamespace| + 1..] == otherRepo;
  }

  function SlashAt(s: string): nat {
    if s == [] || s[0] == '/' then 0 else 1 + SlashAt(s[1..])
  }

  lemma {:induction false} FirstSlash(segment: string, rest: string)
    requires '/' !in segment
    ensures SlashAt(segment + ['/'] + rest) == |segment|
  {
    if segment != [] {
      assert (segment + ['/'] + rest)[1..] == segment[1..] + ['/'] + rest;
      FirstSlash(segment[1..], rest);
    }
  }

  /** Two rows that are both addressable have different canonical keys. */
  lemma {:induction false} CanonicalKeysDiffer(db: Db, r: Repository, other: Repository)
    requires UniqueKeys(db) && SlugsAreSegments(db)
    requires r in db.repositories && other in db.repositories && r.id != other.id
    requires CanonicalKey(db, r).Some? && CanonicalKey(db, other).Some?
    ensures CanonicalKey(db, r) != CanonicalKey(db, other)
  {
    var n := FindNamespaceById(db.namespaces, r.namespaceId).value;
    var m := FindNamespaceById(db.namespaces, other.namespaceId).value;
    if CanonicalKey(db, r) == CanonicalKey(db, other) {
      KeyInjective(n.slug, r.slug, m.slug, other.slug);
      assert false;
    }
  }

  // ---------- Runs of the repair queue ----------

  /**
  Deliveries in any order and number, each on the store as it is at that moment; a delivery
  may fail after its first operation.
   */
  datatype Deliveries = Start(kv: Kv) | Then(before: Deliveries, db: Db, message: Message, completes: bool)

  function Delivered(db: Db, kv: Kv, m: Message, completes: bool): Kv {
    if completes then Synced(db, kv, m) else Stopped(db, kv, m)
  }

  function Reached(run: Deliveries): Kv {
    match run
    case Start(kv) => kv
    case Then(before, db, m, completes) => Delivered(db, Reached(before), m, completes)
  }

  function InitialKv(run: Deliveries): Kv {
    if run.Start? then run.kv else InitialKv(run.before)
  }

  /** The store keeps its unique keys and holds this row, addressable under this key. */
  ghost predicate Holds(db: Db, r: Repository, key: string) {
    UniqueKeys(db) && SlugsAreSegments(db) && r in db.repositories && CanonicalKey(db, r) == Some(key)
  }

  /** The row does not change during the run; all other rows may. */
  ghost predicate RowIsStable(run: Deliveries, r: Repository, key: string) {
    run.Then? ==> Holds(run.db, r, key) && RowIsStable(run.before, r, key)
  }

  /** The row's own message, as far as it gets to the canonical key. */
  predicate Repairs(run: Deliveries, id: string, key: string)
    requires run.Then?
  {
    run.message.repositoryId == id && (run.completes || CapturedKey(run.message) == key)
  }

  /** Another row's message that had captured the key. */
  predicate Disturbs(run: Deliveries, id: string, key: string)
    requires run.Then?
  {
    run.message.repositoryId != id && CapturedKey(run.message) == key
  }

  /** Since the last repair nothing has disturbed the key; before any, `initially` held. */
  predicate Settled(run: Deliveries, id: string, key: string, initially: bool) {
    match run
    case Start(_) => initially
    case Then(before, _, _, _) =>
      Repairs(run, id, key) || (!Disturbs(run, id, key) && Settled(before, id, key, initially))
  }

  /** Nothing has repaired or disturbed the key. */
  predicate Untouched(run: Deliveries, id: string, key: string) {
    run.Then? ==> !Repairs(run, id, key) && !Disturbs(run, id, key) && Untouched(run.before, id, key)
  }

  /** What one delivery does to the canonical key of a row. */
  lemma {:induction false} MessageAtKey(db: Db, kv: Kv, m: Message, r: Repository, key: string, completes: bool)
    requires Holds(db, r, key)
    ensures var after := Delivered(db, kv, m, completes);
            if m.repositoryId == r.id && (completes || CapturedKey(m) == key) then
              if r.visibility == Public then
                key in after && after[key] == Valid(Record(r.id, r.namespaceId, r.doName, r.updatedAt))
              else key !in after
            else if m.repositoryId != r.id && CapturedKey(m) == key then key !in after
            else (key in after <==> key in kv) && (key in kv ==> after[key] == kv[key])
  {
    var other := FindRepositoryById(db.repositories, m.repositoryId);
    if other.Some? && other.value.id != r.id && CanonicalKey(db, other.value).Some? {
      CanonicalKeysDiffer(db, r, other.value);
    }
  }

  /**
  Over any deliveries, once a public row has stopped changing: its canonical key holds its
  record exactly when its own last repair was not followed by another row's message that had
  captured this key.
   */
  lemma {:induction false} PublicRouteConverges(run: Deliveries, r: Repository, key: string)
    requires RowIsStable(run, r, key) && r.visibility == Public
    ensures var holds := key in InitialKv(run) && InitialKv(run)[key] == Valid(RecordOf(r));
            key in Reached(run) && Reached(run)[key] == Valid(RecordOf(r)) <==> Settled(run, r.id, key, holds)
  {
    if run.Then? {
      PublicRouteConverges(run.before, r, key);
      MessageAtKey(run.db, Reached(run.before), run.message, r, key, run.completes);
    }
  }

  /** The entry under a key names this row, however old its time stamp is. */
  predicate Names(kv: Kv, key: string, r: Repository) {
    && key in kv && kv[key].Valid?
    && kv[key].record.repositoryId == r.id && kv[key].record.namespaceId == r.namespaceId
    && kv[key].record.doName == r.doName
  }

  lemma {:induction false} NameConverges(run: Deliveries, r: Repository, key: string)
    requires RowIsStable(run, r, key) && r.visibility == Public
    ensures Names(Reached(run), key, r) <==> Settled(run, r.id, key, Names(InitialKv(run), key, r))
  {
    if run.Then? {
      NameConverges(run.before, r, key);
      MessageAtKey(run.db, Reached(run.before), run.message, r, key, run.completes);
    }
  }

  lemma {:induction false} NamedRowIsRouted(db: Db, kv: Kv, r: Repository, n: Namespace)
    requires Holds(db, r, RouteCacheKey(n.slug, r.slug)) && n in db.namespaces && n.id == r.namespaceId
    ensures ResolveCached(db, kv, n.slug, r.slug)
         == if Names(kv, RouteCacheKey(n.slug, r.slug), r) then Some(RouteTo(n.slug, r.slug, r, FromKv)) else None
  {
    assert FindRepositoryById(db.repositories, r.id) == Some(r);
    assert FindNamespaceById(db.namespaces, n.id) == Some(n);
    CachedIsConfirmed(db, kv, n.slug, r.slug);
    assert FindNamespaceBySlug(db.namespaces, n.slug) == Some(n);
    assert FindRepositoryBySlug(db.repositories, n.id, r.slug) == Some(r);
  }

  /**
  Over any deliveries, once a public row has stopped changing: a visitor who is routed from
  the cache alone gets its route exactly when the row's own last repair was not followed by
  another row's message that had captured its key, and no route at all otherwise.
   */
  lemma {:induction false} PublicRouteIsServed(run: Deliveries, db: Db, r: Repository, n: Namespace)
    requires Holds(db, r, RouteCacheKey(n.slug, r.slug)) && n in db.namespaces && n.id == r.namespaceId
    requires RowIsStable(run, r, RouteCacheKey(n.slug, r.slug)) && r.visibility == Public
    ensures var key := RouteCacheKey(n.slug, r.slug);
            ResolveRepositoryRoute(db, Reached(run), n.slug, r.slug, RouteCacheOnly)
            == if Settled(run, r.id, key, Names(InitialKv(run), key, r)) then Some(RouteTo(n.slug, r.slug, r, FromKv))
               else None
  {
    NameConverges(run, r, RouteCacheKey(n.slug, r.slug));
    NamedRowIsRouted(db, Reached(run), r, n);
  }

  /** Once a private row has stopped changing, its canonical key survives only deliveries that never touched it. */
  lemma {:induction false} PrivateRouteDisappears(run: Deliveries, r: Repository, key: string)
    requires RowIsStable(run, r, key) && r.visibility == Private
    ensures key in Reached(run) <==> key in InitialKv(run) && Untouched(run, r.id, key)
  {
    if run.Then? {
      PrivateRouteDisappears(run.before, r, key);
      MessageAtKey(run.db, Reached(run.before), run.message, r, key, run.completes);
    }
  }

  /**
  For instance: a repository was deleted and a new public one took its slug; the new one's
  own message is followed by the deleted one's. The new one is left without an entry, and who
  is routed from the cache alone does not find it.
   */
  lemma {:induction false} DeletedRepositoryTakesRoute()
    ensures var r := Repository("new", "ns", "docs", "repo:2", Public, 7);
            var db := Db([Namespace("ns", "team")], [r]);
            var key := RouteCacheKey("team", "docs");
            var own := Then(Start(map[]), db, Message("new", "team", "docs"), true);
            var run := Then(own, db, Message("old", "team", "docs"), true);
            && RowIsStable(run, r, key) && r.visibility == Public
            && key in Reached(own) && Reached(own)[key] == Valid(RecordOf(r)) && key !in Reached(run)
            && ResolveRepositoryRoute(db, Reached(run), "team", "docs", RouteCacheOnly) == None
            && Target(ResolveRepositoryRoute(db, Reached(run), "team", "docs", AllowD1Fallback))
               == Some(RouteTo("team", "docs", r, FromD1))
  {
    var r := Repository("new", "ns", "docs", "repo:2", Public, 7);
    var db := Db([Namespace("ns", "team")], [r]);
    assert FindRepositoryById(db.repositories, "new") == Some(r);
    assert "old" != "new" && FindRepositoryById(db.repositories, "old") == None;
    assert CanonicalKey(db, r) == Some(RouteCacheKey("team", "docs"));
    assert Holds(db, r, RouteCacheKey("team", "docs"));
    CacheNeverMisroutes(db, map[], "team", "docs");
    assert FindNamespaceBySlug(db.namespaces, "team") == Some(Namespace("ns", "team"));
    assert FindRepositoryBySlug(db.repositories, "ns", "docs") == Some(r);
  }

  /** The visibility a route carries is the one its row has now, whatever the cache says. */
  lemma {:induction false} VisibilityIsCurrent(db: Db, kv: Kv, namespaceSlug: string, repoSlug: string, mode: Mode)
    requires UniqueKeys(db)
    ensures var r := ResolveRepositoryRoute(db, kv, namespaceSlug, repoSlug, mode);
            r.Some? ==> exists row :: row in db.repositories && row.id == r.value.repositoryId
                                      && row.visibility == r.value.visibility && row.slug == repoSlug
  {
    CacheNeverMisroutes(db, kv, namespaceSlug, repoSlug);
    var r := ResolveRepositoryRoute(db, kv, namespaceSlug, repoSlug, mode);
    if r.Some? {
      var namespace := FindNamespaceBySlug(db.namespaces, namespaceSlug).value;
      var row := FindRepositoryBySlug(db.repositories, namespace.id, repoSlug).value;
      assert row.id == r.value.repositoryId;
    }
  }
}
