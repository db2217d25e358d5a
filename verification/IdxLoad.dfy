/**
Loading index views through the isolate cache and the request memo:
`loadIdxView` of `src/worker/git/object-store/idxView.ts`.
 */
module IdxLoads {
  import opened Bytes
  import opened IdxViews
  import opened ViewCaches

  const NUL: char := '\0'

  function Digit(n: nat): (c: char)
    requires n < 10
    ensures c != NUL
  {
    '0' + n as char
  }

  function Decimal(n: nat): (digits: string)
    ensures NUL !in digits && |digits| >= 1
  {
    if n < 10 then [Digit(n)] else Decimal(n / 10) + [Digit(n % 10)]
  }

  function CacheKey(packKey: string, packSize: nat): (key: string)
    ensures key != ""
  {
    packKey + [NUL] + Decimal(packSize)
  }

  lemma {:induction false} DecimalInjective(m: nat, n: nat)
    requires Decimal(m) == Decimal(n)
    ensures m == n
  {
    var x, y := Decimal(m), Decimal(n);
    assert x[|x| - 1] == Digit(m % 10) && y[|y| - 1] == Digit(n % 10);
    if m >= 10 && n >= 10 {
      assert x[..|x| - 1] == Decimal(m / 10) && y[..|y| - 1] == Decimal(n / 10);
      DecimalInjective(m / 10, n / 10);
    }
  }

  /** Two views share a cache key only if they share both the pack and its size. */
  lemma {:induction false} CacheKeyInjective(packKey: string, packSize: nat, otherKey: string, otherSize: nat)
    requires CacheKey(packKey, packSize) == CacheKey(otherKey, otherSize)
    ensures packKey == otherKey && packSize == otherSize
  {
    LastNul(packKey, Decimal(packSize), otherKey, Decimal(otherSize));
    DecimalInjective(packSize, otherSize);
  }

  /** Where the last NUL of a string is. */
  function LastNulAt(s: string): nat {
    if s == [] then 0 else if s[|s| - 1] == NUL then |s| - 1 else LastNulAt(s[..|s| - 1])
  }

  lemma {:induction false} LastNulFound(x: string, u: string)
    requires NUL !in u
    ensures LastNulAt(x + [NUL] + u) == |x|
  {
    if u == [] {
      assert x + [NUL] + u == x + [NUL];
    } else {
      var s := x + [NUL] + u;
      assert s[|s| - 1] == u[|u| - 1] && s[..|s| - 1] == x + [NUL] + u[..|u| - 1];
      LastNulFound(x, u[..|u| - 1]);
    }
  }

  lemma {:induction false} LastNul(x: string, u: string, y: string, v: string)
    requires NUL !in u && NUL !in v && x + [NUL] + u == y + [NUL] + v
    ensures x == y && u == v
  {
    LastNulFound(x, u);
    LastNulFound(y, v);
    var s, t := x + [NUL] + u, y + [NUL] + v;
    assert s[..|x|] == x && s[|x| + 1..] == u;
    assert t[..|y|] == y && t[|y| + 1..] == v;
  }

  // ---------- Loading ----------

  /** The stored index files and the sizes of the stored packs. */
  datatype Bucket = Bucket(idx: map<string, seq<byte>>, packSizes: map<string, nat>)

  /** Loading without any cache, for a given pack size. */
  function LoadDirect(bucket: Bucket, packKey: string, packSize: nat): Parsed<IdxView> {
    if packKey !in bucket.idx then Undefined else ParseIdx(packKey, bucket.idx[packKey], packSize)
  }

  /** Loading without any cache when no size is known: the size is asked for. */
  function LoadUnhinted(bucket: Bucket, packKey: string): Parsed<IdxView> {
    if packKey !in bucket.idx || packKey !in bucket.packSizes then Undefined
    else LoadDirect(bucket, packKey, bucket.packSizes[packKey])
  }

  function Load(bucket: Bucket, packKey: string, packSizeHint: Option<nat>): Parsed<IdxView> {
    match packSizeHint
    case None => LoadUnhinted(bucket, packKey)
    case Some(packSize) => LoadDirect(bucket, packKey, packSize)
  }

  // ---------- What the caches hold ----------

  /** An index file that was stored at some time. */
  datatype IndexFile = IndexFile(packKey: string, content: seq<byte>)

  ghost predicate AllKnown(known: set<IndexFile>, bucket: Bucket) {
    forall packKey :: packKey in bucket.idx ==> IndexFile(packKey, bucket.idx[packKey]) in known
  }

  /** The pack has had one index only; it may have been removed since. */
  ghost predicate NeverRewritten(known: set<IndexFile>, packKey: string) {
    forall f, g :: f in known && g in known && f.packKey == packKey == g.packKey ==> f.content == g.content
  }

  /** `v` is the view of an index stored at some time, for the pack size it carries. */
  ghost predicate FromKnown(known: set<IndexFile>, v: IdxView) {
    exists file :: file in known && file.packKey == v.packKey
                   && ParseIdx(v.packKey, file.content, v.packSize) == View(v)
  }

  /** Every cached view is filed under its own pack and size. */
  ghost predicate CacheAgrees(known: set<IndexFile>, entries: seq<Entry<IdxView>>) {
    forall e :: e in entries ==> FromKnown(known, e.view) && e.key == CacheKey(e.view.packKey, e.view.packSize)
  }

  ghost predicate MemoAgrees(known: set<IndexFile>, memo: map<string, IdxView>) {
    forall k :: k in memo ==> FromKnown(known, memo[k]) && memo[k].packKey == k
  }

  /** Storing further files, or removing some, leaves both caches truthful. */
  lemma {:induction false} CachesOutliveStores(known: set<IndexFile>, later: set<IndexFile>,
                                               entries: seq<Entry<IdxView>>, memo: map<string, IdxView>)
    requires known <= later && CacheAgrees(known, entries) && MemoAgrees(known, memo)
    ensures CacheAgrees(later, entries) && MemoAgrees(later, memo)
  {
    forall v: IdxView | FromKnown(known, v) ensures FromKnown(later, v) {
      var file :| file in known && file.packKey == v.packKey
                  && ParseIdx(v.packKey, file.content, v.packSize) == View(v);
      assert file in later;
    }
  }

  /** While the one index of a pack is stored, a view of it is what a direct load for its size gives. */
  lemma {:induction false} KnownIsDirect(known: set<IndexFile>, bucket: Bucket, v: IdxView)
    requires FromKnown(known, v) && NeverRewritten(known, v.packKey)
    requires AllKnown(known, bucket) && v.packKey in bucket.idx
    ensures LoadDirect(bucket, v.packKey, v.packSize) == View(v)
  {
    var file :| file in known && file.packKey == v.packKey
                && ParseIdx(v.packKey, file.content, v.packSize) == View(v);
    assert IndexFile(v.packKey, bucket.idx[v.packKey]) in known;
  }

  lemma {:induction false} DirectIsKnown(known: set<IndexFile>, bucket: Bucket, packKey: string, packSize: nat)
    requires AllKnown(known, bucket) && LoadDirect(bucket, packKey, packSize).View?
    ensures var v := LoadDirect(bucket, packKey, packSize).value;
            FromKnown(known, v) && v.packKey == packKey && v.packSize == packSize
  {
    ParsedViewIsWellFormed(packKey, bucket.idx[packKey], packSize);
    assert IndexFile(packKey, bucket.idx[packKey]) in known;
  }

  // ---------- What the caches answer ----------

  function SizedEntry(entries: seq<Entry<IdxView>>, packKey: string, packSizeHint: Option<nat>)
    : Option<Entry<IdxView>>
  {
    if packSizeHint.None? then None else Get(entries, CacheKey(packKey, packSizeHint.value))
  }

  predicate MemoFits(memo: map<string, IdxView>, packKey: string, packSizeHint: Option<nat>) {
    packKey in memo && (packSizeHint.None? || memo[packKey].packSize == packSizeHint.value)
  }

  /** The memo's answer if it fits the hint, or else the size-matched cached one. */
  function Answer(entries: seq<Entry<IdxView>>, memo: map<string, IdxView>, packKey: string, packSizeHint: Option<nat>)
    : Option<IdxView>
  {
    if MemoFits(memo, packKey, packSizeHint) then Some(memo[packKey])
    else
      match SizedEntry(entries, packKey, packSizeHint)
      case None => None
      case Some(entry) => Some(entry.view)
  }

  /** The memo remembers what was answered and drops an entry of the wrong size. */
  function MemoAfter(memo: map<string, IdxView>, packKey: string, answer: Option<IdxView>): map<string, IdxView> {
    match answer
    case None => memo - {packKey}
    case Some(view) => memo[packKey := view]
  }

  lemma {:induction false} MemoStays(memo: map<string, IdxView>, packKey: string)
    ensures packKey in memo ==> memo == memo[packKey := memo[packKey]]
    ensures packKey !in memo ==> memo == memo - {packKey}
  {
  }

  lemma {:induction false} MemoSettles(memo: map<string, IdxView>, packKey: string, view: IdxView)
    ensures (memo - {packKey})[packKey := view] == memo[packKey := view]
    ensures memo - {packKey} - {packKey} == memo - {packKey}
  {
  }

  /** A filed view belongs to the pack and size it was asked for. */
  lemma {:induction false} AnswerFits(known: set<IndexFile>, entries: seq<Entry<IdxView>>, memo: map<string, IdxView>,
                                      packKey: string, packSizeHint: Option<nat>)
    requires CacheAgrees(known, entries) && MemoAgrees(known, memo)
    ensures var answer := Answer(entries, memo, packKey, packSizeHint);
            answer.Some? ==>
              && FromKnown(known, answer.value) && answer.value.packKey == packKey
              && (packSizeHint.Some? ==> answer.value.packSize == packSizeHint.value)
  {
    var entry := SizedEntry(entries, packKey, packSizeHint);
    if entry.Some? {
      CacheKeyInjective(packKey, packSizeHint.value, entry.value.view.packKey, entry.value.view.packSize);
    }
  }

  /** What a load gives: the answer of the caches, or else a direct load. */
  function Loaded(bucket: Bucket, entries: seq<Entry<IdxView>>, memo: map<string, IdxView>, packKey: string,
                  packSizeHint: Option<nat>): Parsed<IdxView> {
    match Answer(entries, memo, packKey, packSizeHint)
    case Some(view) => View(view)
    case None => Load(bucket, packKey, packSizeHint)
  }

  /** The stored index and, when no size is given, the stored pack size are still the ones of this view. */
  predicate StillStored(bucket: Bucket, packKey: string, packSizeHint: Option<nat>, view: IdxView) {
    && packKey in bucket.idx
    && (packSizeHint.None? ==> packKey in bucket.packSizes && bucket.packSizes[packKey] == view.packSize)
  }

  /** A load with a size hint gives a view of that pack for that size, or none. */
  lemma {:induction false} LoadedFits(known: set<IndexFile>, bucket: Bucket, entries: seq<Entry<IdxView>>,
                                      memo: map<string, IdxView>, packKey: string, packSizeHint: Option<nat>)
    requires AllKnown(known, bucket) && CacheAgrees(known, entries) && MemoAgrees(known, memo)
    ensures var r := Loaded(bucket, entries, memo, packKey, packSizeHint);
            r.View? ==>
              && FromKnown(known, r.value) && r.value.packKey == packKey
              && (packSizeHint.Some? ==> r.value.packSize == packSizeHint.value)
  {
    AnswerFits(known, entries, memo, packKey, packSizeHint);
    if Load(bucket, packKey, packSizeHint).View? {
      DirectIsKnown(known, bucket, packKey,
                    if packSizeHint.Some? then packSizeHint.value else bucket.packSizes[packKey]);
    }
  }

  /**
  For a pack that has had one index only, a load gives what loading without caches gives
  exactly when no cache answers or the index, and the pack size if none is given, are still
  stored: the caches are not told of a removal.
   */
  lemma {:induction false} LoadedIsDirect(known: set<IndexFile>, bucket: Bucket, entries: seq<Entry<IdxView>>,
                                          memo: map<string, IdxView>, packKey: string, packSizeHint: Option<nat>)
    requires AllKnown(known, bucket) && CacheAgrees(known, entries) && MemoAgrees(known, memo)
    requires NeverRewritten(known, packKey)
    ensures var answer := Answer(entries, memo, packKey, packSizeHint);
            Loaded(bucket, entries, memo, packKey, packSizeHint) == Load(bucket, packKey, packSizeHint) <==>
            answer.None? || StillStored(bucket, packKey, packSizeHint, answer.value)
  {
    AnswerFits(known, entries, memo, packKey, packSizeHint);
    var answer := Answer(entries, memo, packKey, packSizeHint);
    if answer.Some? && packKey in bucket.idx {
      KnownIsDirect(known, bucket, answer.value);
      if packSizeHint.None? && packKey in bucket.packSizes {
        OtherSizeOtherView(bucket, packKey, bucket.packSizes[packKey], answer.value);
      }
    }
  }

  lemma {:induction false} OtherSizeOtherView(bucket: Bucket, packKey: string, packSize: nat, v: IdxView)
    ensures LoadDirect(bucket, packKey, packSize) == View(v) ==> v.packSize == packSize
  {
    if LoadDirect(bucket, packKey, packSize) == View(v) {
      ParsedViewIsWellFormed(packKey, bucket.idx[packKey], packSize);
    }
  }

  /** A view that was loaded is served to the rest of the request after its index has been removed. */
  lemma {:induction false} RemovedIndexIsServed(bucket: Bucket, packKey: string, packSize: nat)
    requires LoadDirect(bucket, packKey, packSize).View?
    ensures var first := Loaded(bucket, [], map[], packKey, Some(packSize));
            var memo := MemoAfter(map[], packKey, Some(first.value));
            var removed := bucket.(idx := bucket.idx - {packKey});
            && first == LoadDirect(bucket, packKey, packSize)
            && Loaded(removed, [], memo, packKey, Some(packSize)) == first
            && LoadDirect(removed, packKey, packSize) == Undefined
  {
    ParsedViewIsWellFormed(packKey, bucket.idx[packKey], packSize);
  }

  /** The index of a pack without objects. */
  function EmptyIndex(): seq<byte> {
    [0xff, 0x74, 0x4f, 0x63] + ([0, 0, 0, 2] + seq(1064, i => 0))
  }

  lemma {:induction false} EmptyIndexParses(packKey: string, packSize: nat)
    requires 20 <= packSize <= MAX_SAFE_INTEGER
    ensures ParseIdx(packKey, EmptyIndex(), packSize).View?
  {
    var buf := EmptyIndex();
    assert buf[..4] == [0xff, 0x74, 0x4f, 0x63];
    assert GetUint32(buf, 4) == 2 && GetUint32(buf, 8 + 255 * 4) == 0;
  }

  /** For instance: the index of an empty pack of 32 bytes. */
  lemma {:induction false} RemovedIndexExample()
    ensures var bucket := Bucket(map["p" := EmptyIndex()], map["p" := 32]);
            var removed := Bucket(map[], map["p" := 32]);
            var first := Loaded(bucket, [], map[], "p", Some(32));
            && first.View?
            && Loaded(removed, [], map["p" := first.value], "p", Some(32)) == first
            && LoadDirect(removed, "p", 32) == Undefined
  {
    var bucket := Bucket(map["p" := EmptyIndex()], map["p" := 32]);
    EmptyIndexParses("p", 32);
    RemovedIndexIsServed(bucket, "p", 32);
    assert bucket.idx - {"p"} == map[];
  }

  // ---------- The loader ----------

  class CacheContext {
    var idxViews: map<string, IdxView>

    constructor ()
      ensures idxViews == map[]
    {
      idxViews := map[];
    }
  }

  /** The request's memo, empty when there is no request context. */
  function Memo(ctx: CacheContext?): map<string, IdxView>
    reads ctx
  {
    if ctx == null then map[] else ctx.idxViews
  }

  /** Files a view that was served from a cache or loaded. */
  method Remember(ghost known: set<IndexFile>, cache: ViewCache<IdxView>, ctx: CacheContext?, packKey: string,
                  view: IdxView)
    requires cache.Valid() && CacheAgrees(known, cache.entries) && MemoAgrees(known, Memo(ctx))
    requires FromKnown(known, view) && view.packKey == packKey
    modifies cache, ctx
    ensures cache.Valid() && CacheAgrees(known, cache.entries) && MemoAgrees(known, Memo(ctx))
    ensures cache.entries
         == Touched(old(cache.entries), Entry(CacheKey(packKey, view.packSize), view, cache.estimate(view)))
    ensures ctx != null ==> ctx.idxViews == old(ctx.idxViews)[packKey := view]
  {
    cache.Touch(CacheKey(packKey, view.packSize), view);
    if ctx != null {
      ctx.idxViews := ctx.idxViews[packKey := view];
    }
  }

  /** Asks the memo and the cache; a memo entry of the wrong size is replaced or dropped. */
  method FromCaches(ghost known: set<IndexFile>, cache: ViewCache<IdxView>, ctx: CacheContext?, packKey: string,
                    packSizeHint: Option<nat>)
    returns (r: Option<IdxView>)
    requires cache.Valid() && CacheAgrees(known, cache.entries) && MemoAgrees(known, Memo(ctx))
    modifies cache, ctx
    ensures cache.Valid() && CacheAgrees(known, cache.entries) && MemoAgrees(known, Memo(ctx))
    ensures r == Answer(old(cache.entries), old(Memo(ctx)), packKey, packSizeHint)
    ensures ctx != null ==> ctx.idxViews == MemoAfter(old(ctx.idxViews), packKey, r)
    ensures r.None? ==> cache.entries == old(cache.entries)
  {
    AnswerFits(known, cache.entries, Memo(ctx), packKey, packSizeHint);
    MemoStays(Memo(ctx), packKey);
    var cached := SizedEntry(cache.entries, packKey, packSizeHint);
    if ctx != null && packKey in ctx.idxViews {
      var memoView := ctx.idxViews[packKey];
      if packSizeHint.None? || memoView.packSize == packSizeHint.value {
        return Some(memoView);
      }
      if cached.Some? {
        Remember(known, cache, ctx, packKey, cached.value.view);
        return Some(cached.value.view);
      }
      ctx.idxViews := ctx.idxViews - {packKey};
    }
    if cached.Some? {
      Remember(known, cache, ctx, packKey, cached.value.view);
      return Some(cached.value.view);
    }
    return None;
  }

  /** The answer of the caches, or else a direct load; what it gives is filed. */
  method LoadIdxView(ghost known: set<IndexFile>, bucket: Bucket, cache: ViewCache<IdxView>, ctx: CacheContext?,
                     packKey: string, packSizeHint: Option<nat>)
    returns (r: Parsed<IdxView>)
    requires AllKnown(known, bucket)
    requires cache.Valid() && CacheAgrees(known, cache.entries) && MemoAgrees(known, Memo(ctx))
    modifies cache, ctx
    ensures cache.Valid() && CacheAgrees(known, cache.entries) && MemoAgrees(known, Memo(ctx))
    ensures r == Loaded(bucket, old(cache.entries), old(Memo(ctx)), packKey, packSizeHint)
    ensures r.View? && packSizeHint.Some? ==>
              r.value.packKey == packKey && r.value.packSize == packSizeHint.value
    ensures NeverRewritten(known, packKey) ==>
              var answer := Answer(old(cache.entries), old(Memo(ctx)), packKey, packSizeHint);
              r == Load(bucket, packKey, packSizeHint) <==>
              answer.None? || StillStored(bucket, packKey, packSizeHint, answer.value)
    ensures ctx != null ==>
              ctx.idxViews == MemoAfter(old(ctx.idxViews), packKey, if r.View? then Some(r.value) else None)
  {
    LoadedFits(known, bucket, cache.entries, Memo(ctx), packKey, packSizeHint);
    if NeverRewritten(known, packKey) {
      LoadedIsDirect(known, bucket, cache.entries, Memo(ctx), packKey, packSizeHint);
    }
    r := LoadThroughCaches(known, bucket, cache, ctx, packKey, packSizeHint);
  }

  method LoadThroughCaches(ghost known: set<IndexFile>, bucket: Bucket, cache: ViewCache<IdxView>, ctx: CacheContext?,
                           packKey: string, packSizeHint: Option<nat>)
    returns (r: Parsed<IdxView>)
    requires AllKnown(known, bucket)
    requires cache.Valid() && CacheAgrees(known, cache.entries) && MemoAgrees(known, Memo(ctx))
    modifies cache, ctx
    ensures cache.Valid() && CacheAgrees(known, cache.entries) && MemoAgrees(known, Memo(ctx))
    ensures r == Loaded(bucket, old(cache.entries), old(Memo(ctx)), packKey, packSizeHint)
    ensures ctx != null ==>
              ctx.idxViews == MemoAfter(old(ctx.idxViews), packKey, if r.View? then Some(r.value) else None)
  {
    ghost var memo := Memo(ctx);
    var answer := FromCaches(known, cache, ctx, packKey, packSizeHint);
    if answer.Some? {
      return View(answer.value);
    }
    r := LoadStored(known, bucket, cache, ctx, packKey, packSizeHint);
    if r.View? {
      MemoSettles(memo, packKey, r.value);
    }
  }

  /** The load that no cache answered; what it gives is filed. */
  method LoadStored(ghost known: set<IndexFile>, bucket: Bucket, cache: ViewCache<IdxView>, ctx: CacheContext?,
                    packKey: string, packSizeHint: Option<nat>)
    returns (r: Parsed<IdxView>)
    requires AllKnown(known, bucket)
    requires cache.Valid() && CacheAgrees(known, cache.entries) && MemoAgrees(known, Memo(ctx))
    modifies cache, ctx
    ensures cache.Valid() && CacheAgrees(known, cache.entries) && MemoAgrees(known, Memo(ctx))
    ensures r == Load(bucket, packKey, packSizeHint)
    ensures ctx != null ==>
              ctx.idxViews == if r.View? then old(ctx.idxViews)[packKey := r.value] else old(ctx.idxViews)
  {
    if packKey !in bucket.idx {
      return Undefined;
    }
    if packSizeHint.None? && packKey !in bucket.packSizes {
      return Undefined;
    }
    var packSize := if packSizeHint.Some? then packSizeHint.value else bucket.packSizes[packKey];
    r := ParseIdxView(packKey, bucket.idx[packKey], packSize);
    if r.View? {
      DirectIsKnown(known, bucket, packKey, packSize);
      Remember(known, cache, ctx, packKey, r.value);
    }
  }
}
