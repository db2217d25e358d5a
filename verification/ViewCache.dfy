/**
The byte-capped view caches of `src/worker/git/object-store/idxView.ts` and
`src/worker/git/pack/refIndex.ts`, which share one algorithm.
 */
module ViewCaches {
  import opened Bytes

  const CACHE_MAX_BYTES: nat := 16 * 1024 * 1024

  datatype Entry<+V> = Entry(key: string, view: V, bytes: nat)

  // ---------- The map, in insertion order ----------

  function Total<V>(entries: seq<Entry<V>>): nat {
    if entries == [] then 0 else entries[0].bytes + Total(entries[1..])
  }

  /** `map.get(key)`. */
  function Get<V>(entries: seq<Entry<V>>, key: string): (r: Option<Entry<V>>)
    ensures r.Some? ==> r.value in entries && r.value.key == key
    ensures r.None? ==> forall e :: e in entries ==> e.key != key
  {
    if entries == [] then None else if entries[0].key == key then Some(entries[0]) else Get(entries[1..], key)
  }

  /** `map.delete(key)`. */
  function Delete<V>(entries: seq<Entry<V>>, key: string): (r: seq<Entry<V>>)
    ensures forall e :: e in r ==> e in entries
  {
    if entries == [] then []
    else if entries[0].key == key then entries[1..]
    else [entries[0]] + Delete(entries[1..], key)
  }

  ghost predicate DistinctKeys<V>(entries: seq<Entry<V>>) {
    entries == [] || ((forall e :: e in entries[1..] ==> e.key != entries[0].key) && DistinctKeys(entries[1..]))
  }

  /** Drops the oldest entries until the rest fits. */
  function Evict<V>(entries: seq<Entry<V>>): (r: seq<Entry<V>>)
    ensures Total(r) <= CACHE_MAX_BYTES && forall e :: e in r ==> e in entries
  {
    if Total(entries) > CACHE_MAX_BYTES then Evict(entries[1..]) else entries
  }

  function Touched<V>(entries: seq<Entry<V>>, e: Entry<V>): (r: seq<Entry<V>>)
    ensures forall x :: x in r ==> x == e || x in entries
  {
    var kept := Delete(entries, e.key);
    if e.bytes > CACHE_MAX_BYTES then kept else Evict(kept + [e])
  }

  /** What every cache keeps: its keys are distinct and not empty, and its views fit under the cap. */
  ghost predicate Sound<V>(entries: seq<Entry<V>>) {
    DistinctKeys(entries) && Total(entries) <= 16_777_216 && forall e :: e in entries ==> e.key != ""
  }

  class ViewCache<V> {
    const estimate: V -> nat
    var entries: seq<Entry<V>>
    var cacheBytes: int

    /** The running counter is the sum of the stored sizes. */
    ghost predicate Valid()
      reads this
    {
      Sound(entries) && cacheBytes == Total(entries)
    }

    constructor (estimate: V -> nat)
      ensures Valid() && entries == [] && this.estimate == estimate
    {
      this.estimate := estimate;
      entries, cacheBytes := [], 0;
    }

    method Touch(key: string, view: V)
      requires Valid() && key != ""
      modifies this
      ensures Valid() && entries == Touched(old(entries), Entry(key, view, estimate(view)))
    {
      TouchIsSound(entries, Entry(key, view, estimate(view)));
      var existing := Get(entries, key);
      DeleteTotal(entries, key);
      if existing.Some? {
        cacheBytes := cacheBytes - existing.value.bytes;
      }
      entries := Delete(entries, key);
      var bytes := estimate(view);
      if bytes > CACHE_MAX_BYTES {
        return;
      }
      TotalSnoc(entries, Entry(key, view, bytes));
      entries := entries + [Entry(key, view, bytes)];
      cacheBytes := cacheBytes + bytes;
      EvictOldest();
    }

    /** The eviction loop; neither of the ways out of it by an empty first key is ever taken. */
    method EvictOldest()
      requires cacheBytes == Total(entries) && forall e :: e in entries ==> e.key != ""
      modifies this
      ensures entries == Evict(old(entries)) && cacheBytes == Total(entries)
    {
      while cacheBytes > CACHE_MAX_BYTES
        invariant cacheBytes == Total(entries) && forall e :: e in entries ==> e.key != ""
        invariant Evict(entries) == Evict(old(entries))
        decreases |entries|
      {
        if |entries| == 0 || entries[0].key == "" {
          break;
        }
        cacheBytes := cacheBytes - entries[0].bytes;
        entries := entries[1..];
      }
    }
  }

  // ---------- What touching means ----------

  lemma {:induction false} TotalSnoc<V>(entries: seq<Entry<V>>, e: Entry<V>)
    ensures Total(entries + [e]) == Total(entries) + e.bytes
  {
    if entries == [] {
      assert ([] + [e])[1..] == [];
    } else {
      assert (entries + [e])[1..] == entries[1..] + [e];
      TotalSnoc(entries[1..], e);
    }
  }

  lemma {:induction false} DeleteTotal<V>(entries: seq<Entry<V>>, key: string)
    ensures var e := Get(entries, key);
            Total(entries) == Total(Delete(entries, key)) + if e.Some? then e.value.bytes else 0
  {
    if entries != [] && entries[0].key != key {
      DeleteTotal(entries[1..], key);
      assert Delete(entries, key)[1..] == Delete(entries[1..], key);
    }
  }

  lemma {:induction false} DeleteRemoves<V>(entries: seq<Entry<V>>, key: string)
    requires DistinctKeys(entries)
    ensures DistinctKeys(Delete(entries, key))
    ensures forall e :: e in Delete(entries, key) <==> e in entries && e.key != key
  {
    if entries != [] && entries[0].key != key {
      DeleteRemoves(entries[1..], key);
      assert Delete(entries, key)[1..] == Delete(entries[1..], key);
    }
  }

  lemma {:induction false} DistinctSnoc<V>(entries: seq<Entry<V>>, e: Entry<V>)
    requires DistinctKeys(entries) && forall x :: x in entries ==> x.key != e.key
    ensures DistinctKeys(entries + [e])
  {
    if entries != [] {
      assert (entries + [e])[1..] == entries[1..] + [e];
      DistinctSnoc(entries[1..], e);
    }
  }

  /** How many of the oldest entries eviction drops: none more than it must. */
  function Dropped<V>(entries: seq<Entry<V>>): (k: nat)
    ensures k <= |entries| && Evict(entries) == entries[k..]
    ensures k > 0 ==> Total(entries[k - 1..]) > CACHE_MAX_BYTES
  {
    if Total(entries) > CACHE_MAX_BYTES then
      var k := Dropped(entries[1..]);
      assert entries[1..][k..] == entries[k + 1..];
      assert k > 0 ==> entries[1..][k - 1..] == entries[k..];
      k + 1
    else
      0
  }

  lemma {:induction false} DistinctSuffix<V>(entries: seq<Entry<V>>, k: nat)
    requires k <= |entries| && DistinctKeys(entries)
    ensures DistinctKeys(entries[k..])
  {
    if k > 0 {
      DistinctSuffix(entries[1..], k - 1);
      assert entries[1..][k - 1..] == entries[k..];
    }
  }

  lemma {:induction false} TouchIsSound<V>(entries: seq<Entry<V>>, e: Entry<V>)
    requires Sound(entries) && e.key != ""
    ensures Sound(Touched(entries, e))
  {
    var kept := Delete(entries, e.key);
    DeleteRemoves(entries, e.key);
    DeleteTotal(entries, e.key);
    DistinctSnoc(kept, e);
    DistinctSuffix(kept + [e], Dropped(kept + [e]));
  }

  /** `after` is `kept` without its `k` oldest entries, and then `e`; keeping one more would exceed the cap. */
  predicate DropsOldest<V(==)>(kept: seq<Entry<V>>, e: Entry<V>, after: seq<Entry<V>>, k: nat)
    requires k <= |kept|
  {
    after == kept[k..] + [e] && (k > 0 ==> Total(kept[k - 1..] + [e]) > 16_777_216)
  }

  /**
  A touch replaces the entry of its key by a newest one and evicts the fewest oldest
  entries that make room; a view that fits is never evicted by its own touch.
   */
  lemma {:induction false} TouchEvictsOldest<V>(entries: seq<Entry<V>>, e: Entry<V>) returns (k: nat)
    ensures var kept, after := Delete(entries, e.key), Touched(entries, e);
            if e.bytes > 16_777_216 then after == kept else k <= |kept| && DropsOldest(kept, e, after, k)
  {
    k := 0;
    if e.bytes <= CACHE_MAX_BYTES {
      k := EvictionDropsOldest(Delete(entries, e.key), e);
    }
  }

  lemma {:induction false} EvictionDropsOldest<V>(kept: seq<Entry<V>>, e: Entry<V>) returns (k: nat)
    requires e.bytes <= CACHE_MAX_BYTES
    ensures k <= |kept| && DropsOldest(kept, e, Evict(kept + [e]), k)
  {
    k := Dropped(kept + [e]);
    NewestStays(kept, e);
    AppendDrop(kept, [e], k);
    if k > 0 {
      AppendDrop(kept, [e], k - 1);
    }
  }

  lemma {:induction false} NewestStays<V>(kept: seq<Entry<V>>, e: Entry<V>)
    requires e.bytes <= CACHE_MAX_BYTES
    ensures Dropped(kept + [e]) <= |kept|
  {
    assert (kept + [e])[|kept|..] == [e] == [] + [e];
    TotalSnoc([], e);
  }

  // ---------- Over any sequence of touches ----------

  datatype Touches<+V> = Start | Then(before: Touches<V>, touch: Entry<V>)

  function Reached<V>(run: Touches<V>): seq<Entry<V>> {
    match run
    case Start => []
    case Then(before, touch) => Touched(Reached(before), touch)
  }

  ghost predicate NamesKeys<V>(run: Touches<V>) {
    run.Then? ==> run.touch.key != "" && NamesKeys(run.before)
  }

  /** The last touch of a key. */
  function LastTouch<V>(run: Touches<V>, key: string): Option<Entry<V>> {
    match run
    case Start => None
    case Then(before, touch) => if touch.key == key then Some(touch) else LastTouch(before, key)
  }

  /** Over any touches the cap holds, and whatever the cache holds for a key is what was touched last under it. */
  lemma {:induction false} CacheHoldsLastTouch<V>(run: Touches<V>, key: string)
    requires NamesKeys(run)
    ensures Sound(Reached(run))
    ensures Get(Reached(run), key).Some? ==> Get(Reached(run), key) == LastTouch(run, key)
  {
    match run
    case Start =>
    case Then(before, touch) =>
      CacheHoldsLastTouch(before, key);
      TouchIsSound(Reached(before), touch);
      DeleteRemoves(Reached(before), touch.key);
      if Get(Reached(run), key).Some? {
        OnlyEntry(Reached(run), Reached(before), touch, key);
      }
  }

  lemma {:induction false} OnlyEntry<V>(after: seq<Entry<V>>, before: seq<Entry<V>>, touch: Entry<V>, key: string)
    requires DistinctKeys(before) && after == Touched(before, touch) && Get(after, key).Some?
    ensures Get(after, key) == if key == touch.key then Some(touch) else Get(before, key)
  {
    DeleteRemoves(before, touch.key);
    var e := Get(after, key).value;
    var kept := Delete(before, touch.key);
    assert touch.bytes <= CACHE_MAX_BYTES ==> e in kept + [touch];
    if key != touch.key {
      SameEntry(before, e);
    }
  }

  lemma {:induction false} SameEntry<V>(entries: seq<Entry<V>>, e: Entry<V>)
    requires DistinctKeys(entries) && e in entries
    ensures Get(entries, e.key) == Some(e)
  {
    if entries[0] != e {
      assert e in entries[1..];
      SameEntry(entries[1..], e);
    }
  }
}
