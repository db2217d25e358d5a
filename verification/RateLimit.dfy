/**
The sliding-window limiter of `workers/limits/src/index.ts`.
 */
module RateLimit {
  import opened Bytes

  const WINDOW_MS: int := 60_000

  /** The rows of the hits table, the latest insertion outermost. */
  datatype Hits = NoHits | Hit(earlier: Hits, key: string, at: int)

  /** A JavaScript number, as far as the limiter looks at it. */
  datatype Limit = NonFinite | Finite(value: real)

  datatype Decision = Decision(allowed: bool, retryAfter: int)

  function SafeLimit(limit: Limit): int {
    if limit.Finite? then limit.value.Floor else 0
  }

  // ---------- Queries on the hits table ----------

  /** What `DELETE ... WHERE at <= cutoff` leaves. */
  function Live(hits: Hits, cutoff: int): Hits {
    match hits
    case NoHits => NoHits
    case Hit(earlier, key, at) => if at > cutoff then Hit(Live(earlier, cutoff), key, at) else Live(earlier, cutoff)
  }

  /** `SELECT COUNT(*) ... WHERE key = ? AND at > ?`. */
  function Count(hits: Hits, key: string, cutoff: int): nat {
    match hits
    case NoHits => 0
    case Hit(earlier, k, at) => Count(earlier, key, cutoff) + if k == key && at > cutoff then 1 else 0
  }

  /** `SELECT at ... ORDER BY at ASC LIMIT 1`. */
  function Oldest(hits: Hits, key: string, cutoff: int): (r: Option<int>)
    ensures r.None? <==> Count(hits, key, cutoff) == 0
  {
    match hits
    case NoHits => None
    case Hit(earlier, k, at) =>
      var oldest := Oldest(earlier, key, cutoff);
      if k != key || at <= cutoff then oldest
      else if oldest.None? || at < oldest.value then Some(at)
      else oldest
  }

  /** `Math.ceil(ms / 1000)`. */
  function CeilSeconds(ms: int): (s: int)
    ensures 1000 * s >= ms > 1000 * (s - 1)
  {
    (ms + 999) / 1000
  }

  function Max(a: int, b: int): int {
    if a >= b then a else b
  }

  predicate Allows(hits: Hits, key: string, limit: Limit, now: int) {
    SafeLimit(limit) > 0 && Count(hits, key, now - WINDOW_MS) < SafeLimit(limit)
  }

  function RetryAfter(hits: Hits, key: string, now: int): int {
    var oldest := Oldest(hits, key, now - WINDOW_MS);
    Max(1, CeilSeconds((if oldest.Some? then oldest.value else now) + WINDOW_MS - now))
  }

  function Decide(hits: Hits, key: string, limit: Limit, now: int): Decision {
    if Allows(hits, key, limit, now) then Decision(true, 0) else Decision(false, RetryAfter(hits, key, now))
  }

  function Add(hits: Hits, key: string, at: int, allowed: bool): Hits {
    if allowed then Hit(hits, key, at) else hits
  }

  function After(hits: Hits, key: string, limit: Limit, now: int): Hits {
    var live := Live(hits, now - WINDOW_MS);
    Add(live, key, now, Allows(live, key, limit, now))
  }

  class SharedRateLimitDurableObject {
    var hits: Hits

    constructor ()
      ensures hits == NoHits
    {
      hits := NoHits;
    }

    method Consume(key: string, limit: Limit, now: int) returns (decision: Decision)
      modifies this
      ensures hits == After(old(hits), key, limit, now)
      ensures decision == Decide(Live(old(hits), now - WINDOW_MS), key, limit, now)
    {
      var safeLimit := SafeLimit(limit);
      var cutoff := now - WINDOW_MS;
      hits := Live(hits, cutoff);
      var count := Count(hits, key, cutoff);
      if safeLimit <= 0 || count >= safeLimit {
        var oldest := Oldest(hits, key, cutoff);
        var since := if oldest.Some? then oldest.value else now;
        return Decision(false, Max(1, CeilSeconds(since + WINDOW_MS - now)));
      }
      hits := Hit(hits, key, now);
      return Decision(true, 0);
    }
  }

  // ---------- Runs ----------

  datatype Call = Call(key: string, limit: Limit, now: int)

  /** Calls in the order they reach the object. */
  datatype Run = Start | Then(before: Run, call: Call)

  /** The table after some calls. */
  function Table(run: Run): Hits {
    match run
    case Start => NoHits
    case Then(before, c) => After(Table(before), c.key, c.limit, c.now)
  }

  /** The table a further call sees. */
  function Seen(run: Run, now: int): Hits {
    Live(Table(run), now - WINDOW_MS)
  }

  /** Whether a further call is allowed. */
  predicate Admitted(run: Run, c: Call) {
    Allows(Seen(run, c.now), c.key, c.limit, c.now)
  }

  /** Every hit ever allowed. */
  function Allowed(run: Run): Hits {
    match run
    case Start => NoHits
    case Then(before, c) => Add(Allowed(before), c.key, c.now, Admitted(before, c))
  }

  /** How many hits of `key` lie in the minute up to `t`, its start excluded. */
  function InWindow(hits: Hits, key: string, t: int): nat {
    match hits
    case NoHits => 0
    case Hit(earlier, k, at) => InWindow(earlier, key, t) + if k == key && t - 60_000 < at <= t then 1 else 0
  }

  /** No call was made after `now`. */
  predicate Until(run: Run, now: int) {
    run.Then? ==> run.call.now <= now
  }

  /** The clock does not run backwards. */
  predicate Orderly(run: Run) {
    run.Then? ==> Orderly(run.before) && Until(run.before, run.call.now)
  }

  // ---------- The table is the recent history ----------

  predicate NoLaterThan(hits: Hits, now: int) {
    hits.Hit? ==> hits.at <= now && NoLaterThan(hits.earlier, now)
  }

  lemma {:induction false} LiveTwice(hits: Hits, early: int, late: int)
    requires early <= late
    ensures Live(Live(hits, early), late) == Live(hits, late)
  {
    if hits.Hit? {
      LiveTwice(hits.earlier, early, late);
    }
  }

  lemma {:induction false} CountLive(hits: Hits, key: string, now: int)
    requires NoLaterThan(hits, now)
    ensures Count(Live(hits, now - WINDOW_MS), key, now - WINDOW_MS) == InWindow(hits, key, now)
  {
    if hits.Hit? {
      CountLive(hits.earlier, key, now);
    }
  }

  lemma {:induction false} NoLaterMore(hits: Hits, now: int, later: int)
    requires NoLaterThan(hits, now) && now <= later
    ensures NoLaterThan(hits, later)
  {
    if hits.Hit? {
      NoLaterMore(hits.earlier, now, later);
    }
  }

  /** One call keeps what later calls will see of the table and of the history the same. */
  lemma {:induction false} AddKeepsHistory(table: Hits, history: Hits, key: string, at: int, allowed: bool,
                                           early: int, late: int)
    requires Live(table, early) == Live(history, early) && early <= late
    ensures Live(Add(Live(table, early), key, at, allowed), late) == Live(Add(history, key, at, allowed), late)
  {
    LiveTwice(table, early, late);
    LiveTwice(history, early, late);
  }

  /** At any time not before the last call, the rows that survive pruning are the recent allowed hits. */
  lemma {:induction false} TableIsHistory(run: Run, now: int)
    requires Orderly(run) && Until(run, now)
    ensures Live(Table(run), now - WINDOW_MS) == Live(Allowed(run), now - WINDOW_MS)
    ensures NoLaterThan(Allowed(run), now)
  {
    match run
    case Start =>
    case Then(before, c) =>
      TableIsHistory(before, c.now);
      NoLaterMore(Allowed(before), c.now, now);
      AddKeepsHistory(Table(before), Allowed(before), c.key, c.now, Admitted(before, c),
                      c.now - WINDOW_MS, now - WINDOW_MS);
  }

  /** A decision depends only on the allowed hits of the same key in the last minute. */
  lemma {:induction false} AdmittedCounts(run: Run, c: Call)
    requires Orderly(run) && Until(run, c.now)
    ensures Admitted(run, c) <==> InWindow(Allowed(run), c.key, c.now) < SafeLimit(c.limit)
    ensures Admitted(run, c) <==> c.limit.Finite? && (InWindow(Allowed(run), c.key, c.now) + 1) as real <= c.limit.value
  {
    TableIsHistory(run, c.now);
    CountLive(Allowed(run), c.key, c.now);
  }

  // ---------- No window holds more than the limit ----------

  lemma {:induction false} EarlierWindow(hits: Hits, key: string, s: int, t: int)
    requires NoLaterThan(hits, s) && s <= t
    ensures InWindow(hits, key, t) <= InWindow(hits, key, s)
  {
    if hits.Hit? {
      EarlierWindow(hits.earlier, key, s, t);
    }
  }

  /** The limit that the last allowed call of `key` in the window named. */
  function LastNamed(run: Run, key: string, t: int): Option<Limit> {
    match run
    case Start => None
    case Then(before, c) =>
      if Admitted(before, c) && c.key == key && t - 60_000 < c.now <= t then Some(c.limit)
      else LastNamed(before, key, t)
  }

  /** A count of hits within a limit; without a limit there are none. */
  predicate Within(hits: nat, limit: Option<Limit>) {
    match limit
    case None => hits == 0
    case Some(named) => named.Finite? && hits as real <= named.value
  }

  /**
  Every window of one minute holds at most as many allowed hits of a key as the last of them
  named, whatever other keys do.
   */
  lemma {:induction false} WindowHoldsAtMostLimit(run: Run, key: string, t: int)
    requires Orderly(run)
    ensures Within(InWindow(Allowed(run), key, t), LastNamed(run, key, t))
  {
    match run
    case Start =>
    case Then(before, c) =>
      WindowHoldsAtMostLimit(before, key, t);
      if Admitted(before, c) && c.key == key && t - 60_000 < c.now <= t {
        AdmittedCounts(before, c);
        TableIsHistory(before, c.now);
        EarlierWindow(Allowed(before), key, c.now, t);
      }
  }

  /** Every call of `key` names at most `limit`. */
  predicate NamesAtMost(run: Run, key: string, limit: real) {
    run.Then? ==>
      && NamesAtMost(run.before, key, limit)
      && (run.call.key == key && run.call.limit.Finite? ==> run.call.limit.value <= limit)
  }

  lemma {:induction false} LastNamedIsNamed(run: Run, key: string, limit: real, t: int)
    requires NamesAtMost(run, key, limit)
    ensures var named := LastNamed(run, key, t); named.Some? && named.value.Finite? ==> named.value.value <= limit
  {
    if run.Then? {
      LastNamedIsNamed(run.before, key, limit, t);
    }
  }

  /** A key whose calls all name the same limit never has more allowed hits than that in one minute. */
  lemma {:induction false} OneLimitHolds(run: Run, key: string, limit: real, t: int)
    requires Orderly(run) && NamesAtMost(run, key, limit) && limit >= 0.0
    ensures InWindow(Allowed(run), key, t) as real <= limit
  {
    WindowHoldsAtMostLimit(run, key, t);
    LastNamedIsNamed(run, key, limit, t);
  }

  // ---------- A refused caller that waits ----------

  /** `run` is `base` followed by calls of other keys only. */
  predicate OthersSince(run: Run, base: Run, key: string) {
    run == base || (run.Then? && run.call.key != key && OthersSince(run.before, base, key))
  }

  lemma {:induction false} OthersDoNotCount(run: Run, base: Run, key: string, t: int)
    requires OthersSince(run, base, key)
    ensures InWindow(Allowed(run), key, t) == InWindow(Allowed(base), key, t)
  {
    if run != base {
      OthersDoNotCount(run.before, base, key, t);
    }
  }

  /** A window that has moved past the oldest hit has lost at least that one; before that it has lost none. */
  lemma {:induction false} WindowMoves(hits: Hits, key: string, now: int, t: int)
    requires NoLaterThan(hits, now) && now <= t
    ensures var oldest := Oldest(Live(hits, now - WINDOW_MS), key, now - WINDOW_MS);
            && (oldest.Some? <==> InWindow(hits, key, now) > 0)
            && (oldest.Some? && t >= oldest.value + 60_000 ==> InWindow(hits, key, t) < InWindow(hits, key, now))
            && (oldest.Some? && t < oldest.value + 60_000 ==> InWindow(hits, key, t) == InWindow(hits, key, now))
  {
    CountLive(hits, key, now);
    if hits.Hit? {
      WindowMoves(hits.earlier, key, now, t);
      EarlierWindow(hits.earlier, key, now, t);
      CountLive(hits.earlier, key, now);
    }
  }

  /** A refused call that asks for no less than the last allowed one of its key did, and a later retry of it. */
  predicate Retried(run: Run, refused: Call, later: Run, retry: Call) {
    && Orderly(Then(run, refused)) && !Admitted(run, refused)
    && refused.limit.Finite? && refused.limit.value >= 1.0
    && retry.limit.Finite? && retry.limit.value.Floor == refused.limit.value.Floor
    && (var last := LastNamed(run, refused.key, refused.now);
        last.Some? && last.value.Finite? ==> last.value.value.Floor <= refused.limit.value.Floor)
    && OthersSince(later, Then(run, refused), refused.key)
    && Orderly(Then(later, retry)) && retry.key == refused.key
  }

  /** The oldest hit a call was refused for. */
  function OldestHit(run: Run, refused: Call): Option<int> {
    Oldest(Allowed(run), refused.key, refused.now - 60_000)
  }

  lemma {:induction false} OldestSurvives(hits: Hits, key: string, cutoff: int)
    ensures Oldest(Live(hits, cutoff), key, cutoff) == Oldest(hits, key, cutoff)
  {
    if hits.Hit? {
      OldestSurvives(hits.earlier, key, cutoff);
    }
  }

  lemma {:induction false} RefusedHasOldest(run: Run, refused: Call)
    requires Orderly(Then(run, refused))
    ensures Oldest(Seen(run, refused.now), refused.key, refused.now - WINDOW_MS) == OldestHit(run, refused)
  {
    TableIsHistory(run, refused.now);
    OldestSurvives(Allowed(run), refused.key, refused.now - 60_000);
  }

  /**
  A refused caller, with no further call of its own key, is allowed later exactly when the
  oldest hit it was refused for has left the window.
   */
  lemma {:induction false} AllowedOnceOldestLeaves(run: Run, refused: Call, later: Run, retry: Call)
    requires Retried(run, refused, later, retry) && refused.now <= retry.now
    ensures OldestHit(run, refused).Some?
    ensures Admitted(later, retry) <==> retry.now >= OldestHit(run, refused).value + 60_000
  {
    AdmittedCounts(run, refused);
    AdmittedCounts(later, retry);
    OthersDoNotCount(later, Then(run, refused), refused.key, retry.now);
    TableIsHistory(run, refused.now);
    WindowMoves(Allowed(run), refused.key, refused.now, retry.now);
    WindowHoldsAtMostLimit(run, refused.key, refused.now);
    RefusedHasOldest(run, refused);
  }

  /** Waiting `retryAfter` seconds is enough, and a whole second less is not, except that it is never below one. */
  lemma {:induction false} RetryAfterIsEnough(run: Run, refused: Call, later: Run, retry: Call)
    requires Retried(run, refused, later, retry) && refused.now <= retry.now
    ensures var seconds := Decide(Seen(run, refused.now), refused.key, refused.limit, refused.now).retryAfter;
            && seconds >= 1
            && (retry.now >= refused.now + 1000 * seconds ==> Admitted(later, retry))
            && (seconds > 1 && retry.now <= refused.now + 1000 * (seconds - 1) ==> !Admitted(later, retry))
  {
    AllowedOnceOldestLeaves(run, refused, later, retry);
    RefusedHasOldest(run, refused);
  }
}
