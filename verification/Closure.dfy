/**
Fetch closure of `src/worker/git/operations/fetch/neededFast.ts` and `closure.ts`: the
stop set built from the client's haves, and the batched search for what it still needs.
 */
module Closure {
  import opened Bytes
  import opened Validation

  const HAVES_LIMIT: nat := 128
  const BATCH_SIZE: nat := 128
  const MAINLINE_BUDGET: nat := 20

  datatype GitObject =
    | Commit(tree: string, parents: seq<string>)
    | Tree(children: seq<string>)
    | Tag(target: Option<string>)
    | Blob

  /** The readable objects, under their lower-case ids. */
  type Graph = map<string, GitObject>

  function NonEmpty(oids: seq<string>): (r: seq<string>)
    ensures forall o :: o in r <==> o in oids && o != ""
  {
    if oids == [] then [] else (if oids[0] == "" then [] else [oids[0]]) + NonEmpty(oids[1..])
  }

  function RefsOf(obj: GitObject): seq<string> {
    match obj
    case Commit(tree, parents) => NonEmpty([tree] + parents)
    case Tree(children) => children
    case Tag(target) => if target.Some? && target.value != "" then [target.value] else []
    case Blob => []
  }

  /** What an object id leads to; an unreadable one leads nowhere. */
  function Succ(g: Graph, oid: string): seq<string> {
    if Lower(oid) in g then RefsOf(g[Lower(oid)]) else []
  }

  /**
  The edges of the object graph: a commit leads to its tree and its parents, a tree to its
  entries, a tag to its target; an empty id is no object.
   */
  predicate Edge(g: Graph, oid: string, ref: string) {
    Lower(oid) in g &&
    match g[Lower(oid)]
    case Commit(tree, parents) => ref != "" && (ref == tree || ref in parents)
    case Tree(children) => ref in children
    case Tag(target) => ref != "" && target == Some(ref)
    case Blob => false
  }

  lemma {:induction false} SuccessorsAreEdges(g: Graph, oid: string, ref: string)
    ensures ref in Succ(g, oid) <==> Edge(g, oid, ref)
  {
  }

  // ---------- Paths ----------

  ghost predicate IsPath(g: Graph, p: seq<string>) {
    |p| > 0 && forall i, j :: 0 <= i && j == i + 1 && j < |p| ==> p[j] in Succ(g, p[i])
  }

  ghost predicate Reaches(g: Graph, source: string, dest: string) {
    exists p :: IsPath(g, p) && p[0] == source && p[|p| - 1] == dest
  }

  ghost predicate Avoids(stop: set<string>, p: seq<string>) {
    forall i :: 0 <= i < |p| ==> Lower(p[i]) !in stop
  }

  /** `dest` is reachable from a want along a path that never enters the stop set. */
  ghost predicate ReachesAvoiding(g: Graph, wants: seq<string>, stop: set<string>, dest: string) {
    exists p :: IsPath(g, p) && p[0] in wants && p[|p| - 1] == dest && Avoids(stop, p)
  }

  lemma {:induction false} PathSnoc(g: Graph, p: seq<string>, next: string)
    requires IsPath(g, p) && next in Succ(g, p[|p| - 1])
    ensures IsPath(g, p + [next]) && (p + [next])[0] == p[0] && (p + [next])[|p|] == next
  {
    var q := p + [next];
    forall i, j | 0 <= i && j == i + 1 && j < |q| ensures q[j] in Succ(g, q[i]) {
      assert j < |p| ==> p[j] in Succ(g, p[i]);
    }
  }

  lemma {:induction false} ReachesSelf(g: Graph, oid: string)
    ensures Reaches(g, oid, oid)
  {
    assert IsPath(g, [oid]) && [oid][0] == oid;
  }

  lemma {:induction false} ReachesNext(g: Graph, source: string, mid: string, next: string)
    requires Reaches(g, source, mid) && next in Succ(g, mid)
    ensures Reaches(g, source, next)
  {
    var p :| IsPath(g, p) && p[0] == source && p[|p| - 1] == mid;
    PathSnoc(g, p, next);
  }

  lemma {:induction false} AvoidingNext(g: Graph, wants: seq<string>, stop: set<string>, mid: string, next: string)
    requires ReachesAvoiding(g, wants, stop, mid) && next in Succ(g, mid) && Lower(next) !in stop
    ensures ReachesAvoiding(g, wants, stop, next)
  {
    var p :| IsPath(g, p) && p[0] in wants && p[|p| - 1] == mid && Avoids(stop, p);
    PathSnoc(g, p, next);
    assert Avoids(stop, p + [next]);
  }

  lemma {:induction false} LowerTwice(s: string)
    ensures Lower(Lower(s)) == Lower(s)
  {
    forall i | 0 <= i < |s| ensures Lower(Lower(s))[i] == Lower(s)[i] {
      LowerCharTwice(s[i]);
    }
  }

  lemma {:induction false} LowerCharTwice(c: char)
    ensures LowerChar(LowerChar(c)) == LowerChar(c)
  {
  }

  // ---------- Common haves ----------

  /**
  The acknowledged haves are, without repetition, the lower-case ids of the first 128
  haves that the server has.
   */
  method FindCommonHaves(haves: seq<string>, present: set<string>) returns (found: seq<string>)
    ensures var capped := if |haves| <= 128 then haves else haves[..128];
            forall oid :: oid in found <==>
              oid != "" && exists i :: 0 <= i < |capped| && oid == Lower(capped[i]) && Lower(capped[i]) in present
    ensures forall i, j :: 0 <= i < j < |found| ==> found[i] != found[j]
  {
    var capped := if |haves| <= HAVES_LIMIT then haves else haves[..HAVES_LIMIT];
    found := [];
    var seen: set<string> := {};
    for index := 0 to |capped|
      invariant forall oid :: oid in seen <==> oid in found
      invariant forall oid :: oid in found <==>
                  oid != "" && exists i :: 0 <= i < index && oid == Lower(capped[i]) && Lower(capped[i]) in present
      invariant forall i, j :: 0 <= i < j < |found| ==> found[i] != found[j]
    {
      var oid := Lower(capped[index]);
      if oid != "" && oid !in seen && oid in present {
        seen := seen + {oid};
        found := found + [oid];
      }
    }
  }

  // ---------- The stop set ----------

  /** Every stop id is reachable from an acknowledged have. */
  ghost predicate Grounded(g: Graph, acks: seq<string>, stop: set<string>) {
    forall s :: s in stop ==> exists a :: a in acks && Reaches(g, a, s)
  }

  /** The first parent of a readable commit, if it has one. */
  function FirstParent(g: Graph, oid: string): (r: Option<string>) {
    if Lower(oid) in g && g[Lower(oid)].Commit? && |g[Lower(oid)].parents| > 0 && g[Lower(oid)].parents[0] != ""
    then Some(g[Lower(oid)].parents[0])
    else None
  }

  /** The ancestor `n` first parents up. */
  function Ancestor(g: Graph, oid: string, n: nat): Option<string>
    decreases n
  {
    if n == 0 then Some(oid)
    else
      match Ancestor(g, oid, n - 1)
      case None => None
      case Some(child) =>
        if Lower(child) !in g then None
        else
          match g[Lower(child)]
          case Commit(_, parents) => if parents == [] || parents[0] == "" then None else Some(parents[0])
          case _ => None
  }

  /** On the first-parent chain of one of the given ids. */
  ghost predicate OnMainline(g: Graph, from: seq<string>, oid: string) {
    exists a, n: nat :: a in from && Ancestor(g, a, n) == Some(oid)
  }

  ghost predicate AllOnMainline(g: Graph, from: seq<string>, oids: set<string>) {
    forall o :: o in oids ==> OnMainline(g, from, o)
  }

  lemma {:induction false} ParentOnMainline(g: Graph, from: seq<string>, oids: set<string>, oid: string)
    requires AllOnMainline(g, from, oids) && oid in oids && FirstParent(g, oid).Some?
    ensures AllOnMainline(g, from, oids + {FirstParent(g, oid).value})
  {
    var a, n: nat :| a in from && Ancestor(g, a, n) == Some(oid);
    assert Ancestor(g, a, n + 1) == FirstParent(g, oid);
  }

  /** A mainline ancestor is reachable. */
  lemma {:induction false} AncestorIsReached(g: Graph, oid: string, n: nat)
    requires Ancestor(g, oid, n).Some?
    ensures Reaches(g, oid, Ancestor(g, oid, n).value)
    decreases n
  {
    if n == 0 {
      ReachesSelf(g, oid);
    } else {
      var child := Ancestor(g, oid, n - 1).value;
      AncestorIsReached(g, oid, n - 1);
      var commit := g[Lower(child)];
      assert commit.parents[0] in [commit.tree] + commit.parents;
      ReachesNext(g, oid, child, commit.parents[0]);
    }
  }

  lemma {:induction false} MainlineIsGrounded(g: Graph, acks: seq<string>, stop: set<string>)
    requires AllOnMainline(g, acks, stop)
    ensures Grounded(g, acks, stop)
  {
    forall s | s in stop ensures exists a :: a in acks && Reaches(g, a, s) {
      var a, n: nat :| a in acks && Ancestor(g, a, n) == Some(s);
      AncestorIsReached(g, a, n);
    }
  }

  function Members(oids: seq<string>): set<string> {
    set o | o in oids
  }

  lemma {:induction false} LowerMembers(oids: seq<string>)
    requires forall o :: o in oids ==> Lower(o) == o
    ensures (set o | o in oids :: Lower(o)) == Members(oids)
  {
  }

  lemma {:induction false} MembersOnMainline(g: Graph, oids: seq<string>)
    ensures AllOnMainline(g, oids, Members(oids))
  {
    forall o | o in oids ensures OnMainline(g, oids, o) {
      assert Ancestor(g, o, 0) == Some(o);
    }
  }

  /** Every first parent of a member that has one is a member, except of those still waiting. */
  ghost predicate MainlineClosed(g: Graph, oids: set<string>, waiting: seq<string>) {
    forall o :: o in oids && o !in waiting && FirstParent(g, o).Some? ==> FirstParent(g, o).value in oids
  }

  /**
  The acknowledged haves and, when they are fewer than ten, what their first-parent chains
  add: all of it or twenty new ids, given `patience` turns of the clock enough.
   */
  method BuildStopSet(g: Graph, acks: seq<string>, patience: nat) returns (stopSet: set<string>)
    requires forall a :: a in acks ==> Lower(a) == a
    ensures forall a :: a in acks ==> a in stopSet
    ensures AllOnMainline(g, acks, stopSet) && Grounded(g, acks, stopSet)
    ensures |stopSet| <= |Members(acks)| + 20
    ensures |acks| >= 10 ==> stopSet == Members(acks)
    ensures |acks| < 10 && patience >= |acks| + 20 ==>
              MainlineClosed(g, stopSet, []) || |stopSet| == |Members(acks)| + 20
  {
    stopSet := set a | a in acks :: Lower(a);
    LowerMembers(acks);
    MembersOnMainline(g, acks);
    if 0 < |acks| < 10 {
      stopSet := WalkMainline(g, acks, stopSet, patience);
    }
    MainlineIsGrounded(g, acks, stopSet);
  }

  /** What the walk has done: `walked` ids added to `start`, all on mainlines, and only the queue still to look at. */
  ghost predicate Walked(g: Graph, first: seq<string>, start: set<string>, stopSet: set<string>, queue: seq<string>,
                         walked: nat) {
    && |stopSet| == |start| + walked && start <= stopSet && AllOnMainline(g, first, stopSet)
    && (forall q :: q in queue ==> q in stopSet)
    && MainlineClosed(g, stopSet, queue)
  }

  /** The walk: at most twenty new ids, each on a first-parent chain of the queue it starts from. */
  method WalkMainline(g: Graph, first: seq<string>, start: set<string>, patience: nat) returns (stopSet: set<string>)
    requires start == Members(first) && AllOnMainline(g, first, start)
    ensures start <= stopSet && AllOnMainline(g, first, stopSet)
    ensures |stopSet| <= |start| + 20
    ensures patience >= |first| + 20 ==>
              MainlineClosed(g, stopSet, []) || |stopSet| == |start| + 20
  {
    stopSet := start;
    var mainlineQueue := first;
    var walked, turns := 0, 0;
    while |mainlineQueue| > 0 && walked < MAINLINE_BUDGET
      invariant walked <= MAINLINE_BUDGET && turns + |mainlineQueue| <= |first| + walked
      invariant Walked(g, first, start, stopSet, mainlineQueue, walked)
      decreases MAINLINE_BUDGET - walked, |mainlineQueue|
    {
      if turns >= patience {
        break;
      }
      turns := turns + 1;
      WalkStep(g, first, start, stopSet, mainlineQueue, walked);
      var oid, rest := mainlineQueue[0], mainlineQueue[1..];
      var parent := FirstParent(g, oid);
      if parent.Some? && parent.value !in stopSet {
        stopSet := stopSet + {parent.value};
        mainlineQueue := rest + [parent.value];
        walked := walked + 1;
      } else {
        mainlineQueue := rest;
      }
    }
  }

  lemma {:induction false} WalkStep(g: Graph, first: seq<string>, start: set<string>, stopSet: set<string>,
                                    queue: seq<string>, walked: nat)
    requires |queue| > 0 && Walked(g, first, start, stopSet, queue, walked)
    ensures var parent := FirstParent(g, queue[0]);
            if parent.Some? && parent.value !in stopSet then
              Walked(g, first, start, stopSet + {parent.value}, queue[1..] + [parent.value], walked + 1)
            else Walked(g, first, start, stopSet, queue[1..], walked)
  {
    ShiftMembers(queue);
    ShiftCloses(g, stopSet, queue);
    if FirstParent(g, queue[0]).Some? {
      ParentOnMainline(g, first, stopSet, queue[0]);
    }
  }

  /** Taking one id off the queue leaves only its own first parent to be added. */
  lemma {:induction false} ShiftCloses(g: Graph, oids: set<string>, queue: seq<string>)
    requires |queue| > 0 && MainlineClosed(g, oids, queue)
    ensures var parent := FirstParent(g, queue[0]);
            if parent.Some? && parent.value !in oids then
              MainlineClosed(g, oids + {parent.value}, queue[1..] + [parent.value])
            else MainlineClosed(g, oids, queue[1..])
  {
    assert forall o :: o in queue ==> o == queue[0] || o in queue[1..];
  }

  lemma {:induction false} ShiftMembers<T>(queue: seq<T>)
    requires |queue| > 0
    ensures queue[0] in queue && forall q :: q in queue[1..] ==> q in queue
  {
  }

  // ---------- Counting references ----------

  /** How many references some ids have in all. */
  ghost function RefTotal(g: Graph, ids: set<string>): nat
    decreases |ids|
  {
    if ids == {} then 0
    else
      var o :| o in ids;
      |Succ(g, o)| + RefTotal(g, ids - {o})
  }

  lemma {:induction false} RefTotalSplit(g: Graph, ids: set<string>, o: string)
    requires o in ids
    ensures RefTotal(g, ids) == |Succ(g, o)| + RefTotal(g, ids - {o})
    decreases |ids|
  {
    var first :| first in ids && RefTotal(g, ids) == |Succ(g, first)| + RefTotal(g, ids - {first});
    if first != o {
      RefTotalSplit(g, ids - {first}, o);
      RefTotalSplit(g, ids - {o}, first);
      assert ids - {first} - {o} == ids - {o} - {first};
    }
  }

  lemma {:induction false} RefTotalMonotone(g: Graph, some: set<string>, all: set<string>)
    requires some <= all
    ensures RefTotal(g, some) <= RefTotal(g, all)
    decreases |all|
  {
    if o :| o in all && o !in some {
      RefTotalSplit(g, all, o);
      RefTotalMonotone(g, some, all - {o});
    } else {
      assert some == all;
    }
  }

  ghost predicate Distinct(oids: seq<string>) {
    oids == [] || (oids[0] !in oids[1..] && Distinct(oids[1..]))
  }

  /** The reference lists of some ids. */
  function Lists(g: Graph, oids: seq<string>): (lists: seq<seq<string>>)
    ensures |lists| == |oids|
  {
    if oids == [] then [] else [Succ(g, oids[0])] + Lists(g, oids[1..])
  }

  function TotalLength(lists: seq<seq<string>>): nat {
    if lists == [] then 0 else |lists[0]| + TotalLength(lists[1..])
  }

  lemma {:induction false} RefTotalAdds(g: Graph, ids: set<string>, more: seq<string>)
    requires Distinct(more) && forall o :: o in more ==> o !in ids
    ensures RefTotal(g, ids + Members(more)) == RefTotal(g, ids) + TotalLength(Lists(g, more))
    decreases |more|
  {
    if more == [] {
      assert ids + Members(more) == ids;
    } else {
      RefTotalAdds(g, ids, more[1..]);
      RefTotalSplit(g, ids + Members(more), more[0]);
      assert more == [more[0]] + more[1..];
      assert ids + Members(more) - {more[0]} == ids + Members(more[1..]);
    }
  }

  // ---------- The closure ----------

  /** Refs remembered from earlier reads, under lower-case ids. */
  ghost predicate MemoOk(g: Graph, memo: map<string, seq<string>>) {
    forall k :: k in memo ==> k in g && memo[k] == RefsOf(g[k])
  }

  /** Every id the search can meet. */
  ghost function Universe(g: Graph, wants: seq<string>): set<string> {
    (set w | w in wants) + (set k, r | k in g && r in RefsOf(g[k]) :: r)
  }

  ghost predicate InUniverse(g: Graph, wants: seq<string>, oids: seq<string>) {
    forall o :: o in oids ==> o in Universe(g, wants)
  }

  /** An id that is a want, or a reference of an id reached without entering the stop set. */
  ghost predicate Found(g: Graph, wants: seq<string>, stop: set<string>, oid: string) {
    oid in wants || exists mid :: ReachesAvoiding(g, wants, stop, mid) && oid in Succ(g, mid)
  }

  lemma {:induction false} FoundIsReached(g: Graph, wants: seq<string>, stop: set<string>, oid: string)
    requires Found(g, wants, stop, oid) && Lower(oid) !in stop
    ensures ReachesAvoiding(g, wants, stop, oid)
  {
    if oid in wants {
      assert IsPath(g, [oid]) && [oid][0] in wants && Avoids(stop, [oid]);
    } else {
      var mid :| ReachesAvoiding(g, wants, stop, mid) && oid in Succ(g, mid);
      AvoidingNext(g, wants, stop, mid, oid);
    }
  }

  /** The state between two batches. */
  ghost predicate SearchInvariant(g: Graph, wants: seq<string>, stop: set<string>, seen: set<string>,
                                  needed: seq<string>, queue: seq<string>) {
    && InUniverse(g, wants, queue)
    && seen <= Universe(g, wants)
    && (forall o :: o in queue ==> Found(g, wants, stop, o))
    && (forall o :: o in needed ==> o in seen && ReachesAvoiding(g, wants, stop, o))
    && (forall o :: o in seen && Lower(o) !in stop ==> o in needed)
    && (forall i, j :: 0 <= i < j < |needed| ==> needed[i] != needed[j])
  }

  /** Nothing reachable in one step has been forgotten. */
  ghost predicate Expanded(g: Graph, wants: seq<string>, seen: set<string>, needed: seq<string>, queue: seq<string>) {
    && (forall w :: w in wants ==> w in seen || w in queue)
    && (forall o, r :: o in needed && r in Succ(g, o) ==> r in seen || r in queue)
  }

  /** Turns of the clock that are always enough: one for each want and each reference the search can meet. */
  ghost function TurnBound(g: Graph, wants: seq<string>): nat {
    |wants| + RefTotal(g, Universe(g, wants))
  }

  lemma {:induction false} NeededIsBounded(g: Graph, wants: seq<string>, stop: set<string>, seen: set<string>,
                                           needed: seq<string>, queue: seq<string>)
    requires SearchInvariant(g, wants, stop, seen, needed, queue)
    ensures |wants| + RefTotal(g, Members(needed)) <= TurnBound(g, wants)
  {
    RefTotalMonotone(g, Members(needed), Universe(g, wants));
  }

  /**
  The search without a clock or a failing read returns exactly the ids reachable from the
  wants along paths that avoid the stop set; cut short, it returns a subset of them.
   */
  method ComputeClosure(g: Graph, wants: seq<string>, stop: set<string>, memo0: map<string, seq<string>>,
                        patience: nat, fails: nat -> bool)
    returns (needed: seq<string>, timedOut: bool, failed: bool, memo: map<string, seq<string>>)
    requires MemoOk(g, memo0)
    ensures MemoOk(g, memo)
    ensures forall o :: o in needed ==> ReachesAvoiding(g, wants, stop, o)
    ensures !timedOut && !failed ==> forall o :: o in needed <==> ReachesAvoiding(g, wants, stop, o)
    ensures (forall b :: !fails(b)) ==> !failed
    ensures patience >= TurnBound(g, wants) ==> !timedOut
    ensures forall i, j :: 0 <= i < j < |needed| ==> needed[i] != needed[j]
  {
    var seen: set<string> := {};
    needed, timedOut, failed, memo := [], false, false, memo0;
    var queue := wants;
    var turns, batches := 0, 0;
    while |queue| > 0
      invariant turns + |queue| <= |wants| + RefTotal(g, Members(needed))
      invariant (forall b :: !fails(b)) ==> !failed
      invariant MemoOk(g, memo)
      invariant SearchInvariant(g, wants, stop, seen, needed, queue)
      invariant !failed ==> Expanded(g, wants, seen, needed, queue)
      decreases Universe(g, wants) - seen, |queue|
    {
      if turns >= patience {
        NeededIsBounded(g, wants, stop, seen, needed, queue);
        timedOut := true;
        break;
      }
      turns := turns + 1;
      var fetched;
      seen, needed, queue, fetched, memo := SearchBatch(g, wants, stop, seen, needed, queue, memo, fails(batches));
      batches := batches + 1;
      failed := failed || !fetched;
    }
    if !timedOut && !failed {
      DryMeansComplete(g, wants, stop, seen, needed, queue);
    }
  }

  /** The wants are seen, and every reference of a needed id; what is seen outside the stop set is needed. */
  ghost predicate Closed(g: Graph, wants: seq<string>, stop: set<string>, seen: set<string>, needed: seq<string>) {
    && (forall w :: w in wants ==> w in seen)
    && (forall o, r :: o in needed && r in Succ(g, o) ==> r in seen)
    && (forall o :: o in seen && Lower(o) !in stop ==> o in needed)
  }

  lemma {:induction false} DryMeansComplete(g: Graph, wants: seq<string>, stop: set<string>, seen: set<string>,
                                            needed: seq<string>, queue: seq<string>)
    requires SearchInvariant(g, wants, stop, seen, needed, queue)
    requires Expanded(g, wants, seen, needed, queue) && |queue| == 0
    ensures forall o :: ReachesAvoiding(g, wants, stop, o) ==> o in needed
  {
    assert Closed(g, wants, stop, seen, needed);
    forall o | ReachesAvoiding(g, wants, stop, o) ensures o in needed {
      EndIsNeeded(g, wants, stop, seen, needed, o);
    }
  }

  lemma {:induction false} EndIsNeeded(g: Graph, wants: seq<string>, stop: set<string>, seen: set<string>,
                                       needed: seq<string>, dest: string)
    requires Closed(g, wants, stop, seen, needed)
    requires ReachesAvoiding(g, wants, stop, dest)
    ensures dest in needed
  {
    var p :| IsPath(g, p) && p[0] in wants && p[|p| - 1] == dest && Avoids(stop, p);
    PathIsNeeded(g, wants, stop, seen, needed, p, |p| - 1);
  }

  // ---------- One batch ----------

  /** One turn of the search loop. */
  method SearchBatch(g: Graph, ghost wants: seq<string>, stop: set<string>, seen0: set<string>, needed0: seq<string>,
                     queue0: seq<string>, memo0: map<string, seq<string>>, fails: bool)
    returns (seen: set<string>, needed: seq<string>, queue: seq<string>, fetched: bool, memo: map<string, seq<string>>)
    requires |queue0| > 0 && MemoOk(g, memo0)
    requires SearchInvariant(g, wants, stop, seen0, needed0, queue0)
    ensures MemoOk(g, memo)
    ensures SearchInvariant(g, wants, stop, seen, needed, queue)
    ensures fetched && Expanded(g, wants, seen0, needed0, queue0) ==> Expanded(g, wants, seen, needed, queue)
    ensures !fails ==> fetched
    ensures |queue| + RefTotal(g, Members(needed0)) < |queue0| + RefTotal(g, Members(needed))
    ensures Universe(g, wants) - seen < Universe(g, wants) - seen0 || (seen == seen0 && |queue| < |queue0|)
  {
    var size := if |queue0| < BATCH_SIZE then |queue0| else BATCH_SIZE;
    var batch, rest := queue0[..size], queue0[size..];
    assert queue0 == batch + rest;
    queue, fetched, memo := rest, true, memo0;
    var toProcess;
    ghost var read: seq<string> := [];
    seen, needed, toProcess := MarkBatch(stop, batch, seen0, needed0);
    if |toProcess| > 0 {
      var refLists;
      refLists, fetched, memo, read := ReadRefs(g, toProcess, memo, fails);
      queue := Enqueue(refLists, seen, rest);
      FreshMembers(refLists, seen);
      ListMembers(g, read);
    }
    BatchIsCounted(g, needed0, read, needed);
    BatchKeepsInvariant(g, wants, stop, seen0, needed0, batch, rest, seen, needed, toProcess, queue);
    if fetched && Expanded(g, wants, seen0, needed0, queue0) {
      BatchKeepsExpanded(g, wants, stop, seen0, needed0, batch, rest, seen, needed, toProcess, queue);
    }
    BatchProgress(g, wants, seen0, batch, seen, toProcess);
  }

  /** Marks the unseen ids of a batch as seen, and as needed and to process unless they stop the search. */
  method MarkBatch(stop: set<string>, batch: seq<string>, seen0: set<string>, needed0: seq<string>)
    returns (seen: set<string>, needed: seq<string>, toProcess: seq<string>)
    requires forall i, j :: 0 <= i < j < |needed0| ==> needed0[i] != needed0[j]
    ensures seen == seen0 + set o | o in batch
    ensures forall o :: o in toProcess <==> o in batch && o !in seen0 && Lower(o) !in stop
    ensures forall o :: o in needed <==> o in needed0 || o in toProcess
    ensures forall i, j :: 0 <= i < j < |needed| ==> needed[i] != needed[j]
  {
    seen, needed, toProcess := seen0, needed0, [];
    for i := 0 to |batch|
      invariant seen == seen0 + set o | o in batch[..i]
      invariant forall o :: o in toProcess <==> o in batch[..i] && o !in seen0 && Lower(o) !in stop
      invariant forall o :: o in needed <==> o in needed0 || o in toProcess
      invariant forall i, j :: 0 <= i < j < |needed| ==> needed[i] != needed[j]
    {
      var oid := batch[i];
      assert batch[..i + 1] == batch[..i] + [oid];
      if oid !in seen0 {
        seen := seen + {oid};
        if Lower(oid) !in stop {
          if oid !in needed {
            needed := needed + [oid];
          }
          toProcess := toProcess + [oid];
        }
      }
    }
    assert batch[..|batch|] == batch;
  }

  /**
  The reference lists of a batch, from the memo and, unless the read fails, from the object
  store: one list for each id that has been read, in the order they were read.
   */
  method ReadRefs(g: Graph, toProcess: seq<string>, memo0: map<string, seq<string>>, fails: bool)
    returns (refLists: seq<seq<string>>, fetched: bool, memo: map<string, seq<string>>, ghost read: seq<string>)
    requires MemoOk(g, memo0)
    ensures MemoOk(g, memo) && (!fails ==> fetched)
    ensures Distinct(read) && refLists == Lists(g, read) && forall o :: o in read ==> o in toProcess
    ensures fetched ==> forall o :: o in toProcess && Lower(o) in g ==> o in read
  {
    var refsMap, order := FromMemo(g, toProcess, memo0);
    memo, fetched := memo0, true;
    if exists i :: 0 <= i < |toProcess| && toProcess[i] !in refsMap {
      if fails {
        fetched := false;
      } else {
        refsMap, order, memo := FetchMissing(g, toProcess, refsMap, order, memo);
      }
    }
    refLists := seq(|order|, i requires 0 <= i < |order| && order[i] in refsMap => refsMap[order[i]]);
    read := order;
    ListsAreSuccessors(g, order, refLists);
  }

  method FromMemo(g: Graph, toProcess: seq<string>, memo: map<string, seq<string>>)
    returns (refsMap: map<string, seq<string>>, order: seq<string>)
    requires MemoOk(g, memo)
    ensures MapOk(g, toProcess, refsMap, order)
  {
    refsMap, order := map[], [];
    for i := 0 to |toProcess|
      invariant MapOk(g, toProcess, refsMap, order)
    {
      var oid := toProcess[i];
      if Lower(oid) in memo {
        if oid !in refsMap {
          DistinctSnoc(order, oid);
          order := order + [oid];
        }
        refsMap := refsMap[oid := memo[Lower(oid)]];
      }
    }
  }

  method FetchMissing(g: Graph, toProcess: seq<string>, map0: map<string, seq<string>>, order0: seq<string>,
                      memo0: map<string, seq<string>>)
    returns (refsMap: map<string, seq<string>>, order: seq<string>, memo: map<string, seq<string>>)
    requires MemoOk(g, memo0) && MapOk(g, toProcess, map0, order0)
    ensures MemoOk(g, memo) && MapOk(g, toProcess, refsMap, order)
    ensures forall o :: o in toProcess && Lower(o) in g ==> o in refsMap
  {
    refsMap, order, memo := map0, order0, memo0;
    for i := 0 to |toProcess|
      invariant MemoOk(g, memo) && MapOk(g, toProcess, refsMap, order)
      invariant forall j :: 0 <= j < i && Lower(toProcess[j]) in g ==> toProcess[j] in refsMap
    {
      var oid := toProcess[i];
      if oid !in refsMap && Lower(oid) in g {
        DistinctSnoc(order, oid);
        order := order + [oid];
        refsMap := refsMap[oid := RefsOf(g[Lower(oid)])];
        memo := memo[Lower(oid) := RefsOf(g[Lower(oid)])];
      }
    }
  }

  lemma {:induction false} ListsAreSuccessors(g: Graph, order: seq<string>, refLists: seq<seq<string>>)
    requires |refLists| == |order| && forall i :: 0 <= i < |order| ==> refLists[i] == Succ(g, order[i])
    ensures refLists == Lists(g, order)
    decreases |order|
  {
    if order != [] {
      assert forall i :: 0 <= i < |order| - 1 ==> refLists[1..][i] == refLists[i + 1] && order[1..][i] == order[i + 1];
      ListsAreSuccessors(g, order[1..], refLists[1..]);
      assert refLists == [refLists[0]] + refLists[1..];
    }
  }

  lemma {:induction false} ListMembers(g: Graph, oids: seq<string>)
    ensures forall l :: l in Lists(g, oids) <==> exists o :: o in oids && l == Succ(g, o)
    decreases |oids|
  {
    if oids != [] {
      ListMembers(g, oids[1..]);
      assert oids == [oids[0]] + oids[1..];
    }
  }

  /** The batch's map holds successor lists of processed ids, in insertion order. */
  ghost predicate MapOk(g: Graph, toProcess: seq<string>, refsMap: map<string, seq<string>>, order: seq<string>) {
    && Distinct(order) && (forall o :: o in order <==> o in refsMap)
    && (forall o :: o in refsMap ==> o in toProcess && refsMap[o] == Succ(g, o))
  }

  lemma {:induction false} DistinctSnoc(oids: seq<string>, o: string)
    requires Distinct(oids) && o !in oids
    ensures Distinct(oids + [o])
    decreases |oids|
  {
    if oids != [] {
      assert (oids + [o])[1..] == oids[1..] + [o];
      DistinctSnoc(oids[1..], o);
    }
  }

  /** The references of a list that have not been seen, repetitions included. */
  function Unseen(refs: seq<string>, seen: set<string>): (more: seq<string>)
    ensures |more| <= |refs|
  {
    if refs == [] then [] else (if refs[0] in seen then [] else [refs[0]]) + Unseen(refs[1..], seen)
  }

  lemma {:induction false} UnseenMembers(refs: seq<string>, seen: set<string>)
    ensures forall r :: r in Unseen(refs, seen) <==> r in refs && r !in seen
    decreases |refs|
  {
    if refs != [] {
      UnseenMembers(refs[1..], seen);
      assert refs == [refs[0]] + refs[1..];
    }
  }

  function Fresh(refLists: seq<seq<string>>, seen: set<string>): (more: seq<string>)
    ensures |more| <= TotalLength(refLists)
  {
    if refLists == [] then [] else Unseen(refLists[0], seen) + Fresh(refLists[1..], seen)
  }

  lemma {:induction false} FreshMembers(refLists: seq<seq<string>>, seen: set<string>)
    ensures forall r :: r in Fresh(refLists, seen) <==> r !in seen && exists l :: l in refLists && r in l
    decreases |refLists|
  {
    if refLists != [] {
      UnseenMembers(refLists[0], seen);
      FreshMembers(refLists[1..], seen);
      assert refLists == [refLists[0]] + refLists[1..];
    }
  }

  /** Appends every reference that has not been seen, list by list, in order and with repetitions. */
  method Enqueue(refLists: seq<seq<string>>, seen: set<string>, queue0: seq<string>) returns (queue: seq<string>)
    ensures queue == queue0 + Fresh(refLists, seen)
  {
    queue := queue0;
    assert refLists[0..] == refLists;
    for i := 0 to |refLists|
      invariant queue0 + Fresh(refLists, seen) == queue + Fresh(refLists[i..], seen)
    {
      assert refLists[i..][1..] == refLists[i + 1..];
      AppendAssociates(queue, Unseen(refLists[i], seen), Fresh(refLists[i + 1..], seen));
      queue := EnqueueUnseen(refLists[i], seen, queue);
    }
  }

  method EnqueueUnseen(refs: seq<string>, seen: set<string>, queue0: seq<string>) returns (queue: seq<string>)
    ensures queue == queue0 + Unseen(refs, seen)
  {
    queue := queue0;
    assert refs[0..] == refs;
    for j := 0 to |refs|
      invariant queue0 + Unseen(refs, seen) == queue + Unseen(refs[j..], seen)
    {
      assert refs[j..][1..] == refs[j + 1..];
      if refs[j] !in seen {
        AppendAssociates(queue, [refs[j]], Unseen(refs[j + 1..], seen));
        queue := queue + [refs[j]];
      }
    }
  }

  /** A batch adds to the needed ids at least those it has read. */
  lemma {:induction false} BatchIsCounted(g: Graph, needed0: seq<string>, read: seq<string>, needed: seq<string>)
    requires Distinct(read) && forall o :: o in read ==> o !in needed0 && o in needed
    requires forall o :: o in needed0 ==> o in needed
    ensures RefTotal(g, Members(needed0)) + TotalLength(Lists(g, read)) <= RefTotal(g, Members(needed))
  {
    RefTotalAdds(g, Members(needed0), read);
    RefTotalMonotone(g, Members(needed0) + Members(read), Members(needed));
  }

  /** The queue after a batch holds what was left of it and unseen successors of the processed ids. */
  ghost predicate QueueAfter(g: Graph, toProcess: seq<string>, rest: seq<string>, queue: seq<string>) {
    forall r :: r in queue ==> r in rest || exists o :: o in toProcess && r in Succ(g, o)
  }

  lemma {:induction false} SuccessorInUniverse(g: Graph, wants: seq<string>, o: string, r: string)
    requires r in Succ(g, o)
    ensures r in Universe(g, wants)
  {
    assert Lower(o) in g;
  }

  lemma {:induction false} BatchKeepsInvariant(g: Graph, wants: seq<string>, stop: set<string>, seen0: set<string>,
                                               needed0: seq<string>, batch: seq<string>, rest: seq<string>,
                                               seen: set<string>, needed: seq<string>, toProcess: seq<string>,
                                               queue: seq<string>)
    requires SearchInvariant(g, wants, stop, seen0, needed0, batch + rest)
    requires seen == seen0 + set o | o in batch
    requires forall o :: o in toProcess <==> o in batch && o !in seen0 && Lower(o) !in stop
    requires forall o :: o in needed <==> o in needed0 || o in toProcess
    requires forall i, j :: 0 <= i < j < |needed| ==> needed[i] != needed[j]
    requires QueueAfter(g, toProcess, rest, queue)
    ensures SearchInvariant(g, wants, stop, seen, needed, queue)
  {
    forall o | o in toProcess ensures ReachesAvoiding(g, wants, stop, o) {
      assert o in batch + rest;
      FoundIsReached(g, wants, stop, o);
    }
    forall r | r in queue ensures Found(g, wants, stop, r) && r in Universe(g, wants) {
      if r in rest {
        assert r in batch + rest;
      } else {
        var o :| o in toProcess && r in Succ(g, o);
        SuccessorInUniverse(g, wants, o, r);
      }
    }
    forall o | o in batch ensures o in Universe(g, wants) {
      assert o in batch + rest;
    }
  }

  lemma {:induction false} BatchKeepsExpanded(g: Graph, wants: seq<string>, stop: set<string>, seen0: set<string>,
                                              needed0: seq<string>, batch: seq<string>, rest: seq<string>,
                                              seen: set<string>, needed: seq<string>, toProcess: seq<string>,
                                              queue: seq<string>)
    requires Expanded(g, wants, seen0, needed0, batch + rest)
    requires seen == seen0 + set o | o in batch
    requires forall o :: o in needed <==> o in needed0 || o in toProcess
    requires forall r :: r in rest ==> r in queue
    requires forall o, r :: o in toProcess && r in Succ(g, o) ==> r in seen || r in queue
    ensures Expanded(g, wants, seen, needed, queue)
  {
    forall o, r | o in needed && r in Succ(g, o) ensures r in seen || r in queue {
      if o in needed0 {
        assert r in seen0 || r in batch + rest;
      }
    }
  }

  lemma {:induction false} BatchProgress(g: Graph, wants: seq<string>, seen0: set<string>, batch: seq<string>,
                                         seen: set<string>, toProcess: seq<string>)
    requires InUniverse(g, wants, batch) && seen == seen0 + set o | o in batch
    requires forall o :: o in toProcess ==> o in batch && o !in seen0
    ensures seen == seen0 ==> |toProcess| == 0
    ensures seen == seen0 || Universe(g, wants) - seen < Universe(g, wants) - seen0
  {
    if |toProcess| > 0 {
      assert toProcess[0] in toProcess && toProcess[0] in seen;
    }
    if o :| o in batch && o !in seen0 {
      assert o in Universe(g, wants) - seen0 && o !in Universe(g, wants) - seen;
    }
  }

  /** When the queue has run dry, every node of an avoiding path has been found needed. */
  lemma {:induction false} PathIsNeeded(g: Graph, wants: seq<string>, stop: set<string>, seen: set<string>,
                                        needed: seq<string>, p: seq<string>, k: nat)
    requires Closed(g, wants, stop, seen, needed)
    requires IsPath(g, p) && p[0] in wants && Avoids(stop, p) && k < |p|
    ensures p[k] in needed
  {
    if k > 0 {
      PathIsNeeded(g, wants, stop, seen, needed, p, k - 1);
      assert p[k] in Succ(g, p[k - 1]);
    }
  }

  // ---------- The client ends up with everything ----------

  lemma {:induction false} SuccIgnoresCase(g: Graph, x: string, y: string)
    requires Lower(x) == Lower(y)
    ensures Succ(g, x) == Succ(g, y)
  {
  }

  /** From a have that reaches node `k` of a path, in either case of letters, the path leads on to its end. */
  lemma {:induction false} FollowFrom(g: Graph, source: string, p: seq<string>, k: nat, s: string) returns (end: string)
    requires IsPath(g, p) && k < |p|
    requires Reaches(g, source, s) && Lower(s) == Lower(p[k])
    ensures Reaches(g, source, end) && Lower(end) == Lower(p[|p| - 1])
    decreases |p| - k
  {
    if k + 1 < |p| {
      SuccIgnoresCase(g, s, p[k]);
      assert p[k + 1] in Succ(g, p[k]);
      ReachesNext(g, source, s, p[k + 1]);
      end := FollowFrom(g, source, p, k + 1, p[k + 1]);
    } else {
      end := s;
    }
  }

  /**
  The object `dest` is reachable from the wants; then the answer contains it, or it is
  reachable from an acknowledged have.
   */
  lemma {:induction false} ClientGetsEverything(g: Graph, wants: seq<string>, acks: seq<string>, stop: set<string>,
                                                needed: seq<string>, want: string, dest: string)
    requires Grounded(g, acks, stop)
    requires forall o :: o in needed <==> ReachesAvoiding(g, wants, stop, o)
    requires want in wants && Reaches(g, want, dest)
    ensures dest in needed || exists a, s :: a in acks && Reaches(g, a, s) && Lower(s) == Lower(dest)
  {
    var p :| IsPath(g, p) && p[0] == want && p[|p| - 1] == dest;
    if k :| 0 <= k < |p| && Lower(p[k]) in stop {
      var a :| a in acks && Reaches(g, a, Lower(p[k]));
      LowerTwice(p[k]);
      var s := FollowFrom(g, a, p, k, Lower(p[k]));
    } else {
      assert Avoids(stop, p);
    }
  }

  /** The whole of `computeNeededFast`. */
  method ComputeNeededFast(g: Graph, wants: seq<string>, haves: seq<string>, present: set<string>,
                           memo0: map<string, seq<string>>, mainlinePatience: nat, patience: nat, fails: nat -> bool)
    returns (needed: seq<string>, complete: bool, ghost acks: seq<string>)
    requires MemoOk(g, memo0)
    ensures var capped := if |haves| <= 128 then haves else haves[..128];
            forall a :: a in acks <==>
              a != "" && exists i :: 0 <= i < |capped| && a == Lower(capped[i]) && Lower(capped[i]) in present
    ensures forall o :: o in needed ==> exists w :: w in wants && Reaches(g, w, o)
    ensures (forall b :: !fails(b)) && patience >= TurnBound(g, wants) ==> complete
    ensures complete ==> forall w, o :: w in wants && Reaches(g, w, o) ==>
              o in needed || exists a, s :: a in acks && Reaches(g, a, s) && Lower(s) == Lower(o)
    ensures complete ==> forall o, ref :: o in needed && Edge(g, o, ref) ==>
              ref in needed || exists a, s :: a in acks && Reaches(g, a, s) && Lower(s) == Lower(ref)
  {
    var found: seq<string> := [];
    if |haves| > 0 {
      found := FindCommonHaves(haves, present);
    }
    acks := found;
    forall a | a in acks ensures Lower(a) == a {
      var i :| 0 <= i < |haves| && a == Lower(haves[i]);
      LowerTwice(haves[i]);
    }
    var stopSet := BuildStopSet(g, found, mainlinePatience);
    var timedOut, failed, memo;
    needed, timedOut, failed, memo := ComputeClosure(g, wants, stopSet, memo0, patience, fails);
    complete := !timedOut && !failed;
    forall o | o in needed ensures exists w :: w in wants && Reaches(g, w, o) {
      var p :| IsPath(g, p) && p[0] in wants && p[|p| - 1] == o && Avoids(stopSet, p);
      assert Reaches(g, p[0], o);
    }
    if complete {
      forall w, o | w in wants && Reaches(g, w, o)
        ensures o in needed || exists a, s :: a in acks && Reaches(g, a, s) && Lower(s) == Lower(o)
      {
        ClientGetsEverything(g, wants, acks, stopSet, needed, w, o);
      }
      forall o, ref | o in needed && Edge(g, o, ref)
        ensures ref in needed || exists a, s :: a in acks && Reaches(g, a, s) && Lower(s) == Lower(ref)
      {
        var w :| w in wants && Reaches(g, w, o);
        SuccessorsAreEdges(g, o, ref);
        ReachesNext(g, w, o, ref);
      }
    }
  }
}
