/**
The FIFO semaphore of `src/worker/git/operations/limits.ts`.
 */
module Limiter {
  import opened Bytes
  import opened Bits

  type Task = nat

  datatype State = State(cur: int, queue: seq<Task>)

  /** A task gets a free slot or joins the queue. */
  function Acquire(max: int, s: State, t: Task): (State, bool) {
    if s.cur < max then (s.(cur := s.cur + 1), true) else (s.(queue := s.queue + [t]), false)
  }

  /** Frees a slot and hands it to the first task in the queue, if any. */
  function Release(s: State): (State, Option<Task>) {
    var cur := if s.cur - 1 < 0 then 0 else s.cur - 1;
    if s.queue == [] then (State(cur, []), None)
    else (State(cur + 1, s.queue[1..]), Some(s.queue[0]))
  }

  class SubrequestLimiter {
    const max: int
    var cur: int
    var queue: seq<Task>

    ghost function Slots(): State
      reads this
    {
      State(cur, queue)
    }

    /** At least one slot, whatever number is asked for. */
    constructor (max: int)
      ensures this.max >= 1 && (1 <= max < 0x8000_0000 ==> this.max == max)
      ensures Slots() == State(0, [])
    {
      this.max := if ToInt32(max) >= 1 then ToInt32(max) else 1;
      cur, queue := 0, [];
    }

    method AcquireSlot(t: Task) returns (started: bool)
      modifies this
      ensures (Slots(), started) == Acquire(max, old(Slots()), t)
    {
      if cur < max {
        cur := cur + 1;
        return true;
      }
      queue := queue + [t];
      return false;
    }

    method ReleaseSlot() returns (next: Option<Task>)
      modifies this
      ensures (Slots(), next) == Release(old(Slots()))
    {
      cur := cur - 1;
      if cur < 0 {
        cur := 0;
      }
      if |queue| == 0 {
        return None;
      }
      next := Some(queue[0]);
      queue := queue[1..];
      cur := cur + 1;
    }
  }

  // ---------- Runs ----------

  datatype Event = Arrive(task: Task) | Finish(task: Task)

  /** Any interleaving of tasks that arrive and tasks that finish. */
  datatype Run = Start | Then(before: Run, event: Event)

  function Reached(max: int, run: Run): State {
    match run
    case Start => State(0, [])
    case Then(before, Arrive(t)) => Acquire(max, Reached(max, before), t).0
    case Then(before, Finish(_)) => Release(Reached(max, before)).0
  }

  function Arrived(run: Run): seq<Task> {
    match run
    case Start => []
    case Then(before, Arrive(t)) => Arrived(before) + [t]
    case Then(before, Finish(_)) => Arrived(before)
  }

  /** The tasks that got a slot, in the order they got it. */
  function Started(max: int, run: Run): seq<Task> {
    match run
    case Start => []
    case Then(before, Arrive(t)) =>
      if Acquire(max, Reached(max, before), t).1 then Started(max, before) + [t] else Started(max, before)
    case Then(before, Finish(_)) =>
      var next := Release(Reached(max, before)).1;
      if next.Some? then Started(max, before) + [next.value] else Started(max, before)
  }

  function Finished(run: Run): multiset<Task> {
    match run
    case Start => multiset{}
    case Then(before, Arrive(_)) => Finished(before)
    case Then(before, Finish(t)) => Finished(before) + multiset{t}
  }

  function Running(max: int, run: Run): multiset<Task> {
    multiset(Started(max, run)) - Finished(run)
  }

  /** Only a task that is running finishes. */
  predicate Legal(max: int, run: Run) {
    run.Then? ==> Legal(max, run.before) && (run.event.Finish? ==> run.event.task in Running(max, run.before))
  }

  /**
  The counter is the number of running tasks and never above the limit, a task waits only
  while all slots are taken, and tasks start in the order they arrived, each once.
   */
  ghost predicate Exact(max: int, s: State, started: seq<Task>, finished: multiset<Task>, arrived: seq<Task>) {
    && finished <= multiset(started)
    && s.cur == |started| - |finished| <= max
    && (s.queue != [] ==> s.cur == max)
    && started + s.queue == arrived
  }

  /** Over every interleaving the slots are exact. */
  lemma {:induction false} SlotsAreExact(max: int, run: Run)
    requires max >= 1 && Legal(max, run)
    ensures Exact(max, Reached(max, run), Started(max, run), Finished(run), Arrived(run))
    ensures Reached(max, run).cur == |Running(max, run)|
  {
    match run {
      case Start =>
      case Then(before, Arrive(t)) =>
        SlotsAreExact(max, before);
        ArriveKeeps(max, Reached(max, before), Started(max, before), Finished(before), Arrived(before), t);
      case Then(before, Finish(t)) =>
        SlotsAreExact(max, before);
        FinishKeeps(max, Reached(max, before), Started(max, before), Finished(before), Arrived(before), t);
    }
    RunningCount(multiset(Started(max, run)), Finished(run));
  }

  lemma {:induction false} RunningCount(started: multiset<Task>, finished: multiset<Task>)
    requires finished <= started
    ensures |started - finished| == |started| - |finished|
  {
    assert started == (started - finished) + finished;
  }

  lemma {:induction false} ArriveKeeps(max: int, s: State, started: seq<Task>, finished: multiset<Task>,
                                       arrived: seq<Task>, t: Task)
    requires Exact(max, s, started, finished, arrived)
    ensures var (next, starts) := Acquire(max, s, t);
            Exact(max, next, if starts then started + [t] else started, finished, arrived + [t])
  {
    if s.cur < max {
      assert s.queue == [];
      assert started + [] == started && started + [t] + [] == started + [t];
    } else {
      AppendAssociates(started, s.queue, [t]);
    }
  }

  lemma {:induction false} FinishKeeps(max: int, s: State, started: seq<Task>, finished: multiset<Task>,
                                       arrived: seq<Task>, t: Task)
    requires Exact(max, s, started, finished, arrived) && t in multiset(started) - finished
    ensures var (next, woken) := Release(s);
            Exact(max, next, if woken.Some? then started + [woken.value] else started, finished + multiset{t}, arrived)
  {
    RunningCount(multiset(started), finished);
    assert s.cur >= 1;
    if s.queue != [] {
      assert s.queue == [s.queue[0]] + s.queue[1..];
      AppendAssociates(started, [s.queue[0]], s.queue[1..]);
    }
  }

  /** The clamp at zero never fires: a finishing task always holds a slot. */
  lemma {:induction false} ClampNeverFires(max: int, run: Run, t: Task)
    requires max >= 1 && Legal(max, Then(run, Finish(t)))
    ensures Reached(max, run).cur >= 1
  {
    SlotsAreExact(max, run);
    assert Running(max, run)[t] <= |Running(max, run)|;
  }

  /** No wakeup is lost: once nothing runs, every task that arrived has started and finished. */
  lemma {:induction false} IdleMeansDone(max: int, run: Run)
    requires max >= 1 && Legal(max, run) && Running(max, run) == multiset{}
    ensures Started(max, run) == Arrived(run) && Finished(run) == multiset(Arrived(run))
  {
    SlotsAreExact(max, run);
    var started, finished := multiset(Started(max, run)), Finished(run);
    assert started == (started - finished) + finished;
    assert Started(max, run) + [] == Started(max, run);
  }
}
