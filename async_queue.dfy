/** `AsyncQueue`: tasks wait in a FIFO array and at most `concurrency` of
    them run at once. The promise machinery is reduced to its atomic steps:
    `add` (enqueue, then try to start one), the start step of `processNext`,
    and the end of a task (the `finally` branch). Tasks are named by
    numbers; what a task computes is its outcome, handed back to whoever
    added it. */
module AsyncQueues {
  import opened Wrappers

  type TaskId = nat

  /** How a task's promise settles: `resolve(result)` or `reject(error)`. */
  datatype Outcome = Resolved | Rejected(error: string)

  const DefaultConcurrency: int := 5

  class AsyncQueue {
    var queue: seq<TaskId>
    var running: nat
    const concurrency: int

    /** Every task ever added, in order. */
    ghost var added: seq<TaskId>
    /** Tasks that have started, in the order they started. */
    ghost var started: seq<TaskId>
    /** Tasks that started and have not finished. */
    ghost var active: multiset<TaskId>

    /** Tasks start in the order they were added; `running` counts the
        active tasks and never exceeds `concurrency` (a limit below one
        lets nothing run); and no task waits while a slot is free. */
    ghost predicate Valid()
      reads this
    {
      && started + queue == added
      && running == |active|
      && active <= multiset(started)
      && (running <= concurrency || running == 0)
      && (queue == [] || running >= concurrency)
    }

    constructor(concurrency: Option<int>)
      ensures Valid()
      ensures this.concurrency == concurrency.GetOr(DefaultConcurrency)
      ensures queue == [] && running == 0 && added == [] && active == multiset{}
    {
      this.concurrency := concurrency.GetOr(DefaultConcurrency);
      queue := [];
      running := 0;
      added := [];
      started := [];
      active := multiset{};
    }

    /** `getRunningCount()`. */
    function RunningCount(): nat
      reads this
    {
      running
    }

    /** `getQueuedCount()`. */
    function QueuedCount(): nat
      reads this
    {
      |queue|
    }

    /** The condition `waitAll` waits for. */
    predicate Idle()
      reads this
    {
      running == 0 && queue == []
    }

    /** The start step of `processNext`: nothing when every slot is taken or
        nothing waits; otherwise the front task starts. */
    method ProcessNext() returns (start: Option<TaskId>)
      requires (running <= concurrency || running == 0) && running == |active|
      requires started + queue == added && active <= multiset(started)
      requires |queue| <= 1 || running >= concurrency - 1
      modifies this
      ensures old(running) >= concurrency || old(queue) == [] ==> start.None? && unchanged(this)
      ensures old(running) < concurrency && old(queue) != [] ==>
        && start == Some(old(queue)[0]) && queue == old(queue)[1..] && running == old(running) + 1
        && started == old(started) + [old(queue)[0]] && active == old(active) + multiset{old(queue)[0]}
        && added == old(added)
      ensures running <= concurrency || running == 0
      ensures running == |active| && started + queue == added && active <= multiset(started)
      ensures queue == [] || running >= concurrency
    {
      if running >= concurrency || |queue| == 0 {
        return None;
      }
      var task := queue[0];
      queue := queue[1..];
      running := running + 1;
      started := started + [task];
      active := active + multiset{task};
      start := Some(task);
    }

    /** `add(task)`: the new task joins the back of the queue, then one start
        step runs. */
    method Add(task: TaskId) returns (start: Option<TaskId>)
      requires Valid()
      modifies this
      ensures Valid()
      ensures added == old(added) + [task]
      ensures old(running) < concurrency ==>
        start == Some(task) && queue == [] && running == old(running) + 1 && active == old(active) + multiset{task}
      ensures old(running) >= concurrency ==>
        start.None? && queue == old(queue) + [task] && running == old(running) && active == old(active)
    {
      queue := queue + [task];
      added := added + [task];
      start := ProcessNext();
    }

    /** A task ends, resolved or rejected: its outcome goes to its caller's
        promise, the slot is released and one start step runs. The
        scheduler's state does not depend on the outcome. */
    method Finish(task: TaskId, outcome: Outcome) returns (delivered: Outcome, start: Option<TaskId>)
      requires Valid() && task in active
      modifies this
      ensures Valid()
      ensures delivered == outcome
      ensures added == old(added)
      ensures old(queue) != [] && old(running) - 1 < concurrency ==>
        && start == Some(old(queue)[0]) && running == old(running) && queue == old(queue)[1..]
        && started == old(started) + [old(queue)[0]]
        && active == old(active) - multiset{task} + multiset{old(queue)[0]}
      ensures old(queue) == [] ==>
        && start.None? && running == old(running) - 1 && queue == []
        && started == old(started) && active == old(active) - multiset{task}
    {
      delivered := outcome;
      running := running - 1;
      active := active - multiset{task};
      start := ProcessNext();
    }
  }

  /** A queue that starts with one slot runs its tasks one at a time, in
      the order they were added. */
  method SerialOrder() returns (first: Option<TaskId>, second: Option<TaskId>, third: Option<TaskId>)
    ensures first == Some(1) && second.None? && third == Some(2)
  {
    var q := new AsyncQueue(Some(1));
    first := q.Add(1);
    second := q.Add(2);
    var _, s := q.Finish(1, Rejected("failed"));
    third := s;
  }
}
