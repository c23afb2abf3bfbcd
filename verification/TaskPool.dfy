/** The task slots that a user and the worker threads share, step by step. */
module TaskProtocol {
  datatype Status = Idle | Ready | Completed

  /** A slot with the number of times it was dispatched and the number of times its task ran. */
  datatype Slot = Slot(status: Status, dispatched: nat, executed: nat)

  /** Where a worker is in its loop over its slots. */
  datatype Control = Scan(head: nat) | Execute(head: nat) | Finish(head: nat)

  datatype Pool = Pool(slots: seq<seq<Slot>>, controls: seq<Control>)

  /** The next index of a cyclic scan. */
  function Advance(i: nat, n: nat): nat {
    if i + 1 < n then i + 1 else 0
  }

  /** Every worker has the same number of slots, and looks at one of them. */
  ghost predicate Shape(p: Pool, n: nat) {
    && n >= 1 && |p.controls| == |p.slots| >= 1
    && (forall w :: 0 <= w < |p.slots| ==> |p.slots[w]| == n)
    && forall w :: 0 <= w < |p.controls| ==> p.controls[w].head < n
  }

  ghost predicate HasSlot(p: Pool, w: nat, t: nat) {
    w < |p.slots| && t < |p.slots[w]|
  }

  /** The task has been handed over and its worker has not yet run it. */
  predicate Pending(p: Pool, w: nat, t: nat)
    requires HasSlot(p, w, t) && w < |p.controls|
  {
    p.slots[w][t].status == Ready && p.controls[w] != Finish(t)
  }

  /** Runs keep up with dispatches, but for a pending task; a worker runs and finishes ready tasks only. */
  ghost predicate Inv(p: Pool, n: nat) {
    && Shape(p, n)
    && (forall w: nat, t: nat :: HasSlot(p, w, t) ==>
         p.slots[w][t].dispatched == p.slots[w][t].executed + if Pending(p, w, t) then 1 else 0)
    && forall w: nat :: w < |p.controls| && !p.controls[w].Scan? ==> p.slots[w][p.controls[w].head].status == Ready
  }

  function WithSlot(p: Pool, w: nat, t: nat, s: Slot): Pool
    requires HasSlot(p, w, t)
  {
    p.(slots := p.slots[w := p.slots[w][t := s]])
  }

  function WithControl(p: Pool, w: nat, c: Control): Pool
    requires w < |p.controls|
  {
    p.(controls := p.controls[w := c])
  }

  /** One atomic step of worker w: look at a slot, run its task, or mark it completed. */
  function WorkerStep(p: Pool, w: nat, n: nat): Pool
    requires Shape(p, n) && w < |p.slots|
  {
    var h := p.controls[w].head;
    var s := p.slots[w][h];
    match p.controls[w]
    case Scan(_) => WithControl(p, w, if s.status == Ready then Execute(h) else Scan(Advance(h, n)))
    case Execute(_) => WithControl(WithSlot(p, w, h, s.(executed := s.executed + 1)), w, Finish(h))
    case Finish(_) => WithControl(WithSlot(p, w, h, s.(status := Completed)), w, Scan(Advance(h, n)))
  }

  /** The user hands a task over. */
  function Dispatched(p: Pool, w: nat, t: nat): Pool
    requires HasSlot(p, w, t)
  {
    var s := p.slots[w][t];
    WithSlot(p, w, t, s.(status := Ready, dispatched := s.dispatched + 1))
  }

  /** The user marks a result as handled. */
  function SetIdle(p: Pool, w: nat, t: nat): Pool
    requires HasSlot(p, w, t)
  {
    WithSlot(p, w, t, p.slots[w][t].(status := Idle))
  }

  datatype Action = Work(worker: nat) | Dispatch(worker: nat, task: nat) | Handled(worker: nat, task: nat)

  /** The user acts only on slots that are not ready, as the slots that it is given are. */
  ghost predicate Legal(p: Pool, a: Action) {
    match a
    case Work(w) => w < |p.slots|
    case Dispatch(w, t) => HasSlot(p, w, t) && p.slots[w][t].status != Ready
    case Handled(w, t) => HasSlot(p, w, t) && p.slots[w][t].status != Ready
  }

  function Apply(p: Pool, a: Action, n: nat): Pool
    requires Shape(p, n) && Legal(p, a)
  {
    match a
    case Work(w) => WorkerStep(p, w, n)
    case Dispatch(w, t) => Dispatched(p, w, t)
    case Handled(w, t) => SetIdle(p, w, t)
  }

  /** Every step of every thread keeps the invariant. */
  lemma StepKeepsInv(p: Pool, a: Action, n: nat)
    requires Inv(p, n) && Legal(p, a)
    ensures Inv(Apply(p, a, n), n)
    ensures |Apply(p, a, n).slots| == |p.slots|
  {
    var q := Apply(p, a, n);
    forall w: nat, t: nat | HasSlot(q, w, t)
      ensures q.slots[w][t].dispatched == q.slots[w][t].executed + if Pending(q, w, t) then 1 else 0
    {
      assert HasSlot(p, w, t);
    }
  }

  /** The assertion in set_completed holds: a worker marks only ready slots as completed. */
  lemma FinishesReady(p: Pool, n: nat, w: nat)
    requires Inv(p, n) && w < |p.slots| && p.controls[w].Finish?
    ensures p.slots[w][p.controls[w].head].status == Ready
  {}

  /** What the workers may do to the slots while the user looks at them: complete ready ones. */
  ghost predicate Rely(p: Pool, q: Pool) {
    && |p.slots| == |q.slots|
    && (forall w :: 0 <= w < |p.slots| ==> |p.slots[w]| == |q.slots[w]|)
    && forall w: nat, t: nat :: HasSlot(p, w, t) ==> StatusStep(p.slots[w][t].status, q.slots[w][t].status)
  }

  predicate StatusStep(a: Status, b: Status) {
    a == b || (a == Ready && b == Completed)
  }

  lemma WorkerRely(p: Pool, w: nat, n: nat)
    requires Inv(p, n) && w < |p.slots|
    ensures Rely(p, WorkerStep(p, w, n))
  {}

  lemma RelyTransitive(p: Pool, q: Pool, r: Pool)
    requires Rely(p, q) && Rely(q, r)
    ensures Rely(p, r)
  {
    forall w: nat, t: nat | HasSlot(p, w, t) ensures StatusStep(p.slots[w][t].status, r.slots[w][t].status) {
      assert HasSlot(q, w, t);
    }
  }

  function Start(workers: nat, n: nat): Pool {
    Pool(seq(workers, w => seq(n, t => Slot(Idle, 0, 0))), seq(workers, w => Scan(0)))
  }

  lemma StartInv(workers: nat, n: nat)
    requires workers >= 1 && n >= 1
    ensures Inv(Start(workers, n), n)
  {}

  /** A run of interleaved steps of the user and the workers. */
  ghost predicate Run(p: Pool, trace: seq<Action>, n: nat, q: Pool)
    decreases |trace|
  {
    if trace == [] then p == q
    else
      var k := |trace| - 1;
      exists m: Pool :: Run(p, trace[..k], n, m) && Shape(m, n) && Legal(m, trace[k]) && q == Apply(m, trace[k], n)
  }

  function Dispatches(trace: seq<Action>, w: nat, t: nat): nat {
    if trace == [] then 0
    else Dispatches(trace[..|trace| - 1], w, t) + if trace[|trace| - 1] == Dispatch(w, t) then 1 else 0
  }

  /** Over every run, each dispatched task is run exactly once: the runs of a slot are its dispatches in the run,
      less one while the last of them is pending. */
  lemma {:induction false} RunsOnce(workers: nat, n: nat, trace: seq<Action>, q: Pool)
    requires workers >= 1 && n >= 1 && Run(Start(workers, n), trace, n, q)
    ensures Inv(q, n) && |q.slots| == workers
    ensures forall w: nat, t: nat :: w < workers && t < n ==>
      HasSlot(q, w, t) && q.slots[w][t].executed + (if Pending(q, w, t) then 1 else 0) == Dispatches(trace, w, t)
    decreases |trace|
  {
    hide Inv;
    StartInv(workers, n);
    if trace == [] {
      StartCounts(workers, n);
    } else {
      var k := |trace| - 1;
      var m: Pool :| Run(Start(workers, n), trace[..k], n, m) && Shape(m, n) && Legal(m, trace[k]) && q == Apply(m,
          trace[k], n);
      RunsOnce(workers, n, trace[..k], m);
      StepKeepsInv(m, trace[k], n);
      forall w: nat, t: nat | w < workers && t < n
        ensures HasSlot(q, w, t) && q.slots[w][t].executed + (if Pending(q, w, t) then 1 else 0) == Dispatches(trace, w,
            t)
      {
        StepCounts(m, trace[k], n, w, t);
      }
    }
  }

  lemma StartCounts(workers: nat, n: nat)
    ensures forall w: nat, t: nat :: w < workers && t < n ==>
      HasSlot(Start(workers, n), w, t) && Start(workers, n).slots[w][t] == Slot(Idle, 0, 0)
  {}

  lemma StepCounts(p: Pool, a: Action, n: nat, w: nat, t: nat)
    requires Inv(p, n) && Legal(p, a) && HasSlot(p, w, t)
    ensures var q := Apply(p, a, n);
      HasSlot(q, w, t) && w < |q.controls| &&
      q.slots[w][t].executed + (if Pending(q, w, t) then 1 else 0)
      == p.slots[w][t].executed + (if Pending(p, w, t) then 1 else 0) + (if a == Dispatch(w, t) then 1 else 0)
  {}

  /** Slots between the one the worker looks at and slot t, in the order of the scan. */
  function Ahead(h: nat, t: nat, n: nat): nat
    requires h < n && t < n
  {
    if h <= t then t - h else n - h + t
  }

  /** A bound on the worker's steps until slot t is completed. */
  function Distance(p: Pool, w: nat, t: nat, n: nat): nat
    requires Shape(p, n) && HasSlot(p, w, t)
  {
    var d := 3 * Ahead(p.controls[w].head, t, n);
    match p.controls[w]
    case Scan(_) => d + 3
    case Execute(_) => d + 2
    case Finish(_) => d + 1
  }

  function Steps(trace: seq<Action>, w: nat): nat {
    if trace == [] then 0
    else Steps(trace[..|trace| - 1], w) + if trace[|trace| - 1] == Work(w) then 1 else 0
  }

  /** Only the worker of a ready slot moves towards completing it, and every one of its steps does. */
  lemma StepProgress(p: Pool, a: Action, n: nat, w: nat, t: nat)
    requires Inv(p, n) && Legal(p, a) && HasSlot(p, w, t)
    ensures Shape(Apply(p, a, n), n) && HasSlot(Apply(p, a, n), w, t)
    ensures var q := Apply(p, a, n);
      q.slots[w][t].status == Ready && a != Dispatch(w, t) ==>
        (&& p.slots[w][t].status == Ready
         && Distance(q, w, t, n) + (if a == Work(w) then 1 else 0) <= Distance(p, w, t, n))
  {
    StepKeepsInv(p, a, n);
  }

  lemma {:induction false} RunProgress(p: Pool, trace: seq<Action>, n: nat, q: Pool, w: nat, t: nat)
    requires Inv(p, n) && HasSlot(p, w, t) && Run(p, trace, n, q) && Dispatch(w, t) !in trace
    ensures Inv(q, n) && HasSlot(q, w, t)
    ensures q.slots[w][t].status == Ready ==>
      p.slots[w][t].status == Ready && Distance(q, w, t, n) + Steps(trace, w) <= Distance(p, w, t, n)
    decreases |trace|
  {
    hide Inv, Distance, Shape;
    if trace != [] {
      var k := |trace| - 1;
      var m: Pool :| Run(p, trace[..k], n, m) && Shape(m, n) && Legal(m, trace[k]) && q == Apply(m, trace[k], n);
      RunProgress(p, trace[..k], n, m, w, t);
      StepKeepsInv(m, trace[k], n);
      StepProgress(m, trace[k], n, w, t);
    }
  }

  /** Within 3n steps of its own worker a dispatched task is completed, whatever the user and the other workers do. */
  lemma CompletedInTime(p: Pool, trace: seq<Action>, n: nat, q: Pool, w: nat, t: nat)
    requires Inv(p, n) && HasSlot(p, w, t) && Run(p, trace, n, q) && Dispatch(w, t) !in trace
    requires Steps(trace, w) >= 3 * n
    ensures HasSlot(q, w, t) && q.slots[w][t].status != Ready
  {
    hide Run, Steps;
    RunProgress(p, trace, n, q, w, t);
  }
}

/** The manager's scans, with the workers taking steps in between. */
module TaskScans {
  import opened TaskProtocol

  const TASKS_PER_THREAD: nat := 64

  /** The index after k advances from start. */
  function Turned(start: nat, k: nat, n: nat): int {
    if start + k < n then start + k else start + k - n
  }

  lemma TurnedNext(start: nat, k: nat, n: nat)
    requires start < n && k < n
    ensures 0 <= Turned(start, k, n) < n && Turned(start, k + 1, n) == Advance(Turned(start, k, n), n)
    ensures 0 <= Turned(start, k + 1, n) < n
  {}

  /** A scan of n advances visits every index. */
  lemma VisitsAll(start: nat, n: nat, t: nat) returns (k: nat)
    requires start < n && t < n
    ensures 1 <= k <= n && Turned(start, k, n) == t
  {
    k := if t > start then t - start else t + n - start;
  }

  /** A slot handed to the user: worker and task. */
  datatype Found = None | Some(worker: nat, task: nat)

  class TasksManager {
    var pool: Pool
    var nextTask: seq<nat>
    var nextWorker: nat
    const n: nat

    ghost predicate Valid()
      reads this
    {
      && Inv(pool, n) && |nextTask| == |pool.slots| && nextWorker < |pool.slots|
      && forall w :: 0 <= w < |nextTask| ==> nextTask[w] < n
    }

    function Status(w: nat, t: nat): Status
      requires HasSlot(pool, w, t)
      reads this
    {
      pool.slots[w][t].status
    }

    constructor (nofWorkers: nat, minNofTasks: nat)
      requires nofWorkers > 0
      ensures Valid() && n >= TASKS_PER_THREAD && n * nofWorkers >= minNofTasks
      ensures pool == Start(nofWorkers, n)
    {
      var each := (minNofTasks + nofWorkers - 1) / nofWorkers;
      var size := if each < TASKS_PER_THREAD then TASKS_PER_THREAD else each;
      n := size;
      pool := Start(nofWorkers, size);
      nextTask := seq(nofWorkers, w => 0);
      nextWorker := 0;
      StartInv(nofWorkers, size);
      EnoughTasks(minNofTasks, nofWorkers, size);
    }

    /** The workers take any number of steps, in any order. */
    method Interfere()
      requires Valid()
      modifies this`pool
      ensures Valid() && Rely(old(pool), pool)
    {
      var steps: nat := *;
      while steps > 0
        invariant Valid() && Rely(old(pool), pool)
      {
        var w: nat := *;
        if w < |pool.slots| {
          WorkerRely(pool, w, n);
          StepKeepsInv(pool, Work(w), n);
          RelyTransitive(old(pool), pool, WorkerStep(pool, w, n));
          pool := WorkerStep(pool, w, n);
        }
        steps := steps - 1;
      }
    }

    /** Hands a task over: the user holds the slot, so that it is not ready. */
    method Dispatch(w: nat, t: nat)
      requires Valid() && HasSlot(pool, w, t) && Status(w, t) != Ready
      modifies this`pool
      ensures Valid() && pool == Dispatched(old(pool), w, t) && Pending(pool, w, t)
    {
      StepKeepsInv(pool, Action.Dispatch(w, t), n);
      pool := Dispatched(pool, w, t);
    }

    /** Marks a result as handled. */
    method SetIdle(w: nat, t: nat)
      requires Valid() && HasSlot(pool, w, t) && Status(w, t) != Ready
      modifies this`pool
      ensures Valid() && pool == TaskProtocol.SetIdle(old(pool), w, t)
    {
      StepKeepsInv(pool, Handled(w, t), n);
      pool := TaskProtocol.SetIdle(pool, w, t);
    }

    /** Moves the scan of worker w on by one slot. */
    method NextSlot(w: nat) returns (t: nat)
      requires Valid() && w < |nextTask|
      modifies this`nextTask
      ensures Valid() && t < n && t == Advance(old(nextTask[w]), n) && nextTask == old(nextTask)[w := t]
    {
      t := Advance(nextTask[w], n);
      nextTask := nextTask[w := t];
    }

    /** A slot of worker w that is idle or completed; none only if all were ready when the scan began. */
    method FreeOf(w: nat) returns (found: Found)
      requires Valid() && w < |pool.slots|
      modifies this`pool, this`nextTask
      ensures Valid() && Rely(old(pool), pool)
      ensures found.Some? ==> found.worker == w && HasSlot(pool, w, found.task) && Status(w, found.task) != Ready
      ensures found.None? ==> forall t: nat :: t < n ==> old(pool.slots[w][t].status) == Ready
    {
      hide Inv, Advance;
      ghost var was, start := pool, nextTask[w];
      ShapeOf(pool, n);
      for i := 0 to n
        invariant Valid() && Rely(was, pool) && nextTask[w] == Turned(start, i, n)
        invariant forall j: nat :: 1 <= j <= i ==> SlotStatus(was, w, Turned(start, j, n), Ready)
      {
        TurnedNext(start, i, n);
        var t := NextSlot(w);
        var isIdle := Read(w, t, Idle, was);
        if isIdle { return Some(w, t); }
        var isCompleted := Read(w, t, Completed, was);
        if isCompleted { return Some(w, t); }
      }
      forall t: nat | t < n ensures was.slots[w][t].status == Ready {
        var k := VisitsAll(start, n, t);
        assert SlotStatus(was, w, Turned(start, k, n), Ready);
      }
      return None;
    }

    /** An idle slot of worker w: found exactly when there is one. */
    method IdleOf(w: nat) returns (found: Found)
      requires Valid() && w < |pool.slots|
      modifies this`pool, this`nextTask
      ensures Valid() && Rely(old(pool), pool)
      ensures found.Some? ==> found.worker == w && HasSlot(pool, w, found.task) && Status(w, found.task) == Idle
      ensures found.None? ==> forall t: nat :: t < n ==> old(pool.slots[w][t].status) != Idle
    {
      hide Inv, Advance;
      ghost var was, start := pool, nextTask[w];
      ShapeOf(pool, n);
      for i := 0 to n
        invariant Valid() && Rely(was, pool) && nextTask[w] == Turned(start, i, n)
        invariant forall j: nat :: 1 <= j <= i ==> !SlotStatus(was, w, Turned(start, j, n), Idle)
      {
        TurnedNext(start, i, n);
        var t := NextSlot(w);
        var isIdle := Read(w, t, Idle, was);
        if isIdle { return Some(w, t); }
      }
      forall t: nat | t < n ensures was.slots[w][t].status != Idle {
        var k := VisitsAll(start, n, t);
        assert !SlotStatus(was, w, Turned(start, k, n), Idle);
      }
      return None;
    }

    /** A completed slot of worker w. The flag stays up only while every slot is idle. */
    method CompletedOf(w: nat, wasIdle: bool) returns (found: Found, isIdle: bool)
      requires Valid() && w < |pool.slots|
      modifies this`pool, this`nextTask
      ensures Valid() && Rely(old(pool), pool)
      ensures found.Some? ==> found.worker == w && HasSlot(pool, w, found.task) && Status(w, found.task) == Completed
      ensures found.None? ==> (isIdle <==> wasIdle && forall t: nat :: t < n ==> SlotStatus(old(pool), w, t, Idle))
    {
      hide Inv, Advance;
      ghost var was, start := pool, nextTask[w];
      isIdle := wasIdle;
      ShapeOf(pool, n);
      for i := 0 to n
        invariant Valid() && Rely(was, pool) && nextTask[w] == Turned(start, i, n)
        invariant isIdle <==> wasIdle && forall j: nat :: 1 <= j <= i ==> SlotStatus(was, w, Turned(start, j, n), Idle)
      {
        TurnedNext(start, i, n);
        var t := NextSlot(w);
        var isCompleted := Read(w, t, Completed, was);
        if isCompleted { return Some(w, t), false; }
        var idle := Read(w, t, Idle, was);
        assert idle <==> SlotStatus(was, w, t, Idle);
        if !idle { isIdle := false; }
        assert t == Turned(start, i + 1, n);
      }
      AllVisited(was, w, start, n);
      found := None;
    }

    /** One pass of the manager over its workers, the loop body of get_idle_or_completed_task. */
    method FreePass() returns (found: Found)
      requires Valid()
      modifies this
      ensures Valid() && Rely(old(pool), pool)
      ensures found.Some? ==> HasSlot(pool, found.worker, found.task) && Status(found.worker, found.task) != Ready
      ensures found.None? ==> forall w: nat, t: nat :: HasSlot(old(pool), w, t) ==> SlotStatus(old(pool), w, t, Ready)
    {
      hide Inv, Advance;
      ghost var was, start := pool, nextWorker;
      var workers := |pool.slots|;
      ShapeOf(pool, n);
      for i := 0 to workers
        invariant Valid() && Rely(was, pool) && nextWorker == Turned(start, i, workers)
        invariant forall j: nat, t: nat :: 1 <= j <= i && t < n ==>
          SlotStatusAt(was, Turned(start, j, workers), t, Ready)
      {
        TurnedNext(start, i, workers);
        nextWorker := Advance(nextWorker, |pool.slots|);
        ghost var before := pool;
        found := FreeOf(nextWorker);
        RelyTransitive(was, before, pool);
        if found.Some? { return; }
        assert nextWorker == Turned(start, i + 1, workers);
        forall t: nat | t < n ensures SlotStatusAt(was, nextWorker, t, Ready) {
          assert before.slots[nextWorker][t].status == Ready;
          assert HasSlot(was, nextWorker, t);
        }
      }
      forall w: nat, t: nat | HasSlot(was, w, t) ensures SlotStatus(was, w, t, Ready) {
        var k := VisitsAll(start, workers, w);
        assert SlotStatusAt(was, Turned(start, k, workers), t, Ready);
      }
      found := None;
    }

    /** Blocks until a slot is free; the number of passes it waits is given. */
    method GetIdleOrCompletedTask(patience: nat) returns (found: Found)
      requires Valid() && patience >= 1
      modifies this
      ensures Valid() && Rely(old(pool), pool)
      ensures found.Some? ==> HasSlot(pool, found.worker, found.task) && Status(found.worker, found.task) != Ready
      ensures found.None? ==> forall w: nat, t: nat :: HasSlot(old(pool), w, t) ==> SlotStatus(old(pool), w, t, Ready)
    {
      hide Inv;
      found := FreePass();
      for i := 1 to patience
        invariant Valid() && Rely(old(pool), pool)
        invariant found.Some? ==> HasSlot(pool, found.worker, found.task) && Status(found.worker, found.task) != Ready
        invariant found.None? ==> forall w: nat, t: nat :: HasSlot(old(pool), w, t) ==>
          SlotStatus(old(pool), w, t, Ready)
      {
        if found.Some? { return; }
        ghost var before := pool;
        found := FreePass();
        RelyTransitive(old(pool), before, pool);
      }
    }

    /** An idle slot of any worker: found exactly when there is one. */
    method GetIdleTask() returns (found: Found)
      requires Valid()
      modifies this
      ensures Valid() && Rely(old(pool), pool)
      ensures found.Some? ==>
        SlotStatus(pool, found.worker, found.task, Idle) && SlotStatus(old(pool), found.worker, found.task, Idle)
      ensures found.None? ==> forall w: nat, t: nat :: !SlotStatus(old(pool), w, t, Idle)
    {
      hide Inv, Advance;
      ghost var was, start := pool, nextWorker;
      var workers := |pool.slots|;
      ShapeOf(pool, n);
      for i := 0 to workers
        invariant Valid() && Rely(was, pool) && nextWorker == Turned(start, i, workers)
        invariant forall j: nat, t: nat :: 1 <= j <= i && t < n ==>
          !SlotStatusAt(was, Turned(start, j, workers), t, Idle)
      {
        TurnedNext(start, i, workers);
        nextWorker := Advance(nextWorker, |pool.slots|);
        ghost var before := pool;
        found := IdleOf(nextWorker);
        RelyTransitive(was, before, pool);
        if found.Some? { assert HasSlot(was, found.worker, found.task); return; }
        assert nextWorker == Turned(start, i + 1, workers);
        forall t: nat | t < n ensures !SlotStatusAt(was, nextWorker, t, Idle) {
          assert before.slots[nextWorker][t].status != Idle;
          assert HasSlot(was, nextWorker, t);
        }
      }
      forall w: nat, t: nat ensures !SlotStatus(was, w, t, Idle) {
        if HasSlot(was, w, t) {
          var k := VisitsAll(start, workers, w);
          assert !SlotStatusAt(was, Turned(start, k, workers), t, Idle);
        }
      }
      found := None;
    }

    /** One pass of get_completed_task: the flag tells whether every slot was idle. */
    method CompletedPass() returns (found: Found, allIdle: bool)
      requires Valid()
      modifies this
      ensures Valid() && Rely(old(pool), pool)
      ensures found.Some? ==> SlotStatus(pool, found.worker, found.task, Completed)
      ensures found.None? ==> (allIdle <==> AllIdle(old(pool)))
    {
      hide Inv, Advance;
      ghost var was, start := pool, nextWorker;
      var workers := |pool.slots|;
      ShapeOf(pool, n);
      allIdle := true;
      for i := 0 to workers
        invariant Valid() && Rely(was, pool) && nextWorker == Turned(start, i, workers)
        invariant allIdle <==> forall j: nat :: 1 <= j <= i ==> RowIdle(was, Turned(start, j, workers), n)
      {
        TurnedNext(start, i, workers);
        nextWorker := Advance(nextWorker, |pool.slots|);
        ghost var before := pool;
        found, allIdle := CompletedOf(nextWorker, allIdle);
        RelyTransitive(was, before, pool);
        if found.Some? { return; }
        RowKept(was, before, nextWorker, n);
        assert nextWorker == Turned(start, i + 1, workers);
      }
      RowsVisited(was, start, n);
      found := None;
    }

    /** Blocks until a result is there or every slot is idle; the number of passes it waits is given.
        It reports that there is nothing to wait for exactly when every slot was idle. */
    method GetCompletedTask(patience: nat) returns (found: Found, waiting: bool)
      requires Valid() && patience >= 1
      modifies this
      ensures Valid() && Rely(old(pool), pool)
      ensures found.Some? ==> SlotStatus(pool, found.worker, found.task, Completed)
      ensures found.None? && !waiting <==> AllIdle(old(pool))
    {
      hide Inv;
      var allIdle := false;
      found, allIdle := CompletedPass();
      NoneCompleted(old(pool), pool);
      for i := 1 to patience
        invariant Valid() && Rely(old(pool), pool)
        invariant found.Some? ==> SlotStatus(pool, found.worker, found.task, Completed) && !AllIdle(old(pool))
        invariant found.None? ==> (allIdle <==> AllIdle(old(pool)))
      {
        if found.Some? || allIdle { break; }
        ghost var before := pool;
        found, allIdle := CompletedPass();
        RelyTransitive(old(pool), before, pool);
        NoneCompleted(old(pool), before);
        NoneCompleted(old(pool), pool);
      }
      waiting := found.None? && !allIdle;
    }

    /** An atomic look at a slot, after any steps of the workers. */
    method Read(w: nat, t: nat, status: Status, ghost was: Pool) returns (yes: bool)
      requires Valid() && HasSlot(pool, w, t) && Rely(was, pool)
      modifies this`pool
      ensures Valid() && Rely(was, pool) && Rely(old(pool), pool) && HasSlot(pool, w, t)
      ensures yes <==> Status(w, t) == status
      ensures HasSlot(was, w, t) && StatusStep(was.slots[w][t].status, Status(w, t))
    {
      Interfere();
      RelyTransitive(was, old(pool), pool);
      yes := Status(w, t) == status;
    }
  }

  ghost predicate SlotStatus(p: Pool, w: nat, t: int, s: TaskProtocol.Status) {
    t >= 0 && HasSlot(p, w, t) && p.slots[w][t].status == s
  }

  ghost predicate SlotStatusAt(p: Pool, w: int, t: nat, s: TaskProtocol.Status) {
    w >= 0 && SlotStatus(p, w, t, s)
  }

  ghost predicate RowIdle(p: Pool, w: int, n: nat) {
    w >= 0 && forall t: nat :: t < n ==> SlotStatus(p, w, t, Idle)
  }

  ghost predicate AllIdle(p: Pool) {
    forall w: nat, t: nat :: HasSlot(p, w, t) ==> SlotStatus(p, w, t, Idle)
  }

  lemma AllVisited(p: Pool, w: nat, start: nat, n: nat)
    requires start < n
    ensures (forall j: nat :: 1 <= j <= n ==> SlotStatus(p, w, Turned(start, j, n), Idle)) <==>
      (forall t: nat :: t < n ==> SlotStatus(p, w, t, Idle))
  {
    if forall j: nat :: 1 <= j <= n ==> SlotStatus(p, w, Turned(start, j, n), Idle) {
      forall t: nat | t < n ensures SlotStatus(p, w, t, Idle) {
        var k := VisitsAll(start, n, t);
        assert SlotStatus(p, w, Turned(start, k, n), Idle);
      }
    }
  }

  lemma RowsVisited(p: Pool, start: nat, n: nat)
    requires start < |p.slots| && forall w :: 0 <= w < |p.slots| ==> |p.slots[w]| == n
    ensures (forall j: nat :: 1 <= j <= |p.slots| ==> RowIdle(p, Turned(start, j, |p.slots|), n)) <==> AllIdle(p)
  {
    if forall j: nat :: 1 <= j <= |p.slots| ==> RowIdle(p, Turned(start, j, |p.slots|), n) {
      forall w: nat, t: nat | HasSlot(p, w, t) ensures SlotStatus(p, w, t, Idle) {
        var k := VisitsAll(start, |p.slots|, w);
        assert RowIdle(p, Turned(start, k, |p.slots|), n);
      }
    }
  }

  /** Idle slots stay idle and no other slot becomes idle while the workers run. */
  lemma RowKept(p: Pool, q: Pool, w: nat, n: nat)
    requires Rely(p, q) && w < |p.slots|
    ensures RowIdle(p, w, n) <==> forall t: nat :: t < n ==> SlotStatus(q, w, t, Idle)
  {
    forall t: nat | t < n ensures SlotStatus(p, w, t, Idle) <==> SlotStatus(q, w, t, Idle) {
      if HasSlot(p, w, t) { assert StatusStep(p.slots[w][t].status, q.slots[w][t].status); }
    }
  }

  lemma NoneCompleted(p: Pool, q: Pool)
    requires Rely(p, q)
    ensures AllIdle(p) <==> AllIdle(q)
    ensures AllIdle(p) ==> forall w: nat, t: nat :: !SlotStatus(q, w, t, Completed)
  {
    forall w: nat, t: nat ensures HasSlot(p, w, t) <==> HasSlot(q, w, t) {}
    forall w: nat, t: nat | HasSlot(p, w, t) ensures SlotStatus(p, w, t, Idle) <==> SlotStatus(q, w, t, Idle) {
      assert StatusStep(p.slots[w][t].status, q.slots[w][t].status);
    }
  }

  lemma ShapeOf(p: Pool, n: nat)
    requires Inv(p, n)
    ensures n >= 1 && forall w :: 0 <= w < |p.slots| ==> |p.slots[w]| == n
  {}

  lemma EnoughTasks(minNofTasks: nat, nofWorkers: nat, size: nat)
    requires nofWorkers > 0 && size >= (minNofTasks + nofWorkers - 1) / nofWorkers
    ensures size * nofWorkers >= minNofTasks
  {
    var x := minNofTasks + nofWorkers - 1;
    var q := x / nofWorkers;
    assert x == q * nofWorkers + x % nofWorkers;
    assert (size - q) * nofWorkers >= 0 && size * nofWorkers == (size - q) * nofWorkers + q * nofWorkers;
  }
}
