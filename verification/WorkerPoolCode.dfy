/**
 * The sections the worker pool runs under its mutex, on the pool's own fields
 * (src/base/thread.cpp). Each is one step of module WorkerPool.
 */
module WorkerPoolCode {
  import opened WorkerPool

  /** What a worker does when it gives the lock back. */
  datatype Handover = Waits | Returns | Runs(task: nat)

  class Pool {
    const opt: Options
    var queue: seq<nat>
    var workers: seq<nat>
    var parked: int
    var started: nat
    var stopping: bool
    ghost var around: State  // the threads, the notifications under way and the history

    constructor (o: Options)
      ensures Valid() && opt == o && View() == INITIAL
    {
      opt, queue, workers, parked, started, stopping, around := o, [], [], 0, 0, false, INITIAL;
    }

    ghost predicate Valid()
      reads this
    {
      started == |around.threads|
    }

    ghost function View(): State
      reads this
    {
      around.(queue := queue, workers := workers, parked := parked, stopping := stopping)
    }

    /** The part of post() under the lock; `notify` says whether notify_one follows. */
    method Post(task: nat, front: bool, starts: bool) returns (notify: bool)
      requires Valid() && (!stopping ==> task == View().posted)
      modifies this
      ensures Valid() && View() == Next(opt, old(View()), Step.Post(front, starts))
      ensures notify == !old(stopping)
    {
      ghost var v := View();
      if stopping { return false; }
      if front { queue := [task] + queue; } else { queue := queue + [task]; }
      notify, around := true, Next(opt, v, Step.Post(front, starts));
      if |queue| > parked && |workers| < opt.maxWorkers {
        workers := workers + [started];
        if starts { started := started + 1; } else { workers := workers[..|workers| - 1]; }
      }
    }

    /** Drops a worker that ends by itself from the list. */
    method Retire(self: nat)
      modifies this`workers
      ensures workers == Without(old(workers), self)
    {
      var i: nat := 0;
      while i < |workers|
        invariant i <= |workers| && workers == old(workers)
        invariant Without(workers, self) == workers[..i] + Without(workers[i..], self)
      {
        if workers[i] == self {
          workers := workers[..i] + workers[i + 1..];
          return;
        }
        assert workers[i..][1..] == workers[i + 1..] && workers[..i] + [workers[i]] == workers[..i + 1];
        i := i + 1;
      }
    }

    /** From the end of waiting to the release of the lock. */
    method Proceed(self: nat) returns (r: Handover)
      requires Valid() && self < started
      modifies this
      ensures Valid() && View() == WorkerPool.Proceed(old(View()), self)
      ensures r == if old(stopping) || old(queue) == [] then Returns else Runs(old(queue)[0])
    {
      ghost var v := View();
      around := WorkerPool.Proceed(v, self);
      if stopping { return Returns; }
      if queue == [] {
        Retire(self);
        return Returns;
      }
      r := Runs(queue[0]);
      queue := queue[1..];
    }

    /** The loop's head, with the lock; `expired` says whether the idle time is already over. */
    method Enter(self: nat, expired: bool) returns (r: Handover)
      requires Valid() && Enabled(View(), Step.Enter(self, expired))
      modifies this
      ensures Valid() && View() == Next(opt, old(View()), Step.Enter(self, expired))
      ensures r.Waits? <==> View().threads[self].Blocked?
      ensures forall t :: r == Runs(t) <==> View().threads[self] == Busy(t)
    {
      ghost var v := View();
      if queue == [] && !stopping && parked < opt.maxParked {
        parked := parked + 1;
        if !expired {
          around := Next(opt, v, Step.Enter(self, expired));
          return Waits;
        }
        parked := parked - 1;
      }
      r := Proceed(self);
    }

    /** A wait has returned, with the lock. */
    method Resume(self: nat, expired: bool) returns (r: Handover)
      requires Valid() && Enabled(View(), Step.Resume(self, expired))
      modifies this
      ensures Valid() && View() == Next(opt, old(View()), Step.Resume(self, expired))
      ensures r.Waits? <==> View().threads[self].Blocked?
      ensures forall t :: r == Runs(t) <==> View().threads[self] == Busy(t)
    {
      ghost var v := View();
      if queue == [] && !stopping && !expired {
        around := Next(opt, v, Step.Resume(self, expired));
        return Waits;
      }
      parked := parked - 1;
      r := Proceed(self);
    }

    /** The part of stop() under the lock: what is dropped, and who is joined. */
    method Stop() returns (droppedTasks: seq<nat>, joined: seq<nat>)
      requires Valid()
      modifies this
      ensures Valid() && View() == Next(opt, old(View()), Step.Stop)
      ensures droppedTasks == old(queue) && joined == old(workers)
    {
      around := Next(opt, View(), Step.Stop);
      stopping := true;
      droppedTasks, queue := queue, [];
      joined, workers := workers, [];
    }
  }
}
