/**
 * The client's own code on its own fields (src/net/client.cpp): each method is
 * one step of module Client.
 */
module ClientCode {
  import opened Client

  class Impl {
    var nextId: nat
    var pending: seq<Pending>
    var queue: seq<nat>
    var stopping: bool
    ghost var around: State  // flags, workers, pool tasks, posted calls, the UI thread and the log

    constructor ()
      ensures View() == INITIAL
    {
      nextId, pending, queue, stopping, around := 1, [], [], false, INITIAL;
    }

    ghost function View(): State
      reads this
    {
      around.(nextId := nextId, pending := pending, queue := queue, stopping := stopping)
    }

    method Find(id: nat) returns (i: nat)
      ensures i == Index(pending, id)
    {
      i := 0;
      while i < |pending| && pending[i].id != id
        invariant i <= |pending| && Index(pending, id) == i + Index(pending[i..], id)
      {
        assert pending[i..][1..] == pending[i + 1..];
        i := i + 1;
      }
    }

    method Forget(i: nat)
      requires i < |pending|
      modifies this`pending
      ensures pending == Client.Forget(old(pending), i)
    {
      if i != |pending| - 1 { pending := pending[i := pending[|pending| - 1]]; }
      pending := pending[..|pending| - 1];
      assert pending == Client.Forget(old(pending), i);
    }

    /** send() up to the queue. */
    method Send(progress: bool) returns (id: nat)
      requires Enabled(View(), Step.Send(progress))
      modifies this
      ensures View() == Next(old(View()), Step.Send(progress)) && id == old(nextId)
    {
      around := Next(View(), Step.Send(progress));
      id := nextId;
      nextId := nextId + 1;
      pending := pending + [Pending(id, progress)];
      queue := queue + [id];
    }

    /** cancel() up to the list of requests waited for. */
    method Cancel(id: nat) returns (found: bool)
      requires Enabled(View(), Step.Cancel(id))
      modifies this
      ensures View() == Next(old(View()), Step.Cancel(id)) && found == Waiting(old(pending), id)
    {
      around := Next(View(), Step.Cancel(id));
      var i := Find(id);
      if i == |pending| { return false; }
      Forget(i);
      found := true;
    }

    /** The rest of cancel(): still queued, it goes now. */
    method Erase(id: nat)
      requires Enabled(View(), Step.Erase) && View().ui == Erasing(id)
      modifies this
      ensures View() == Next(old(View()), Step.Erase)
    {
      around := around.(ui := Idle);
      EraseIs(View().(ui := Erasing(id)));
      RemoveFromQueue(id);
    }

    method RemoveFromQueue(id: nat)
      modifies this`queue
      ensures queue == Removed(old(queue), id)
    {
      var q: nat := 0;
      while q < |queue|
        invariant q <= |queue| && queue == old(queue)
        invariant forall j :: 0 <= j < q ==> queue[j] != id
      {
        if queue[q] == id {
          RemovedIs(queue, q, id);
          queue := queue[..q] + queue[q + 1..];
          return;
        }
        q := q + 1;
      }
      RemovedIs(queue, q, id);
    }

    /** runNext()'s locked part: the oldest request, if there is one. */
    method Fetch() returns (job: seq<nat>)
      requires Enabled(View(), Step.Fetch)
      modifies this
      ensures View() == Next(old(View()), Step.Fetch)
      ensures job == if old(stopping) || old(queue) == [] then [] else [old(queue)[0]]
    {
      around := Next(View(), Step.Fetch);
      if stopping || queue == [] { return []; }
      job := [queue[0]];
      queue := queue[1..];
    }

    /** The call deliver() posted, or the one report() posted; `calls` says whether the user's callback runs. */
    method RunPosted(e: Event) returns (calls: bool)
      requires Enabled(View(), RunEvent) && View().alive && e == View().posts[0]
      modifies this
      ensures View() == Next(old(View()), RunEvent)
      ensures calls <==> |View().log| > |old(View()).log|
      ensures Distinct(old(pending)) ==>
                && (calls <==> exists p :: p in old(pending) && p.id == e.id && (e.Progress? ==> p.progress))
                && forall p: Pending :: p in pending <==> p in old(pending) && !(e.Done? && p.id == e.id)
    {
      around := Next(View(), RunEvent);
      var i := Find(e.id);
      IndexIs(pending, e.id);
      if Distinct(pending) {
        WantedIs(pending, e);
        if i < |pending| { ForgotOne(pending, i); }
      }
      if i == |pending| { return false; }
      if e.Progress? { return pending[i].progress; }
      Forget(i);
      calls := true;
    }

    /** The destructor up to pool.stop(). */
    method Destroy()
      requires Enabled(View(), Step.Destroy)
      modifies this
      ensures View() == Next(old(View()), Step.Destroy)
    {
      around := Next(View(), Step.Destroy);
      stopping := true;
      queue := [];
    }

    /** The destructor's end, every worker joined. */
    method Join()
      requires Enabled(View(), Step.Join)
      modifies this
      ensures View() == Next(old(View()), Step.Join)
    {
      around := Next(View(), Step.Join);
      pending := [];
    }
  }

  lemma {:induction false} RemovedIs(queue: seq<nat>, q: nat, id: nat)
    requires q <= |queue| && (q < |queue| ==> queue[q] == id)
    requires forall j :: 0 <= j < q ==> queue[j] != id
    ensures Removed(queue, id) == if q < |queue| then queue[..q] + queue[q + 1..] else queue
  {
    if q == 0 {
    } else {
      var rest := queue[1..];
      RemovedIs(rest, q - 1, id);
      assert queue == [queue[0]] + rest;
    }
  }

  lemma EraseIs(s: State)
    requires s.ui.Erasing?
    ensures Next(s, Step.Erase) == s.(queue := Removed(s.queue, s.ui.id), ui := Idle)
  {
  }
}
