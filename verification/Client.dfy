/**
 * The life of a request (src/net/client.cpp) as a step relation over the UI
 * thread, the workers and the application's queue of posted calls. What runs
 * under the mutex is one step; `report` and `deliver` test `stopping` and post
 * in separate steps; a user's callback runs last in its step, so what it calls
 * is a later step.
 */
module Client {
  datatype Pending = Pending(id: nat, progress: bool)

  datatype Event = Progress(id: nat) | Done(id: nat)

  /** A request a worker has taken out of the queue. */
  datatype Work = Run(id: nat) | Reporting(id: nat) | Delivering(id: nat)

  /** Where the UI thread is: between calls, or in the middle of send, cancel or the destructor. */
  datatype Ui = Idle | Posting | Erasing(id: nat) | Joining

  /** What the caller sees, in order. */
  datatype Call = Sent(id: nat) | Cancelled(id: nat) | Progressed(id: nat) | Answered(id: nat) | Destroyed

  datatype State = State(
    nextId: nat, pending: seq<Pending>, flags: set<nat>, queue: seq<nat>, stopping: bool, alive: bool,
    unstarted: nat, fetching: nat, running: seq<Work>, posts: seq<Event>, ui: Ui, log: seq<Call>)

  const INITIAL := State(1, [], {}, [], false, true, 0, 0, [], [], Idle, [])

  datatype Step =
    | Send(progress: bool)   // up to the queue; PoolPost is its last part
    | PoolPost
    | Cancel(id: nat)        // up to the pending list; Erase is its last part
    | Erase
    | Destroy                // up to pool.stop()
    | Join                   // the destructor's end
    | Start                  // a pool task begins
    | Fetch                  // runNext's locked part
    | Abort(i: nat)          // run() sees the cancel flag
    | Report(i: nat)
    | PostReport(i: nat)
    | Deliver(i: nat)
    | PostDone(i: nat)
    | RunEvent               // the UI thread runs the oldest posted call

  // ---- Steps ----

  function Index(pending: seq<Pending>, id: nat): (i: nat)
    ensures i <= |pending| && (i < |pending| ==> pending[i].id == id)
    ensures forall j :: 0 <= j < i ==> pending[j].id != id
  {
    if pending == [] || pending[0].id == id then 0 else 1 + Index(pending[1..], id)
  }

  predicate Waiting(pending: seq<Pending>, id: nat) { Index(pending, id) < |pending| }

  /** The last entry takes the place of the one at `i`. */
  function Forget(pending: seq<Pending>, i: nat): seq<Pending>
    requires i < |pending|
  {
    pending[i := pending[|pending| - 1]][..|pending| - 1]
  }

  /** Removes the first `id`. */
  function Removed(queue: seq<nat>, id: nat): seq<nat>
  {
    if queue == [] then [] else if queue[0] == id then queue[1..] else [queue[0]] + Removed(queue[1..], id)
  }

  function Dropped(running: seq<Work>, i: nat): seq<Work>
    requires i < |running|
  {
    running[..i] + running[i + 1..]
  }

  function Ids(pending: seq<Pending>): set<nat> { set p | p in pending :: p.id }

  predicate Enabled(s: State, step: Step)
  {
    match step
    case Send(_) => s.ui.Idle? && s.alive
    case PoolPost => s.ui.Posting?
    case Cancel(_) => s.ui.Idle? && s.alive
    case Erase => s.ui.Erasing?
    case Destroy => s.ui.Idle? && s.alive
    case Join => s.ui.Joining? && s.running == [] && s.fetching == 0
    case Start => s.unstarted > 0
    case Fetch => s.fetching > 0
    case Abort(i) => i < |s.running| && s.running[i].Run? && s.running[i].id in s.flags
    case Report(i) => i < |s.running| && s.running[i].Run?
    case PostReport(i) => i < |s.running| && s.running[i].Reporting?
    case Deliver(i) => i < |s.running| && s.running[i].Run?
    case PostDone(i) => i < |s.running| && s.running[i].Delivering?
    case RunEvent => s.ui.Idle? && s.posts != []
  }

  function RunPost(s: State): State
    requires s.posts != []
  {
    var s1 := s.(posts := s.posts[1..]);
    match s.posts[0]
    case Progress(id) =>
      var i := Index(s.pending, id);
      if s.alive && i < |s.pending| && s.pending[i].progress then s1.(log := s.log + [Progressed(id)]) else s1
    case Done(id) =>
      var i := Index(s.pending, id);
      if s.alive && i < |s.pending| then s1.(pending := Forget(s.pending, i), log := s.log + [Answered(id)]) else s1
  }

  function CancelStep(s: State, id: nat): State
  {
    var s1 := if id < s.nextId then s.(log := s.log + [Cancelled(id)]) else s;
    var i := Index(s.pending, id);
    if i == |s.pending| then s1
    else s1.(flags := s.flags + {id}, pending := Forget(s.pending, i), ui := Erasing(id))
  }

  function Next(s: State, step: Step): State
    requires Enabled(s, step)
  {
    match step
    case Send(progress) =>
      s.(nextId := s.nextId + 1, pending := s.pending + [Pending(s.nextId, progress)], queue := s.queue + [s.nextId],
         ui := Posting, log := s.log + [Sent(s.nextId)])
    case PoolPost => s.(unstarted := s.unstarted + 1, ui := Idle)
    case Cancel(id) => CancelStep(s, id)
    case Erase => s.(queue := Removed(s.queue, s.ui.id), ui := Idle)
    case Destroy => s.(stopping := true, flags := s.flags + Ids(s.pending), queue := [], ui := Joining)
    case Join => s.(unstarted := 0, pending := [], alive := false, ui := Idle, log := s.log + [Destroyed])
    case Start => s.(unstarted := s.unstarted - 1, fetching := s.fetching + 1)
    case Fetch =>
      var s1 := s.(fetching := s.fetching - 1);
      if s.stopping || s.queue == [] then s1
      else s1.(queue := s.queue[1..], running := s.running + [Run(s.queue[0])])
    case Abort(i) => s.(running := Dropped(s.running, i))
    case Report(i) => if s.stopping then s else s.(running := s.running[i := Reporting(s.running[i].id)])
    case PostReport(i) =>
      var id := s.running[i].id;
      s.(running := s.running[i := Run(id)], posts := s.posts + [Progress(id)])
    case Deliver(i) =>
      if s.stopping then s.(running := Dropped(s.running, i))
      else s.(running := s.running[i := Delivering(s.running[i].id)])
    case PostDone(i) => s.(running := Dropped(s.running, i), posts := s.posts + [Done(s.running[i].id)])
    case RunEvent => RunPost(s)
  }

  datatype Outcome = Reached(state: State) | Impossible

  /** Where a run of steps from `s` leads, if each of them can be taken. */
  function After(s: State, steps: seq<Step>): Outcome
    decreases |steps|
  {
    if steps == [] then Reached(s)
    else
      var n := |steps| - 1;
      match After(s, steps[..n])
      case Reached(s0) => if Enabled(s0, steps[n]) then Reached(Next(s0, steps[n])) else Impossible
      case Impossible => Impossible
  }

  // ---- Where a request is ----

  function InQueue(queue: seq<nat>, id: nat): nat { multiset(queue)[id] }

  function InWork(running: seq<Work>, id: nat): nat
  {
    if running == [] then 0
    else InWork(running[..|running| - 1], id) + if running[|running| - 1].id == id then 1 else 0
  }

  function InPosts(posts: seq<Event>, id: nat): nat
  {
    if posts == [] then 0
    else InPosts(posts[..|posts| - 1], id) + if posts[|posts| - 1] == Done(id) then 1 else 0
  }

  /** How many times the request's answer is still to come: queued, with a worker, or posted. */
  function Places(s: State, id: nat): nat { InQueue(s.queue, id) + InWork(s.running, id) + InPosts(s.posts, id) }

  lemma {:induction false} WorkConcat(a: seq<Work>, b: seq<Work>, id: nat)
    ensures InWork(a + b, id) == InWork(a, id) + InWork(b, id)
  {
    if b == [] {
      assert a + b == a;
    } else {
      WorkConcat(a, b[..|b| - 1], id);
      assert (a + b)[..|a + b| - 1] == a + b[..|b| - 1];
    }
  }

  lemma WorkOne(w: Work, id: nat)
    ensures InWork([w], id) == if w.id == id then 1 else 0
  {
    assert [w][..0] == [];
  }

  lemma WorkDropped(running: seq<Work>, i: nat, id: nat)
    requires i < |running|
    ensures InWork(Dropped(running, i), id) == InWork(running, id) - if running[i].id == id then 1 else 0
  {
    hide InWork;
    assert running == running[..i] + [running[i]] + running[i + 1..];
    WorkConcat(running[..i] + [running[i]], running[i + 1..], id);
    WorkConcat(running[..i], [running[i]], id);
    WorkConcat(running[..i], running[i + 1..], id);
    WorkOne(running[i], id);
  }

  lemma WorkSame(running: seq<Work>, i: nat, w: Work, id: nat)
    requires i < |running| && w.id == running[i].id
    ensures InWork(running[i := w], id) == InWork(running, id)
  {
    hide InWork;
    WorkDropped(running, i, id);
    WorkDropped(running[i := w], i, id);
    assert Dropped(running[i := w], i) == Dropped(running, i);
  }

  lemma {:induction false} PostsConcat(a: seq<Event>, b: seq<Event>, id: nat)
    ensures InPosts(a + b, id) == InPosts(a, id) + InPosts(b, id)
  {
    if b == [] {
      assert a + b == a;
    } else {
      PostsConcat(a, b[..|b| - 1], id);
      assert (a + b)[..|a + b| - 1] == a + b[..|b| - 1];
    }
  }

  lemma PostsOne(e: Event, id: nat)
    ensures InPosts([e], id) == if e == Done(id) then 1 else 0
  {
    assert [e][..0] == [];
  }

  lemma PostsHead(posts: seq<Event>, id: nat)
    requires posts != []
    ensures InPosts(posts, id) == InPosts(posts[1..], id) + if posts[0] == Done(id) then 1 else 0
  {
    assert posts == [posts[0]] + posts[1..];
    PostsConcat([posts[0]], posts[1..], id);
    PostsOne(posts[0], id);
  }

  lemma {:induction false} PostsHave(posts: seq<Event>, id: nat)
    ensures InPosts(posts, id) > 0 <==> Done(id) in posts
  {
    if posts == [] {
    } else {
      var n := |posts| - 1;
      PostsHave(posts[..n], id);
      assert posts == posts[..n] + [posts[n]];
    }
  }

  lemma {:induction false} WorkHas(running: seq<Work>, i: nat)
    requires i < |running|
    ensures InWork(running, running[i].id) > 0
  {
    if i < |running| - 1 { WorkHas(running[..|running| - 1], i); }
  }

  lemma {:induction false} WorkAt(running: seq<Work>, id: nat) returns (i: nat)
    requires InWork(running, id) > 0
    ensures i < |running| && running[i].id == id
  {
    i := |running| - 1;
    if running[i].id != id { i := WorkAt(running[..i], id); }
  }

  lemma QueueHead(queue: seq<nat>, id: nat)
    requires queue != []
    ensures InQueue(queue, id) == InQueue(queue[1..], id) + if queue[0] == id then 1 else 0
  {
    assert queue == [queue[0]] + queue[1..];
    assert multiset(queue) == multiset{queue[0]} + multiset(queue[1..]);
  }

  lemma QueuePush(queue: seq<nat>, x: nat, id: nat)
    ensures InQueue(queue + [x], id) == InQueue(queue, id) + if x == id then 1 else 0
  {
  }

  lemma {:induction false} QueueRemoved(queue: seq<nat>, x: nat, id: nat)
    ensures InQueue(Removed(queue, x), id) <= InQueue(queue, id)
    ensures id != x ==> InQueue(Removed(queue, x), id) == InQueue(queue, id)
    ensures |Removed(queue, x)| <= |queue|
  {
    hide InQueue;
    if queue == [] {
    } else {
      QueueHead(queue, id);
      if queue[0] != x {
        QueueRemoved(queue[1..], x, id);
        var r := Removed(queue, x);
        QueueHead(r, id);
        assert r[1..] == Removed(queue[1..], x);
      }
    }
  }

  // ---- The waiting list ----

  predicate Distinct(pending: seq<Pending>)
  {
    forall i, j :: 0 <= i < j < |pending| ==> pending[i].id != pending[j].id
  }

  lemma WaitingIs(pending: seq<Pending>, id: nat)
    ensures Waiting(pending, id) <==> exists i :: 0 <= i < |pending| && pending[i].id == id
  {
  }

  lemma Forgotten(pending: seq<Pending>, i: nat, id: nat)
    requires Distinct(pending) && i < |pending|
    ensures Distinct(Forget(pending, i))
    ensures Waiting(Forget(pending, i), id) <==> Waiting(pending, id) && id != pending[i].id
  {
    hide Index;
    var n, r := |pending| - 1, Forget(pending, i);
    WaitingIs(pending, id);
    WaitingIs(r, id);
    if Waiting(pending, id) && id != pending[i].id {
      var j :| 0 <= j < |pending| && pending[j].id == id;
      assert r[if j == n then i else j].id == id;
    }
  }

  lemma WaitingPush(pending: seq<Pending>, p: Pending, id: nat)
    ensures Waiting(pending + [p], id) <==> Waiting(pending, id) || id == p.id
  {
    hide Index;
    WaitingIs(pending, id);
    WaitingIs(pending + [p], id);
    var r := pending + [p];
    assert r[|pending|].id == p.id;
    assert forall i :: 0 <= i < |pending| ==> r[i] == pending[i];
  }

  // ---- Invariants ----

  /** Each request's answer is to come at most once; one that is waited for is to come, unless the client goes. */
  ghost predicate Placed(s: State, id: nat)
  {
    && Places(s, id) <= 1
    && (id >= s.nextId ==> Places(s, id) == 0 && !Waiting(s.pending, id) && id !in s.flags)
    && (!s.stopping && Waiting(s.pending, id) ==> Places(s, id) == 1 && id !in s.flags && s.ui != Erasing(id))
  }

  ghost predicate Bookkeeping(s: State)
  {
    && Distinct(s.pending)
    && (s.stopping ==> s.queue == []) && (!s.alive ==> s.stopping && s.pending == [])
    && (s.ui.Joining? <==> s.stopping && s.alive)
    && |s.queue| <= s.unstarted + s.fetching + (if s.ui.Posting? then 1 else 0)
  }

  /** Once an answer is posted no progress of that request follows. */
  ghost predicate Ordered(posts: seq<Event>)
  {
    forall i, j :: 0 <= i < j < |posts| && posts[i].Done? ==> posts[j] != Progress(posts[i].id)
  }

  /** What must not be followed by a callback of the request. */
  predicate Ends(c: Call, id: nat) { c == Cancelled(id) || c == Answered(id) || c == Destroyed }

  predicate Callback(c: Call, id: nat) { c == Progressed(id) || c == Answered(id) }

  ghost predicate Orderly(log: seq<Call>)
  {
    && (forall i, j, id :: 0 <= i < j < |log| && Ends(log[i], id) ==> !Callback(log[j], id))
    && (forall j, id :: 0 <= j < |log| && Callback(log[j], id) ==> Sent(id) in log[..j])
  }

  /** A request that is waited for was sent and has not ended; one not waited for has. */
  ghost predicate Logged(s: State)
  {
    forall id: nat :: Waiting(s.pending, id) ==> Sent(id) in s.log && forall i :: 0 <= i < |s.log| ==> !Ends(s.log[i], id)
  }

  ghost predicate Invariant(s: State)
  {
    Bookkeeping(s) && (forall id: nat :: Placed(s, id)) && Ordered(s.posts) && Orderly(s.log) && Logged(s)
    && LogIds(s)
  }

  /** The log speaks only of requests that were sent. */
  ghost predicate LogIds(s: State)
  {
    && (forall i :: 0 <= i < |s.log| && !s.log[i].Destroyed? ==> s.log[i].id < s.nextId)
    && (s.alive ==> Destroyed !in s.log)
  }

  // ---- Each step keeps them ----

  lemma RunPostPlaced(s: State, id: nat)
    requires Bookkeeping(s) && Placed(s, id) && s.posts != []
    ensures Placed(RunPost(s), id)
  {
    hide InQueue, InWork, InPosts, Index, Waiting, Forget;
    PostsHead(s.posts, id);
    if s.posts[0].Done? {
      var i := Index(s.pending, s.posts[0].id);
      WaitingMeans(s.pending, s.posts[0].id);
      if i < |s.pending| { Forgotten(s.pending, i, id); }
    }
  }

  lemma WaitingMeans(pending: seq<Pending>, id: nat)
    ensures Index(pending, id) <= |pending| && (Waiting(pending, id) <==> Index(pending, id) < |pending|)
    ensures Waiting(pending, id) ==> pending[Index(pending, id)].id == id
  {
  }

  lemma CancelPlaced(s: State, x: nat, id: nat)
    requires Bookkeeping(s) && Placed(s, id) && Placed(s, x) && s.ui.Idle?
    ensures Placed(CancelStep(s, x), id)
  {
    hide InQueue, InWork, InPosts, Index, Waiting, Forget;
    WaitingMeans(s.pending, x);
    var i := Index(s.pending, x);
    if i < |s.pending| { Forgotten(s.pending, i, id); }
  }

  lemma WorkPlaced(s: State, step: Step, id: nat)
    requires Bookkeeping(s) && Placed(s, id) && Enabled(s, step)
    requires step.Abort? || step.Report? || step.PostReport? || step.Deliver? || step.PostDone?
    ensures Placed(Next(s, step), id)
  {
    hide InQueue, InWork, InPosts, Index, Waiting;
    var i, x := step.i, s.running[step.i].id;
    WorkDropped(s.running, i, id);
    WorkSame(s.running, i, Run(x), id);
    WorkSame(s.running, i, Reporting(x), id);
    WorkSame(s.running, i, Delivering(x), id);
    PostsConcat(s.posts, [Done(x)], id);
    PostsConcat(s.posts, [Progress(x)], id);
    PostsOne(Done(x), id);
    PostsOne(Progress(x), id);
  }

  lemma StepPlaced(s: State, step: Step, id: nat)
    requires Bookkeeping(s) && Placed(s, id) && Enabled(s, step) && (step.Cancel? ==> Placed(s, step.id))
    ensures Placed(Next(s, step), id)
  {
    hide InWork, InPosts, Index, Waiting, RunPost, CancelStep;
    match step {
      case Send(progress) =>
        WaitingPush(s.pending, Pending(s.nextId, progress), id);
        QueuePush(s.queue, s.nextId, id);
      case PoolPost | Start =>
      case Cancel(x) => CancelPlaced(s, x, id);
      case Erase => QueueRemoved(s.queue, s.ui.id, id);
      case Destroy => FlagsOfWaiting(s, id);
      case Join => NoneWaiting(id);
      case Fetch =>
        if !s.stopping && s.queue != [] {
          QueueHead(s.queue, id);
          WorkConcat(s.running, [Run(s.queue[0])], id);
          WorkOne(Run(s.queue[0]), id);
        }
      case RunEvent => RunPostPlaced(s, id);
      case _ => WorkPlaced(s, step, id);
    }
  }

  lemma NoneWaiting(id: nat)
    ensures !Waiting([], id)
  {
  }

  lemma FlagsOfWaiting(s: State, id: nat)
    ensures id in Ids(s.pending) ==> Waiting(s.pending, id)
  {
    WaitingIs(s.pending, id);
  }

  lemma StepBookkeeping(s: State, step: Step)
    requires Bookkeeping(s) && Enabled(s, step) && (step.Send? ==> Placed(s, s.nextId))
    ensures Bookkeeping(Next(s, step))
  {
    hide Index, Waiting, Removed, Forget, Places;
    match step {
      case Send(progress) =>
        WaitingIs(s.pending, s.nextId);
      case Erase => QueueRemoved(s.queue, s.ui.id, 0);
      case Cancel(x) =>
        var i := Index(s.pending, x);
        WaitingMeans(s.pending, x);
        if i < |s.pending| { Forgotten(s.pending, i, 0); }
      case RunEvent =>
        if s.posts[0].Done? {
          var i := Index(s.pending, s.posts[0].id);
          WaitingMeans(s.pending, s.posts[0].id);
          if i < |s.pending| { Forgotten(s.pending, i, 0); }
        }
      case _ =>
    }
  }

  lemma StepOrdered(s: State, step: Step)
    requires Ordered(s.posts) && Enabled(s, step) && forall id: nat :: Placed(s, id)
    ensures Ordered(Next(s, step).posts)
  {
    hide Index, Waiting, Removed, Forget, InWork, InPosts, InQueue;
    match step {
      case PostReport(i) =>
        var id := s.running[i].id;
        assert Placed(s, id);
        WorkHas(s.running, i);
        PostsHave(s.posts, id);
        assert Done(id) !in s.posts;
      case _ =>
    }
  }

  lemma OrderlyPush(log: seq<Call>, c: Call)
    requires Orderly(log)
    requires forall id :: Callback(c, id) ==> Sent(id) in log && forall i :: 0 <= i < |log| ==> !Ends(log[i], id)
    ensures Orderly(log + [c])
  {
    var r := log + [c];
    forall j, id | 0 <= j < |r| && Callback(r[j], id) ensures Sent(id) in r[..j] {
      assert r[..j] == log[..j];
      if j == |log| { assert log[..j] == log; }
    }
  }

  lemma StepOrderly(s: State, step: Step)
    requires Orderly(s.log) && Logged(s) && Enabled(s, step)
    ensures Orderly(Next(s, step).log)
  {
    hide Index, Removed, Forget, Orderly;
    match step {
      case Send(_) => OrderlyPush(s.log, Sent(s.nextId));
      case Cancel(x) => OrderlyPush(s.log, Cancelled(x));
      case Join => OrderlyPush(s.log, Destroyed);
      case RunEvent =>
        var id := s.posts[0].id;
        if Waiting(s.pending, id) {
          OrderlyPush(s.log, Progressed(id));
          OrderlyPush(s.log, Answered(id));
        }
      case _ =>
    }
  }

  /** What a request that is waited for needs of the log. */
  ghost predicate LoggedAt(log: seq<Call>, id: nat)
  {
    Sent(id) in log && forall i :: 0 <= i < |log| ==> !Ends(log[i], id)
  }

  lemma LoggedPush(log: seq<Call>, c: Call, id: nat)
    requires LoggedAt(log, id) && !Ends(c, id)
    ensures LoggedAt(log + [c], id)
  {
  }

  lemma StepLoggedAt(s: State, step: Step, id: nat)
    requires Bookkeeping(s) && LogIds(s) && Enabled(s, step) && Placed(s, id)
    requires Waiting(s.pending, id) ==> LoggedAt(s.log, id)
    requires Waiting(Next(s, step).pending, id)
    ensures LoggedAt(Next(s, step).log, id)
  {
    hide Index, Removed, Forget, Places, LoggedAt, Waiting;
    match step {
      case Send(progress) =>
        WaitingPush(s.pending, Pending(s.nextId, progress), id);
        if id == s.nextId { SentIsLogged(s); } else { LoggedPush(s.log, Sent(s.nextId), id); }
      case Cancel(x) =>
        var i := Index(s.pending, x);
        WaitingMeans(s.pending, x);
        if i < |s.pending| { Forgotten(s.pending, i, id); }
        LoggedPushOther(s.log, Cancelled(x), id, x);
      case Join => NoneWaiting(id);
      case RunEvent =>
        var x := s.posts[0].id;
        var i := Index(s.pending, x);
        WaitingMeans(s.pending, x);
        if i < |s.pending| && s.posts[0].Done? { Forgotten(s.pending, i, id); }
        LoggedPushOther(s.log, Answered(x), id, x);
        LoggedPushOther(s.log, Progressed(x), id, x);
      case _ =>
    }
  }

  lemma LoggedPushOther(log: seq<Call>, c: Call, id: nat, x: nat)
    requires c == Cancelled(x) || c == Answered(x) || c == Progressed(x)
    ensures LoggedAt(log, id) && (id != x || c.Progressed?) ==> LoggedAt(log + [c], id)
  {
  }

  lemma SentIsLogged(s: State)
    requires LogIds(s) && s.alive
    ensures LoggedAt(s.log + [Sent(s.nextId)], s.nextId)
  {
    var log := s.log + [Sent(s.nextId)];
    assert log[|s.log|] == Sent(s.nextId);
    forall i | 0 <= i < |log| ensures !Ends(log[i], s.nextId) {
      if i < |s.log| { assert log[i] == s.log[i] && s.log[i] in s.log; }
    }
  }

  lemma StepLogIds(s: State, step: Step)
    requires Bookkeeping(s) && LogIds(s) && Enabled(s, step) && forall id: nat :: Placed(s, id)
    ensures LogIds(Next(s, step))
  {
    hide Removed, Forget, Places, Index;
    match step {
      case RunEvent => assert Placed(s, s.posts[0].id); WaitingMeans(s.pending, s.posts[0].id);
      case _ =>
    }
  }

  lemma StepKeeps(s: State, step: Step)
    requires Invariant(s) && Enabled(s, step)
    ensures Invariant(Next(s, step))
  {
    hide Next, Enabled, Bookkeeping, Placed, Ordered, Orderly, LogIds, Waiting, LoggedAt;
    StepBookkeeping(s, step);
    forall id: nat ensures Placed(Next(s, step), id) { StepPlaced(s, step, id); }
    StepOrdered(s, step);
    StepOrderly(s, step);
    StepLogIds(s, step);
    assert Logged(Next(s, step)) by {
      forall id: nat | Waiting(Next(s, step).pending, id) ensures LoggedAt(Next(s, step).log, id) {
        LoggedHere(s, id);
        StepLoggedAt(s, step, id);
      }
      AllLogged(Next(s, step));
    }
  }

  lemma LoggedHere(s: State, id: nat)
    requires Logged(s)
    ensures Waiting(s.pending, id) ==> LoggedAt(s.log, id)
  {
  }

  lemma AllLogged(s: State)
    requires forall id: nat :: Waiting(s.pending, id) ==> LoggedAt(s.log, id)
    ensures Logged(s)
  {
    hide Waiting;
    forall id: nat | Waiting(s.pending, id) ensures Sent(id) in s.log && forall i :: 0 <= i < |s.log| ==> !Ends(s.log[i], id) {
      assert LoggedAt(s.log, id);
    }
  }

  lemma {:induction false} RunKeeps(s: State, steps: seq<Step>, end: State)
    requires Invariant(s) && After(s, steps) == Reached(end)
    ensures Invariant(end)
    decreases |steps|
  {
    hide Next, Enabled, Invariant;
    if steps == [] {
    } else {
      var n := |steps| - 1;
      var s0 := After(s, steps[..n]).state;
      RunKeeps(s, steps[..n], s0);
      StepKeeps(s0, steps[n]);
    }
  }

  lemma InitialHolds()
    ensures Invariant(INITIAL)
  {
  }

  // ---- What a caller can rely on ----

  /**
   * Over every run: `done` comes at most once, and after a request was answered
   * or cancelled, or the client destroyed, none of its callbacks comes; each
   * belongs to a request that was sent.
   */
  lemma CallbacksAreOrderly(steps: seq<Step>, end: State)
    requires After(INITIAL, steps) == Reached(end)
    ensures forall i, j, id :: 0 <= i < j < |end.log| && Ends(end.log[i], id) ==> !Callback(end.log[j], id)
    ensures forall j, id :: 0 <= j < |end.log| && Callback(end.log[j], id) ==> Sent(id) in end.log[..j]
  {
    hide After;
    InitialHolds();
    RunKeeps(INITIAL, steps, end);
  }

  /** Cancelling and answering never leave a queued request without a pool task that will fetch it. */
  lemma TasksCoverQueue(steps: seq<Step>, end: State)
    requires After(INITIAL, steps) == Reached(end)
    ensures |end.queue| <= end.unstarted + end.fetching + if end.ui.Posting? then 1 else 0
  {
    hide After;
    InitialHolds();
    RunKeeps(INITIAL, steps, end);
  }

  /** A request waited for is in exactly one place: queued, with a worker, or its answer posted after all its progress. */
  lemma WaitedForIsSomewhere(steps: seq<Step>, end: State, id: nat)
    requires After(INITIAL, steps) == Reached(end) && !end.stopping && Waiting(end.pending, id)
    ensures InQueue(end.queue, id) + InWork(end.running, id) + InPosts(end.posts, id) == 1
    ensures forall i, j :: 0 <= i < j < |end.posts| && end.posts[i] == Done(id) ==> end.posts[j] != Progress(id)
  {
    hide After, InQueue, InWork, InPosts, Waiting;
    InitialHolds();
    RunKeeps(INITIAL, steps, end);
    assert Placed(end, id);
  }

  // ---- The callbacks that must come ----

  /** The request is waited for, by a caller that wants its progress if the event is one. */
  predicate Wanted(pending: seq<Pending>, e: Event)
  {
    exists p :: p in pending && p.id == e.id && (e.Progress? ==> p.progress)
  }

  function CallOf(e: Event): Call { if e.Progress? then Progressed(e.id) else Answered(e.id) }

  lemma WantedIs(pending: seq<Pending>, e: Event)
    requires Distinct(pending)
    ensures var i := Index(pending, e.id); Wanted(pending, e) <==> i < |pending| && (e.Progress? ==> pending[i].progress)
  {
    var i := Index(pending, e.id);
    forall p | p in pending && p.id == e.id ensures i < |pending| && p == pending[i] {
      var j :| 0 <= j < |pending| && pending[j] == p;
    }
  }

  /**
   * The UI thread runs the oldest posted call: exactly the callback the event is
   * for, when the request is waited for and its caller wants it, and none
   * otherwise. Progress leaves the waiting list alone; an answer takes its
   * request, and no other, off it.
   */
  lemma EventCalls(steps: seq<Step>, s: State, id: nat)
    requires After(INITIAL, steps) == Reached(s) && s.ui.Idle? && s.alive && s.posts != []
    ensures Enabled(s, RunEvent)
    ensures var e, s1 := s.posts[0], Next(s, RunEvent);
            && s1.posts == s.posts[1..]
            && s1.log == s.log + (if Wanted(s.pending, e) then [CallOf(e)] else [])
            && (e.Progress? ==> s1.pending == s.pending)
            && (forall p: Pending :: p in s1.pending <==> p in s.pending && !(e.Done? && p.id == e.id))
  {
    hide After;
    InitialHolds();
    RunKeeps(INITIAL, steps, s);
    EventRuns(s);
  }

  lemma EventRuns(s: State)
    requires Bookkeeping(s) && s.ui.Idle? && s.alive && s.posts != []
    ensures var e, s1 := s.posts[0], RunPost(s);
            && s1.posts == s.posts[1..]
            && s1.log == s.log + (if Wanted(s.pending, e) then [CallOf(e)] else [])
            && (e.Progress? ==> s1.pending == s.pending)
            && (forall p: Pending :: p in s1.pending <==> p in s.pending && !(e.Done? && p.id == e.id))
            && s1 == s.(posts := s1.posts, pending := s1.pending, log := s1.log)
  {
    hide Index, Forget, Wanted;
    var e := s.posts[0];
    var i := Index(s.pending, e.id);
    WantedIs(s.pending, e);
    IndexIs(s.pending, e.id);
    if e.Done? && i < |s.pending| { ForgotOne(s.pending, i); }
  }

  lemma IndexIs(pending: seq<Pending>, id: nat)
    ensures Index(pending, id) == |pending| ==> forall p :: p in pending ==> p.id != id
  {
  }

  lemma ForgotOne(pending: seq<Pending>, i: nat)
    requires Distinct(pending) && i < |pending|
    ensures forall p :: p in Forget(pending, i) <==> p in pending && p.id != pending[i].id
  {
    var n, r := |pending| - 1, Forget(pending, i);
    forall p | p in pending && p.id != pending[i].id ensures p in r {
      var j :| 0 <= j < |pending| && pending[j] == p;
      assert r[if j == n then i else j] == p;
    }
    forall p | p in r ensures p in pending && p.id != pending[i].id {
      var j :| 0 <= j < |r| && r[j] == p;
      assert p == pending[if j == i then n else j];
    }
  }

  /** The callbacks the posted calls stand for, by who is waiting now. */
  function Calls(posts: seq<Event>, pending: seq<Pending>): seq<Call>
  {
    if posts == [] then [] else (if Wanted(pending, posts[0]) then [CallOf(posts[0])] else []) + Calls(posts[1..], pending)
  }

  function Events(n: nat): seq<Step> { seq(n, _ => RunEvent) }

  /** No call that is posted later is for a request answered now. */
  ghost predicate AnsweredLast(posts: seq<Event>)
  {
    forall i, j :: 0 <= i < j < |posts| && posts[i].Done? ==> posts[j].id != posts[i].id
  }

  lemma {:induction false} OneAnswer(posts: seq<Event>, i: nat, j: nat, id: nat)
    requires i < j < |posts| && posts[i] == posts[j] == Done(id)
    ensures InPosts(posts, id) >= 2
  {
    var n := |posts| - 1;
    if j < n {
      OneAnswer(posts[..n], i, j, id);
    } else {
      PostsHave(posts[..n], id);
      assert posts[..n][i] == Done(id);
    }
  }

  lemma PostsInOrder(s: State)
    requires Invariant(s)
    ensures AnsweredLast(s.posts)
  {
    hide InPosts, InQueue, InWork, Waiting, Orderly, Logged, LogIds;
    forall i, j | 0 <= i < j < |s.posts| && s.posts[i].Done? ensures s.posts[j].id != s.posts[i].id {
      var id := s.posts[i].id;
      assert Placed(s, id);
      if s.posts[j] == Done(id) { OneAnswer(s.posts, i, j, id); }
    }
  }

  lemma {:induction false} SameCalls(posts: seq<Event>, a: seq<Pending>, b: seq<Pending>, id: nat)
    requires forall p: Pending :: p in b <==> p in a && p.id != id
    requires forall i :: 0 <= i < |posts| ==> posts[i].id != id
    ensures Calls(posts, b) == Calls(posts, a)
  {
    if posts == [] {
    } else {
      assert Wanted(b, posts[0]) <==> Wanted(a, posts[0]);
      SameCalls(posts[1..], a, b, id);
    }
  }

  lemma {:induction false} EventsRun(s: State) returns (end: State)
    requires Bookkeeping(s) && AnsweredLast(s.posts) && s.ui.Idle? && s.alive
    ensures After(s, Events(|s.posts|)) == Reached(end)
    ensures end.posts == [] && end.log == s.log + Calls(s.posts, s.pending)
    decreases |s.posts|
  {
    hide Next, After, Calls, Bookkeeping, AnsweredLast, Enabled;
    if s.posts == [] {
      end := s;
      NoEvents(s);
    } else {
      var s1, first := FirstRuns(s);
      end := EventsRun(s1);
      assert Events(|s.posts|) == [RunEvent] + Events(|s1.posts|);
      AfterFirst(s, RunEvent, Events(|s1.posts|));
      assert s.log + first + Calls(s1.posts, s1.pending) == s.log + (first + Calls(s1.posts, s1.pending));
    }
  }

  lemma NoEvents(s: State)
    ensures After(s, Events(0)) == Reached(s) && s.log + Calls([], s.pending) == s.log
  {
    assert Events(0) == [];
  }

  lemma FirstRuns(s: State) returns (s1: State, first: seq<Call>)
    requires Bookkeeping(s) && AnsweredLast(s.posts) && s.ui.Idle? && s.alive && s.posts != []
    ensures Enabled(s, RunEvent) && s1 == Next(s, RunEvent) && s1.posts == s.posts[1..]
    ensures Bookkeeping(s1) && AnsweredLast(s1.posts) && s1.ui.Idle? && s1.alive
    ensures s1.log == s.log + first && Calls(s.posts, s.pending) == first + Calls(s1.posts, s1.pending)
  {
    hide Wanted, Placed, Bookkeeping, RunPost;
    s1 := Next(s, RunEvent);
    first := if Wanted(s.pending, s.posts[0]) then [CallOf(s.posts[0])] else [];
    StepBookkeeping(s, RunEvent);
    EventRuns(s);
    if s.posts[0].Done? { SameCalls(s.posts[1..], s.pending, s1.pending, s.posts[0].id); }
  }

  /**
   * Running all that is posted calls, in the order posted, exactly the progress
   * callback for each progress of a request that is waited for and wants it, and
   * `done` for each answer to one that is waited for.
   */
  lemma PostedIsCalled(steps: seq<Step>, s: State) returns (end: State)
    requires After(INITIAL, steps) == Reached(s) && s.ui.Idle? && s.alive
    ensures After(s, Events(|s.posts|)) == Reached(end) && end.posts == []
    ensures end.log == s.log + Calls(s.posts, s.pending)
  {
    hide After, Calls;
    InitialHolds();
    RunKeeps(INITIAL, steps, s);
    PostsInOrder(s);
    end := EventsRun(s);
  }

  /** What a worker reports is posted while the client lives, and the worker goes on. */
  lemma ReportIsPosted(s: State, i: nat)
    requires i < |s.running| && s.running[i].Run? && !s.stopping
    ensures After(s, [Report(i), PostReport(i)]) == Reached(s.(posts := s.posts + [Progress(s.running[i].id)]))
    ensures After(s, [Deliver(i), PostDone(i)])
            == Reached(s.(posts := s.posts + [Done(s.running[i].id)], running := s.running[..i] + s.running[i + 1..]))
  {
    ReportSteps(s, i);
    DeliverSteps(s, i);
  }

  lemma ReportSteps(s: State, i: nat)
    requires i < |s.running| && s.running[i].Run? && !s.stopping
    ensures After(s, [Report(i), PostReport(i)]) == Reached(s.(posts := s.posts + [Progress(s.running[i].id)]))
  {
    var s1 := Next(s, Report(i));
    var s2 := Next(s1, PostReport(i));
    assert s2.running == s.running;
    hide After;
    TwoSteps(s, Report(i), PostReport(i));
  }

  lemma DeliverSteps(s: State, i: nat)
    requires i < |s.running| && s.running[i].Run? && !s.stopping
    ensures After(s, [Deliver(i), PostDone(i)])
            == Reached(s.(posts := s.posts + [Done(s.running[i].id)], running := s.running[..i] + s.running[i + 1..]))
  {
    var s1 := Next(s, Deliver(i));
    var s2 := Next(s1, PostDone(i));
    assert s2.running == s.running[..i] + s.running[i + 1..];
    hide After;
    TwoSteps(s, Deliver(i), PostDone(i));
  }

  lemma TwoSteps(s: State, a: Step, b: Step)
    ensures Enabled(s, a) && Enabled(Next(s, a), b) ==> After(s, [a, b]) == Reached(Next(Next(s, a), b))
  {
    hide Next, Enabled;
    assert [a, b][..1] == [a] && [a][..0] == [];
    assert After(s, []) == Reached(s);
    if Enabled(s, a) { assert After(s, [a]) == Reached(Next(s, a)); }
  }

  // ---- Cancelled requests go ----

  /** What is queued is waited for, or being taken out; what a worker has is waited for, or flagged. */
  ghost predicate Flagged(s: State, id: nat)
  {
    && (InQueue(s.queue, id) > 0 ==> Waiting(s.pending, id) || s.ui == Erasing(id))
    && (InWork(s.running, id) > 0 ==> Waiting(s.pending, id) || id in s.flags)
    && (s.ui == Erasing(id) ==> id in s.flags)
  }

  lemma RemovedOnce(queue: seq<nat>, x: nat)
    ensures InQueue(queue, x) <= 1 ==> InQueue(Removed(queue, x), x) == 0
    decreases |queue|
  {
    hide InQueue;
    if queue == [] {
    } else {
      QueueHead(queue, x);
      if queue[0] != x {
        RemovedOnce(queue[1..], x);
        var r := Removed(queue, x);
        QueueHead(r, x);
        assert r[1..] == Removed(queue[1..], x);
      }
    }
    if Removed(queue, x) == [] { NoneQueued(x); }
  }

  lemma NoneQueued(x: nat)
    ensures InQueue([], x) == 0
  {
  }

  lemma WorkOnce(running: seq<Work>, i: nat, id: nat)
    requires i < |running|
    ensures InWork(Dropped(running, i), id) <= InWork(running, id)
    ensures var x := running[i].id;
            InWork(running[i := Run(x)], id) == InWork(running[i := Reporting(x)], id) == InWork(running[i := Delivering(x)], id)
            == InWork(running, id)
  {
    hide InWork;
    var x := running[i].id;
    WorkDropped(running, i, id);
    WorkSame(running, i, Run(x), id);
    WorkSame(running, i, Reporting(x), id);
    WorkSame(running, i, Delivering(x), id);
  }

  lemma StepFlagged(s: State, step: Step, id: nat)
    requires Bookkeeping(s) && Placed(s, id) && Flagged(s, id) && Enabled(s, step)
    ensures Flagged(Next(s, step), id)
  {
    hide InQueue, InWork, InPosts, Index, Waiting, Forget, Removed;
    match step {
      case Send(progress) =>
        WaitingPush(s.pending, Pending(s.nextId, progress), id);
        QueuePush(s.queue, s.nextId, id);
      case PoolPost | Start =>
      case Report(i) => WorkOnce(s.running, i, id);
      case PostReport(i) => WorkOnce(s.running, i, id);
      case Deliver(i) => WorkOnce(s.running, i, id);
      case Abort(i) => WorkOnce(s.running, i, id);
      case PostDone(i) => WorkOnce(s.running, i, id);
      case Cancel(x) =>
        WaitingMeans(s.pending, x);
        if Index(s.pending, x) < |s.pending| { Forgotten(s.pending, Index(s.pending, x), id); }
      case Erase =>
        QueueRemoved(s.queue, s.ui.id, id);
        if s.ui.id == id { RemovedOnce(s.queue, id); }
      case Destroy =>
        NoneQueued(id);
        WaitingIs(s.pending, id);
      case Join => NoWork(id);
      case Fetch =>
        if !s.stopping && s.queue != [] {
          QueueHead(s.queue, id);
          WorkConcat(s.running, [Run(s.queue[0])], id);
          WorkOne(Run(s.queue[0]), id);
        }
      case RunEvent =>
        var x := s.posts[0].id;
        WaitingMeans(s.pending, x);
        PostsHead(s.posts, id);
        if Index(s.pending, x) < |s.pending| { Forgotten(s.pending, Index(s.pending, x), id); }
    }
  }

  lemma NoWork(id: nat)
    ensures InWork([], id) == 0 && InQueue([], id) == 0
  {
  }

  lemma {:induction false} RunFlagged(steps: seq<Step>, s: State, id: nat)
    requires After(INITIAL, steps) == Reached(s)
    ensures Flagged(s, id)
    decreases |steps|
  {
    hide Next, Enabled, Invariant, Flagged;
    InitialHolds();
    if steps == [] {
      assert Flagged(INITIAL, id) by { NoneFlagged(id); }
    } else {
      var n := |steps| - 1;
      var s0 := After(INITIAL, steps[..n]).state;
      RunKeeps(INITIAL, steps[..n], s0);
      RunFlagged(steps[..n], s0, id);
      assert Bookkeeping(s0) && Placed(s0, id) by { Kept(s0, id); }
      StepFlagged(s0, steps[n], id);
    }
  }

  lemma NoneFlagged(id: nat)
    ensures Flagged(INITIAL, id)
  {
  }

  lemma Kept(s: State, id: nat)
    requires Invariant(s)
    ensures Bookkeeping(s) && Placed(s, id)
  {
  }

  /** Once cancel() is over, a request nobody waits for is no longer queued, and a worker that has it sees its flag. */
  lemma CancelledGoes(steps: seq<Step>, s: State, id: nat)
    requires After(INITIAL, steps) == Reached(s) && s.ui.Idle? && !Waiting(s.pending, id)
    ensures id !in s.queue
    ensures forall i: nat :: i < |s.running| && s.running[i].id == id ==> id in s.flags && (s.running[i].Run? ==> Enabled(s, Abort(i)))
  {
    hide After, InWork, Waiting;
    RunFlagged(steps, s, id);
    forall i: nat | i < |s.running| && s.running[i].id == id ensures InWork(s.running, id) > 0 { WorkHas(s.running, i); }
  }

  // ---- The destructor ends ----

  /** The destructor has flagged whatever is still waited for. */
  predicate AllFlagged(s: State) { s.ui.Joining? ==> s.stopping && forall p :: p in s.pending ==> p.id in s.flags }

  lemma StepAllFlagged(s: State, step: Step)
    requires AllFlagged(s) && Enabled(s, step)
    ensures AllFlagged(Next(s, step))
  {
    hide Index, Forget, Removed;
  }

  lemma {:induction false} RunAllFlagged(steps: seq<Step>, s: State)
    requires After(INITIAL, steps) == Reached(s)
    ensures AllFlagged(s)
    decreases |steps|
  {
    hide Next, Enabled, AllFlagged;
    if steps == [] {
      assert AllFlagged(INITIAL) by { NobodyJoins(); }
    } else {
      var n := |steps| - 1;
      var s0 := After(INITIAL, steps[..n]).state;
      RunAllFlagged(steps[..n], s0);
      StepAllFlagged(s0, steps[n]);
    }
  }

  lemma NobodyJoins()
    ensures AllFlagged(INITIAL)
  {
  }

  /** While the destructor joins, every request a worker has is flagged. */
  lemma JoiningFlags(steps: seq<Step>, s: State, i: nat)
    requires After(INITIAL, steps) == Reached(s) && s.ui.Joining? && i < |s.running|
    ensures s.stopping && s.running[i].id in s.flags
  {
    hide After, InWork, InQueue;
    RunFlagged(steps, s, s.running[i].id);
    RunAllFlagged(steps, s);
    WorkHas(s.running, i);
  }

  lemma OneMore(steps: seq<Step>, s: State, step: Step)
    requires After(INITIAL, steps) == Reached(s) && Enabled(s, step)
    ensures After(INITIAL, steps + [step]) == Reached(Next(s, step))
  {
    hide Enabled, Next;
    assert (steps + [step])[..|steps|] == steps;
  }

  /** A worker's next step once the client is going. */
  function Leaving(s: State): Step
    requires s.running != []
  {
    var i := |s.running| - 1;
    match s.running[i]
    case Run(_) => Abort(i)
    case Reporting(_) => PostReport(i)
    case Delivering(_) => PostDone(i)
  }

  /** The destructor comes to an end: each worker gives up its request at the flag, and no queued one is begun. */
  lemma {:induction false} DestroyEnds(steps: seq<Step>, s: State) returns (more: seq<Step>, s1: State)
    requires After(INITIAL, steps) == Reached(s) && s.ui.Joining?
    ensures After(INITIAL, steps + more) == Reached(s1) && !s1.alive && Destroyed in s1.log
    ensures forall step :: step in more ==> step.Fetch? || step.Abort? || step.PostReport? || step.PostDone? || step.Join?
    decreases s.fetching, |s.running|, if s.running != [] && s.running[|s.running| - 1].Reporting? then 1 else 0
  {
    hide After;
    RunAllFlagged(steps, s);
    if s.running == [] && s.fetching == 0 {
      OneMore(steps, s, Join);
      more, s1 := [Join], Next(s, Join);
    } else {
      if s.fetching == 0 { JoiningFlags(steps, s, |s.running| - 1); }
      var step := if s.fetching > 0 then Fetch else Leaving(s);
      OneMore(steps, s, step);
      var rest;
      rest, s1 := DestroyEnds(steps + [step], Next(s, step));
      more := [step] + rest;
      assert steps + [step] + rest == steps + more;
    }
  }

  // ---- First sent, first fetched ----

  /** The queue is in the order of sending. */
  predicate Ascending(queue: seq<nat>, nextId: nat)
  {
    && (forall i, j :: 0 <= i < j < |queue| ==> queue[i] < queue[j])
    && (forall i :: 0 <= i < |queue| ==> queue[i] < nextId)
  }

  lemma {:induction false} RemovedAscends(queue: seq<nat>, x: nat, nextId: nat)
    requires Ascending(queue, nextId)
    ensures Ascending(Removed(queue, x), nextId) && forall y :: y in Removed(queue, x) ==> y in queue
  {
    if queue == [] {
    } else {
      RemovedAscends(queue[1..], x, nextId);
    }
  }

  lemma StepAscends(s: State, step: Step)
    requires Ascending(s.queue, s.nextId) && Enabled(s, step)
    ensures Ascending(Next(s, step).queue, Next(s, step).nextId)
  {
    hide Index, Forget, Removed;
    if step.Erase? { RemovedAscends(s.queue, s.ui.id, s.nextId); }
  }

  lemma {:induction false} QueueAscends(steps: seq<Step>, s: State)
    requires After(INITIAL, steps) == Reached(s)
    ensures Ascending(s.queue, s.nextId)
    decreases |steps|
  {
    hide Next, Enabled, Ascending;
    if steps == [] {
      assert Ascending(INITIAL.queue, INITIAL.nextId) by { NoneAscend(); }
    } else {
      var n := |steps| - 1;
      var s0 := After(INITIAL, steps[..n]).state;
      QueueAscends(steps[..n], s0);
      StepAscends(s0, steps[n]);
    }
  }

  lemma NoneAscend()
    ensures Ascending([], INITIAL.nextId)
  {
  }

  /** A worker fetches the request that was sent first of those queued, and takes no other from the queue. */
  lemma OldestFirst(steps: seq<Step>, s: State) returns (id: nat)
    requires After(INITIAL, steps) == Reached(s) && s.fetching > 0 && s.queue != []
    ensures id in s.queue && forall x :: x in s.queue ==> id <= x
    ensures var s1 := Next(s, Fetch);
            s1.running == s.running + [Run(id)] && multiset(s1.queue) == multiset(s.queue) - multiset{id}
  {
    hide After;
    QueueAscends(steps, s);
    InitialHolds();
    RunKeeps(INITIAL, steps, s);
    id := s.queue[0];
    assert s.queue == [id] + s.queue[1..];
  }

  // ---- Nobody is stranded ----

  /** A step no caller takes: of a worker, of the pool, or of the application's queue. */
  predicate Internal(step: Step)
  {
    !(step.Send? || step.PoolPost? || step.Cancel? || step.Erase? || step.Destroy? || step.Join? || step.Abort?)
  }

  ghost predicate Expecting(s: State, id: nat)
  {
    Invariant(s) && s.ui.Idle? && s.alive && !s.stopping && Waiting(s.pending, id)
  }

  /** `more` leads from `s` to the request's answer. */
  ghost predicate Answers(s: State, more: seq<Step>, id: nat)
  {
    && (forall step :: step in more ==> Internal(step))
    && After(s, more).Reached? && Answered(id) in After(s, more).state.log
  }

  lemma {:induction false} AfterFirst(s: State, step: Step, more: seq<Step>)
    requires Enabled(s, step)
    ensures After(s, [step] + more) == After(Next(s, step), more)
    decreases |more|
  {
    hide Enabled, Next;
    if more == [] {
      assert [step] + more == [step] && [step][..0] == [];
    } else {
      var n := |more| - 1;
      AfterFirst(s, step, more[..n]);
      assert ([step] + more)[..|more|] == [step] + more[..n];
    }
  }

  lemma AnswersFirst(s: State, step: Step, more: seq<Step>, id: nat)
    requires Enabled(s, step) && Internal(step) && Answers(Next(s, step), more, id)
    ensures Answers(s, [step] + more, id)
  {
    hide Enabled, Next, After;
    AfterFirst(s, step, more);
  }

  lemma {:induction false} FromPosts(s: State, id: nat) returns (more: seq<Step>)
    requires Expecting(s, id) && InPosts(s.posts, id) > 0
    ensures Answers(s, more, id)
    decreases |s.posts|
  {
    hide Placed, Ordered, Orderly, Logged, LogIds, Index, Forget, InPosts, Answers;
    PostsHave(s.posts, id);
    PostsHead(s.posts, id);
    StepKeeps(s, RunEvent);
    var s1 := Next(s, RunEvent);
    WaitingMeans(s.pending, s.posts[0].id);
    if s.posts[0] == Done(id) {
      more := [];
      assert Answers(s1, [], id) by { LastIsLogged(s1, id); }
    } else {
      WaitingAfterEvent(s, id);
      more := FromPosts(s1, id);
    }
    AnswersFirst(s, RunEvent, more, id);
    more := [RunEvent] + more;
  }

  lemma LastIsLogged(s: State, id: nat)
    requires Answered(id) in s.log
    ensures Answers(s, [], id)
  {
  }

  lemma WaitingAfterEvent(s: State, id: nat)
    requires Bookkeeping(s) && s.posts != [] && s.posts[0] != Done(id) && Waiting(s.pending, id)
    ensures Waiting(RunPost(s).pending, id)
  {
    hide Waiting, Index, Forget;
    var x := s.posts[0].id;
    WaitingMeans(s.pending, x);
    if Index(s.pending, x) < |s.pending| { Forgotten(s.pending, Index(s.pending, x), id); }
  }

  lemma FromWork(s: State, id: nat) returns (more: seq<Step>)
    requires Expecting(s, id) && InWork(s.running, id) > 0
    ensures Answers(s, more, id)
  {
    hide Invariant, Waiting, InWork, Answers;
    var i := WorkAt(s.running, id);
    match s.running[i] {
      case Delivering(_) => more := FromDelivering(s, id, i);
      case Run(_) => more := FromRun(s, id, i);
      case Reporting(_) =>
        StepKeeps(s, PostReport(i));
        more := FromRun(Next(s, PostReport(i)), id, i);
        AnswersFirst(s, PostReport(i), more, id);
        more := [PostReport(i)] + more;
    }
  }

  lemma FromRun(s: State, id: nat, i: nat) returns (more: seq<Step>)
    requires Expecting(s, id) && i < |s.running| && s.running[i] == Run(id)
    ensures Answers(s, more, id)
  {
    hide Invariant, Waiting, Answers;
    StepKeeps(s, Deliver(i));
    more := FromDelivering(Next(s, Deliver(i)), id, i);
    AnswersFirst(s, Deliver(i), more, id);
    more := [Deliver(i)] + more;
  }

  lemma FromDelivering(s: State, id: nat, i: nat) returns (more: seq<Step>)
    requires Expecting(s, id) && i < |s.running| && s.running[i] == Delivering(id)
    ensures Answers(s, more, id)
  {
    hide Invariant, Waiting, Answers, InPosts;
    StepKeeps(s, PostDone(i));
    PostsConcat(s.posts, [Done(id)], id);
    PostsOne(Done(id), id);
    more := FromPosts(Next(s, PostDone(i)), id);
    AnswersFirst(s, PostDone(i), more, id);
    more := [PostDone(i)] + more;
  }

  lemma {:induction false} FromQueue(s: State, id: nat) returns (more: seq<Step>)
    requires Expecting(s, id) && InQueue(s.queue, id) > 0
    ensures Answers(s, more, id)
    decreases |s.queue|, if s.fetching == 0 then 1 else 0
  {
    hide Placed, Ordered, Orderly, Logged, LogIds, Waiting, Answers, InWork;
    if s.fetching == 0 {
      StepKeeps(s, Start);
      more := FromQueue(Next(s, Start), id);
      AnswersFirst(s, Start, more, id);
      more := [Start] + more;
    } else {
      StepKeeps(s, Fetch);
      var s1 := Next(s, Fetch);
      if s.queue[0] == id {
        WorkConcat(s.running, [Run(id)], id);
        WorkOne(Run(id), id);
        more := FromWork(s1, id);
      } else {
        QueueHead(s.queue, id);
        more := FromQueue(s1, id);
      }
      AnswersFirst(s, Fetch, more, id);
      more := [Fetch] + more;
    }
  }

  /**
   * Whatever was sent, cancelled or answered before: as long as the client
   * lives, a request waited for can still be answered by the workers and the
   * application's queue alone.
   */
  lemma NeverStranded(steps: seq<Step>, s: State, id: nat) returns (more: seq<Step>)
    requires After(INITIAL, steps) == Reached(s) && s.ui.Idle? && s.alive && Waiting(s.pending, id)
    ensures Answers(s, more, id)
  {
    hide After, InQueue, InWork, InPosts, Waiting, Answers, Ordered, Orderly, Logged, LogIds;
    InitialHolds();
    RunKeeps(INITIAL, steps, s);
    assert Placed(s, id);
    if InPosts(s.posts, id) > 0 {
      more := FromPosts(s, id);
    } else if InWork(s.running, id) > 0 {
      more := FromWork(s, id);
    } else {
      more := FromQueue(s, id);
    }
  }
}
