/**
 * The worker pool (src/base/thread.cpp) as a step relation: what happens under
 * the mutex is one step, a notification is a step of its own after it, and a
 * waiting thread may wake at any time. Tasks are numbered in the order in
 * which they are accepted.
 */
module WorkerPool {
  /** maxWorkers and maxParked; the idle time is a choice made at each wake. */
  datatype Options = Options(maxWorkers: int, maxParked: int)

  /**
   * Ready: about to take the lock at the loop's head. Blocked and Awake: counted
   * as parked, the first inside the wait, the second out of it but without the
   * lock yet. Busy: running a task without the lock. Gone: returned.
   */
  datatype Phase = Ready | Blocked | Awake | Busy(task: nat) | Gone

  datatype State = State(
    queue: seq<nat>, workers: seq<nat>, parked: int, stopping: bool,
    threads: seq<Phase>, notifies: nat, broadcasts: nat,
    posted: nat, allBack: bool, failed: bool,
    taken: seq<nat>, finished: seq<nat>, dropped: seq<nat>)

  datatype Step =
    | Post(front: bool, starts: bool)   // `starts`: whether a thread can be started, if one is wanted
    | Notify(w: nat)                    // a post's notify_one reaches a waiting thread
    | NotifyNobody                      // ... or there is none
    | NotifyAll
    | Wake(w: nat)                      // time out, or a spurious wake-up
    | Enter(w: nat, expired: bool)      // the loop's head; `expired`: the idle time is over already
    | Resume(w: nat, expired: bool)     // a wait returns with the lock
    | Finish(w: nat)
    | Stop
    | SetIdle

  const INITIAL := State([], [], 0, false, [], 0, 0, 0, true, false, [], [], [])

  // ---- Steps ----

  predicate Is(s: State, w: nat, p: Phase) { w < |s.threads| && s.threads[w] == p }

  predicate Enabled(s: State, step: Step)
  {
    match step
    case Post(_, _) => true
    case Notify(w) => s.notifies > 0 && Is(s, w, Blocked)
    case NotifyNobody => s.notifies > 0 && Blocked !in s.threads
    case NotifyAll => s.broadcasts > 0
    case Wake(w) => Is(s, w, Blocked)
    case Enter(w, _) => Is(s, w, Ready)
    case Resume(w, _) => Is(s, w, Awake)
    case Finish(w) => w < |s.threads| && s.threads[w].Busy?
    case Stop => true
    case SetIdle => true
  }

  function With(s: State, w: nat, p: Phase): State
    requires w < |s.threads|
  {
    s.(threads := s.threads[w := p])
  }

  /** Removes the first `w`. */
  function Without(ws: seq<nat>, w: nat): (r: seq<nat>)
  {
    if ws == [] then [] else if ws[0] == w then ws[1..] else [ws[0]] + Without(ws[1..], w)
  }

  function Wakened(threads: seq<Phase>): (r: seq<Phase>)
    ensures |r| == |threads|
  {
    if threads == [] then []
    else
      var n := |threads| - 1;
      Wakened(threads[..n]) + [if threads[n].Blocked? then Awake else threads[n]]
  }

  /** What a worker that does not wait (any more) does under the lock. */
  function Proceed(s: State, w: nat): State
    requires w < |s.threads|
  {
    if s.stopping then With(s, w, Gone)
    else if s.queue == [] then With(s, w, Gone).(workers := Without(s.workers, w))
    else With(s, w, Busy(s.queue[0])).(queue := s.queue[1..], taken := s.taken + [s.queue[0]])
  }

  function PostStep(o: Options, s: State, front: bool, starts: bool): State
  {
    if s.stopping then s
    else
      var t := s.posted;
      var q := if front then [t] + s.queue else s.queue + [t];
      var s1 := s.(queue := q, posted := t + 1, allBack := s.allBack && !front, notifies := s.notifies + 1);
      if |q| > s.parked && |s.workers| < o.maxWorkers then
        if starts then s1.(workers := s.workers + [|s.threads|], threads := s.threads + [Ready], failed := false)
        else s1.(failed := true)
      else s1
  }

  function Next(o: Options, s: State, step: Step): State
    requires Enabled(s, step)
  {
    match step
    case Post(front, starts) => PostStep(o, s, front, starts)
    case Notify(w) => With(s, w, Awake).(notifies := s.notifies - 1)
    case NotifyNobody => s.(notifies := s.notifies - 1)
    case NotifyAll => s.(threads := Wakened(s.threads), broadcasts := s.broadcasts - 1)
    case Wake(w) => With(s, w, Awake)
    case Enter(w, expired) =>
      if s.queue == [] && !s.stopping && s.parked < o.maxParked && !expired
      then With(s, w, Blocked).(parked := s.parked + 1)
      else Proceed(s, w)
    case Resume(w, expired) =>
      if s.queue == [] && !s.stopping && !expired then With(s, w, Blocked)
      else Proceed(s.(parked := s.parked - 1), w)
    case Finish(w) => With(s, w, Ready).(finished := s.finished + [s.threads[w].task])
    case Stop => s.(stopping := true, dropped := s.dropped + s.queue, queue := [], workers := [], broadcasts := s.broadcasts + 1)
    case SetIdle => s.(broadcasts := s.broadcasts + 1)
  }

  datatype Outcome = Reached(state: State) | Impossible

  /** Where a run of steps leads, if each of them can be taken. */
  function After(o: Options, steps: seq<Step>): Outcome
    decreases |steps|
  {
    if steps == [] then Reached(INITIAL)
    else
      var n := |steps| - 1;
      match After(o, steps[..n])
      case Reached(s) => if Enabled(s, steps[n]) then Reached(Next(o, s, steps[n])) else Impossible
      case Impossible => Impossible
  }

  predicate Reachable(o: Options, s: State, steps: seq<Step>) { After(o, steps) == Reached(s) }

  // ---- Counting threads ----

  datatype Kind = Parked | Blocking | Waking | Starting | Live

  predicate OfKind(p: Phase, k: Kind)
  {
    match k
    case Parked => p.Blocked? || p.Awake?
    case Blocking => p.Blocked?
    case Waking => p.Awake?
    case Starting => p.Ready?
    case Live => !p.Gone?
  }

  function One(p: Phase, k: Kind): nat { if OfKind(p, k) then 1 else 0 }

  function Count(threads: seq<Phase>, k: Kind): nat
  {
    if threads == [] then 0 else Count(threads[..|threads| - 1], k) + One(threads[|threads| - 1], k)
  }

  lemma {:induction false} CountUpdate(th: seq<Phase>, w: nat, p: Phase, k: Kind)
    requires w < |th|
    ensures Count(th[w := p], k) == Count(th, k) - One(th[w], k) + One(p, k)
  {
    var n := |th| - 1;
    if w < n {
      CountUpdate(th[..n], w, p, k);
      assert th[w := p][..n] == th[..n][w := p];
    } else {
      assert th[w := p][..n] == th[..n];
    }
  }

  lemma CountPush(th: seq<Phase>, p: Phase, k: Kind)
    ensures Count(th + [p], k) == Count(th, k) + One(p, k)
  {
    assert (th + [p])[..|th|] == th;
  }

  lemma {:induction false} CountWakened(th: seq<Phase>)
    ensures Count(Wakened(th), Parked) == Count(th, Parked) && Count(Wakened(th), Live) == Count(th, Live)
    ensures Count(Wakened(th), Blocking) == 0
    ensures Count(Wakened(th), Waking) == Count(th, Waking) + Count(th, Blocking)
  {
    if th == [] {
    } else {
      var n := |th| - 1;
      CountWakened(th[..n]);
      assert Wakened(th)[..n] == Wakened(th[..n]);
    }
  }

  lemma {:induction false} CountKinds(th: seq<Phase>)
    ensures Count(th, Parked) == Count(th, Blocking) + Count(th, Waking) <= Count(th, Live)
  {
    if th == [] {
    } else {
      CountKinds(th[..|th| - 1]);
    }
  }

  lemma {:induction false} CountAt(th: seq<Phase>, w: nat, k: Kind)
    requires w < |th| && OfKind(th[w], k)
    ensures Count(th, k) > 0
  {
    if w < |th| - 1 { CountAt(th[..|th| - 1], w, k); }
  }

  lemma {:induction false} SomeOfKind(th: seq<Phase>, k: Kind) returns (w: nat)
    requires Count(th, k) > 0
    ensures w < |th| && OfKind(th[w], k)
  {
    w := |th| - 1;
    if !OfKind(th[w], k) { w := SomeOfKind(th[..|th| - 1], k); }
  }

  /** The tasks being run. */
  function Running(threads: seq<Phase>): seq<nat>
  {
    if threads == [] then []
    else Running(threads[..|threads| - 1]) + TaskOf(threads[|threads| - 1])
  }

  function TaskOf(p: Phase): seq<nat> { if p.Busy? then [p.task] else [] }

  /** How often a task occurs. */
  function Times(tasks: seq<nat>, t: nat): nat { multiset(tasks)[t] }

  lemma TimesConcat(a: seq<nat>, b: seq<nat>, t: nat)
    ensures Times(a + b, t) == Times(a, t) + Times(b, t)
  {
    assert multiset(a + b) == multiset(a) + multiset(b);
  }

  lemma {:induction false} TimesUpdate(th: seq<Phase>, w: nat, p: Phase, t: nat)
    requires w < |th|
    ensures Times(Running(th[w := p]), t) == Times(Running(th), t) - Times(TaskOf(th[w]), t) + Times(TaskOf(p), t)
  {
    hide TaskOf, Times;
    var n := |th| - 1;
    if w < n {
      TimesUpdate(th[..n], w, p, t);
      assert th[w := p][..n] == th[..n][w := p] && th[..n][w] == th[w];
      TimesConcat(Running(th[..n]), TaskOf(th[n]), t);
      TimesConcat(Running(th[..n][w := p]), TaskOf(th[n]), t);
    } else {
      assert th[w := p][..n] == th[..n];
      TimesConcat(Running(th[..n]), TaskOf(th[n]), t);
      TimesConcat(Running(th[..n]), TaskOf(p), t);
    }
  }

  lemma {:induction false} RunningUpdate(th: seq<Phase>, w: nat, p: Phase)
    requires w < |th|
    ensures th[w].Busy? == p.Busy? == false ==> Running(th[w := p]) == Running(th)
  {
    hide TaskOf;
    var n := |th| - 1;
    if w < n {
      RunningUpdate(th[..n], w, p);
      assert th[w := p][..n] == th[..n][w := p] && th[..n][w] == th[w];
      assert Running(th[w := p]) == Running(th[..n][w := p]) + TaskOf(th[n]);
    } else {
      assert th[w := p][..n] == th[..n];
      assert Running(th[w := p]) == Running(th[..n]) + TaskOf(p);
      NotBusy(th[w], p);
    }
  }

  lemma NotBusy(a: Phase, b: Phase)
    ensures a.Busy? == b.Busy? == false ==> TaskOf(a) == TaskOf(b) == []
  {
  }

  lemma RunningPush(th: seq<Phase>)
    ensures Running(th + [Ready]) == Running(th)
  {
    assert (th + [Ready])[..|th|] == th;
  }

  lemma {:induction false} RunningWakened(th: seq<Phase>)
    ensures Running(Wakened(th)) == Running(th)
  {
    if th == [] {
    } else {
      var n := |th| - 1;
      RunningWakened(th[..n]);
      assert Wakened(th)[..n] == Wakened(th[..n]);
    }
  }

  // ---- The threads agree with the pool's own counts ----

  function AtLeastZero(n: int): int { if n < 0 then 0 else n }

  predicate Distinct(ws: seq<nat>) { forall i, j :: 0 <= i < j < |ws| ==> ws[i] != ws[j] }

  /** `_workers` holds exactly the threads that have not ended. */
  ghost predicate Lists(ws: seq<nat>, th: seq<Phase>)
  {
    && Distinct(ws) && |ws| == Count(th, Live)
    && forall w: nat :: w in ws <==> w < |th| && !th[w].Gone?
  }

  ghost predicate Counted(o: Options, s: State)
  {
    && s.parked == Count(s.threads, Parked)
    && Count(s.threads, Live) <= AtLeastZero(o.maxWorkers)
    && (if s.stopping then s.workers == [] && s.queue == [] else Lists(s.workers, s.threads))
  }

  lemma {:induction false} WithoutOne(ws: seq<nat>, w: nat)
    requires Distinct(ws) && w in ws
    ensures Distinct(Without(ws, w)) && |Without(ws, w)| == |ws| - 1
    ensures forall v: nat :: v in Without(ws, w) <==> v in ws && v != w
  {
    if ws[0] != w {
      var t, r := ws[1..], Without(ws[1..], w);
      assert ws == [ws[0]] + t;
      WithoutOne(t, w);
      assert ws[0] !in t;
    } else {
      assert ws == [w] + ws[1..] && w !in ws[1..];
    }
  }

  lemma ListsSame(ws: seq<nat>, th: seq<Phase>, w: nat, p: Phase)
    requires Lists(ws, th) && w < |th| && !th[w].Gone? && !p.Gone?
    ensures Lists(ws, th[w := p])
  {
    hide Count;
    CountUpdate(th, w, p, Live);
  }

  lemma ListsRetire(ws: seq<nat>, th: seq<Phase>, w: nat)
    requires Lists(ws, th) && w < |th| && !th[w].Gone?
    ensures Lists(Without(ws, w), th[w := Gone])
  {
    hide Count;
    CountUpdate(th, w, Gone, Live);
    WithoutOne(ws, w);
  }

  lemma ListsStart(ws: seq<nat>, th: seq<Phase>)
    requires Lists(ws, th)
    ensures Lists(ws + [|th|], th + [Ready])
  {
    hide Count;
    CountPush(th, Ready, Live);
    var r := ws + [|th|];
    assert |th| !in ws;
    forall i, j | 0 <= i < j < |r| ensures r[i] != r[j] { assert i < |ws| && ws[i] in ws; }
  }

  lemma WakenedAt(th: seq<Phase>, w: nat)
    requires w < |th|
    ensures Wakened(th)[w] == if th[w].Blocked? then Awake else th[w]
  {
    if w < |th| - 1 { WakenedAt(th[..|th| - 1], w); }
  }

  lemma ListsWakened(ws: seq<nat>, th: seq<Phase>)
    requires Lists(ws, th)
    ensures Lists(ws, Wakened(th))
  {
    hide Count, Wakened;
    CountWakened(th);
    forall w: nat | w < |th| ensures Wakened(th)[w].Gone? == th[w].Gone? { WakenedAt(th, w); }
  }

  lemma ProceedCounted(o: Options, s: State, w: nat)
    requires w < |s.threads| && !s.threads[w].Gone?
    requires s.parked == Count(s.threads, Parked) - One(s.threads[w], Parked)
    requires Count(s.threads, Live) <= AtLeastZero(o.maxWorkers)
    requires if s.stopping then s.workers == [] && s.queue == [] else Lists(s.workers, s.threads)
    ensures Counted(o, Proceed(s, w))
  {
    hide Count, Lists, Without;
    var p := Proceed(s, w).threads[w];
    CountUpdate(s.threads, w, p, Parked);
    CountUpdate(s.threads, w, p, Live);
    if !s.stopping {
      if s.queue == [] { ListsRetire(s.workers, s.threads, w); } else { ListsSame(s.workers, s.threads, w, p); }
    }
  }

  lemma PostCounted(o: Options, s: State, front: bool, starts: bool)
    requires Counted(o, s)
    ensures Counted(o, PostStep(o, s, front, starts))
  {
    hide Count, Lists;
    if !s.stopping {
      CountPush(s.threads, Ready, Parked);
      CountPush(s.threads, Ready, Live);
      ListsStart(s.workers, s.threads);
      ListsCount(s.workers, s.threads);
    }
  }

  lemma ListsCount(ws: seq<nat>, th: seq<Phase>)
    requires Lists(ws, th)
    ensures |ws| == Count(th, Live)
  {
  }

  lemma StepCounted(o: Options, s: State, step: Step)
    requires Counted(o, s) && Enabled(s, step)
    ensures Counted(o, Next(o, s, step))
  {
    hide Count, Lists, Proceed, PostStep, Wakened;
    match step {
      case Post(front, starts) => PostCounted(o, s, front, starts);
      case NotifyNobody | Stop | SetIdle =>
      case NotifyAll => CountWakened(s.threads); if !s.stopping { ListsWakened(s.workers, s.threads); }
      case Notify(w) => PhaseCounted(o, s, w, Awake);
      case Wake(w) => PhaseCounted(o, s, w, Awake);
      case Finish(w) => PhaseCounted(o, s, w, Ready);
      case Enter(w, expired) =>
        PhaseCounted(o, s, w, Blocked);
        if !(s.queue == [] && !s.stopping && s.parked < o.maxParked && !expired) { ProceedCounted(o, s, w); }
      case Resume(w, expired) =>
        PhaseCounted(o, s, w, Blocked);
        if !(s.queue == [] && !s.stopping && !expired) { ProceedCounted(o, s.(parked := s.parked - 1), w); }
    }
  }

  lemma PhaseCounted(o: Options, s: State, w: nat, p: Phase)
    requires Counted(o, s) && w < |s.threads| && !s.threads[w].Gone? && !p.Gone?
    ensures Counted(o, With(s, w, p).(parked := s.parked - One(s.threads[w], Parked) + One(p, Parked)))
  {
    hide Count, Lists;
    CountUpdate(s.threads, w, p, Parked);
    CountUpdate(s.threads, w, p, Live);
    if !s.stopping { ListsSame(s.workers, s.threads, w, p); }
  }

  // ---- No task is lost, none runs twice ----

  /** An accepted task is in exactly one place, once; taken tasks are running or finished. */
  ghost predicate ConservedAt(s: State, t: nat)
  {
    && Times(s.queue, t) + Times(Running(s.threads), t) + Times(s.finished, t) + Times(s.dropped, t)
       == (if t < s.posted then 1 else 0)
    && Times(s.taken, t) == Times(Running(s.threads), t) + Times(s.finished, t)
  }

  ghost predicate Conserved(s: State) { forall t: nat :: ConservedAt(s, t) }

  lemma TimesOne(x: nat, t: nat)
    ensures Times([x], t) == if t == x then 1 else 0
    ensures Times([], t) == 0
  {
  }

  lemma TimesHead(q: seq<nat>, t: nat)
    requires q != []
    ensures Times(q, t) == Times([q[0]], t) + Times(q[1..], t)
  {
    assert q == [q[0]] + q[1..];
    TimesConcat([q[0]], q[1..], t);
  }

  lemma ProceedConserved(s: State, w: nat, t: nat)
    requires ConservedAt(s, t) && w < |s.threads| && !s.threads[w].Busy?
    ensures ConservedAt(Proceed(s, w), t)
  {
    hide Running, Times, Without;
    TimesOne(0, t);
    TimesUpdate(s.threads, w, Proceed(s, w).threads[w], t);
    if !s.stopping && s.queue != [] {
      TimesHead(s.queue, t);
      TimesConcat(s.taken, [s.queue[0]], t);
    }
  }

  lemma PhaseConserved(s: State, w: nat, p: Phase, t: nat)
    requires ConservedAt(s, t) && w < |s.threads| && !s.threads[w].Busy? && !p.Busy?
    ensures ConservedAt(With(s, w, p), t)
  {
    hide Running, Times;
    TimesUpdate(s.threads, w, p, t);
  }

  lemma FinishConserved(s: State, w: nat, t: nat)
    requires ConservedAt(s, t) && w < |s.threads| && s.threads[w].Busy?
    ensures ConservedAt(With(s, w, Ready).(finished := s.finished + [s.threads[w].task]), t)
  {
    hide Running, Times;
    TimesOne(0, t);
    TimesUpdate(s.threads, w, Ready, t);
    TimesConcat(s.finished, [s.threads[w].task], t);
  }

  lemma PostConserved(o: Options, s: State, front: bool, starts: bool, t: nat)
    requires ConservedAt(s, t)
    ensures ConservedAt(PostStep(o, s, front, starts), t)
  {
    hide Running, Times;
    RunningPush(s.threads);
    TimesOne(s.posted, t);
    TimesConcat([s.posted], s.queue, t);
    TimesConcat(s.queue, [s.posted], t);
  }

  lemma StepConserved(o: Options, s: State, step: Step, t: nat)
    requires ConservedAt(s, t) && Enabled(s, step)
    ensures ConservedAt(Next(o, s, step), t)
  {
    hide Running, Times, Proceed, PostStep, Wakened;
    match step {
      case Post(front, starts) => PostConserved(o, s, front, starts, t);
      case NotifyNobody | SetIdle =>
      case Stop => TimesConcat(s.dropped, s.queue, t); TimesOne(0, t);
      case NotifyAll => RunningWakened(s.threads);
      case Notify(w) => PhaseConserved(s, w, Awake, t);
      case Wake(w) => PhaseConserved(s, w, Awake, t);
      case Finish(w) => FinishConserved(s, w, t);
      case Enter(w, expired) => PhaseConserved(s, w, Blocked, t); ProceedConserved(s, w, t);
      case Resume(w, expired) => PhaseConserved(s, w, Blocked, t); ProceedConserved(s.(parked := s.parked - 1), w, t);
    }
  }

  // ---- A queued task always has someone to run it ----

  /** While anyone sleeps, every queued task has a waking worker or a notification under way. */
  ghost predicate NoLostWakeup(s: State)
  {
    Count(s.threads, Blocking) > 0 ==> |s.queue| <= Count(s.threads, Waking) + s.notifies
  }

  /** Without any thread the queue is empty, unless the last try to start one failed. */
  ghost predicate Manned(o: Options, s: State)
  {
    !s.stopping && s.queue != [] && Count(s.threads, Live) == 0 ==> s.failed || o.maxWorkers <= 0
  }

  lemma ProceedAwake(s: State, w: nat, kept: State)
    requires w < |s.threads| && kept == Proceed(s, w) && !s.threads[w].Blocked? && (s.stopping ==> s.queue == [])
    requires Count(s.threads, Blocking) > 0 ==> |s.queue| <= Count(s.threads, Waking) + s.notifies
    ensures NoLostWakeup(kept)
    ensures kept.queue == [] || Count(kept.threads, Live) > 0
  {
    hide Count, Without;
    var p := kept.threads[w];
    CountUpdate(s.threads, w, p, Blocking);
    CountUpdate(s.threads, w, p, Waking);
    if s.queue != [] && !s.stopping { CountAt(kept.threads, w, Live); }
  }

  lemma StepAwake(o: Options, s: State, step: Step)
    requires Counted(o, s) && NoLostWakeup(s) && Manned(o, s) && Enabled(s, step)
    ensures NoLostWakeup(Next(o, s, step)) && Manned(o, Next(o, s, step))
  {
    hide Count, Lists, Proceed, PostStep, Wakened;
    match step {
      case Post(front, starts) => PostAwake(o, s, front, starts);
      case Stop | SetIdle =>
      case NotifyNobody => if Count(s.threads, Blocking) > 0 { var w := SomeOfKind(s.threads, Blocking); }
      case NotifyAll => CountWakened(s.threads);
      case Notify(w) => AwakeUpdate(s, w, Awake);
      case Wake(w) => AwakeUpdate(s, w, Awake);
      case Finish(w) => AwakeUpdate(s, w, Ready);
      case Enter(w, expired) => AwakeUpdate(s, w, Blocked); ProceedAwake(s, w, Proceed(s, w));
      case Resume(w, expired) =>
        AwakeUpdate(s, w, Blocked);
        var s1 := s.(parked := s.parked - 1);
        ProceedAwake(s1, w, Proceed(s1, w));
    }
  }

  lemma AwakeUpdate(s: State, w: nat, p: Phase)
    requires w < |s.threads|
    ensures Count(With(s, w, p).threads, Blocking) == Count(s.threads, Blocking) - One(s.threads[w], Blocking) + One(p, Blocking)
    ensures Count(With(s, w, p).threads, Waking) == Count(s.threads, Waking) - One(s.threads[w], Waking) + One(p, Waking)
    ensures !p.Gone? ==> Count(With(s, w, p).threads, Live) > 0
  {
    hide Count;
    CountUpdate(s.threads, w, p, Blocking);
    CountUpdate(s.threads, w, p, Waking);
    if !p.Gone? { CountAt(s.threads[w := p], w, Live); }
  }

  lemma PostAwake(o: Options, s: State, front: bool, starts: bool)
    requires Counted(o, s) && NoLostWakeup(s) && Manned(o, s)
    ensures NoLostWakeup(PostStep(o, s, front, starts)) && Manned(o, PostStep(o, s, front, starts))
  {
    hide Count, Lists;
    CountPush(s.threads, Ready, Blocking);
    CountPush(s.threads, Ready, Waking);
    CountPush(s.threads, Ready, Live);
    CountKinds(s.threads);
    if !s.stopping { ListsCount(s.workers, s.threads); }
  }

  // ---- A task waits only while maxWorkers run ----

  /** How many posts of the run found that no thread could be started. */
  function Failures(steps: seq<Step>): nat
  {
    if steps == [] then 0 else Failures(steps[..|steps| - 1]) + FailureOf(steps[|steps| - 1])
  }

  function FailureOf(step: Step): nat { if step.Post? && !step.starts then 1 else 0 }

  /** Parked workers and those about to look at the queue suffice for it, or the list is full. */
  ghost predicate Covered(o: Options, s: State, failures: nat)
  {
    !s.stopping ==>
      |s.queue| <= Count(s.threads, Parked) + Count(s.threads, Starting) + failures || |s.workers| >= o.maxWorkers
  }

  lemma ProceedCovered(o: Options, s: State, w: nat, failures: nat)
    requires w < |s.threads| && (s.threads[w].Ready? || s.threads[w].Awake?) && Covered(o, s, failures)
    ensures Covered(o, Proceed(s, w), failures)
  {
    hide Count, Without;
    CountUpdate(s.threads, w, Proceed(s, w).threads[w], Parked);
    CountUpdate(s.threads, w, Proceed(s, w).threads[w], Starting);
  }

  lemma PhaseCovered(o: Options, s: State, w: nat, p: Phase, failures: nat)
    requires w < |s.threads| && Covered(o, s, failures)
    requires One(p, Parked) + One(p, Starting) >= One(s.threads[w], Parked) + One(s.threads[w], Starting)
    ensures Covered(o, With(s, w, p), failures)
  {
    hide Count;
    CountUpdate(s.threads, w, p, Parked);
    CountUpdate(s.threads, w, p, Starting);
  }

  lemma StepCovered(o: Options, s: State, step: Step, failures: nat)
    requires Counted(o, s) && Covered(o, s, failures) && Enabled(s, step)
    ensures Covered(o, Next(o, s, step), failures + FailureOf(step))
  {
    hide Count, Lists, Proceed, Wakened;
    match step {
      case Post(front, starts) =>
        CountPush(s.threads, Ready, Parked);
        CountPush(s.threads, Ready, Starting);
      case NotifyNobody | Stop | SetIdle =>
      case NotifyAll =>
        CountWakened(s.threads);
        StartingWakened(s.threads);
      case Notify(w) => PhaseCovered(o, s, w, Awake, failures);
      case Wake(w) => PhaseCovered(o, s, w, Awake, failures);
      case Finish(w) => PhaseCovered(o, s, w, Ready, failures);
      case Enter(w, _) => PhaseCovered(o, s, w, Blocked, failures); ProceedCovered(o, s, w, failures);
      case Resume(w, _) =>
        PhaseCovered(o, s, w, Blocked, failures);
        ProceedCovered(o, s.(parked := s.parked - 1), w, failures);
    }
  }

  lemma {:induction false} StartingWakened(th: seq<Phase>)
    ensures Count(Wakened(th), Starting) == Count(th, Starting)
  {
    if th == [] {
      assert Wakened(th) == th;
    } else {
      var n := |th| - 1;
      StartingWakened(th[..n]);
      assert Wakened(th)[..n] == Wakened(th[..n]);
    }
  }

  // ---- Order ----

  function UpTo(n: nat): seq<nat> { if n == 0 then [] else UpTo(n - 1) + [n - 1] }

  /** Tasks never put in front are taken in the order of their posts, and the rest are dropped in that order. */
  ghost predicate InOrder(s: State)
  {
    s.allBack ==> s.taken + s.queue + s.dropped == UpTo(s.posted) && (!s.stopping ==> s.dropped == [])
  }

  lemma StepInOrder(o: Options, s: State, step: Step)
    requires InOrder(s) && Enabled(s, step) && (s.stopping ==> s.queue == [])
    ensures InOrder(Next(o, s, step))
  {
    hide Without, Wakened;
    if s.allBack && !s.stopping {
      match step {
        case Post(front, starts) => assert s.taken + (s.queue + [s.posted]) + [] == s.taken + s.queue + [] + [s.posted];
        case Stop => assert s.taken + [] + ([] + s.queue) == s.taken + s.queue + [];
        case Enter(w, _) => if s.queue != [] { assert s.taken + [s.queue[0]] + s.queue[1..] == s.taken + s.queue; }
        case Resume(w, _) => if s.queue != [] { assert s.taken + [s.queue[0]] + s.queue[1..] == s.taken + s.queue; }
        case _ =>
      }
    } else if step.Stop? {
      assert s.dropped + [] == s.dropped;
    }
  }

  /** With one worker at most, a task is over before the next one is taken. */
  ghost predicate OneByOne(o: Options, s: State)
  {
    o.maxWorkers <= 1 ==> s.taken == s.finished + Running(s.threads)
  }

  lemma {:induction false} NoneLive(th: seq<Phase>)
    requires Count(th, Live) == 0
    ensures Running(th) == []
  {
    if th == [] {
    } else {
      NoneLive(th[..|th| - 1]);
    }
  }

  lemma {:induction false} OnlyOneRuns(th: seq<Phase>, w: nat, p: Phase)
    requires w < |th| && Count(th, Live) <= 1 && !th[w].Gone?
    ensures Running(th) == TaskOf(th[w]) && Running(th[w := p]) == TaskOf(p)
  {
    hide TaskOf;
    var n := |th| - 1;
    if w < n {
      CountAt(th[..n], w, Live);
      OnlyOneRuns(th[..n], w, p);
      assert th[w := p][..n] == th[..n][w := p];
      NotBusy(th[n], th[n]);
    } else {
      assert th[w := p][..n] == th[..n];
      NoneLive(th[..n]);
    }
  }

  lemma ProceedOneByOne(o: Options, s: State, w: nat)
    requires w < |s.threads| && !s.threads[w].Gone? && !s.threads[w].Busy?
    requires Count(s.threads, Live) <= AtLeastZero(o.maxWorkers) && OneByOne(o, s)
    ensures OneByOne(o, Proceed(s, w))
  {
    hide Count, Running, Without;
    if o.maxWorkers <= 1 { OnlyOneRuns(s.threads, w, Proceed(s, w).threads[w]); }
  }

  lemma StepOneByOne(o: Options, s: State, step: Step)
    requires Counted(o, s) && OneByOne(o, s) && Enabled(s, step)
    ensures OneByOne(o, Next(o, s, step))
  {
    hide Count, Running, Proceed, Wakened, Lists;
    match step {
      case Post(front, starts) => RunningPush(s.threads);
      case NotifyNobody | SetIdle | Stop =>
      case NotifyAll => RunningWakened(s.threads);
      case Notify(w) => RunningUpdate(s.threads, w, Awake);
      case Wake(w) => RunningUpdate(s.threads, w, Awake);
      case Finish(w) => if o.maxWorkers <= 1 { OnlyOneRuns(s.threads, w, Ready); }
      case Enter(w, expired) => RunningUpdate(s.threads, w, Blocked); ProceedOneByOne(o, s, w);
      case Resume(w, expired) => RunningUpdate(s.threads, w, Blocked); ProceedOneByOne(o, s.(parked := s.parked - 1), w);
    }
  }

  // ---- Every run ----

  ghost predicate Invariant(o: Options, s: State)
  {
    Counted(o, s) && Conserved(s) && NoLostWakeup(s) && Manned(o, s) && InOrder(s) && OneByOne(o, s)
  }

  lemma StepKeeps(o: Options, s: State, step: Step)
    requires Invariant(o, s) && Enabled(s, step)
    ensures Invariant(o, Next(o, s, step))
  {
    hide Next, Counted, ConservedAt, NoLostWakeup, Manned, InOrder, OneByOne;
    StepCounted(o, s, step);
    forall t: nat ensures ConservedAt(Next(o, s, step), t) { StepConserved(o, s, step, t); }
    StepAwake(o, s, step);
    assert s.stopping ==> s.queue == [] by { StoppedIsEmpty(o, s); }
    StepInOrder(o, s, step);
    StepOneByOne(o, s, step);
  }

  lemma StoppedIsEmpty(o: Options, s: State)
    requires Counted(o, s)
    ensures s.stopping ==> s.queue == []
  {
  }

  lemma {:induction false} RunKeeps(o: Options, s: State, steps: seq<Step>)
    requires Reachable(o, s, steps)
    ensures Invariant(o, s)
    decreases |steps|
  {
    hide Next, Enabled, Invariant;
    if steps == [] {
      assert Invariant(o, INITIAL) by { InitialHolds(o); }
    } else {
      var n := |steps| - 1;
      var s0 := After(o, steps[..n]).state;
      RunKeeps(o, s0, steps[..n]);
      StepKeeps(o, s0, steps[n]);
    }
  }

  lemma InitialHolds(o: Options)
    ensures Invariant(o, INITIAL)
  {
  }

  /** Every accepted task is in exactly one place, once: queued, running, finished or dropped by stop. */
  lemma TasksConserved(o: Options, s: State, steps: seq<Step>, t: nat)
    requires Reachable(o, s, steps)
    ensures Times(s.queue, t) + Times(Running(s.threads), t) + Times(s.finished, t) + Times(s.dropped, t)
            == if t < s.posted then 1 else 0
    ensures Times(s.taken, t) <= 1
  {
    hide Running, Reachable, Times;
    RunKeeps(o, s, steps);
    assert ConservedAt(s, t);
  }

  lemma {:induction false} RunningIsLive(th: seq<Phase>)
    ensures |Running(th)| + Count(th, Parked) <= Count(th, Live)
  {
    if th == [] {
    } else {
      RunningIsLive(th[..|th| - 1]);
    }
  }

  /** Running and parked workers fit in the list, and the list in maxWorkers. */
  lemma WorkersBounded(o: Options, s: State, steps: seq<Step>)
    requires Reachable(o, s, steps)
    ensures !s.stopping ==> |Running(s.threads)| + s.parked <= |s.workers| <= AtLeastZero(o.maxWorkers)
    ensures 0 <= s.parked && |Running(s.threads)| <= AtLeastZero(o.maxWorkers)
  {
    hide Count, Running, Reachable;
    RunKeeps(o, s, steps);
    RunningIsLive(s.threads);
  }

  lemma {:induction false} RunCovered(o: Options, s: State, steps: seq<Step>)
    requires Reachable(o, s, steps)
    ensures Covered(o, s, Failures(steps))
    decreases |steps|
  {
    hide Next, Enabled, Invariant, Covered;
    if steps == [] {
      assert Covered(o, INITIAL, 0) by { NoneWait(o); }
    } else {
      var n := |steps| - 1;
      var s0 := After(o, steps[..n]).state;
      RunCovered(o, s0, steps[..n]);
      RunKeeps(o, s0, steps[..n]);
      assert Counted(o, s0) by { CountsHold(o, s0); }
      StepCovered(o, s0, steps[n], Failures(steps[..n]));
    }
  }

  lemma NoneWait(o: Options)
    ensures Covered(o, INITIAL, 0)
  {
  }

  lemma CountsHold(o: Options, s: State)
    requires Invariant(o, s)
    ensures Counted(o, s)
  {
  }

  /**
   * Unless a thread could not be started, more tasks wait than there are parked
   * and entering workers for them only while maxWorkers run.
   */
  lemma WaitsOnlyWhenFull(o: Options, s: State, steps: seq<Step>)
    requires Reachable(o, s, steps) && !s.stopping
    requires |s.queue| > s.parked + Count(s.threads, Starting) + Failures(steps)
    ensures |s.workers| == Count(s.threads, Live) == AtLeastZero(o.maxWorkers)
  {
    hide Count, Reachable, Failures;
    RunCovered(o, s, steps);
    RunKeeps(o, s, steps);
  }

  // ---- What posts and idle workers do ----

  /** No more park than may: a worker that would be one too many ends instead. */
  lemma {:induction false} ParkedBounded(o: Options, s: State, steps: seq<Step>)
    requires Reachable(o, s, steps)
    ensures s.parked <= AtLeastZero(o.maxParked)
    decreases |steps|
  {
    hide Invariant, Wakened, Without;
    if steps == [] {
    } else {
      var n := |steps| - 1;
      var s0 := After(o, steps[..n]).state;
      ParkedBounded(o, s0, steps[..n]);
      RunKeeps(o, s0, steps[..n]);
      assert Counted(o, s0) by { CountsHold(o, s0); }
      assert s.parked <= AtLeastZero(o.maxParked) by { StepParks(o, s0, steps[n]); }
    }
  }

  lemma StepParks(o: Options, s: State, step: Step)
    requires Counted(o, s) && Enabled(s, step)
    ensures Next(o, s, step).parked <= s.parked || Next(o, s, step).parked <= o.maxParked
  {
    hide Wakened, Without, Count;
  }

  /**
   * A post to a live pool: a front one is next, another one last, nothing else
   * in the queue moves. A thread is started exactly when more are queued than
   * parked, there is room in the list, and starting one works.
   */
  lemma PostQueues(o: Options, s: State, front: bool, starts: bool)
    ensures s.stopping ==> Next(o, s, Post(front, starts)) == s
    ensures var s1 := Next(o, s, Post(front, starts));
            !s.stopping ==>
              && s1.queue != [] && (if front then s1.queue[0] == s.posted && s1.queue[1..] == s.queue
                                    else s1.queue[|s.queue|] == s.posted && s1.queue[..|s.queue|] == s.queue)
              && s1.notifies == s.notifies + 1
              && (|s1.threads| > |s.threads| <==> |s.queue| >= s.parked && |s.workers| < o.maxWorkers && starts)
              && (forall w: nat :: w < |s.threads| ==> s1.threads[w] == s.threads[w])
  {
  }

  /** A worker ends only in a pool that is stopped or has nothing queued, and then it is off the list. */
  lemma EndsOnlyIdle(o: Options, s: State, step: Step, w: nat)
    requires Counted(o, s) && Enabled(s, step) && w < |s.threads| && !s.threads[w].Gone?
    requires w < |Next(o, s, step).threads| && Next(o, s, step).threads[w].Gone?
    ensures s.stopping || (s.queue == [] && w in s.workers && w !in Next(o, s, step).workers)
    ensures !s.stopping && step.Enter? ==> s.parked >= o.maxParked || step.expired
    ensures !s.stopping ==> step.Enter? || (step.Resume? && step.expired)
  {
    hide Count;
    if step.NotifyAll? { WakenedAt(s.threads, w); }
    if !s.stopping && w in s.workers { WithoutOne(s.workers, w); }
  }

  /** With one worker, no two tasks overlap and tasks end in the order they were taken. */
  lemma OneWorkerIsSerial(o: Options, s: State, steps: seq<Step>)
    requires Reachable(o, s, steps) && o.maxWorkers == 1
    ensures |Running(s.threads)| <= 1 && s.finished <= s.taken
    ensures s.allBack ==> s.taken <= UpTo(s.posted)
  {
    hide Count, Reachable, Running, UpTo;
    RunKeeps(o, s, steps);
    WorkersBounded(o, s, steps);
    if s.allBack { assert s.taken <= s.taken + s.queue + s.dropped; }
  }

  /**
   * A queued task of a live pool with a worker can always be taken next without
   * any further post: by a free worker, one that wakes or is notified, or one that
   * ends its task. There is a worker unless the last try to start one failed.
   */
  lemma QueueIsServed(o: Options, s: State, steps: seq<Step>) returns (more: seq<Step>, s1: State)
    requires Reachable(o, s, steps) && !s.stopping && s.queue != []
    requires (!s.failed && o.maxWorkers > 0) || Count(s.threads, Live) > 0
    ensures Reachable(o, s1, steps + more) && s1.taken == s.taken + [s.queue[0]] && s1.queue == s.queue[1..]
    ensures forall step :: step in more ==> !step.Post? && !step.Stop? && !step.Wake?
  {
    hide Count, Reachable, Lists, Running, Conserved, InOrder, OneByOne;
    RunKeeps(o, s, steps);
    CountKinds(s.threads);
    var w := SomeOfKind(s.threads, Live);
    match s.threads[w] {
      case Ready => s1 := TakeNext(o, s, steps, Enter(w, false)); more := [Enter(w, false)];
      case Awake => s1 := TakeNext(o, s, steps, Resume(w, false)); more := [Resume(w, false)];
      case Busy(_) =>
        more := [Finish(w), Enter(w, false)];
        s1 := TakeAfter(o, s, steps, Finish(w), Enter(w, false));
      case Blocked =>
        CountAt(s.threads, w, Blocking);
        if s.notifies > 0 {
          more := [Notify(w), Resume(w, false)];
          s1 := TakeAfter(o, s, steps, Notify(w), Resume(w, false));
        } else {
          var v := SomeOfKind(s.threads, Waking);
          s1 := TakeNext(o, s, steps, Resume(v, false));
          more := [Resume(v, false)];
        }
    }
  }

  lemma Extends(o: Options, s: State, steps: seq<Step>, step: Step)
    requires Reachable(o, s, steps) && Enabled(s, step)
    ensures Reachable(o, Next(o, s, step), steps + [step])
  {
    hide Enabled, Next;
    assert (steps + [step])[..|steps|] == steps;
  }

  lemma TakeNext(o: Options, s: State, steps: seq<Step>, step: Step) returns (s1: State)
    requires Reachable(o, s, steps) && Enabled(s, step) && (step.Enter? || step.Resume?) && !s.stopping && s.queue != []
    ensures Reachable(o, s1, steps + [step]) && s1.taken == s.taken + [s.queue[0]] && s1.queue == s.queue[1..]
  {
    hide Reachable;
    Extends(o, s, steps, step);
    s1 := Next(o, s, step);
  }

  lemma TakeAfter(o: Options, s: State, steps: seq<Step>, first: Step, step: Step) returns (s1: State)
    requires Reachable(o, s, steps) && Enabled(s, first) && (first.Finish? || first.Notify?) && !s.stopping && s.queue != []
    requires Enabled(Next(o, s, first), step) && (step.Enter? || step.Resume?)
    ensures Reachable(o, s1, steps + [first, step]) && s1.taken == s.taken + [s.queue[0]] && s1.queue == s.queue[1..]
  {
    hide Reachable;
    Extends(o, s, steps, first);
    s1 := TakeNext(o, Next(o, s, first), steps + [first], step);
    assert steps + [first] + [step] == steps + [first, step];
  }

  // ---- Stopping, and a new idle time, reach every waiting worker ----

  /** After stop(), whoever still waits has the notification coming. */
  predicate StopReaches(s: State) { s.stopping ==> s.broadcasts > 0 || Blocked !in s.threads }

  lemma NoneBlocked(th: seq<Phase>)
    ensures Blocked !in Wakened(th)
  {
    hide Wakened;
    forall w: nat | w < |th| ensures Wakened(th)[w] != Blocked { WakenedAt(th, w); }
  }

  lemma StepReaches(o: Options, s: State, step: Step)
    requires StopReaches(s) && Enabled(s, step)
    ensures StopReaches(Next(o, s, step))
  {
    hide Wakened, Without;
    NoneBlocked(s.threads);
  }

  lemma {:induction false} RunReaches(o: Options, s: State, steps: seq<Step>)
    requires Reachable(o, s, steps)
    ensures StopReaches(s)
    decreases |steps|
  {
    hide Next, Enabled, StopReaches;
    if steps == [] {
      assert StopReaches(INITIAL) by { NothingStopped(); }
    } else {
      var n := |steps| - 1;
      var s0 := After(o, steps[..n]).state;
      RunReaches(o, s0, steps[..n]);
      StepReaches(o, s0, steps[n]);
    }
  }

  lemma NothingStopped()
    ensures StopReaches(INITIAL)
  {
  }

  predicate AllGone(th: seq<Phase>, n: nat)
    requires n <= |th|
  {
    forall w :: 0 <= w < n ==> th[w].Gone?
  }

  /** In a stopped pool each worker that does not wait ends by itself. */
  lemma {:induction false} EndsFrom(o: Options, s: State, steps: seq<Step>, w: nat) returns (more: seq<Step>, s1: State)
    requires Reachable(o, s, steps) && s.stopping && w <= |s.threads| && Blocked !in s.threads && AllGone(s.threads, w)
    ensures Reachable(o, s1, steps + more) && AllGone(s1.threads, |s1.threads|)
    ensures forall step :: step in more ==> step.Enter? || step.Resume? || step.Finish?
    decreases |s.threads| - w, if w == |s.threads| || s.threads[w].Gone? then 0 else if s.threads[w].Busy? then 2 else 1
  {
    hide Reachable;
    if w == |s.threads| {
      more, s1 := [], s;
      assert steps + [] == steps;
    } else if s.threads[w].Gone? {
      more, s1 := EndsFrom(o, s, steps, w + 1);
    } else {
      assert s.threads[w] in s.threads;
      var step := match s.threads[w] case Busy(_) => Finish(w) case Ready => Enter(w, false) case _ => Resume(w, false);
      Extends(o, s, steps, step);
      var rest;
      rest, s1 := EndsFrom(o, Next(o, s, step), steps + [step], w);
      more := [step] + rest;
      assert steps + [step] + rest == steps + more;
    }
  }

  /** stop() comes to an end: its notification, and the tasks under way, are enough for every worker to end, without waiting for an idle time. */
  lemma StopEnds(o: Options, s: State, steps: seq<Step>) returns (more: seq<Step>, s1: State)
    requires Reachable(o, s, steps) && s.stopping
    ensures Reachable(o, s1, steps + more) && forall w: nat :: w < |s1.threads| ==> s1.threads[w].Gone?
    ensures forall step :: step in more ==> step.NotifyAll? || step.Enter? || step.Resume? || step.Finish?
  {
    hide Reachable;
    RunReaches(o, s, steps);
    if Blocked in s.threads {
      NoneBlocked(s.threads);
      Extends(o, s, steps, NotifyAll);
      var rest;
      rest, s1 := EndsFrom(o, Next(o, s, NotifyAll), steps + [NotifyAll], 0);
      more := [NotifyAll] + rest;
      assert steps + [NotifyAll] + rest == steps + more;
    } else {
      more, s1 := EndsFrom(o, s, steps, 0);
    }
  }

  /** A new idle time is looked at by every waiting worker, and disturbs no other. */
  lemma IdleTimeReaches(o: Options, s: State, w: nat)
    requires w < |s.threads|
    ensures var s1 := Next(o, s, SetIdle);
            && Enabled(s1, NotifyAll) && s1.queue == s.queue && s1.workers == s.workers
            && Next(o, s1, NotifyAll).threads[w] == if s.threads[w].Blocked? then Awake else s.threads[w]
  {
    WakenedAt(s.threads, w);
  }
}
