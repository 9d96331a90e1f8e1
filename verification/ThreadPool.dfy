/** The thread pool as a step system: any number of workers and callers, every
    interleaving of their locked sections.  A task and its future go by the
    position at which the task was submitted. */
module ThreadPool {
  import opened Counting

  /** A task with work to do, or one that stops a worker. */
  datatype Job = Work | Pill

  /** The part of a future under its own lock.  `dropped` says that the caller
      has given the future up, `gets` how many callers wait for the result. */
  datatype Future = Future(running: bool, finished: bool, destroyed: bool, freed: bool,
                           result: int, dropped: bool, gets: nat)

  const NEW_FUTURE := Future(false, false, false, false, 0, false, 0)

  /** Where a worker is: about to look at the queue, asleep, past a fetch,
      running the task, back from it, or gone. */
  datatype Worker = Awake
                  | Waiting(signalled: bool)
                  | Got(task: nat)
                  | Running(task: nat)
                  | Returned(task: nat, result: int)
                  | Exited(task: nat)

  datatype Join = NotJoining | Pushing(pushed: nat) | Joining(joined: nat)

  /** `queue` runs from the newest task to the oldest, `log` lists the tasks
      whose function has been called, in the order of the calls. */
  datatype State = State(jobs: seq<Job>, queue: seq<nat>, taken: nat, futures: seq<Future>,
                         workers: seq<Worker>, log: seq<nat>, join: Join)

  datatype Step =
    | Submit
    | JoinStart
    | JoinPush
    | JoinWait
    | Sleep(w: nat)
    | Wake(w: nat)
    | Fetch(w: nat)
    | Start(w: nat)
    | Call(w: nat, result: int)
    | Publish(w: nat)
    | Stop(w: nat)
    | Get(t: nat)
    | GetReturns(t: nat)
    | Destroy(t: nat)

  ghost predicate Ready(w: Worker) { w.Awake? || (w.Waiting? && w.signalled) }

  /** The task a worker has fetched last and not finished; a stopped worker
      keeps the task that stopped it. */
  predicate Busy(w: Worker) { w.Got? || w.Running? || w.Returned? || w.Exited? }

  predicate Holds(w: Worker, t: nat) { Busy(w) && w.task == t }

  ghost predicate IsWork(s: State, t: nat) { t < |s.jobs| && s.jobs[t].Work? }

  ghost predicate Enabled(s: State, st: Step) {
    match st
    case Submit => s.join.NotJoining?
    case JoinStart => s.join.NotJoining?
    case JoinPush => s.join.Pushing?
    case JoinWait => s.join.Joining? && s.join.joined < |s.workers| && s.workers[s.join.joined].Exited?
    case Sleep(w) => w < |s.workers| && Ready(s.workers[w]) && s.queue == []
    case Wake(w) => w < |s.workers| && s.workers[w].Waiting?
    case Fetch(w) => w < |s.workers| && Ready(s.workers[w]) && s.queue != []
    case Start(w) =>
      w < |s.workers| && s.workers[w].Got? && s.workers[w].task < |s.futures| && IsWork(s, s.workers[w].task)
    case Call(w, _) => w < |s.workers| && s.workers[w].Running?
    case Publish(w) => w < |s.workers| && s.workers[w].Returned? && s.workers[w].task < |s.futures|
    case Stop(w) =>
      w < |s.workers| && s.workers[w].Got? && s.workers[w].task < |s.futures| && !IsWork(s, s.workers[w].task)
    // a caller waits for and gives up only futures of its own that it still has
    case Get(t) => IsWork(s, t) && t < |s.futures| && !s.futures[t].dropped
    case GetReturns(t) => t < |s.futures| && s.futures[t].gets > 0 && s.futures[t].finished
    case Destroy(t) => IsWork(s, t) && t < |s.futures| && !s.futures[t].dropped && s.futures[t].gets == 0
  }

  /** A broadcast reaches every worker that sleeps. */
  ghost function Broadcast(ws: seq<Worker>): (r: seq<Worker>)
    ensures |r| == |ws|
    ensures forall i :: 0 <= i < |ws| ==> r[i] == if ws[i].Waiting? then Waiting(true) else ws[i]
  {
    seq(|ws|, i requires 0 <= i < |ws| => if ws[i].Waiting? then Waiting(true) else ws[i])
  }

  /** Pushing a task; the sleepers are woken only when the queue was empty. */
  ghost function Pushed(s: State, job: Job): State {
    s.(jobs := s.jobs + [job], futures := s.futures + [NEW_FUTURE], queue := [|s.jobs|] + s.queue,
       workers := if s.queue == [] then Broadcast(s.workers) else s.workers)
  }

  ghost function WithFuture(s: State, t: nat, f: Future): State
    requires t < |s.futures|
  {
    s.(futures := s.futures[t := f])
  }

  ghost function WithWorker(s: State, w: nat, x: Worker): State
    requires w < |s.workers|
  {
    s.(workers := s.workers[w := x])
  }

  /** Which future a step uses. */
  ghost predicate Uses(s: State, st: Step, t: nat) {
    match st
    case Start(w) => w < |s.workers| && s.workers[w].Got? && s.workers[w].task == t
    case Publish(w) => w < |s.workers| && s.workers[w].Returned? && s.workers[w].task == t
    case Stop(w) => w < |s.workers| && s.workers[w].Got? && s.workers[w].task == t
    case Get(u) => u == t
    case GetReturns(u) => u == t
    case Destroy(u) => u == t
    case _ => false
  }

  ghost function Apply(s: State, st: Step): State
    requires Enabled(s, st)
  {
    match st
    case Submit => Pushed(s, Work)
    case JoinStart => s.(join := if |s.workers| == 0 then Joining(0) else Pushing(0))
    case JoinPush =>
      var k := s.join.pushed + 1;
      Pushed(s, Pill).(join := if k == |s.workers| then Joining(0) else Pushing(k))
    case JoinWait => s.(join := Joining(s.join.joined + 1))
    case Sleep(w) => WithWorker(s, w, Waiting(false))
    case Wake(w) => WithWorker(s, w, Waiting(true))
    case Fetch(w) =>
      var last := |s.queue| - 1;
      WithWorker(s, w, Got(s.queue[last])).(queue := s.queue[..last], taken := s.taken + 1)
    case Start(w) =>
      var t := s.workers[w].task;
      WithFuture(WithWorker(s, w, Running(t)), t, s.futures[t].(running := true))
    case Call(w, result) =>
      var t := s.workers[w].task;
      WithWorker(s, w, Returned(t, result)).(log := s.log + [t])
    case Publish(w) =>
      var t, f := s.workers[w].task, s.futures[s.workers[w].task];
      WithFuture(WithWorker(s, w, Awake), t,
                 if f.destroyed then f.(freed := true) else f.(finished := true, result := s.workers[w].result))
    case Stop(w) =>
      var t := s.workers[w].task;
      WithFuture(WithWorker(s, w, Exited(t)), t, s.futures[t].(freed := true))
    case Get(t) => WithFuture(s, t, s.futures[t].(gets := s.futures[t].gets + 1))
    case GetReturns(t) => WithFuture(s, t, s.futures[t].(gets := s.futures[t].gets - 1))
    case Destroy(t) =>
      var f := s.futures[t];
      WithFuture(s, t,
                 if f.finished then f.(dropped := true, freed := true) else f.(dropped := true, destroyed := true))
  }

  // --------------------------------------------------------- the invariant

  ghost predicate HeldBySome(s: State, t: nat) {
    exists w :: 0 <= w < |s.workers| && Holds(s.workers[w], t)
  }

  /** The queue is what has been submitted and not taken, the newest first. */
  ghost predicate InOrder(s: State) {
    && s.taken <= |s.jobs| == |s.futures| && |s.queue| == |s.jobs| - s.taken
    && forall i :: 0 <= i < |s.queue| ==> s.queue[i] == |s.jobs| - 1 - i
  }

  /** A task is with one worker at most, and only after it was taken; work is
      run and only a pill stops a worker. */
  ghost predicate Exclusive(s: State) {
    && (forall w :: 0 <= w < |s.workers| && Busy(s.workers[w]) ==> s.workers[w].task < s.taken)
    && (forall v, w :: 0 <= v < w < |s.workers| && Busy(s.workers[v]) && Busy(s.workers[w]) ==>
        s.workers[v].task != s.workers[w].task)
    && (forall w :: 0 <= w < |s.workers| && (s.workers[w].Running? || s.workers[w].Returned?) ==>
        IsWork(s, s.workers[w].task))
    && (forall w :: 0 <= w < |s.workers| && s.workers[w].Exited? ==> !IsWork(s, s.workers[w].task))
  }

  /** The future of the `t`th task. */
  ghost predicate FutureOk(s: State, t: nat)
    requires t < |s.jobs| == |s.futures|
  {
    var f := s.futures[t];
    if s.jobs[t].Pill? then
      && !f.dropped && f.gets == 0 && !f.destroyed && !f.finished && (t < s.taken ==> HeldBySome(s, t))
      && (f.freed <==> exists w :: 0 <= w < |s.workers| && s.workers[w] == Exited(t))
    else if t < s.taken && !HeldBySome(s, t) then
      // done: given up and freed, or finished and there to be read
      (f.dropped <==> f.freed) && (!f.dropped ==> f.finished) && (f.gets > 0 ==> !f.dropped)
    else
      !f.finished && !f.freed && (f.dropped <==> f.destroyed) && (f.gets > 0 ==> !f.dropped)
  }

  ghost predicate FuturesOk(s: State) {
    |s.futures| == |s.jobs| && forall t :: 0 <= t < |s.jobs| ==> FutureOk(s, t)
  }

  /** Called so far: taken, work, and no worker is still about to call it. */
  ghost predicate Called(s: State, t: nat) {
    IsWork(s, t) && t < s.taken && forall w :: 0 <= w < |s.workers| && Holds(s.workers[w], t) ==> s.workers[w].Returned?
  }

  ghost predicate LogOk(s: State) {
    && (forall i, j :: 0 <= i < j < |s.log| ==> s.log[i] != s.log[j])
    && (forall t :: 0 <= t < |s.jobs| ==> (t in s.log <==> Called(s, t)))
    && (forall i :: 0 <= i < |s.log| ==> s.log[i] < |s.jobs|)
  }

  ghost predicate NoLostWakeup(s: State) {
    s.queue != [] ==> forall w :: 0 <= w < |s.workers| ==> s.workers[w] != Waiting(false)
  }

  ghost function Pills(s: State): nat {
    match s.join
    case NotJoining => 0
    case Pushing(k) => k
    case Joining(_) => |s.workers|
  }

  /** The pills are the newest tasks, as many as the join has pushed. */
  ghost predicate JoinOk(s: State) {
    && Pills(s) <= |s.jobs| && (s.join.Pushing? ==> s.join.pushed < |s.workers|)
    && (s.join.Joining? ==> s.join.joined <= |s.workers|)
    && (forall t :: 0 <= t < |s.jobs| ==> (s.jobs[t].Pill? <==> t >= |s.jobs| - Pills(s)))
    && (s.join.Joining? ==> forall w :: 0 <= w < s.join.joined ==> s.workers[w].Exited?)
  }

  ghost predicate Inv(s: State) {
    InOrder(s) && Exclusive(s) && FuturesOk(s) && LogOk(s) && NoLostWakeup(s) && JoinOk(s)
  }

  lemma InitialInv(n: nat)
    ensures Inv(State([], [], 0, [], seq(n, _ => Awake), [], NotJoining))
  {
  }

  // ------------------------------------------------- every step keeps it

  /** Only worker `w` changed; who holds a task changes only with it. */
  lemma HeldAfter(s: State, s': State, w: nat, t: nat)
    requires w < |s.workers| == |s'.workers| && s'.workers == s.workers[w := s'.workers[w]]
    ensures HeldBySome(s', t) <==>
              Holds(s'.workers[w], t) || exists v :: 0 <= v < |s.workers| && v != w && Holds(s.workers[v], t)
    ensures HeldBySome(s, t) <==>
              Holds(s.workers[w], t) || exists v :: 0 <= v < |s.workers| && v != w && Holds(s.workers[v], t)
  {
    if HeldBySome(s', t) && !Holds(s'.workers[w], t) {
      var v :| 0 <= v < |s'.workers| && Holds(s'.workers[v], t);
      assert v != w && Holds(s.workers[v], t);
    }
    if v :| 0 <= v < |s.workers| && v != w && Holds(s.workers[v], t) {
      assert Holds(s'.workers[v], t);
    }
  }

  /** The workers do the same work in both states. */
  ghost predicate SameWork(s: State, s': State) {
    && |s.workers| == |s'.workers|
    && forall w :: 0 <= w < |s.workers| && (Busy(s.workers[w]) || Busy(s'.workers[w])) ==> s'.workers[w] == s.workers[w]
  }

  lemma SameHolders(s: State, s': State, t: nat)
    requires SameWork(s, s')
    ensures HeldBySome(s', t) <==> HeldBySome(s, t)
  {
    if HeldBySome(s, t) {
      var w :| 0 <= w < |s.workers| && Holds(s.workers[w], t);
      assert Holds(s'.workers[w], t);
    }
    if HeldBySome(s', t) {
      var w :| 0 <= w < |s'.workers| && Holds(s'.workers[w], t);
      assert Holds(s.workers[w], t);
    }
  }

  /** `s'` has the tasks of `s` and possibly newer ones. */
  ghost predicate Extends(s: State, s': State) {
    |s.jobs| <= |s'.jobs| && (forall t :: 0 <= t < |s.jobs| ==> s'.jobs[t] == s.jobs[t]) && s'.taken == s.taken
  }

  lemma SameFuture(s: State, s': State, t: nat)
    requires SameWork(s, s') && Extends(s, s') && t < |s.jobs| == |s.futures| && |s'.jobs| == |s'.futures|
    requires FutureOk(s, t) && s'.futures[t] == s.futures[t]
    ensures FutureOk(s', t)
  {
    SameHolders(s, s', t);
    if w :| 0 <= w < |s.workers| && s.workers[w] == Exited(t) {
      assert s'.workers[w] == Exited(t);
    }
    if w :| 0 <= w < |s'.workers| && s'.workers[w] == Exited(t) {
      assert s.workers[w] == Exited(t);
    }
  }

  lemma SameCalled(s: State, s': State, t: nat)
    requires SameWork(s, s') && Extends(s, s') && t < |s.jobs|
    ensures Called(s', t) <==> Called(s, t)
  {
    assert forall w :: 0 <= w < |s.workers| ==> (Holds(s'.workers[w], t) <==> Holds(s.workers[w], t));
  }

  lemma SameExclusive(s: State, s': State)
    requires SameWork(s, s') && Extends(s, s') && Exclusive(s) && s.taken <= |s.jobs|
    ensures Exclusive(s')
  {
    assert forall w :: 0 <= w < |s.workers| && Busy(s'.workers[w]) ==> s'.workers[w] == s.workers[w];
  }

  lemma PushKeeps(s: State, job: Job)
    requires InOrder(s) && Exclusive(s) && FuturesOk(s) && LogOk(s) && NoLostWakeup(s)
    ensures var s' := Pushed(s, job); InOrder(s') && Exclusive(s') && FuturesOk(s') && LogOk(s') && NoLostWakeup(s')
  {
    hide Broadcast, Called, FutureOk, Exclusive;
    var s' := Pushed(s, job);
    SameExclusive(s, s');
    forall t | 0 <= t < |s.jobs| ensures FutureOk(s', t) {
      SameFuture(s, s', t);
    }
    NewTask(s', |s.jobs|);
    forall t | 0 <= t < |s.jobs| ensures Called(s', t) <==> Called(s, t) {
      SameCalled(s, s', t);
    }
  }

  /** A task nobody has taken. */
  lemma NewTask(s: State, t: nat)
    requires Exclusive(s) && s.taken <= t < |s.jobs| == |s.futures| && s.futures[t] == NEW_FUTURE
    ensures FutureOk(s, t) && !Called(s, t)
  {
  }

  lemma SubmitKeeps(s: State)
    requires Inv(s) && Enabled(s, Submit)
    ensures Inv(Apply(s, Submit))
  {
    PushKeeps(s, Work);
  }

  lemma JoinSteps(s: State, st: Step)
    requires Inv(s) && Enabled(s, st) && (st.JoinStart? || st.JoinPush? || st.JoinWait?)
    ensures Inv(Apply(s, st))
  {
    if st.JoinPush? {
      PushKeeps(s, Pill);
    }
    var s' := Apply(s, st);
    var p := if st.JoinPush? then Pushed(s, Pill) else s;
    assert s' == p.(join := s'.join);
    SameButJoin(p, s');
  }

  lemma SameButJoin(s: State, s': State)
    requires s' == s.(join := s'.join)
    requires InOrder(s) && Exclusive(s) && FuturesOk(s) && LogOk(s) && NoLostWakeup(s)
    ensures InOrder(s') && Exclusive(s') && FuturesOk(s') && LogOk(s') && NoLostWakeup(s')
  {
    hide Called, FutureOk;
    SameExclusive(s, s');
    forall t | 0 <= t < |s.jobs| ensures FutureOk(s', t) && (Called(s', t) <==> Called(s, t)) {
      SameFuture(s, s', t);
      SameCalled(s, s', t);
    }
  }

  /** Falling asleep on an empty queue, and being woken for no reason. */
  lemma SleepSteps(s: State, st: Step)
    requires Inv(s) && Enabled(s, st) && (st.Sleep? || st.Wake?)
    ensures Inv(Apply(s, st))
  {
    var s' := Apply(s, st);
    assert SameWork(s, s') && Extends(s, s');
    SameExclusive(s, s');
    hide Called, FutureOk, Exclusive;
    forall t | 0 <= t < |s.jobs| ensures FutureOk(s', t) && (Called(s', t) <==> Called(s, t)) {
      SameFuture(s, s', t);
      SameCalled(s, s', t);
    }
  }

  /** The oldest task in the queue is the next one in the order of submission. */
  lemma OldestIsNext(s: State)
    requires InOrder(s) && s.queue != []
    ensures s.queue[|s.queue| - 1] == s.taken < |s.jobs|
  {
  }

  /** Taking a task that nobody had. */
  lemma FetchHolders(s: State, w: nat, t: nat)
    requires Inv(s) && Enabled(s, Fetch(w))
    ensures HeldBySome(Apply(s, Fetch(w)), t) <==> HeldBySome(s, t) || t == s.taken
    ensures !HeldBySome(s, s.taken)
  {
    hide FuturesOk, LogOk, NoLostWakeup, JoinOk;
    var s' := Apply(s, Fetch(w));
    OldestIsNext(s);
    HeldAfter(s, s', w, t);
  }

  lemma FetchFutures(s: State, w: nat, t: nat)
    requires Inv(s) && Enabled(s, Fetch(w)) && t < |s.jobs|
    ensures FutureOk(Apply(s, Fetch(w)), t)
  {
    var s' := Apply(s, Fetch(w));
    OldestIsNext(s);
    FetchHolders(s, w, t);
    assert FutureOk(s, t);
    assert s'.futures[t] == s.futures[t];
    if v :| 0 <= v < |s.workers| && s.workers[v] == Exited(t) {
      assert s'.workers[v] == Exited(t);
    }
    if v :| 0 <= v < |s'.workers| && s'.workers[v] == Exited(t) {
      assert s.workers[v] == Exited(t);
    }
  }

  lemma FetchCalled(s: State, w: nat, t: nat)
    requires Inv(s) && Enabled(s, Fetch(w)) && t < |s.jobs|
    ensures Called(Apply(s, Fetch(w)), t) <==> Called(s, t)
  {
    hide FuturesOk, LogOk, NoLostWakeup, JoinOk;
    var s' := Apply(s, Fetch(w));
    OldestIsNext(s);
    if t == s.taken {
      assert Holds(s'.workers[w], t);
    } else {
      assert forall v :: 0 <= v < |s.workers| ==> (Holds(s'.workers[v], t) <==> Holds(s.workers[v], t));
    }
  }

  lemma FetchKeeps(s: State, w: nat)
    requires Inv(s) && Enabled(s, Fetch(w))
    ensures Inv(Apply(s, Fetch(w)))
  {
    var s' := Apply(s, Fetch(w));
    OldestIsNext(s);
    assert Exclusive(s');
    hide Called, FutureOk, Exclusive;
    forall t | 0 <= t < |s.jobs| ensures FutureOk(s', t) && (Called(s', t) <==> Called(s, t)) {
      FetchFutures(s, w, t);
      FetchCalled(s, w, t);
    }
  }

  /** Worker `w` has task `t` and only its own state, its future and the log
      change. */
  ghost predicate OnTask(s: State, s': State, w: nat, t: nat) {
    && w < |s.workers| == |s'.workers| && s'.workers == s.workers[w := s'.workers[w]]
    && Holds(s.workers[w], t) && (Busy(s'.workers[w]) ==> s'.workers[w].task == t)
    && s'.jobs == s.jobs && s'.queue == s.queue && s'.taken == s.taken && s'.join == s.join
    && |s'.futures| == |s.futures| && forall u :: 0 <= u < |s.futures| && u != t ==> s'.futures[u] == s.futures[u]
  }

  lemma OtherTasks(s: State, s': State, w: nat, t: nat, u: nat)
    requires Inv(s) && OnTask(s, s', w, t) && u < |s.jobs| && u != t
    ensures FutureOk(s', u) && (Called(s', u) <==> Called(s, u))
  {
    hide LogOk, NoLostWakeup, JoinOk, InOrder;
    HeldAfter(s, s', w, u);
    assert FutureOk(s, u);
    if v :| 0 <= v < |s.workers| && s.workers[v] == Exited(u) {
      assert s'.workers[v] == Exited(u);
    }
    if v :| 0 <= v < |s'.workers| && s'.workers[v] == Exited(u) {
      assert s.workers[v] == Exited(u);
    }
    assert forall v :: 0 <= v < |s.workers| ==> (Holds(s'.workers[v], u) <==> Holds(s.workers[v], u));
  }

  /** Nobody else has the task. */
  lemma OnlyHolder(s: State, s': State, w: nat, t: nat)
    requires Inv(s) && OnTask(s, s', w, t)
    ensures t < s.taken && HeldBySome(s, t) && (HeldBySome(s', t) <==> Holds(s'.workers[w], t))
    ensures forall v :: 0 <= v < |s.workers| && v != w ==> !Holds(s'.workers[v], t)
    ensures FutureOk(s, t)
  {
    hide LogOk, NoLostWakeup, JoinOk;
    HeldAfter(s, s', w, t);
  }

  lemma TaskStep(s: State, s': State, w: nat, t: nat)
    requires Inv(s) && OnTask(s, s', w, t) && !s.workers[w].Exited?
    requires Busy(s'.workers[w]) ==> (s'.workers[w].Exited? <==> !IsWork(s, t)) || s'.workers[w].Got?
    requires FutureOk(s', t) && LogOk(s')
    requires s'.workers[w] != Waiting(false)
    ensures Inv(s')
  {
    hide LogOk, Called, FutureOk;
    forall u | 0 <= u < |s.jobs| ensures FutureOk(s', u) {
      if u != t {
        OtherTasks(s, s', w, t, u);
      }
    }
    assert Exclusive(s');
    assert JoinOk(s');
  }

  lemma LogSame(s: State, s': State, w: nat, t: nat)
    requires Inv(s) && OnTask(s, s', w, t) && s'.log == s.log && (Called(s', t) <==> Called(s, t))
    ensures LogOk(s')
  {
    hide Called, FutureOk, NoLostWakeup, JoinOk;
    forall u | 0 <= u < |s.jobs| ensures Called(s', u) <==> Called(s, u) {
      if u != t {
        OtherTasks(s, s', w, t, u);
      }
    }
  }

  lemma StartKeeps(s: State, w: nat)
    requires Inv(s) && Enabled(s, Start(w))
    ensures Inv(Apply(s, Start(w)))
  {
    var s', t := Apply(s, Start(w)), s.workers[w].task;
    OnlyHolder(s, s', w, t);
    assert Holds(s'.workers[w], t) && !s'.workers[w].Returned? && !s.workers[w].Returned?;
    LogSame(s, s', w, t);
    TaskStep(s, s', w, t);
  }

  lemma CallKeeps(s: State, w: nat, result: int)
    requires Inv(s) && Enabled(s, Call(w, result))
    ensures Inv(Apply(s, Call(w, result)))
  {
    var s', t := Apply(s, Call(w, result)), s.workers[w].task;
    OnlyHolder(s, s', w, t);
    assert Holds(s.workers[w], t);
    assert Called(s', t) && !Called(s, t);
    LogMore(s, s', w, t);
    TaskStep(s, s', w, t);
  }

  lemma LogMore(s: State, s': State, w: nat, t: nat)
    requires Inv(s) && OnTask(s, s', w, t) && s'.log == s.log + [t] && Called(s', t) && !Called(s, t) && t < |s.jobs|
    ensures LogOk(s')
  {
    hide Called, FutureOk, NoLostWakeup, JoinOk;
    forall u | 0 <= u < |s.jobs| ensures u in s'.log <==> Called(s', u) {
      if u != t {
        OtherTasks(s, s', w, t, u);
      }
    }
    assert t !in s.log;
    forall i, j | 0 <= i < j < |s'.log| ensures s'.log[i] != s'.log[j] {
      if j == |s.log| {
        assert s.log[i] in s.log;
      }
    }
  }

  lemma PublishKeeps(s: State, w: nat)
    requires Inv(s) && Enabled(s, Publish(w))
    ensures Inv(Apply(s, Publish(w)))
  {
    var s', t := Apply(s, Publish(w)), s.workers[w].task;
    OnlyHolder(s, s', w, t);
    assert Called(s, t) && Called(s', t);
    LogSame(s, s', w, t);
    TaskStep(s, s', w, t);
  }

  lemma StopKeeps(s: State, w: nat)
    requires Inv(s) && Enabled(s, Stop(w))
    ensures Inv(Apply(s, Stop(w)))
  {
    var s', t := Apply(s, Stop(w)), s.workers[w].task;
    OnlyHolder(s, s', w, t);
    assert s'.workers[w] == Exited(t);
    LogSame(s, s', w, t);
    TaskStep(s, s', w, t);
  }

  lemma CallerKeeps(s: State, st: Step)
    requires Inv(s) && Enabled(s, st) && (st.Get? || st.GetReturns? || st.Destroy?)
    ensures Inv(Apply(s, st))
  {
    var s', t := Apply(s, st), st.t;
    assert SameWork(s, s') && Extends(s, s');
    SameExclusive(s, s');
    SameHolders(s, s', t);
    assert FutureOk(s, t);
    assert FutureOk(s', t);
    hide Called, FutureOk, Exclusive;
    forall u | 0 <= u < |s.jobs| ensures FutureOk(s', u) && (Called(s', u) <==> Called(s, u)) {
      if u != t {
        SameFuture(s, s', u);
      }
      SameCalled(s, s', u);
    }
  }

  lemma StepKeepsInv(s: State, st: Step)
    requires Inv(s) && Enabled(s, st)
    ensures Inv(Apply(s, st))
  {
    hide *;
    match st
    case Submit => SubmitKeeps(s);
    case JoinStart => JoinSteps(s, st);
    case JoinPush => JoinSteps(s, st);
    case JoinWait => JoinSteps(s, st);
    case Sleep(_) => SleepSteps(s, st);
    case Wake(_) => SleepSteps(s, st);
    case Fetch(w) => FetchKeeps(s, w);
    case Start(w) => StartKeeps(s, w);
    case Call(w, result) => CallKeeps(s, w, result);
    case Publish(w) => PublishKeeps(s, w);
    case Stop(w) => StopKeeps(s, w);
    case Get(_) => CallerKeeps(s, st);
    case GetReturns(_) => CallerKeeps(s, st);
    case Destroy(_) => CallerKeeps(s, st);
  }

  // ------------------------------------------------------------- the claims

  /** No step uses a future that has been freed, and so none frees one twice. */
  lemma NoUseAfterFree(s: State, st: Step, t: nat)
    requires Inv(s) && Enabled(s, st) && Uses(s, st, t)
    ensures t < |s.futures| && !s.futures[t].freed
  {
    hide LogOk, NoLostWakeup, JoinOk;
    if st.Start? || st.Publish? || st.Stop? {
      assert Holds(s.workers[st.w], t);
      assert HeldBySome(s, t) && t < s.taken;
      assert forall v :: 0 <= v < |s.workers| && v != st.w ==> s.workers[v] != Exited(t);
    }
    assert FutureOk(s, t);
  }

  /** A future is freed only by a step that uses it, and stays freed. */
  lemma FreedByItsUser(s: State, st: Step, t: nat)
    requires Inv(s) && Enabled(s, st) && t < |s.futures|
    ensures t < |Apply(s, st).futures|
    ensures Apply(s, st).futures[t].freed <==> s.futures[t].freed || (Apply(s, st).futures[t].freed && Uses(s, st, t))
  {
    hide LogOk, NoLostWakeup, JoinOk, FuturesOk;
  }

  /** Exactly one of the worker and the caller frees a future: it is freed if
      and only if the caller has given it up and the task is done. */
  lemma GivenUpAndDoneIsFreed(s: State, t: nat)
    requires Inv(s) && IsWork(s, t)
    ensures s.futures[t].freed <==> s.futures[t].dropped && t < s.taken && !HeldBySome(s, t)
    ensures t < s.taken && !HeldBySome(s, t) && !s.futures[t].dropped ==> s.futures[t].finished
  {
    assert FutureOk(s, t);
  }

  /** Tasks leave the queue in the order in which they were submitted. */
  lemma TakenInOrder(s: State, w: nat)
    requires Inv(s) && Enabled(s, Fetch(w))
    ensures var s' := Apply(s, Fetch(w)); s'.workers[w] == Got(s.taken) && s'.taken == s.taken + 1
  {
    OldestIsNext(s);
  }

  ghost predicate Run(ss: seq<State>, ts: seq<Step>, n: nat) {
    && |ss| == |ts| + 1 && ss[0] == State([], [], 0, [], seq(n, _ => Awake), [], NotJoining)
    && forall i :: 0 <= i < |ts| ==> Enabled(ss[i], ts[i]) && ss[i + 1] == Apply(ss[i], ts[i])
  }

  lemma {:induction false} RunKeepsInv(ss: seq<State>, ts: seq<Step>, n: nat, i: nat)
    requires Run(ss, ts, n) && i < |ss|
    ensures Inv(ss[i])
  {
    if i == 0 {
      InitialInv(n);
    } else {
      RunKeepsInv(ss, ts, n, i - 1);
      StepKeepsInv(ss[i - 1], ts[i - 1]);
    }
  }

  // ------------------------------------------------------ what a future holds

  /** The call of task `t` has returned `r`: it is called no more, and what its
      worker carries back and what its future holds is `r`. */
  ghost predicate Yields(s: State, t: nat, r: int) {
    && t in s.log && t < |s.futures|
    && (forall w :: 0 <= w < |s.workers| && s.workers[w].Returned? && s.workers[w].task == t ==>
          s.workers[w].result == r)
    && (s.futures[t].finished ==> s.futures[t].result == r)
  }

  lemma CallYields(s: State, w: nat, r: int)
    requires Inv(s) && Enabled(s, Call(w, r))
    ensures Yields(Apply(s, Call(w, r)), s.workers[w].task, r)
  {
    var s', t := Apply(s, Call(w, r)), s.workers[w].task;
    assert Holds(s.workers[w], t) && HeldBySome(s, t) && FutureOk(s, t);
    assert s'.log[|s.log|] == t;
    assert forall v :: 0 <= v < |s.workers| && v != w && Busy(s.workers[v]) ==> s.workers[v].task != t;
    hide LogOk, NoLostWakeup, JoinOk, FutureOk, Called;
  }

  /** A task that has been called is not called again. */
  lemma CalledOnce(s: State, w: nat, r: int)
    requires Inv(s) && Enabled(s, Call(w, r))
    ensures s.workers[w].task !in s.log
  {
    var t := s.workers[w].task;
    assert Holds(s.workers[w], t);
    assert t in s.log ==> Called(s, t);
  }

  lemma StepYields(s: State, st: Step, t: nat, r: int)
    requires Inv(s) && Enabled(s, st) && Yields(s, t, r)
    ensures Yields(Apply(s, st), t, r)
  {
    if st.Call? {
      CalledOnce(s, st.w, st.result);
    }
    hide Inv;
  }

  /** In every run, once a task's call has returned, that is what its future holds
      if it is finished, in every later state. */
  lemma {:induction false} ResultStays(ss: seq<State>, ts: seq<Step>, n: nat, c: nat, i: nat)
    requires Run(ss, ts, n) && c < i < |ss| && ts[c].Call?
    ensures ts[c].w < |ss[c].workers| && ss[c].workers[ts[c].w].Running?
    ensures Yields(ss[i], ss[c].workers[ts[c].w].task, ts[c].result)
    decreases i
  {
    assert Enabled(ss[c], ts[c]);
    RunKeepsInv(ss, ts, n, i - 1);
    if i == c + 1 {
      CallYields(ss[c], ts[c].w, ts[c].result);
    } else {
      ResultStays(ss, ts, n, c, i - 1);
      StepYields(ss[i - 1], ts[i - 1], ss[c].workers[ts[c].w].task, ts[c].result);
    }
  }

  ghost predicate Calls(s: State, st: Step, t: nat) {
    st.Call? && Enabled(s, st) && s.workers[st.w].task == t
  }

  /** Each task in the log was called at one step before. */
  lemma {:induction false} LoggedWasCalled(ss: seq<State>, ts: seq<Step>, n: nat, i: nat, t: nat) returns (c: nat)
    requires Run(ss, ts, n) && i < |ss| && t in ss[i].log
    ensures c < i && Calls(ss[c], ts[c], t)
    decreases i
  {
    if t in ss[i - 1].log {
      c := LoggedWasCalled(ss, ts, n, i - 1, t);
    } else {
      c := i - 1;
    }
  }

  lemma CallsAreOne(ss: seq<State>, ts: seq<Step>, n: nat, c: nat, d: nat, t: nat)
    requires Run(ss, ts, n) && c < d < |ts| && Calls(ss[c], ts[c], t)
    ensures !Calls(ss[d], ts[d], t)
  {
    ResultStays(ss, ts, n, c, d);
    if Calls(ss[d], ts[d], t) {
      RunKeepsInv(ss, ts, n, d);
      CalledOnce(ss[d], ts[d].w, ts[d].result);
    }
  }

  /** In every run a get returns only after its task was called, and then with what
      that one call returned. */
  lemma GetDelivers(ss: seq<State>, ts: seq<Step>, n: nat, i: nat, t: nat) returns (c: nat)
    requires Run(ss, ts, n) && i < |ss| && Enabled(ss[i], GetReturns(t))
    ensures t in ss[i].log && c < i && Calls(ss[c], ts[c], t) && ss[i].futures[t].result == ts[c].result
    ensures forall d :: 0 <= d < |ts| && Calls(ss[d], ts[d], t) ==> d == c
  {
    RunKeepsInv(ss, ts, n, i);
    FinishedWasCalled(ss[i], t);
    c := LoggedWasCalled(ss, ts, n, i, t);
    ResultStays(ss, ts, n, c, i);
    forall d | 0 <= d < |ts| && Calls(ss[d], ts[d], t) ensures d == c {
      if d < c {
        CallsAreOne(ss, ts, n, d, c, t);
      } else if d > c {
        CallsAreOne(ss, ts, n, c, d, t);
      }
    }
  }

  lemma FinishedWasCalled(s: State, t: nat)
    requires Inv(s) && t < |s.futures| && s.futures[t].gets > 0 && s.futures[t].finished
    ensures t in s.log
  {
    assert FutureOk(s, t);
    assert forall w :: 0 <= w < |s.workers| ==> !Holds(s.workers[w], t);
    assert Called(s, t);
  }

  /** How many gets on a future have begun and not returned. */
  ghost function OpenGets(ts: seq<Step>, t: nat, i: nat): int
    requires i <= |ts|
  {
    if i == 0 then 0
    else OpenGets(ts, t, i - 1) + if ts[i - 1] == Get(t) then 1 else if ts[i - 1] == GetReturns(t) then -1 else 0
  }

  /** In every run a future counts just those callers, so each get that has begun
      can return as soon as the task is done. */
  lemma {:induction false} GetsAreCounted(ss: seq<State>, ts: seq<Step>, n: nat, i: nat, t: nat)
    requires Run(ss, ts, n) && i < |ss|
    ensures OpenGets(ts, t, i) == GetsOf(ss[i], t)
    ensures OpenGets(ts, t, i) > 0 ==> (Enabled(ss[i], GetReturns(t)) <==> ss[i].futures[t].finished)
  {
    if i > 0 {
      GetsAreCounted(ss, ts, n, i - 1, t);
      RunKeepsInv(ss, ts, n, i - 1);
      GetsStep(ss[i - 1], ts[i - 1], t);
    }
  }

  ghost function GetsOf(s: State, t: nat): nat { if t < |s.futures| then s.futures[t].gets else 0 }

  lemma GetsStep(s: State, st: Step, t: nat)
    requires Inv(s) && Enabled(s, st)
    ensures GetsOf(Apply(s, st), t) == GetsOf(s, t) + if st == Get(t) then 1 else if st == GetReturns(t) then -1 else 0
  {
    assert |s.futures| == |s.jobs|;
    hide Inv;
  }

  ghost predicate Starts(s: State, st: Step, t: nat) {
    st.Start? && Enabled(s, st) && s.workers[st.w].task == t
  }

  ghost predicate StartedBefore(ss: seq<State>, ts: seq<Step>, t: nat, i: nat)
    requires i <= |ts| < |ss|
  {
    exists c :: 0 <= c < i && Starts(ss[c], ts[c], t)
  }

  /** In every run a future is marked as running from the start of its task on. */
  lemma {:induction false} RunningIsStarted(ss: seq<State>, ts: seq<Step>, n: nat, i: nat, t: nat)
    requires Run(ss, ts, n) && i < |ss|
    ensures StartedBefore(ss, ts, t, i) <==> t < |ss[i].futures| && ss[i].futures[t].running
  {
    if i > 0 {
      RunningIsStarted(ss, ts, n, i - 1, t);
      RunKeepsInv(ss, ts, n, i - 1);
      RunningStep(ss[i - 1], ts[i - 1], t);
      if c :| 0 <= c < i && Starts(ss[c], ts[c], t) {
        assert c < i - 1 ==> StartedBefore(ss, ts, t, i - 1);
      }
    }
  }

  lemma RunningStep(s: State, st: Step, t: nat)
    requires Inv(s) && Enabled(s, st)
    ensures (t < |Apply(s, st).futures| && Apply(s, st).futures[t].running) <==>
              (t < |s.futures| && s.futures[t].running) || Starts(s, st, t)
  {
    assert |s.futures| == |s.jobs|;
    hide Inv;
  }

  // --------------------------------------------------------------- the join

  ghost predicate Joined(s: State) {
    s.join == Joining(|s.workers|)
  }

  /** The pills that have stopped a worker, in the order of the workers. */
  ghost function Consumed(s: State): (r: seq<nat>)
    requires forall w :: 0 <= w < |s.workers| ==> s.workers[w].Exited?
    ensures |r| == |s.workers| && forall w :: 0 <= w < |r| ==> r[w] == s.workers[w].task
  {
    seq(|s.workers|, w requires 0 <= w < |s.workers| => s.workers[w].task)
  }

  /** Different numbers from a range are no more than the range has. */
  lemma FitsInRange(f: seq<nat>, low: nat, high: nat)
    requires low <= high && (forall j, k :: 0 <= j < k < |f| ==> f[j] != f[k])
    requires forall k :: 0 <= k < |f| ==> low <= f[k] < high
    ensures |f| <= high - low
  {
    var g: seq<nat> := Shifted(f, low);
    UpToIs(high - low);
    ElementsAre(g);
    SubsetSize(Elements(g), UpTo(high - low));
  }

  ghost function Shifted(f: seq<nat>, low: nat): (g: seq<nat>)
    requires forall k :: 0 <= k < |f| ==> low <= f[k]
    ensures |g| == |f| && forall k :: 0 <= k < |f| ==> g[k] == f[k] - low
  {
    seq(|f|, k requires 0 <= k < |f| => f[k] - low)
  }

  /** When the join returns the queue is empty, every worker has been stopped by
      a pill of its own, and every task submitted before has been called exactly
      once and is done. */
  lemma JoinedMeansDone(s: State)
    requires Inv(s) && Joined(s) && s.workers != []
    ensures s.queue == [] && s.taken == |s.jobs|
    ensures forall w :: 0 <= w < |s.workers| ==> s.workers[w].Exited?
    ensures var c := Consumed(s);
            && (forall v, w :: 0 <= v < w < |c| ==> c[v] != c[w])
            && forall w :: 0 <= w < |c| ==> c[w] < |s.jobs| && s.jobs[c[w]].Pill?
    ensures forall t :: 0 <= t < |s.jobs| && s.jobs[t].Work? ==>
              t in s.log && (if s.futures[t].dropped then s.futures[t].freed else s.futures[t].finished)
    ensures forall i, j :: 0 <= i < j < |s.log| ==> s.log[i] != s.log[j]
  {
    assert forall w :: 0 <= w < |s.workers| ==> s.workers[w].Exited?;
    var c, base := Consumed(s), |s.jobs| - |s.workers|;
    forall w | 0 <= w < |c| ensures base <= c[w] < s.taken {
      assert s.workers[w].Exited?;
    }
    forall v, w | 0 <= v < w < |c| ensures c[v] != c[w] {
      assert Busy(s.workers[v]) && Busy(s.workers[w]);
    }
    assert base <= c[0] < s.taken;
    FitsInRange(c, base, s.taken);
    forall t | 0 <= t < |s.jobs| && s.jobs[t].Work?
      ensures t in s.log && (if s.futures[t].dropped then s.futures[t].freed else s.futures[t].finished)
    {
      assert FutureOk(s, t);
      assert forall w :: 0 <= w < |s.workers| ==> !Holds(s.workers[w], t);
      assert Called(s, t);
    }
  }

  ghost predicate AllDone(s: State) {
    && s.queue == [] && |s.futures| == |s.jobs|
    && forall t :: 0 <= t < |s.jobs| && s.jobs[t].Work? ==>
         t in s.log && if s.futures[t].dropped then s.futures[t].freed else s.futures[t].finished
  }

  /** Without workers nothing is ever taken from the queue. */
  lemma {:induction false} NobodyTakes(ss: seq<State>, ts: seq<Step>, i: nat)
    requires Run(ss, ts, 0) && i < |ss|
    ensures ss[i].workers == [] && ss[i].taken == 0
  {
    if i > 0 {
      NobodyTakes(ss, ts, i - 1);
    }
  }

  lemma {:induction false} WorkersStay(ss: seq<State>, ts: seq<Step>, n: nat, i: nat)
    requires Run(ss, ts, n) && i < |ss|
    ensures |ss[i].workers| == n
  {
    if i > 0 {
      WorkersStay(ss, ts, n, i - 1);
    }
  }

  /** In every run, a join that has returned means that all tasks submitted before
      are done, exactly when the pool has workers or nothing was submitted. */
  lemma JoinedDoneExactly(ss: seq<State>, ts: seq<Step>, n: nat, i: nat)
    requires Run(ss, ts, n) && i < |ss| && Joined(ss[i])
    ensures AllDone(ss[i]) <==> n > 0 || ss[i].jobs == []
  {
    RunKeepsInv(ss, ts, n, i);
    WorkersStay(ss, ts, n, i);
    if n > 0 {
      JoinedMeansDone(ss[i]);
    } else {
      NobodyTakes(ss, ts, i);
    }
  }

  /** A pool of no workers: the join returns at once, and the task it was given
      is still in the queue. */
  lemma JoinWithoutWorkers() returns (ss: seq<State>, ts: seq<Step>)
    ensures |ss| == 3 && Run(ss, ts, 0) && Joined(ss[2]) && ss[2].queue == [0] && ss[2].log == []
  {
    var s0 := State([], [], 0, [], seq(0, _ => Awake), [], NotJoining);
    var s1 := Apply(s0, Submit);
    ss, ts := [s0, s1, Apply(s1, JoinStart)], [Submit, JoinStart];
  }

  // ----------------------------------------------------------- no deadlock

  /** Steps that bring a task nearer to its end. */
  ghost predicate Progress(st: Step) {
    st.Fetch? || st.Start? || st.Call? || st.Publish? || st.Stop?
  }

  ghost function Stage(w: Worker): nat {
    match w
    case Got(_) => 3
    case Running(_) => 2
    case Returned(_, _) => 1
    case _ => 0
  }

  ghost function Stages(ws: seq<Worker>): nat {
    if ws == [] then 0 else Stage(ws[0]) + Stages(ws[1..])
  }

  /** What is left to do: four steps for a task in the queue, fewer for one that
      a worker has. */
  ghost function Remaining(s: State): nat {
    4 * |s.queue| + Stages(s.workers)
  }

  lemma {:induction false} StagesAt(ws: seq<Worker>, w: nat, x: Worker)
    requires w < |ws|
    ensures Stages(ws[w := x]) == Stages(ws) - Stage(ws[w]) + Stage(x)
  {
    var r := ws[w := x];
    if w == 0 {
      assert r[1..] == ws[1..];
    } else {
      assert r[1..] == ws[1..][w - 1 := x];
      StagesAt(ws[1..], w - 1, x);
    }
  }

  /** Each of these steps leaves less to do; sleeping, waking and waiting for a
      worker leave it as it is. */
  lemma ProgressDecreases(s: State, st: Step)
    requires Inv(s) && Enabled(s, st)
    ensures Progress(st) ==> Remaining(Apply(s, st)) < Remaining(s)
    ensures st.Sleep? || st.Wake? || st.JoinWait? ==> Remaining(Apply(s, st)) == Remaining(s)
  {
    hide Inv;
    if Progress(st) || st.Sleep? || st.Wake? {
      StagesAt(s.workers, st.w, Apply(s, st).workers[st.w]);
    }
  }

  /** A worker that a busy or ready worker can always take on. */
  lemma WorkerMoves(s: State, w: nat) returns (st: Step)
    requires Inv(s) && w < |s.workers|
    requires s.workers[w].Got? || s.workers[w].Running? || s.workers[w].Returned?
             || (s.queue != [] && !s.workers[w].Exited?)
    ensures Progress(st) && Enabled(s, st)
  {
    hide LogOk, FuturesOk, JoinOk;
    assert |s.futures| == |s.jobs|;
    var x := s.workers[w];
    st := if x.Got? then (if IsWork(s, x.task) then Start(w) else Stop(w))
          else if x.Running? then Call(w, 0)
          else if x.Returned? then Publish(w)
          else Fetch(w);
  }

  /** While the join still waits for a worker, some worker can go on; with
      `ProgressDecreases`, the join returns once each can finish its task. */
  lemma JoinNeverStuck(s: State) returns (st: Step)
    requires Inv(s) && s.join.Joining? && !Joined(s)
    ensures Enabled(s, st) && (Progress(st) || st == JoinWait)
  {
    var i := s.join.joined;
    if s.workers[i].Exited? {
      st := JoinWait;
    } else if s.queue != [] {
      st := WorkerMoves(s, i);
    } else {
      PillHolder(s, i);
      st := WorkerMoves(s, i);
    }
  }

  /** Which worker holds each of the tasks from `from` on. */
  ghost function Holders(s: State, from: nat): (h: seq<nat>)
    requires from <= |s.jobs| && forall t :: from <= t < |s.jobs| ==> HeldBySome(s, t)
    ensures |h| == |s.jobs| - from
    ensures forall k :: 0 <= k < |h| ==> h[k] < |s.workers| && Holds(s.workers[h[k]], from + k)
    decreases |s.jobs| - from
  {
    if from == |s.jobs| then []
    else
      assert HeldBySome(s, from);
      var w: nat :| w < |s.workers| && Holds(s.workers[w], from);
      [w] + Holders(s, from + 1)
  }

  /** As many different numbers as there are below a bound are all of them. */
  lemma AllOf(h: seq<nat>, n: nat, i: nat)
    requires |h| == n && i < n && (forall k :: 0 <= k < n ==> h[k] < n)
    requires forall j, k :: 0 <= j < k < n ==> h[j] != h[k]
    ensures i in h
  {
    ElementsAre(h);
    UpToIs(n);
    assert Elements(h) <= UpTo(n);
    if i !in Elements(h) {
      SubsetSize(Elements(h) + {i}, UpTo(n));
    }
  }

  /** With the queue empty every worker has a pill, so one that has not stopped
      is about to. */
  lemma PillHolder(s: State, i: nat)
    requires Inv(s) && s.join.Joining? && s.queue == [] && i < |s.workers| && !s.workers[i].Exited?
    ensures s.workers[i].Got?
  {
    hide LogOk, NoLostWakeup;
    var n := |s.workers|;
    var base := |s.jobs| - n;
    forall t | base <= t < |s.jobs| ensures HeldBySome(s, t) {
      assert FutureOk(s, t) && s.jobs[t].Pill?;
    }
    var h := Holders(s, base);
    assert forall j, k :: 0 <= j < k < n ==> h[j] != h[k];
    AllOf(h, n, i);
    var k :| 0 <= k < |h| && h[k] == i;
    assert Holds(s.workers[i], base + k) && s.jobs[base + k].Pill?;
  }
}
