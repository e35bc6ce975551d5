/** The thread pool of src/messagebus/thread_pool.hpp as a state machine: any number of workers,
    any number of threads that call enqueue, and the destructor, interleaved one atomic action at
    a time. The mutex has an explicit holder, a waiting worker may wake without being notified,
    and notify_one may wake any sleeper. */
module ThreadPool {

  type Task = nat

  /** Awake: about to lock the mutex, at the top of the loop or back from a wait.
      Locked: holds the mutex, about to test the wait condition.
      Carrying: has taken a task off the queue and still holds the mutex. */
  datatype Worker = Awake | Locked | Carrying(task: Task) | Running(task: Task) | Asleep | Exited

  /** A thread that may call enqueue. Wanting: the task exists, the mutex is not locked yet.
      Inside: holds the mutex. Pushed: has queued the task and still holds the mutex.
      Notifying: has released the mutex and not yet called notify_one. */
  datatype Client = Idle | Wanting(task: Task) | Inside(task: Task) | Pushed(task: Task) | Notifying

  /** Stopping: holds the mutex. StopSet: has set the flag and still holds the mutex.
      ToNotify: has released it and not yet called notify_all. Joining: that many joins are over. */
  datatype Destructor = NotStarted | AtLock | Stopping | StopSet | ToNotify | Joining(joined: nat) | Done

  datatype Holder = Free | ByWorker(index: nat) | ByClient(index: nat) | ByDestructor

  datatype State = State(tasks: seq<Task>, stop: bool, lock: Holder, workers: seq<Worker>,
                         clients: seq<Client>, destructor: Destructor,
                         // History: how many tasks exist; those queued, started and finished, in order.
                         created: nat, accepted: seq<Task>, started: seq<Task>, finished: seq<Task>)

  datatype Event =
    | WorkerLocks(i: nat) | WorkerChecks(i: nat) | WorkerUnlocks(i: nat) | WorkerFinishes(i: nat)
    | WakesUnasked(i: nat)
    | Calls(j: nat) | ClientLocks(j: nat) | ClientPushes(j: nat) | ClientUnlocks(j: nat)
    | NotifiesOne(j: nat, i: nat) | NotifiesNobody(j: nat)
    | DestructorStarts | DestructorLocks | SetsStop | DestructorUnlocks | NotifiesAll | Joins | Returns

  predicate Sleeper(s: State, i: nat) {
    i < |s.workers| && s.workers[i].Asleep?
  }

  predicate Enabled(s: State, e: Event) {
    match e
    case WorkerLocks(i) => i < |s.workers| && s.workers[i].Awake? && s.lock.Free?
    case WorkerChecks(i) => i < |s.workers| && s.workers[i].Locked?
    case WorkerUnlocks(i) => i < |s.workers| && s.workers[i].Carrying?
    case WorkerFinishes(i) => i < |s.workers| && s.workers[i].Running?
    case WakesUnasked(i) => Sleeper(s, i)
    case Calls(j) => j < |s.clients| && s.clients[j].Idle?
    case ClientLocks(j) => j < |s.clients| && s.clients[j].Wanting? && s.lock.Free?
    case ClientPushes(j) => j < |s.clients| && s.clients[j].Inside?
    case ClientUnlocks(j) => j < |s.clients| && s.clients[j].Pushed?
    case NotifiesOne(j, i) => j < |s.clients| && s.clients[j].Notifying? && Sleeper(s, i)
    case NotifiesNobody(j) => j < |s.clients| && s.clients[j].Notifying?
                              && forall i :: 0 <= i < |s.workers| ==> !Sleeper(s, i)
    case DestructorStarts => s.destructor.NotStarted?
    case DestructorLocks => s.destructor.AtLock? && s.lock.Free?
    case SetsStop => s.destructor.Stopping?
    case DestructorUnlocks => s.destructor.StopSet?
    case NotifiesAll => s.destructor.ToNotify?
    case Joins => s.destructor.Joining? && s.destructor.joined < |s.workers|
                  && s.workers[s.destructor.joined].Exited?
    case Returns => s.destructor.Joining? && s.destructor.joined == |s.workers|
  }

  function WokenUp(workers: seq<Worker>): (r: seq<Worker>)
    ensures |r| == |workers|
    ensures forall i :: 0 <= i < |r| ==> r[i] == if workers[i].Asleep? then Awake else workers[i]
  {
    seq(|workers|, i requires 0 <= i < |workers| => if workers[i].Asleep? then Awake else workers[i])
  }

  /** The body of one trip round the worker loop, from the test of the wait condition on. */
  function Check(s: State, i: nat): State
    requires i < |s.workers|
  {
    if !s.stop && s.tasks == [] then
      s.(workers := s.workers[i := Asleep], lock := Free)
    else if s.stop && s.tasks == [] then
      s.(workers := s.workers[i := Exited], lock := Free)
    else
      s.(workers := s.workers[i := Carrying(s.tasks[0])], tasks := s.tasks[1..],
         started := s.started + [s.tasks[0]])
  }

  function Push(s: State, j: nat): State
    requires Enabled(s, ClientPushes(j))
  {
    var task := s.clients[j].task;
    if s.stop then
      s.(clients := s.clients[j := Idle], lock := Free)
    else
      s.(clients := s.clients[j := Pushed(task)], tasks := s.tasks + [task], accepted := s.accepted + [task])
  }

  function Apply(s: State, e: Event): State
    requires Enabled(s, e)
  {
    match e
    case WorkerLocks(i) => s.(workers := s.workers[i := Locked], lock := ByWorker(i))
    case WorkerChecks(i) => Check(s, i)
    case WorkerUnlocks(i) => s.(workers := s.workers[i := Running(s.workers[i].task)], lock := Free)
    case WorkerFinishes(i) =>
      s.(workers := s.workers[i := Awake], finished := s.finished + [s.workers[i].task])
    case WakesUnasked(i) => s.(workers := s.workers[i := Awake])
    case Calls(j) => s.(clients := s.clients[j := Wanting(s.created)], created := s.created + 1)
    case ClientLocks(j) => s.(clients := s.clients[j := Inside(s.clients[j].task)], lock := ByClient(j))
    case ClientPushes(j) => Push(s, j)
    case ClientUnlocks(j) => s.(clients := s.clients[j := Notifying], lock := Free)
    case NotifiesOne(j, i) => s.(clients := s.clients[j := Idle], workers := s.workers[i := Awake])
    case NotifiesNobody(j) => s.(clients := s.clients[j := Idle])
    case DestructorStarts => s.(destructor := AtLock)
    case DestructorLocks => s.(destructor := Stopping, lock := ByDestructor)
    case SetsStop => s.(destructor := StopSet, stop := true)
    case DestructorUnlocks => s.(destructor := ToNotify, lock := Free)
    case NotifiesAll => s.(destructor := Joining(0), workers := WokenUp(s.workers))
    case Joins => s.(destructor := Joining(s.destructor.joined + 1))
    case Returns => s.(destructor := Done)
  }

  function Start(workers: nat, clients: nat): State {
    State([], false, Free, seq(workers, i => Awake), seq(clients, j => Idle), NotStarted, 0, [], [], [])
  }

  // ---------------------------------------------------------------- what every step keeps

  /** The mutex is held by exactly the thread whose position says so. */
  ghost predicate LockHeldOnce(s: State) {
    && (forall i :: 0 <= i < |s.workers| ==>
          ((s.workers[i].Locked? || s.workers[i].Carrying?) <==> s.lock == ByWorker(i)))
    && (forall j :: 0 <= j < |s.clients| ==>
          ((s.clients[j].Inside? || s.clients[j].Pushed?) <==> s.lock == ByClient(j)))
    && ((s.destructor.Stopping? || s.destructor.StopSet?) <==> s.lock == ByDestructor)
    && (s.lock.ByWorker? ==> s.lock.index < |s.workers|)
    && (s.lock.ByClient? ==> s.lock.index < |s.clients|)
  }

  predicate PastStop(d: Destructor) {
    d.StopSet? || d.ToNotify? || d.Joining? || d.Done?
  }

  predicate PastNotify(d: Destructor) {
    d.Joining? || d.Done?
  }

  ghost predicate StopKept(s: State) {
    && (s.stop <==> PastStop(s.destructor))
    && (forall i :: 0 <= i < |s.workers| && s.workers[i].Exited? ==> s.stop && s.tasks == [])
    && (PastNotify(s.destructor) ==> forall i :: 0 <= i < |s.workers| ==> !s.workers[i].Asleep?)
    && (s.destructor.Joining? ==> s.destructor.joined <= |s.workers|
                                  && forall i :: 0 <= i < s.destructor.joined ==> s.workers[i].Exited?)
    && (s.destructor.Done? ==> forall i :: 0 <= i < |s.workers| ==> s.workers[i].Exited?)
  }

  /** Tasks start in the order they were accepted. */
  ghost predicate FirstInFirstOut(s: State) {
    s.accepted == s.started + s.tasks
  }

  ghost predicate NothingWithoutWorkers(s: State) {
    |s.workers| == 0 ==> s.started == [] && s.finished == []
  }

  function Held(w: Worker): multiset<Task> {
    if w.Carrying? || w.Running? then multiset{w.task} else multiset{}
  }

  function InHands(workers: seq<Worker>): multiset<Task> {
    if workers == [] then multiset{} else Held(workers[0]) + InHands(workers[1..])
  }

  ghost predicate StartedKept(s: State) {
    multiset(s.started) == multiset(s.finished) + InHands(s.workers)
  }

  predicate HasTask(c: Client) {
    c.Wanting? || c.Inside?
  }

  ghost predicate TasksDistinct(s: State) {
    && (forall k, l :: 0 <= k < l < |s.accepted| ==> s.accepted[k] != s.accepted[l])
    && (forall k :: 0 <= k < |s.accepted| ==> s.accepted[k] < s.created)
    && (forall j :: 0 <= j < |s.clients| && HasTask(s.clients[j]) ==>
          s.clients[j].task < s.created && s.clients[j].task !in s.accepted)
    && (forall j, k :: 0 <= j < k < |s.clients| && HasTask(s.clients[j]) && HasTask(s.clients[k]) ==>
          s.clients[j].task != s.clients[k].task)
  }

  function Looks(w: Worker): nat {
    if w.Awake? || w.Locked? then 1 else 0
  }

  /** The sum of a figure over all threads of a kind. */
  function Total<T>(threads: seq<T>, figure: T -> nat): nat {
    if threads == [] then 0 else figure(threads[0]) + Total(threads[1..], figure)
  }

  /** Workers on their way to look at the queue. */
  function Looking(workers: seq<Worker>): nat {
    Total(workers, Looks)
  }

  function WillNotify(c: Client): nat {
    if c.Pushed? || c.Notifying? then 1 else 0
  }

  /** Calls of enqueue between their push and their notify_one. */
  function Notifiers(clients: seq<Client>): nat {
    Total(clients, WillNotify)
  }

  /** While any worker sleeps, every queued task has a worker on its way to it or a notification
      still to come. */
  ghost predicate NoLostWakeup(s: State) {
    (exists i :: Sleeper(s, i)) ==> |s.tasks| <= Looking(s.workers) + Notifiers(s.clients)
  }

  ghost predicate Inv(s: State) {
    LockHeldOnce(s) && StopKept(s) && FirstInFirstOut(s) && NothingWithoutWorkers(s) && StartedKept(s)
    && TasksDistinct(s) && NoLostWakeup(s)
  }

  lemma Exchange(first: multiset<Task>, x: multiset<Task>, b: multiset<Task>, y: multiset<Task>, c: multiset<Task>)
    requires x + b == y + c
    ensures (first + x) + b == (first + y) + c
  {
    assert (first + x) + b == first + (x + b);
    assert (first + y) + c == first + (y + c);
  }

  lemma Cancel(x: multiset<Task>, a: multiset<Task>, y: multiset<Task>, b: multiset<Task>)
    requires x + a == y + b
    ensures a == b ==> x == y
    ensures a == multiset{} ==> x == y + b
  {
    assert x == (x + a) - a;
    assert y == (y + b) - b;
  }

  lemma {:induction false} InHandsUpdate(workers: seq<Worker>, i: nat, w: Worker)
    requires i < |workers|
    ensures InHands(workers[i := w]) + Held(workers[i]) == InHands(workers) + Held(w)
    ensures Held(w) == Held(workers[i]) ==> InHands(workers[i := w]) == InHands(workers)
    ensures Held(workers[i]) == multiset{} ==> InHands(workers[i := w]) == InHands(workers) + Held(w)
  {
    hide Held;
    if i == 0 {
      assert workers[i := w][1..] == workers[1..];
      assert Held(w) + Held(workers[0]) == Held(workers[0]) + Held(w);
      Exchange(InHands(workers[1..]), Held(w), Held(workers[0]), Held(workers[0]), Held(w));
    } else {
      InHandsUpdate(workers[1..], i - 1, w);
      assert workers[i := w][1..] == workers[1..][i - 1 := w];
      Exchange(Held(workers[0]), InHands(workers[1..][i - 1 := w]), Held(workers[i]), InHands(workers[1..]), Held(w));
    }
    Cancel(InHands(workers[i := w]), Held(workers[i]), InHands(workers), Held(w));
  }

  lemma {:induction false} TotalUpdate<T>(threads: seq<T>, figure: T -> nat, i: nat, t: T)
    requires i < |threads|
    ensures Total(threads[i := t], figure) + figure(threads[i]) == Total(threads, figure) + figure(t)
  {
    if i == 0 {
      assert threads[i := t][1..] == threads[1..];
    } else {
      TotalUpdate(threads[1..], figure, i - 1, t);
      assert threads[i := t][1..] == threads[1..][i - 1 := t];
    }
  }

  lemma WakingChangesNoTask(w: Worker)
    ensures Held(if w.Asleep? then Awake else w) == Held(w)
  {
  }

  lemma {:induction false} InHandsWokenUp(workers: seq<Worker>)
    ensures InHands(WokenUp(workers)) == InHands(workers)
  {
    hide WokenUp, Held;
    if workers != [] {
      InHandsWokenUp(workers[1..]);
      assert WokenUp(workers)[1..] == WokenUp(workers[1..]);
      WakingChangesNoTask(workers[0]);
    }
  }

  lemma {:induction false} InHandsOfIdle(workers: seq<Worker>)
    requires forall i :: 0 <= i < |workers| ==> !workers[i].Carrying? && !workers[i].Running?
    ensures InHands(workers) == multiset{}
  {
    if workers != [] {
      InHandsOfIdle(workers[1..]);
    }
  }

  lemma StartIsSafe(workers: nat, clients: nat)
    ensures Inv(Start(workers, clients))
  {
    var s := Start(workers, clients);
    InHandsOfIdle(s.workers);
    assert StartedKept(s);
  }

  lemma KeepsLock(s: State, e: Event)
    requires Inv(s) && Enabled(s, e)
    ensures LockHeldOnce(Apply(s, e))
  {
    hide StopKept, FirstInFirstOut, StartedKept, TasksDistinct, NoLostWakeup;
  }

  lemma KeepsStop(s: State, e: Event)
    requires Inv(s) && Enabled(s, e)
    ensures StopKept(Apply(s, e))
  {
    hide FirstInFirstOut, StartedKept, TasksDistinct, NoLostWakeup;
  }

  lemma KeepsOrder(s: State, e: Event)
    requires Inv(s) && Enabled(s, e)
    ensures FirstInFirstOut(Apply(s, e)) && NothingWithoutWorkers(Apply(s, e))
  {
    hide LockHeldOnce, StopKept, StartedKept, TasksDistinct, NoLostWakeup;
  }

  lemma StartOne(s: State, i: nat)
    requires i < |s.workers| && s.workers[i].Locked? && s.tasks != []
    requires StartedKept(s)
    ensures StartedKept(Check(s, i))
  {
    hide InHands;
    var task := s.tasks[0];
    InHandsUpdate(s.workers, i, Carrying(task));
    assert multiset(s.started + [task]) == multiset(s.started) + multiset{task};
    assert multiset(s.finished) + (InHands(s.workers) + multiset{task})
        == multiset(s.finished) + InHands(s.workers) + multiset{task};
  }

  lemma FinishOne(s: State, i: nat)
    requires i < |s.workers| && s.workers[i].Running?
    requires StartedKept(s)
    ensures StartedKept(Apply(s, WorkerFinishes(i)))
  {
    hide InHands;
    var task, rest := s.workers[i].task, InHands(s.workers[i := Awake]);
    InHandsUpdate(s.workers, i, Awake);
    assert rest + multiset{task} == InHands(s.workers);
    assert multiset(s.finished + [task]) == multiset(s.finished) + multiset{task};
    assert multiset(s.finished) + multiset{task} + rest == multiset(s.finished) + (rest + multiset{task});
  }

  lemma SameHands(s: State, i: nat, w: Worker)
    requires i < |s.workers| && Held(w) == Held(s.workers[i])
    ensures InHands(s.workers[i := w]) == InHands(s.workers)
  {
    hide InHands, Held;
    InHandsUpdate(s.workers, i, w);
  }

  lemma SameStarted(s: State, t: State)
    requires StartedKept(s) && SameTasksInHands(s, t)
    ensures StartedKept(t)
  {
  }

  predicate OneWorkerMoves(e: Event) {
    e.WorkerLocks? || e.WorkerChecks? || e.WorkerUnlocks? || e.WorkerFinishes? || e.WakesUnasked? || e.NotifiesOne?
  }

  lemma SameTask(v: Worker, w: Worker)
    requires if v.Carrying? then w == Running(v.task)
             else !v.Carrying? && !v.Running? && !w.Carrying? && !w.Running?
    ensures Held(v) == Held(w)
  {
  }

  lemma OneWorkerKeepsItsTask(s: State, e: Event)
    requires Enabled(s, e) && OneWorkerMoves(e) && !e.WorkerFinishes? && !(e.WorkerChecks? && s.tasks != [])
    ensures SameTasksInHands(s, Apply(s, e))
  {
    hide InHands, Held;
    var w := Apply(s, e).workers[e.i];
    assert Apply(s, e).workers == s.workers[e.i := w];
    SameTask(s.workers[e.i], w);
    SameHands(s, e.i, w);
  }

  ghost predicate SameTasksInHands(s: State, t: State) {
    t.started == s.started && t.finished == s.finished && InHands(t.workers) == InHands(s.workers)
  }

  lemma OthersLeaveWorkersAlone(s: State, e: Event)
    requires Enabled(s, e) && !OneWorkerMoves(e)
    ensures Apply(s, e).workers == if e.NotifiesAll? then WokenUp(s.workers) else s.workers
    ensures Apply(s, e).started == s.started && Apply(s, e).finished == s.finished
  {
  }

  lemma KeepsStarted(s: State, e: Event)
    requires StartedKept(s) && Enabled(s, e)
    ensures StartedKept(Apply(s, e))
  {
    hide InHands, StartedKept;
    if e.WorkerFinishes? {
      FinishOne(s, e.i);
    } else if e.WorkerChecks? && s.tasks != [] {
      StartOne(s, e.i);
    } else {
      if OneWorkerMoves(e) {
        OneWorkerKeepsItsTask(s, e);
      } else {
        InHandsWokenUp(s.workers);
        OthersLeaveWorkersAlone(s, e);
      }
      SameStarted(s, Apply(s, e));
    }
  }

  predicate OneClientMoves(e: Event) {
    e.Calls? || e.ClientLocks? || e.ClientPushes? || e.ClientUnlocks? || e.NotifiesOne? || e.NotifiesNobody?
  }

  lemma CallerKeepsDistinct(s: State, e: Event)
    requires TasksDistinct(s) && Enabled(s, e) && OneClientMoves(e)
    ensures TasksDistinct(Apply(s, e))
  {
    hide Sleeper;
  }

  lemma SameDistinct(s: State, t: State)
    requires TasksDistinct(s)
    requires t.accepted == s.accepted && t.created == s.created && t.clients == s.clients
    ensures TasksDistinct(t)
  {
  }

  lemma KeepsDistinct(s: State, e: Event)
    requires TasksDistinct(s) && Enabled(s, e)
    ensures TasksDistinct(Apply(s, e))
  {
    hide TasksDistinct, Sleeper;
    if OneClientMoves(e) {
      CallerKeepsDistinct(s, e);
    } else {
      SameDistinct(s, Apply(s, e));
    }
  }

  /** A step of one worker: the count of those looking follows its position. */
  lemma WorkerKeepsWakeups(s: State, e: Event)
    requires NoLostWakeup(s) && Enabled(s, e) && OneWorkerMoves(e) && !e.NotifiesOne?
    ensures NoLostWakeup(Apply(s, e))
  {
    hide Total;
    var t := Apply(s, e);
    assert t.workers == s.workers[e.i := t.workers[e.i]];
    TotalUpdate(s.workers, Looks, e.i, t.workers[e.i]);
    forall k | Sleeper(t, k) && !e.WorkerChecks? ensures Sleeper(s, k) { }
    forall k | Sleeper(t, k) && k != e.i ensures Sleeper(s, k) { }
  }

  /** A step of one caller, which may wake a worker. */
  lemma ClientKeepsWakeups(s: State, e: Event)
    requires NoLostWakeup(s) && Enabled(s, e) && OneClientMoves(e)
    ensures NoLostWakeup(Apply(s, e))
  {
    hide Total;
    var t := Apply(s, e);
    assert t.clients == s.clients[e.j := t.clients[e.j]];
    TotalUpdate(s.clients, WillNotify, e.j, t.clients[e.j]);
    if e.NotifiesOne? { TotalUpdate(s.workers, Looks, e.i, Awake); }
    forall k | Sleeper(t, k) ensures Sleeper(s, k) { }
  }

  lemma KeepsWakeups(s: State, e: Event)
    requires NoLostWakeup(s) && Enabled(s, e)
    ensures NoLostWakeup(Apply(s, e))
  {
    hide Total;
    if OneClientMoves(e) {
      ClientKeepsWakeups(s, e);
    } else if OneWorkerMoves(e) {
      WorkerKeepsWakeups(s, e);
    } else {
      forall k | Sleeper(Apply(s, e), k) ensures Sleeper(s, k) { }
    }
  }

  lemma StepKeepsInv(s: State, e: Event)
    requires Inv(s) && Enabled(s, e)
    ensures Inv(Apply(s, e))
  {
    hide Enabled, Apply, LockHeldOnce, StopKept, FirstInFirstOut, NothingWithoutWorkers, StartedKept,
      TasksDistinct, NoLostWakeup;
    KeepsLock(s, e);
    KeepsStop(s, e);
    KeepsOrder(s, e);
    KeepsStarted(s, e);
    KeepsDistinct(s, e);
    KeepsWakeups(s, e);
  }

  // ---------------------------------------------------------------- over whole runs

  predicate CanRun(s: State, events: seq<Event>)
    decreases |events|
  {
    events == [] || (Enabled(s, events[0]) && CanRun(Apply(s, events[0]), events[1..]))
  }

  function After(s: State, events: seq<Event>): State
    requires CanRun(s, events)
    decreases |events|
  {
    if events == [] then s else After(Apply(s, events[0]), events[1..])
  }

  lemma SameWorkers(s: State, e: Event)
    requires Enabled(s, e)
    ensures |Apply(s, e).workers| == |s.workers|
  {
  }

  lemma {:induction false} RunKeepsInv(s: State, events: seq<Event>)
    requires Inv(s) && CanRun(s, events)
    ensures Inv(After(s, events))
    ensures |After(s, events).workers| == |s.workers|
    decreases |events|
  {
    hide Inv, Enabled;
    if events != [] {
      StepKeepsInv(s, events[0]);
      SameWorkers(s, events[0]);
      RunKeepsInv(Apply(s, events[0]), events[1..]);
    }
  }

  /** In every interleaving: tasks start in the order they were accepted, every accepted task is
      queued, in the hands of a worker or finished, and no task is accepted, started or finished
      twice. */
  lemma EveryRunIsSafe(workers: nat, clients: nat, events: seq<Event>)
    requires CanRun(Start(workers, clients), events)
    ensures var s := After(Start(workers, clients), events);
      && s.accepted == s.started + s.tasks
      && multiset(s.accepted) == multiset(s.tasks) + InHands(s.workers) + multiset(s.finished)
      && forall t :: multiset(s.accepted)[t] <= 1
  {
    StartIsSafe(workers, clients);
    RunKeepsInv(Start(workers, clients), events);
    var s := After(Start(workers, clients), events);
    assert multiset(s.accepted) == multiset(s.started) + multiset(s.tasks);
    DistinctOnce(s.accepted);
  }

  lemma {:induction false} DistinctOnce(tasks: seq<Task>)
    requires forall k, l :: 0 <= k < l < |tasks| ==> tasks[k] != tasks[l]
    ensures forall t :: multiset(tasks)[t] <= 1
  {
    if tasks != [] {
      var last := |tasks| - 1;
      DistinctOnce(tasks[..last]);
      assert tasks == tasks[..last] + [tasks[last]];
    }
  }

  /** Once the destructor has set its flag, no task is accepted any more, however a run goes on. */
  lemma {:induction false} NothingIsAcceptedAfterStop(s: State, events: seq<Event>)
    requires s.stop && CanRun(s, events)
    ensures After(s, events).stop && After(s, events).accepted == s.accepted
    decreases |events|
  {
    if events != [] {
      NothingIsAcceptedAfterStop(Apply(s, events[0]), events[1..]);
    }
  }

  predicate AtWork(w: Worker) {
    !w.Asleep? && !w.Exited?
  }

  /** No lost wake-up: with work in the queue, some worker is awake or some call of enqueue has
      still to notify; and while any worker sleeps there are as many of them as queued tasks. */
  lemma QueuedWorkIsSeen(workers: nat, clients: nat, events: seq<Event>)
    requires CanRun(Start(workers, clients), events)
    ensures var s := After(Start(workers, clients), events);
      && (s.tasks != [] && workers > 0 ==>
            (exists i :: 0 <= i < |s.workers| && AtWork(s.workers[i])) || Notifiers(s.clients) > 0)
      && ((exists i :: Sleeper(s, i)) ==> |s.tasks| <= Looking(s.workers) + Notifiers(s.clients))
  {
    hide Total;
    StartIsSafe(workers, clients);
    RunKeepsInv(Start(workers, clients), events);
    var s := After(Start(workers, clients), events);
    if s.tasks != [] && workers > 0 && !AtWork(s.workers[0]) {
      assert Sleeper(s, 0);
      if Looking(s.workers) > 0 {
        var i := SomeLooker(s.workers);
        assert AtWork(s.workers[i]);
      }
    }
  }

  lemma {:induction false} SomeLooker(workers: seq<Worker>) returns (i: nat)
    requires Looking(workers) > 0
    ensures i < |workers| && (workers[i].Awake? || workers[i].Locked?)
  {
    if Looks(workers[0]) > 0 {
      i := 0;
    } else {
      i := SomeLooker(workers[1..]);
      i := i + 1;
    }
  }

  /** After notify_all no worker sleeps, and none falls asleep again. */
  lemma NobodySleepsAfterNotifyAll(workers: nat, clients: nat, events: seq<Event>)
    requires CanRun(Start(workers, clients), events)
    requires PastNotify(After(Start(workers, clients), events).destructor)
    ensures forall i :: 0 <= i < workers ==> !Sleeper(After(Start(workers, clients), events), i)
  {
    StartIsSafe(workers, clients);
    RunKeepsInv(Start(workers, clients), events);
  }

  /** When the destructor returns, every accepted task has finished, if and only if the pool has a
      worker or nothing was accepted: a pool of no workers drops its queue. */
  lemma DestructorWaitsForEveryTask(workers: nat, clients: nat, events: seq<Event>)
    requires CanRun(Start(workers, clients), events)
    requires After(Start(workers, clients), events).destructor.Done?
    ensures var s := After(Start(workers, clients), events);
      multiset(s.finished) == multiset(s.accepted) <==> workers > 0 || s.accepted == []
  {
    StartIsSafe(workers, clients);
    RunKeepsInv(Start(workers, clients), events);
    var s := After(Start(workers, clients), events);
    InHandsOfIdle(s.workers);
    if workers > 0 {
      assert s.workers[0].Exited?;
      assert s.started + [] == s.accepted;
    } else if s.accepted != [] {
      assert s.accepted[0] in multiset(s.accepted);
    }
  }

  /** One step more at the end of a run. */
  lemma {:induction false} RunOn(s: State, events: seq<Event>, e: Event)
    requires CanRun(s, events) && Enabled(After(s, events), e)
    ensures CanRun(s, events + [e]) && After(s, events + [e]) == Apply(After(s, events), e)
    decreases |events|
  {
    hide Enabled, Apply;
    if events == [] {
      assert [] + [e] == [e] && [e][1..] == [];
    } else {
      RunOn(Apply(s, events[0]), events[1..], e);
      assert (events + [e])[1..] == events[1..] + [e];
    }
  }

  /** For instance, a run in which a pool of no workers accepts one task, is destroyed, and has
      finished none. */
  lemma NoWorkersDropATask() returns (events: seq<Event>)
    ensures CanRun(Start(0, 1), events)
    ensures var s := After(Start(0, 1), events);
      s.destructor.Done? && s.accepted == [0] && s.tasks == [0] && s.finished == []
  {
    hide CanRun, After;
    events := CallAndDestroy();
    var s0 := Start(0, 1);
    RunOn(s0, events, DestructorLocks);
    events := events + [DestructorLocks];
    RunOn(s0, events, SetsStop);
    events := events + [SetsStop];
    RunOn(s0, events, DestructorUnlocks);
    events := events + [DestructorUnlocks];
    RunOn(s0, events, NotifiesAll);
    events := events + [NotifiesAll];
    RunOn(s0, events, Returns);
    events := events + [Returns];
  }

  lemma CallAndDestroy() returns (events: seq<Event>)
    ensures CanRun(Start(0, 1), events)
    ensures After(Start(0, 1), events) == State([0], false, Free, [], [Idle], AtLock, 1, [0], [], [])
  {
    hide CanRun, After;
    var s0 := Start(0, 1);
    events := CallOnce();
    RunOn(s0, events, ClientUnlocks(0));
    events := events + [ClientUnlocks(0)];
    RunOn(s0, events, NotifiesNobody(0));
    events := events + [NotifiesNobody(0)];
    RunOn(s0, events, DestructorStarts);
    events := events + [DestructorStarts];
  }

  lemma CallOnce() returns (events: seq<Event>)
    ensures CanRun(Start(0, 1), events)
    ensures After(Start(0, 1), events) ==
      State([0], false, ByClient(0), [], [Pushed(0)], NotStarted, 1, [0], [], [])
  {
    hide CanRun, After;
    var s0 := Start(0, 1);
    events := [];
    NoSteps(s0);
    RunOn(s0, events, Calls(0));
    events := events + [Calls(0)];
    RunOn(s0, events, ClientLocks(0));
    events := events + [ClientLocks(0)];
    RunOn(s0, events, ClientPushes(0));
    events := events + [ClientPushes(0)];
  }

  lemma NoSteps(s: State)
    ensures CanRun(s, []) && After(s, []) == s
  {
  }

  // ---------------------------------------------------------------- the destructor returns

  function WorkerRank(w: Worker): nat {
    match w
    case Exited => 0
    case Asleep => 0
    case Locked => 1
    case Awake => 2
    case Running(_) => 3
    case Carrying(_) => 4
  }

  function ClientRank(c: Client): nat {
    match c
    case Idle => 0
    case Notifying => 3
    case Pushed(_) => 4
    case Inside(_) => 9
    case Wanting(_) => 10
  }

  /** What the destructor has still to do; notify_all may set every worker off once more. */
  function DestructorRank(s: State): int {
    var n := |s.workers|;
    match s.destructor
    case Done => 0
    case Joining(joined) => n - joined + 1
    case ToNotify => 3 * n + 2
    case StopSet => 3 * n + 3
    case Stopping => 3 * n + 4
    case AtLock => 3 * n + 5
    case NotStarted => 3 * n + 6
  }

  function Measure(s: State): int {
    4 * |s.tasks| + Total(s.workers, WorkerRank) + Total(s.clients, ClientRank) + DestructorRank(s)
  }

  /** What a step from outside the pool adds to the work ahead: a new call of enqueue or an
      unasked wake-up. All other steps are the pool's own. */
  function Adds(e: Event): nat {
    if e.Calls? then 10 else if e.WakesUnasked? then 2 else 0
  }

  predicate Own(e: Event) {
    Adds(e) == 0
  }

  lemma {:induction false} WakingAll(workers: seq<Worker>)
    ensures Total(WokenUp(workers), WorkerRank) <= Total(workers, WorkerRank) + 2 * |workers|
  {
    hide WokenUp;
    if workers != [] {
      WakingAll(workers[1..]);
      assert WokenUp(workers)[1..] == WokenUp(workers[1..]);
    }
  }

  lemma MeasureIsNatural(s: State)
    requires Inv(s)
    ensures Measure(s) >= 0
  {
    hide LockHeldOnce, FirstInFirstOut, StartedKept, TasksDistinct, NoLostWakeup, Total;
  }

  lemma WorkerStepCounts(s: State, e: Event)
    requires Inv(s) && Enabled(s, e) && OneWorkerMoves(e) && !e.NotifiesOne?
    ensures Measure(Apply(s, e)) <= Measure(s) + Adds(e) - if Own(e) then 1 else 0
  {
    hide LockHeldOnce, FirstInFirstOut, StartedKept, TasksDistinct, NoLostWakeup, Total, WokenUp;
    var t := Apply(s, e);
    assert t.workers == s.workers[e.i := t.workers[e.i]];
    TotalUpdate(s.workers, WorkerRank, e.i, t.workers[e.i]);
  }

  lemma ClientStepCounts(s: State, e: Event)
    requires Inv(s) && Enabled(s, e) && OneClientMoves(e)
    ensures Measure(Apply(s, e)) <= Measure(s) + Adds(e) - if Own(e) then 1 else 0
  {
    hide LockHeldOnce, FirstInFirstOut, StartedKept, TasksDistinct, NoLostWakeup, Total, WokenUp;
    var t := Apply(s, e);
    assert t.clients == s.clients[e.j := t.clients[e.j]];
    TotalUpdate(s.clients, ClientRank, e.j, t.clients[e.j]);
    if e.NotifiesOne? { TotalUpdate(s.workers, WorkerRank, e.i, Awake); }
  }

  /** Every step of the pool's own uses up some of a finite measure; one from outside adds its due. */
  lemma EveryStepCounts(s: State, e: Event)
    requires Inv(s) && Enabled(s, e)
    ensures Measure(Apply(s, e)) <= Measure(s) + Adds(e) - if Own(e) then 1 else 0
  {
    hide LockHeldOnce, FirstInFirstOut, StartedKept, TasksDistinct, NoLostWakeup, Total, WokenUp;
    if OneClientMoves(e) {
      ClientStepCounts(s, e);
    } else if OneWorkerMoves(e) {
      WorkerStepCounts(s, e);
    } else {
      WakingAll(s.workers);
    }
  }

  /** Until the destructor, once called, has returned, some step of the pool's own is possible: there
      is no deadlock. */
  lemma SomethingCanHappen(s: State) returns (e: Event)
    requires Inv(s) && !s.destructor.NotStarted? && !s.destructor.Done?
    ensures Enabled(s, e) && Own(e)
  {
    hide FirstInFirstOut, StartedKept, TasksDistinct, NoLostWakeup;
    match s.lock {
      case ByWorker(i) => e := if s.workers[i].Locked? then WorkerChecks(i) else WorkerUnlocks(i);
      case ByClient(j) => e := if s.clients[j].Inside? then ClientPushes(j) else ClientUnlocks(j);
      case ByDestructor => e := if s.destructor.Stopping? then SetsStop else DestructorUnlocks;
      case Free =>
        if s.destructor.AtLock? { e := DestructorLocks; }
        else if s.destructor.ToNotify? { e := NotifiesAll; }
        else {
          var k := s.destructor.joined;
          if k == |s.workers| { e := Returns; }
          else if s.workers[k].Exited? { e := Joins; }
          else if s.workers[k].Awake? { e := WorkerLocks(k); }
          else { e := WorkerFinishes(k); }
        }
    }
  }

  function AddsAll(events: seq<Event>): nat {
    if events == [] then 0 else Adds(events[0]) + AddsAll(events[1..])
  }

  function OwnSteps(events: seq<Event>): nat {
    if events == [] then 0 else (if Own(events[0]) then 1 else 0) + OwnSteps(events[1..])
  }

  lemma {:induction false} RunCounts(s: State, events: seq<Event>)
    requires Inv(s) && CanRun(s, events)
    ensures Inv(After(s, events))
    ensures !s.destructor.NotStarted? ==> !After(s, events).destructor.NotStarted?
    ensures OwnSteps(events) + Measure(After(s, events)) <= Measure(s) + AddsAll(events)
    decreases |events|
  {
    hide Inv, Enabled, Measure;
    if events != [] {
      StepKeepsInv(s, events[0]);
      EveryStepCounts(s, events[0]);
      RunCounts(Apply(s, events[0]), events[1..]);
    }
  }

  /** The destructor returns. From any point of any run at which it has been called, however the
      run goes on: the pool takes at most as many steps as its measure, ten more for each new call of
      enqueue and two for each unasked wake-up; and when it can take none, the destructor is done. */
  lemma DestructorReturns(workers: nat, clients: nat, before: seq<Event>, events: seq<Event>)
    requires CanRun(Start(workers, clients), before)
    requires !After(Start(workers, clients), before).destructor.NotStarted?
    requires CanRun(After(Start(workers, clients), before), events)
    ensures var s := After(Start(workers, clients), before);
      && OwnSteps(events) <= Measure(s) + AddsAll(events)
      && ((forall e :: Own(e) ==> !Enabled(After(s, events), e)) ==> After(s, events).destructor.Done?)
  {
    hide Inv, Enabled, Measure, Own;
    StartIsSafe(workers, clients);
    RunKeepsInv(Start(workers, clients), before);
    var s := After(Start(workers, clients), before);
    RunCounts(s, events);
    MeasureIsNatural(After(s, events));
    if !After(s, events).destructor.Done? {
      var e := SomethingCanHappen(After(s, events));
    }
  }

  /** And without new calls or unasked wake-ups it gets there within the measure. */
  lemma {:induction false} DestructorCanReturn(s: State) returns (events: seq<Event>)
    requires Inv(s) && !s.destructor.NotStarted?
    ensures CanRun(s, events) && After(s, events).destructor.Done?
    ensures |events| <= Measure(s) && AddsAll(events) == 0
    decreases Measure(s)
  {
    hide Inv, Enabled, Measure, Apply;
    MeasureIsNatural(s);
    events := [];
    if !s.destructor.Done? {
      var e := SomethingCanHappen(s);
      StepKeepsInv(s, e);
      EveryStepCounts(s, e);
      StaysCalled(s, e);
      MeasureIsNatural(Apply(s, e));
      var rest := DestructorCanReturn(Apply(s, e));
      events := [e] + rest;
      assert events[1..] == rest;
    }
  }

  lemma StaysCalled(s: State, e: Event)
    requires Enabled(s, e) && !s.destructor.NotStarted?
    ensures !Apply(s, e).destructor.NotStarted?
  {
  }

  // ---------------------------------------------------------------- the code of the critical sections

  lemma WorkerHolds(s: State, i: nat)
    requires Inv(s) && Enabled(s, WorkerChecks(i))
    ensures s.lock == ByWorker(i)
  {
  }

  lemma ClientHolds(s: State, j: nat)
    requires Inv(s) && Enabled(s, ClientPushes(j))
    ensures s.lock == ByClient(j)
  {
  }

  datatype Decision = Waits | Leaves | Takes(task: Task)

  /** The shared fields, changed in place by whichever thread holds the mutex. `state` is the whole
      interleaving so far; the fields are its queue and its flag. */
  class ThreadPool {
    var tasks: seq<Task>
    var stop: bool
    ghost var state: State

    ghost predicate Valid()
      reads this
    {
      tasks == state.tasks && stop == state.stop && Inv(state)
    }

    constructor (threads: nat, ghost clients: nat)
      ensures Valid() && state == Start(threads, clients)
    {
      tasks, stop, state := [], false, Start(threads, clients);
      StartIsSafe(threads, clients);
    }

    /** The worker loop from the test of the wait condition to the end of its block. */
    method TakeTask(ghost i: nat) returns (outcome: Decision)
      requires Valid() && Enabled(state, WorkerChecks(i))
      modifies this
      ensures Valid() && state == Apply(old(state), WorkerChecks(i))
      ensures match outcome
        case Waits => !old(stop) && old(tasks) == [] && state.workers[i].Asleep? && state.lock.Free?
        case Leaves => old(stop) && old(tasks) == [] && state.workers[i].Exited? && state.lock.Free?
        case Takes(task) =>
          && old(tasks) == [task] + tasks && state.workers[i] == Carrying(task) && state.lock == ByWorker(i)
          && state.started == old(state.started) + [task]
      ensures stop == old(stop) && (!outcome.Takes? ==> tasks == old(tasks))
    {
      hide Inv;
      WorkerHolds(state, i);
      StepKeepsInv(state, WorkerChecks(i));
      state := Apply(state, WorkerChecks(i));
      if !(stop || tasks != []) {
        return Waits;
      }
      if stop && tasks == [] {
        return Leaves;
      }
      outcome := Takes(tasks[0]);
      tasks := tasks[1..];
    }

    /** The block of enqueue; `accepted` is false when it throws. */
    method Emplace(ghost j: nat, task: Task) returns (accepted: bool)
      requires Valid() && Enabled(state, ClientPushes(j)) && state.clients[j].task == task
      modifies this
      ensures Valid() && state == Apply(old(state), ClientPushes(j))
      ensures accepted <==> !old(stop)
      ensures accepted ==>
        && tasks == old(tasks) + [task] && state.accepted == old(state.accepted) + [task]
        && state.clients[j] == Pushed(task) && state.lock == ByClient(j)
      ensures !accepted ==>
        && tasks == old(tasks) && state.accepted == old(state.accepted)
        && state.clients[j] == Idle && state.lock.Free?
    {
      hide Inv;
      ClientHolds(state, j);
      StepKeepsInv(state, ClientPushes(j));
      state := Apply(state, ClientPushes(j));
      if stop {
        return false;
      }
      tasks := tasks + [task];
      accepted := true;
    }

    /** The block of the destructor. */
    method SetStop()
      requires Valid() && Enabled(state, SetsStop)
      modifies this
      ensures Valid() && state == Apply(old(state), SetsStop) && stop && tasks == old(tasks)
    {
      hide Inv;
      StepKeepsInv(state, SetsStop);
      state := Apply(state, SetsStop);
      stop := true;
    }
  }
}
