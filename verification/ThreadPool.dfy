/**
 * The thread pool (ge/common/thread_pool.h, ge/common/thread_pool.cc) as a state machine.
 *
 * Every atomic access to the stop flag, the idle counter, the mutex, the condition variable and,
 * under the mutex, the queue is one step. Workers, committing clients and the destructor
 * interleave freely; a wait may also end without a notification. Accepted tasks are numbered in
 * the order in which they enter the queue.
 */
module ThreadPool {
  import opened Wrappers

  datatype Owner = ByWorker(w: nat) | ByClient(c: nat) | ByDestructor

  datatype WorkerPc =
    | Check                 // about to read the stop flag in the loop head
    | Acquire               // needs the mutex: first time, or again after a wait
    | Evaluate              // has the mutex, about to evaluate the wait predicate
    | PreWait               // has the mutex, predicate was false, about to wait
    | Blocked               // waiting on the condition variable
    | Take                  // has the mutex, predicate was true
    | Popped(task: nat)     // has a task, mutex released
    | Running(task: nat)    // idle counter decremented, task executing
    | Returned              // task has returned, idle counter not yet incremented
    | Exited
    | Crashed               // took the front of an empty queue

  datatype ClientPc =
    | Outside               // not in commit
    | Admitted              // has seen the stop flag unset
    | Enqueueing            // has the mutex
    | Enqueued              // mutex released, notification still to be sent

  datatype DestructorPc = Alive | Stopping | Locked | Notified | Joining(joined: nat) | Dead

  datatype State = State(
    size: nat,                    // number of threads asked for
    built: bool,                  // the constructor has returned
    workers: seq<WorkerPc>,       // pool_
    clients: seq<ClientPc>,
    destructor: DestructorPc,
    stopped: bool,                // is_stoped_
    lock: Option<Owner>,          // m_lock_
    queue: seq<nat>,              // tasks_
    idle: int,                    // idle_thrd_num_
    accepted: nat,                // tasks ever put into the queue
    begun: seq<nat>,              // tasks in the order in which they started to run
    finished: set<nat>,           // tasks that have returned
    late: seq<nat>)               // per worker: tasks dequeued since the stop flag was set

  /**
   * Which process moves. Where it is decides what the move does; a worker that waits moves when it
   * wakes up without a notification. A client that notifies may pick the worker to wake.
   */
  datatype Action = WorkerStep(w: nat) | ClientStep(c: nat, woken: Option<nat>) | DestructorStep | ConstructorStep

  function PoolSize(size: nat): nat {
    if size < 1 then 1 else size
  }

  /** A pool under construction: the idle counter is set, no thread has been spawned. */
  function Init(size: nat, clients: nat): State {
    State(size, false, [], seq(clients, _ => Outside), Alive, false, None, [], PoolSize(size), 0, [], {}, [])
  }

  predicate WorkerAt(s: State, w: nat, pc: WorkerPc) {
    w < |s.workers| && s.workers[w] == pc
  }

  predicate Enabled(s: State, a: Action) {
    match a
    case WorkerStep(w) => WorkerEnabled(s, w)
    case ClientStep(c, woken) => ClientEnabled(s, c, woken)
    case DestructorStep => DestructorEnabled(s)
    case ConstructorStep => !s.built
  }

  predicate WorkerEnabled(s: State, w: nat) {
    && w < |s.workers|
    && s.workers[w] != Exited && s.workers[w] != Crashed
    && (s.workers[w] == Acquire ==> s.lock.None?)
  }

  predicate ClientEnabled(s: State, c: nat, woken: Option<nat>) {
    && c < |s.clients| && s.built
    && (s.clients[c] == Admitted ==> s.lock.None?)
    && (s.clients[c] == Enqueued ==> if woken.Some? then WorkerAt(s, woken.value, Blocked) else Blocked !in s.workers)
  }

  predicate DestructorEnabled(s: State) {
    match s.destructor
    case Alive => s.built
    case Stopping => s.lock.None?
    case Joining(k) => k < |s.workers| ==> s.workers[k] == Exited
    case Dead => false
    case _ => true
  }

  function Move(s: State, w: nat, pc: WorkerPc): State
    requires w < |s.workers|
  {
    s.(workers := s.workers[w := pc])
  }

  function WakeAll(ws: seq<WorkerPc>): (r: seq<WorkerPc>)
    ensures |r| == |ws|
    ensures forall i :: 0 <= i < |ws| ==> r[i] == if ws[i] == Blocked then Acquire else ws[i]
  {
    seq(|ws|, i requires 0 <= i < |ws| => if ws[i] == Blocked then Acquire else ws[i])
  }

  function Apply(s: State, a: Action): State
    requires Enabled(s, a)
  {
    match a
    case WorkerStep(w) => ApplyWorker(s, w)
    case ClientStep(c, woken) => ApplyClient(s, c, woken)
    case DestructorStep => ApplyDestructor(s)
    case ConstructorStep => ApplyConstructor(s)
  }

  /**
   * The worker loop. At `Take` it returns when the pool is stopped and the queue is empty, and takes
   * the front task otherwise, whether or not there is one.
   */
  function ApplyWorker(s: State, w: nat): State
    requires WorkerEnabled(s, w)
  {
    match s.workers[w]
    case Check => Move(s, w, if s.stopped then Exited else Acquire)
    case Acquire => Move(s, w, Evaluate).(lock := Some(ByWorker(w)))
    case Evaluate => Move(s, w, if s.stopped || s.queue != [] then Take else PreWait)
    case PreWait => Move(s, w, Blocked).(lock := None)
    case Blocked => Move(s, w, Acquire)
    case Take =>
      if s.stopped && s.queue == [] then Move(s, w, Exited).(lock := None)
      else if s.queue == [] then Move(s, w, Crashed)
      else Move(s, w, Popped(s.queue[0]))
           .(lock := None, queue := s.queue[1..],
             late := if s.stopped && w < |s.late| then s.late[w := s.late[w] + 1] else s.late)
    case Popped(t) => Move(s, w, Running(t)).(idle := s.idle - 1, begun := s.begun + [t])
    case Running(t) => Move(s, w, Returned).(finished := s.finished + {t})
    case Returned => Move(s, w, Check).(idle := s.idle + 1)
  }

  function ApplyClient(s: State, c: nat, woken: Option<nat>): State
    requires ClientEnabled(s, c, woken)
  {
    match s.clients[c]
    case Outside => if s.stopped then s else s.(clients := s.clients[c := Admitted])
    case Admitted => s.(clients := s.clients[c := Enqueueing], lock := Some(ByClient(c)))
    case Enqueueing =>
      s.(clients := s.clients[c := Enqueued], lock := None, queue := s.queue + [s.accepted], accepted := s.accepted + 1)
    case Enqueued =>
      var t := s.(clients := s.clients[c := Outside]);
      if woken.Some? then Move(t, woken.value, Acquire) else t
  }

  function ApplyDestructor(s: State): State
    requires DestructorEnabled(s)
  {
    match s.destructor
    case Alive => s.(stopped := true, destructor := Stopping)
    case Stopping => s.(destructor := Locked, lock := Some(ByDestructor))
    case Locked => s.(destructor := Notified, workers := WakeAll(s.workers))
    case Notified => s.(destructor := Joining(0), lock := None)
    case Joining(k) => s.(destructor := if k < |s.workers| then Joining(k + 1) else Dead)
  }

  /** The loop that spawns threads reads the idle counter every time round. */
  function ApplyConstructor(s: State): State {
    if |s.workers| < s.idle then s.(workers := s.workers + [Check], late := s.late + [0])
    else s.(built := true)
  }

  /** `t` is reached from `s` by the actions in order. */
  ghost predicate Run(s: State, actions: seq<Action>, t: State)
    decreases |actions|
  {
    if actions == [] then s == t
    else Enabled(s, actions[0]) && Run(Apply(s, actions[0]), actions[1..], t)
  }

  ghost predicate Reachable(s: State) {
    exists size: nat, clients: nat, actions: seq<Action> :: Run(Init(size, clients), actions, s)
  }

  // ----- the invariant

  predicate HasLock(pc: WorkerPc) {
    pc == Evaluate || pc == PreWait || pc == Take
  }

  predicate HasTask(pc: WorkerPc) {
    pc.Popped? || pc.Running?
  }

  predicate IsBusy(pc: WorkerPc) {
    pc.Running? || pc == Returned
  }

  /** Number of workers in a state that `p` picks out. */
  function Count(ws: seq<WorkerPc>, p: WorkerPc -> bool): nat {
    if ws == [] then 0 else (if p(ws[0]) then 1 else 0) + Count(ws[1..], p)
  }

  /** The mutex belongs to exactly the process that is inside a critical section. */
  ghost predicate LockInv(s: State) {
    && (forall w: nat :: w < |s.workers| ==> (HasLock(s.workers[w]) <==> s.lock == Some(ByWorker(w))))
    && (forall c: nat :: c < |s.clients| ==> (s.clients[c] == Enqueueing <==> s.lock == Some(ByClient(c))))
    && (s.destructor == Locked || s.destructor == Notified <==> s.lock == Some(ByDestructor))
    && (s.lock.Some? && s.lock.value.ByWorker? ==> s.lock.value.w < |s.workers|)
    && (s.lock.Some? && s.lock.value.ByClient? ==> s.lock.value.c < |s.clients|)
  }

  predicate IsFresh(pc: WorkerPc) {
    pc == Check || pc == Acquire || pc == Evaluate || pc == PreWait || pc == Blocked
  }

  /** Construction spawns exactly the threads asked for, and nothing happens before it is over. */
  ghost predicate BuildInv(s: State) {
    && |s.late| == |s.workers|
    && |s.workers| <= PoolSize(s.size)
    && (s.built ==> |s.workers| == PoolSize(s.size))
    && (!s.built ==>
          && s.queue == [] && s.destructor == Alive
          && (forall c :: 0 <= c < |s.clients| ==> s.clients[c] == Outside)
          && (forall w :: 0 <= w < |s.workers| ==> IsFresh(s.workers[w])))
  }

  /** The idle counter is the number of threads that are not between decrement and increment. */
  ghost predicate IdleInv(s: State) {
    s.idle == PoolSize(s.size) - Count(s.workers, IsBusy)
  }

  /** The stop flag is set exactly once the destructor has begun, and workers leave only then. */
  ghost predicate StopInv(s: State) {
    && (s.stopped <==> s.destructor != Alive)
    && (forall w :: 0 <= w < |s.workers| && s.workers[w] == Exited ==> s.stopped)
    && (forall w :: 0 <= w < |s.workers| && s.workers[w] == PreWait ==> s.queue == [])
    && (forall w :: 0 <= w < |s.workers| && s.workers[w] == Take ==> s.stopped || s.queue != [])
    && (forall w :: 0 <= w < |s.workers| ==> s.workers[w] != Crashed)
  }

  predicate Awake(s: State, w: int) {
    0 <= w < |s.workers| && s.workers[w] != Blocked
  }

  predicate OwesNotify(s: State, c: int) {
    0 <= c < |s.clients| && s.clients[c] == Enqueued
  }

  /** A queued task is never forgotten by everybody, and a stopped pool leaves nobody waiting. */
  ghost predicate WakeInv(s: State) {
    && (!s.stopped && s.queue != [] ==> (exists w :: Awake(s, w)) || (exists c :: OwesNotify(s, c)))
    && (s.destructor == Notified || s.destructor.Joining? || s.destructor == Dead ==>
          forall w :: 0 <= w < |s.workers| ==> s.workers[w] != Blocked && s.workers[w] != PreWait)
  }

  /** Workers on their way to the queue without waiting. */
  predicate IsHeading(pc: WorkerPc) {
    pc == Acquire || pc == Evaluate || pc == Take
  }

  function Owes(pc: ClientPc): nat {
    if pc == Enqueued then 1 else 0
  }

  /**
   * While a worker waits in a running pool, every queued task has its own worker heading for the queue or
   * its own notification still to be sent.
   */
  ghost predicate SignalInv(s: State) {
    !s.stopped && Blocked in s.workers ==> |s.queue| <= Count(s.workers, IsHeading) + Total(s.clients, Owes)
  }

  /** The queue holds the youngest accepted tasks in commit order. */
  ghost predicate QueueInv(s: State) {
    && |s.queue| <= s.accepted
    && forall i :: 0 <= i < |s.queue| ==> s.queue[i] == s.accepted - |s.queue| + i
  }

  /** Number of tasks taken out of the queue so far: tasks 0 up to this one, in commit order. */
  function Dequeued(s: State): int {
    s.accepted - |s.queue|
  }

  predicate HeldBy(s: State, w: int, t: nat) {
    0 <= w < |s.workers| && HasTask(s.workers[w]) && s.workers[w].task == t
  }

  /** Every dequeued task is with exactly one worker or finished. */
  ghost predicate TaskInv(s: State) {
    && (forall w :: 0 <= w < |s.workers| && HasTask(s.workers[w]) ==>
          s.workers[w].task < Dequeued(s) && s.workers[w].task !in s.finished)
    && (forall w, v :: 0 <= w < v < |s.workers| && HasTask(s.workers[w]) && HasTask(s.workers[v]) ==>
          s.workers[w].task != s.workers[v].task)
    && (forall t :: t in s.finished ==> t < Dequeued(s))
  }

  ghost predicate CoverInv(s: State) {
    forall t: nat :: t < Dequeued(s) ==> t in s.finished || exists w :: HeldBy(s, w, t)
  }

  /** No task starts twice. */
  ghost predicate BegunInv(s: State) {
    && (forall i, j :: 0 <= i < j < |s.begun| ==> s.begun[i] != s.begun[j])
    && (forall t :: t in s.finished ==> t in s.begun)
    && (forall w :: 0 <= w < |s.workers| && s.workers[w].Running? ==> s.workers[w].task in s.begun)
    && (forall i :: 0 <= i < |s.begun| ==> s.begun[i] < Dequeued(s))
    && (forall w :: 0 <= w < |s.workers| && s.workers[w].Popped? ==> s.workers[w].task !in s.begun)
  }

  /** After the stop flag a worker takes at most one more task and then only runs to its end. */
  ghost predicate LateInv(s: State) {
    && |s.late| == |s.workers|
    && (!s.stopped ==> forall w :: 0 <= w < |s.late| ==> s.late[w] == 0)
    && (forall w :: 0 <= w < |s.late| ==> s.late[w] <= 1)
    && (forall w :: 0 <= w < |s.late| && s.late[w] == 1 ==>
          HasTask(s.workers[w]) || s.workers[w] == Returned || s.workers[w] == Check || s.workers[w] == Exited)
  }

  /** Tasks are neither lost nor invented. */
  ghost predicate CountInv(s: State) {
    s.accepted == |s.queue| + Count(s.workers, HasTask) + |s.finished|
  }

  ghost predicate JoinInv(s: State) {
    && (s.destructor.Joining? ==>
          && s.destructor.joined <= |s.workers|
          && forall w :: 0 <= w < s.destructor.joined ==> s.workers[w] == Exited)
    && (s.destructor == Dead ==> forall w :: 0 <= w < |s.workers| ==> s.workers[w] == Exited)
  }

  ghost predicate Inv(s: State) {
    && LockInv(s) && BuildInv(s) && IdleInv(s) && StopInv(s) && WakeInv(s) && SignalInv(s)
    && QueueInv(s) && TaskInv(s) && CoverInv(s) && BegunInv(s) && LateInv(s) && CountInv(s) && JoinInv(s)
  }

  lemma CountUpdate(ws: seq<WorkerPc>, i: nat, pc: WorkerPc, p: WorkerPc -> bool)
    requires i < |ws|
    ensures Count(ws[i := pc], p) == Count(ws, p) - (if p(ws[i]) then 1 else 0) + (if p(pc) then 1 else 0)
  {
    if i > 0 {
      assert ws[i := pc][1..] == ws[1..][i - 1 := pc];
      CountUpdate(ws[1..], i - 1, pc, p);
    } else {
      assert ws[0 := pc][1..] == ws[1..];
    }
  }

  function Total<T>(xs: seq<T>, rank: T -> nat): nat {
    if xs == [] then 0 else rank(xs[0]) + Total(xs[1..], rank)
  }

  lemma TotalUpdate<T>(xs: seq<T>, i: nat, x: T, rank: T -> nat)
    requires i < |xs|
    ensures Total(xs[i := x], rank) == Total(xs, rank) - rank(xs[i]) + rank(x)
  {
    if i > 0 {
      assert xs[i := x][1..] == xs[1..][i - 1 := x];
      TotalUpdate(xs[1..], i - 1, x, rank);
    } else {
      assert xs[0 := x][1..] == xs[1..];
    }
  }

  lemma InvInit(size: nat, clients: nat)
    ensures Inv(Init(size, clients))
  {}

  // ----- what one worker step can do, seen through the fields it touches

  /** The worker neither gets nor gives up a task, and only the mutex changes beside it. */
  predicate OnlyMoves(s: State, w: nat, s': State) {
    && w < |s.workers| == |s'.workers|
    && s' == Move(s, w, s'.workers[w]).(lock := s'.lock)
    && !HasTask(s.workers[w]) && !HasTask(s'.workers[w]) && !IsBusy(s.workers[w]) && !IsBusy(s'.workers[w])
  }

  predicate Takes(s: State, w: nat, s': State) {
    && w < |s.workers| && s.queue != [] && s.workers[w] == Take
    && s' == Move(s, w, Popped(s.queue[0])).(lock := None, queue := s.queue[1..], late := s'.late)
  }

  predicate Starts(s: State, w: nat, s': State) {
    && w < |s.workers| && s.workers[w].Popped?
    && s' == Move(s, w, Running(s.workers[w].task)).(idle := s.idle - 1, begun := s.begun + [s.workers[w].task])
  }

  predicate Finishes(s: State, w: nat, s': State) {
    && w < |s.workers| && s.workers[w].Running?
    && s' == Move(s, w, Returned).(finished := s.finished + {s.workers[w].task})
  }

  predicate Idles(s: State, w: nat, s': State) {
    w < |s.workers| && s.workers[w] == Returned && s' == Move(s, w, Check).(idle := s.idle + 1)
  }

  lemma WorkerKinds(s: State, w: nat)
    requires WorkerEnabled(s, w)
    ensures var s' := ApplyWorker(s, w);
            OnlyMoves(s, w, s') || Takes(s, w, s') || Starts(s, w, s') || Finishes(s, w, s') || Idles(s, w, s')
  {}

  // ----- every step keeps every part

  lemma TaskMoves(s: State, w: nat, s': State)
    requires TaskInv(s) && (OnlyMoves(s, w, s') || Starts(s, w, s') || Finishes(s, w, s') || Idles(s, w, s'))
    ensures TaskInv(s')
  {}

  lemma TaskTakes(s: State, w: nat, s': State)
    requires QueueInv(s) && TaskInv(s) && Takes(s, w, s')
    ensures TaskInv(s')
  {}

  lemma TaskWorker(s: State, w: nat)
    requires QueueInv(s) && TaskInv(s) && WorkerEnabled(s, w)
    ensures TaskInv(ApplyWorker(s, w))
  {
    hide QueueInv, TaskInv, ApplyWorker, WorkerEnabled, OnlyMoves, Takes, Starts, Finishes, Idles;
    var s' := ApplyWorker(s, w);
    WorkerKinds(s, w);
    if Takes(s, w, s') {
      TaskTakes(s, w, s');
    } else {
      TaskMoves(s, w, s');
    }
  }

  lemma BegunMoves(s: State, w: nat, s': State)
    requires BegunInv(s) && (OnlyMoves(s, w, s') || Finishes(s, w, s') || Idles(s, w, s'))
    ensures BegunInv(s')
  {}

  lemma BegunStarts(s: State, w: nat, s': State)
    requires TaskInv(s) && BegunInv(s) && Starts(s, w, s')
    ensures BegunInv(s')
  {}

  lemma BegunTakes(s: State, w: nat, s': State)
    requires QueueInv(s) && BegunInv(s) && Takes(s, w, s')
    ensures BegunInv(s')
  {}

  lemma BegunWorker(s: State, w: nat)
    requires QueueInv(s) && TaskInv(s) && BegunInv(s) && WorkerEnabled(s, w)
    ensures BegunInv(ApplyWorker(s, w))
  {
    hide QueueInv, TaskInv, BegunInv, ApplyWorker, WorkerEnabled, OnlyMoves, Takes, Starts, Finishes, Idles;
    var s' := ApplyWorker(s, w);
    WorkerKinds(s, w);
    if Takes(s, w, s') {
      BegunTakes(s, w, s');
    } else if Starts(s, w, s') {
      BegunStarts(s, w, s');
    } else {
      BegunMoves(s, w, s');
    }
  }

  lemma QueueWorker(s: State, w: nat)
    requires QueueInv(s) && WorkerEnabled(s, w)
    ensures QueueInv(ApplyWorker(s, w))
  {
    hide ApplyWorker, WorkerEnabled;
    WorkerKinds(s, w);
  }

  lemma CountsWorker(s: State, w: nat)
    requires IdleInv(s) && CountInv(s) && TaskInv(s) && WorkerEnabled(s, w)
    ensures IdleInv(ApplyWorker(s, w)) && CountInv(ApplyWorker(s, w))
  {
    hide ApplyWorker, WorkerEnabled, Count;
    var s' := ApplyWorker(s, w);
    WorkerKinds(s, w);
    CountUpdate(s.workers, w, s'.workers[w], IsBusy);
    CountUpdate(s.workers, w, s'.workers[w], HasTask);
  }

  /** The mutex stays, is taken when free, or is given up by its owner. */
  lemma LockKinds(s: State, w: nat)
    requires WorkerEnabled(s, w) && (s.workers[w] == Take ==> s.stopped || s.queue != [])
    ensures var s' := ApplyWorker(s, w);
            && s'.workers == s.workers[w := s'.workers[w]] && s'.clients == s.clients && s'.destructor == s.destructor
            && (|| (s'.lock == s.lock && HasLock(s'.workers[w]) == HasLock(s.workers[w]))
                || (s.lock == None && s'.lock == Some(ByWorker(w)) && HasLock(s'.workers[w]))
                || (HasLock(s.workers[w]) && s'.lock == None && !HasLock(s'.workers[w])))
  {}

  lemma LockWorker(s: State, w: nat)
    requires LockInv(s) && StopInv(s) && WorkerEnabled(s, w)
    ensures LockInv(ApplyWorker(s, w))
  {
    hide ApplyWorker;
    LockKinds(s, w);
  }

  lemma StopKinds(s: State, w: nat)
    requires WorkerEnabled(s, w) && (s.workers[w] == Take ==> s.stopped || s.queue != [])
    ensures var s' := ApplyWorker(s, w);
            && s'.workers == s.workers[w := s'.workers[w]] && s'.stopped == s.stopped && s'.destructor == s.destructor
            && (s'.workers[w] == Exited ==> s.stopped) && s'.workers[w] != Crashed
            && (s'.workers[w] == PreWait ==> s'.queue == [])
            && (s'.workers[w] == Take ==> s.stopped || s'.queue != [])
            && (s'.queue == s.queue || HasLock(s.workers[w]))
  {}

  lemma StopWorker(s: State, w: nat)
    requires LockInv(s) && StopInv(s) && WorkerEnabled(s, w)
    ensures StopInv(ApplyWorker(s, w))
  {
    hide ApplyWorker;
    StopKinds(s, w);
  }

  lemma LateWorker(s: State, w: nat)
    requires LateInv(s) && WorkerEnabled(s, w)
    ensures LateInv(ApplyWorker(s, w))
  {}

  lemma JoinWorker(s: State, w: nat)
    requires JoinInv(s) && WorkerEnabled(s, w)
    ensures JoinInv(ApplyWorker(s, w))
  {}

  lemma LockClient(s: State, c: nat, woken: Option<nat>)
    requires LockInv(s) && ClientEnabled(s, c, woken)
    ensures LockInv(ApplyClient(s, c, woken))
  {}

  lemma LockOther(s: State, a: Action)
    requires LockInv(s) && Enabled(s, a) && !a.WorkerStep?
    ensures LockInv(Apply(s, a))
  {
    hide ApplyWorker, WorkerEnabled, ApplyClient, ClientEnabled;
    if a.ClientStep? {
      LockClient(s, a.c, a.woken);
    }
  }

  lemma StopOther(s: State, a: Action)
    requires LockInv(s) && StopInv(s) && BuildInv(s) && Enabled(s, a) && !a.WorkerStep?
    ensures StopInv(Apply(s, a))
  {
    hide ApplyWorker, WorkerEnabled;
  }

  lemma QueueOther(s: State, a: Action)
    requires QueueInv(s) && Enabled(s, a) && !a.WorkerStep?
    ensures QueueInv(Apply(s, a))
  {
    hide ApplyWorker, WorkerEnabled;
  }

  lemma LateOther(s: State, a: Action)
    requires LateInv(s) && StopInv(s) && BuildInv(s) && Enabled(s, a) && !a.WorkerStep?
    ensures LateInv(Apply(s, a))
  {
    hide ApplyWorker, WorkerEnabled;
  }

  lemma JoinOther(s: State, a: Action)
    requires JoinInv(s) && BuildInv(s) && Enabled(s, a) && !a.WorkerStep?
    ensures JoinInv(Apply(s, a))
  {
    hide ApplyWorker, WorkerEnabled;
  }

  /** Steps of other processes leave every task where it is. */
  lemma TasksUntouched(s: State, a: Action)
    requires Enabled(s, a) && !a.WorkerStep?
    ensures var s' := Apply(s, a);
            && Dequeued(s') == Dequeued(s) && s'.finished == s.finished && s'.begun == s.begun
            && s'.idle == s.idle && s'.size == s.size
            && forall w :: 0 <= w < |s'.workers| && HasTask(s'.workers[w]) ==> w < |s.workers| && s'.workers[w] == s.workers[w]
  {
    hide ApplyWorker, WorkerEnabled;
  }

  lemma TaskOther(s: State, a: Action)
    requires TaskInv(s) && BegunInv(s) && Enabled(s, a) && !a.WorkerStep?
    ensures TaskInv(Apply(s, a)) && BegunInv(Apply(s, a))
  {
    hide Apply, Enabled;
    TasksUntouched(s, a);
  }

  lemma WakeWorker(s: State, w: nat)
    requires LockInv(s) && StopInv(s) && WakeInv(s) && WorkerEnabled(s, w)
    ensures WakeInv(ApplyWorker(s, w))
  {
    assert s.workers[w] == PreWait || Awake(ApplyWorker(s, w), w);
  }

  lemma WakeOther(s: State, a: Action)
    requires LockInv(s) && StopInv(s) && WakeInv(s) && BuildInv(s) && QueueInv(s) && Enabled(s, a) && !a.WorkerStep?
    ensures WakeInv(Apply(s, a))
  {
    hide ApplyWorker, WorkerEnabled;
    var s' := Apply(s, a);
    if !s'.stopped && s'.queue != [] {
      if a.ClientStep? && s.clients[a.c] == Enqueueing {
        assert OwesNotify(s', a.c);
      } else if a.ClientStep? && s.clients[a.c] == Enqueued {
        assert Awake(s', if a.woken.Some? then a.woken.value else 0);
      } else if w :| Awake(s, w) {
        assert Awake(s', w);
      } else {
        var c :| OwesNotify(s, c);
        assert OwesNotify(s', c);
      }
    }
  }

  /** In a running pool a worker begins to wait, or stops heading for the queue, only when it takes or finds nothing. */
  lemma SignalKinds(s: State, w: nat)
    requires StopInv(s) && WorkerEnabled(s, w) && !s.stopped
    ensures var s' := ApplyWorker(s, w);
            && s'.workers == s.workers[w := s'.workers[w]] && s'.clients == s.clients
            && (|| s'.queue == []
                || (s'.queue == s.queue && s'.workers[w] != Blocked && (IsHeading(s.workers[w]) ==> IsHeading(s'.workers[w])))
                || (|s'.queue| == |s.queue| - 1 && s'.workers[w] != Blocked))
  {}

  lemma SignalWorker(s: State, w: nat)
    requires StopInv(s) && SignalInv(s) && WorkerEnabled(s, w)
    ensures SignalInv(ApplyWorker(s, w))
  {
    assert ApplyWorker(s, w).stopped == s.stopped;
    hide Count, Total, ApplyWorker, IsHeading;
    if !s.stopped {
      var s' := ApplyWorker(s, w);
      SignalKinds(s, w);
      CountUpdate(s.workers, w, s'.workers[w], IsHeading);
      if Blocked in s'.workers && s'.queue != [] {
        var v :| 0 <= v < |s'.workers| && s'.workers[v] == Blocked;
        assert s.workers[v] == Blocked;
      }
    }
  }

  lemma SignalClient(s: State, c: nat, woken: Option<nat>)
    requires SignalInv(s) && ClientEnabled(s, c, woken)
    ensures SignalInv(ApplyClient(s, c, woken))
  {
    hide Count, Total;
    var s' := ApplyClient(s, c, woken);
    TotalUpdate(s.clients, c, s'.clients[c], Owes);
    if s.clients[c] == Enqueued && woken.Some? {
      CountUpdate(s.workers, woken.value, Acquire, IsHeading);
    }
  }

  lemma SignalOther(s: State, a: Action)
    requires SignalInv(s) && BuildInv(s) && StopInv(s) && Enabled(s, a) && !a.WorkerStep?
    ensures SignalInv(Apply(s, a))
  {
    hide Count, Total, ApplyWorker, WorkerEnabled, ApplyClient, ClientEnabled;
    if a.ClientStep? {
      SignalClient(s, a.c, a.woken);
    }
  }

  lemma CoverWorker(s: State, w: nat)
    requires QueueInv(s) && CoverInv(s) && WorkerEnabled(s, w)
    ensures CoverInv(ApplyWorker(s, w))
  {
    hide ApplyWorker, WorkerEnabled;
    var s' := ApplyWorker(s, w);
    WorkerKinds(s, w);
    forall t: nat | t < Dequeued(s') && t !in s'.finished
      ensures exists v :: HeldBy(s', v, t)
    {
      if t == Dequeued(s) {
        assert HeldBy(s', w, t);
      } else {
        var v :| HeldBy(s, v, t);
        assert HeldBy(s', v, t);
      }
    }
  }

  lemma CoverOther(s: State, a: Action)
    requires CoverInv(s) && Enabled(s, a) && !a.WorkerStep?
    ensures CoverInv(Apply(s, a))
  {
    hide ApplyWorker, WorkerEnabled;
    var s' := Apply(s, a);
    assert Dequeued(s') == Dequeued(s) && s'.finished == s.finished;
    forall t: nat | t < Dequeued(s') && t !in s'.finished
      ensures exists v :: HeldBy(s', v, t)
    {
      var v :| HeldBy(s, v, t);
      assert HeldBy(s', v, t);
    }
  }

  lemma CountAppend(ws: seq<WorkerPc>, pc: WorkerPc, p: WorkerPc -> bool)
    ensures Count(ws + [pc], p) == Count(ws, p) + (if p(pc) then 1 else 0)
  {
    if ws != [] {
      assert (ws + [pc])[1..] == ws[1..] + [pc];
      CountAppend(ws[1..], pc, p);
    } else {
      assert ws + [pc] == [pc];
    }
  }

  lemma CountSame(ws: seq<WorkerPc>, vs: seq<WorkerPc>, p: WorkerPc -> bool)
    requires |ws| == |vs| && forall i :: 0 <= i < |ws| ==> p(ws[i]) == p(vs[i])
    ensures Count(ws, p) == Count(vs, p)
  {
    if ws != [] {
      CountSame(ws[1..], vs[1..], p);
    }
  }

  lemma CountNone(ws: seq<WorkerPc>, p: WorkerPc -> bool)
    requires forall i :: 0 <= i < |ws| ==> !p(ws[i])
    ensures Count(ws, p) == 0
  {
    if ws != [] {
      CountNone(ws[1..], p);
    }
  }

  lemma CountOther(s: State, a: Action, p: WorkerPc -> bool)
    requires Enabled(s, a) && !a.WorkerStep? && !p(Check) && !p(Acquire) && !p(Blocked)
    ensures Count(Apply(s, a).workers, p) == Count(s.workers, p)
  {
    hide ApplyWorker, WorkerEnabled;
    var s' := Apply(s, a);
    if a.ConstructorStep? && !s'.built {
      CountAppend(s.workers, Check, p);
    } else {
      CountSame(s.workers, s'.workers, p);
    }
  }

  lemma CountsOther(s: State, a: Action)
    requires IdleInv(s) && CountInv(s) && Enabled(s, a) && !a.WorkerStep?
    ensures IdleInv(Apply(s, a)) && CountInv(Apply(s, a))
  {
    hide Apply, Enabled;
    TasksUntouched(s, a);
    CountOther(s, a, IsBusy);
    CountOther(s, a, HasTask);
  }

  lemma BuildWorker(s: State, w: nat)
    requires BuildInv(s) && StopInv(s) && WorkerEnabled(s, w)
    ensures BuildInv(ApplyWorker(s, w))
  {}

  /** While the pool is being built no thread is busy, so the bound of the spawning loop stays put. */
  lemma BuildOther(s: State, a: Action)
    requires BuildInv(s) && IdleInv(s) && StopInv(s) && Enabled(s, a) && !a.WorkerStep?
    ensures BuildInv(Apply(s, a))
  {
    hide ApplyWorker, WorkerEnabled;
    if !s.built {
      CountNone(s.workers, IsBusy);
    }
  }

  lemma InvStep(s: State, a: Action)
    requires Inv(s) && Enabled(s, a)
    ensures Inv(Apply(s, a))
  {
    hide LockInv, BuildInv, IdleInv, StopInv, WakeInv, QueueInv, TaskInv, CoverInv, BegunInv, LateInv, CountInv, JoinInv;
    hide SignalInv, ApplyWorker, WorkerEnabled, ApplyClient, ClientEnabled, ApplyDestructor, DestructorEnabled, ApplyConstructor;
    if a.WorkerStep? {
      LockWorker(s, a.w);
      BuildWorker(s, a.w);
      StopWorker(s, a.w);
      WakeWorker(s, a.w);
      SignalWorker(s, a.w);
      QueueWorker(s, a.w);
      TaskWorker(s, a.w);
      CoverWorker(s, a.w);
      BegunWorker(s, a.w);
      LateWorker(s, a.w);
      CountsWorker(s, a.w);
      JoinWorker(s, a.w);
    } else {
      LockOther(s, a);
      BuildOther(s, a);
      StopOther(s, a);
      WakeOther(s, a);
      SignalOther(s, a);
      QueueOther(s, a);
      TaskOther(s, a);
      CoverOther(s, a);
      LateOther(s, a);
      CountsOther(s, a);
      JoinOther(s, a);
    }
  }

  lemma {:induction false} InvRun(s: State, actions: seq<Action>, t: State)
    requires Inv(s) && Run(s, actions, t)
    ensures Inv(t)
    decreases |actions|
  {
    hide Inv, Enabled, Apply;
    if actions != [] {
      InvStep(s, actions[0]);
      InvRun(Apply(s, actions[0]), actions[1..], t);
    }
  }

  lemma ReachableInv(s: State)
    requires Reachable(s)
    ensures Inv(s)
  {
    hide Inv, Init, Run;
    var size: nat, clients: nat, actions: seq<Action> :| Run(Init(size, clients), actions, s);
    InvInit(size, clients);
    InvRun(Init(size, clients), actions, s);
  }

  // ----- what holds in every reachable state

  /** No worker ever takes the front of an empty queue, and at most one process is in a critical section. */
  lemma SafeCriticalSections(s: State, w: nat, v: nat)
    requires Reachable(s)
    ensures w < |s.workers| ==> s.workers[w] != Crashed
    ensures w < v < |s.workers| ==> !(HasLock(s.workers[w]) && HasLock(s.workers[v]))
    ensures w < |s.workers| && v < |s.clients| ==> !(HasLock(s.workers[w]) && s.clients[v] == Enqueueing)
  {
    ReachableInv(s);
  }

  /**
   * No lost wake-up: while the pool runs and a worker waits, every queued task has its own worker
   * heading for the queue or its own notification still to be sent, however long other workers are
   * busy. So with tasks queued, some worker is not waiting or some client still owes a notification.
   * Once the destructor has notified, no worker waits.
   */
  lemma NoLostWakeUp(s: State)
    requires Reachable(s)
    ensures !s.stopped && Blocked in s.workers ==> |s.queue| <= Count(s.workers, IsHeading) + Total(s.clients, Owes)
    ensures !s.stopped && s.queue != [] ==> (exists w :: Awake(s, w)) || (exists c :: OwesNotify(s, c))
    ensures s.destructor.Notified? || s.destructor.Joining? || s.destructor.Dead? ==> Blocked !in s.workers
  {
    ReachableInv(s);
  }

  /** The idle counter never leaves its range, so it does not wrap around. */
  lemma IdleCounter(s: State)
    requires Reachable(s)
    ensures var threads := if s.size == 0 then 1 else s.size;
            && s.idle == threads - Count(s.workers, IsBusy) && 0 <= s.idle <= threads
            && (s.built ==> |s.workers| == threads)
  {
    ReachableInv(s);
    CountBound(s.workers, IsBusy);
  }

  lemma CountBound(ws: seq<WorkerPc>, p: WorkerPc -> bool)
    ensures Count(ws, p) <= |ws|
  {}

  predicate IsPopped(pc: WorkerPc) {
    pc.Popped?
  }

  predicate IsRunning(pc: WorkerPc) {
    pc.Running?
  }

  lemma CountSplit(ws: seq<WorkerPc>)
    ensures Count(ws, HasTask) == Count(ws, IsPopped) + Count(ws, IsRunning)
  {}

  /** Accepted tasks are queued, held, running or finished, and no task ever starts twice. */
  lemma TasksConserved(s: State)
    requires Reachable(s)
    ensures s.accepted == |s.queue| + Count(s.workers, IsPopped) + Count(s.workers, IsRunning) + |s.finished|
    ensures forall i, j :: 0 <= i < j < |s.begun| ==> s.begun[i] != s.begun[j]
    ensures forall t: nat :: t < Dequeued(s) ==> t in s.finished || exists w :: HeldBy(s, w, t)
    ensures forall t :: t in s.finished ==> t in s.begun
  {
    ReachableInv(s);
    CountSplit(s.workers);
  }

  /** Dequeue order is commit order: the next task taken is the next one accepted. */
  lemma DequeueInCommitOrder(s: State, w: nat)
    requires Reachable(s) && WorkerAt(s, w, Take) && s.queue != []
    ensures var s' := Apply(s, WorkerStep(w));
            s'.workers[w].Popped? && s'.workers[w].task == Dequeued(s) && Dequeued(s') == Dequeued(s) + 1
  {
    ReachableInv(s);
  }

  // ----- shutdown

  function WorkerRank(pc: WorkerPc): nat {
    match pc
    case Exited => 0
    case Crashed => 0
    case Check => 1
    case Returned => 2
    case Running(_) => 3
    case Popped(_) => 4
    case Take => 5
    case Evaluate => 6
    case Acquire => 7
    case Blocked => 8
    case PreWait => 9
  }

  function ClientRank(pc: ClientPc): nat {
    match pc
    case Outside => 0
    case Enqueued => 1
    case Enqueueing => 2
    case Admitted => 3
  }

  function DestructorRank(s: State): int {
    match s.destructor
    case Alive => |s.workers| + 6
    case Stopping => |s.workers| + 5
    case Locked => |s.workers| + 4
    case Notified => |s.workers| + 3
    case Joining(k) => |s.workers| + 1 - k
    case Dead => 0
  }

  lemma TotalBelow<T>(xs: seq<T>, ys: seq<T>, rank: T -> nat)
    requires |xs| == |ys| && forall i :: 0 <= i < |xs| ==> rank(xs[i]) <= rank(ys[i])
    ensures Total(xs, rank) <= Total(ys, rank)
  {
    if xs != [] {
      TotalBelow(xs[1..], ys[1..], rank);
    }
  }

  /** Steps that are left once the pool is stopped. */
  function Potential(s: State): int {
    Total(s.workers, WorkerRank) + Total(s.clients, ClientRank) + DestructorRank(s)
  }

  /** The only step that may change nothing: a client turned away by the stop flag. */
  predicate IsRefusal(s: State, a: Action) {
    a.ClientStep? && a.c < |s.clients| && s.clients[a.c] == Outside
  }

  /** A worker of a stopped pool only ever moves towards its end. */
  lemma RankDrops(s: State, w: nat)
    requires s.stopped && WorkerEnabled(s, w)
    ensures var s' := ApplyWorker(s, w);
            && s'.workers == s.workers[w := s'.workers[w]] && s'.clients == s.clients && s'.destructor == s.destructor
            && s'.stopped && WorkerRank(s'.workers[w]) < WorkerRank(s.workers[w])
  {}

  lemma PotentialWorker(s: State, w: nat)
    requires s.stopped && WorkerEnabled(s, w)
    ensures Potential(ApplyWorker(s, w)) < Potential(s)
  {
    hide ApplyWorker, WorkerRank;
    var s' := ApplyWorker(s, w);
    RankDrops(s, w);
    TotalUpdate(s.workers, w, s'.workers[w], WorkerRank);
  }

  lemma PotentialClient(s: State, c: nat, woken: Option<nat>)
    requires s.stopped && ClientEnabled(s, c, woken) && s.clients[c] != Outside
    ensures Potential(ApplyClient(s, c, woken)) < Potential(s)
  {
    var s' := ApplyClient(s, c, woken);
    TotalUpdate(s.clients, c, s'.clients[c], ClientRank);
    if s.clients[c] == Enqueued && woken.Some? {
      TotalUpdate(s.workers, woken.value, Acquire, WorkerRank);
    }
  }

  lemma PotentialDestructor(s: State)
    requires s.stopped && JoinInv(s) && StopInv(s) && DestructorEnabled(s)
    ensures Potential(ApplyDestructor(s)) < Potential(s)
  {
    var s' := ApplyDestructor(s);
    if s.destructor == Locked {
      TotalBelow(s'.workers, s.workers, WorkerRank);
    }
  }

  /** Once the pool is stopped, every step of every process, spurious wake-ups included, uses up potential. */
  lemma PotentialDecreases(s: State, a: Action)
    requires Inv(s) && s.stopped && Enabled(s, a)
    ensures Potential(Apply(s, a)) <= Potential(s)
    ensures !IsRefusal(s, a) ==> Potential(Apply(s, a)) < Potential(s)
    ensures Apply(s, a).stopped
  {
    hide LockInv, IdleInv, WakeInv, QueueInv, TaskInv, CoverInv, BegunInv, LateInv, CountInv, JoinInv;
    hide ApplyWorker, WorkerEnabled, Potential;
    match a
    case WorkerStep(w) => RankDrops(s, w); PotentialWorker(s, w);
    case ClientStep(c, woken) => if s.clients[c] != Outside { PotentialClient(s, c, woken); }
    case DestructorStep => PotentialDestructor(s);
    case ConstructorStep =>
  }

  /** A run in which no step is a refused commit. */
  ghost predicate BusyRun(s: State, actions: seq<Action>, t: State)
    decreases |actions|
  {
    if actions == [] then s == t
    else
      && Enabled(s, actions[0]) && !IsRefusal(s, actions[0])
      && BusyRun(Apply(s, actions[0]), actions[1..], t)
  }

  lemma {:induction false} BusyRunSpends(s: State, actions: seq<Action>, t: State)
    requires Inv(s) && s.stopped && BusyRun(s, actions, t)
    ensures |actions| + Potential(t) <= Potential(s)
    ensures Inv(t) && t.stopped
    decreases |actions|
  {
    hide Inv, Enabled, Apply, Potential, IsRefusal;
    if actions != [] {
      InvStep(s, actions[0]);
      PotentialDecreases(s, actions[0]);
      BusyRunSpends(Apply(s, actions[0]), actions[1..], t);
    }
  }

  /**
   * Shutdown terminates under every schedule: from any reachable stopped state there are at most
   * `Potential(s)` further steps, refused commits aside. `ShutdownNotStuck` says the last of them
   * is the return of the destructor.
   */
  lemma ShutdownTerminates(s: State, actions: seq<Action>, t: State)
    requires Reachable(s) && s.stopped && BusyRun(s, actions, t)
    ensures |actions| <= Potential(s)
  {
    hide Inv, Reachable, BusyRun, Potential;
    ReachableInv(s);
    BusyRunSpends(s, actions, t);
    PotentialNonNegative(t);
  }

  lemma PotentialNonNegative(s: State)
    requires Inv(s)
    ensures Potential(s) >= 0
  {}

  /** Whoever has the mutex can move. */
  lemma OwnerMoves(s: State) returns (a: Action)
    requires Inv(s) && s.lock.Some?
    ensures Enabled(s, a) && !IsRefusal(s, a) && !(a.WorkerStep? && s.workers[a.w] == Blocked)
    ensures a.ClientStep? ==> s.clients[a.c] == Enqueueing
    ensures !a.ConstructorStep? && (a.DestructorStep? ==> s.stopped)
  {
    hide IdleInv, WakeInv, QueueInv, TaskInv, CoverInv, BegunInv, LateInv, CountInv, JoinInv;
    match s.lock.value
    case ByWorker(w) => a := WorkerStep(w);
    case ByClient(c) => a := ClientStep(c, None);
    case ByDestructor => a := DestructorStep;
  }

  lemma StoppedMoves(s: State) returns (a: Action)
    requires Inv(s) && s.stopped && s.destructor != Dead
    ensures Enabled(s, a) && !IsRefusal(s, a) && !(a.WorkerStep? && s.workers[a.w] == Blocked)
    ensures a.ClientStep? ==> s.clients[a.c] == Enqueueing
  {
    hide IdleInv, QueueInv, TaskInv, CoverInv, BegunInv, LateInv, CountInv, SignalInv;
    if s.lock.Some? {
      a := OwnerMoves(s);
    } else if w :| 0 <= w < |s.workers| && s.workers[w] != Exited && s.workers[w] != Blocked {
      a := WorkerStep(w);
    } else {
      a := DestructorStep;
    }
  }

  /** Until the destructor has returned, some step other than a spurious wake-up is possible. */
  lemma ShutdownNotStuck(s: State) returns (a: Action)
    requires Reachable(s) && s.stopped && s.destructor != Dead
    ensures Enabled(s, a) && !IsRefusal(s, a) && !(a.WorkerStep? && s.workers[a.w] == Blocked)
  {
    hide Inv, Reachable, Enabled, IsRefusal;
    ReachableInv(s);
    a := StoppedMoves(s);
  }

  /** With a task queued in a running pool, some worker or client can move without help from outside. */
  lemma WorkNotStuck(s: State) returns (a: Action)
    requires Reachable(s) && !s.stopped && s.queue != []
    ensures Enabled(s, a) && (a.WorkerStep? || a.ClientStep?)
    ensures !IsRefusal(s, a) && !(a.WorkerStep? && s.workers[a.w] == Blocked)
  {
    hide IdleInv, QueueInv, TaskInv, CoverInv, BegunInv, LateInv, CountInv, JoinInv, Reachable;
    ReachableInv(s);
    if s.lock.Some? {
      a := OwnerMoves(s);
    } else if w :| Awake(s, w) {
      a := WorkerStep(w);
    } else {
      var c :| OwesNotify(s, c);
      assert !Awake(s, 0) && |s.workers| > 0;
      a := ClientStep(c, Some(0));
    }
  }

  // ----- progress while the pool runs

  function WorkRank(pc: WorkerPc): nat {
    match pc
    case Blocked => 0
    case PreWait => 1
    case Take => 1
    case Evaluate => 2
    case Acquire => 3
    case Check => 4
    case Returned => 5
    case Running(_) => 6
    case Popped(_) => 7
    case Exited => 0
    case Crashed => 0
  }

  function CommitRank(pc: ClientPc): nat {
    match pc
    case Outside => 0
    case Enqueued => 4
    case Enqueueing => 15
    case Admitted => 16
  }

  /** Steps that are left if no new commit arrives and nobody wakes up without reason. */
  function WorkLeft(s: State): nat {
    10 * |s.queue| + Total(s.workers, WorkRank) + Total(s.clients, CommitRank)
  }

  /** A client enters commit. */
  predicate IsNewCommit(s: State, a: Action) {
    a.ClientStep? && a.c < |s.clients| && s.clients[a.c] == Outside
  }

  /** A worker wakes up without a notification. */
  predicate IsSpurious(s: State, a: Action) {
    a.WorkerStep? && a.w < |s.workers| && s.workers[a.w] == Blocked
  }

  /** Steps by which threads and clients carry on with what they have begun. */
  predicate IsWork(s: State, a: Action) {
    (a.WorkerStep? || a.ClientStep?) && !IsNewCommit(s, a) && !IsSpurious(s, a)
  }

  /** What a step that is no work may add: a commit brings a task, a spurious wake-up another look at the queue. */
  function Allowance(s: State, a: Action): nat {
    if IsNewCommit(s, a) then 17 else if IsSpurious(s, a) then 4 else 0
  }

  lemma WorkerSpends(s: State, w: nat)
    requires StopInv(s) && !s.stopped && WorkerEnabled(s, w)
    ensures var s' := ApplyWorker(s, w);
            && s'.clients == s.clients && s'.stopped == s.stopped && s'.built == s.built
            && s'.workers == s.workers[w := s'.workers[w]]
            && 1 + 10 * |s'.queue| + WorkRank(s'.workers[w])
               <= 10 * |s.queue| + WorkRank(s.workers[w]) + (if s.workers[w] == Blocked then 4 else 0)
  {}

  lemma ClientSpends(s: State, c: nat, woken: Option<nat>)
    requires !s.stopped && ClientEnabled(s, c, woken)
    ensures var s' := ApplyClient(s, c, woken);
            && 1 + WorkLeft(s') <= WorkLeft(s) + (if s.clients[c] == Outside then 17 else 0)
            && s'.stopped == s.stopped && s'.built == s.built
  {
    hide Total;
    var s' := ApplyClient(s, c, woken);
    TotalUpdate(s.clients, c, s'.clients[c], CommitRank);
    if s.clients[c] == Enqueued && woken.Some? {
      TotalUpdate(s.workers, woken.value, Acquire, WorkRank);
    }
  }

  /** In a running pool every step of a thread or client uses up work, its allowance aside. */
  lemma RunningStepSpends(s: State, a: Action)
    requires Inv(s) && s.built && !s.stopped && Enabled(s, a) && !a.DestructorStep?
    ensures 1 + WorkLeft(Apply(s, a)) <= WorkLeft(s) + Allowance(s, a)
    ensures IsWork(s, a) ==> WorkLeft(Apply(s, a)) < WorkLeft(s)
    ensures Apply(s, a).built && !Apply(s, a).stopped
  {
    hide LockInv, BuildInv, IdleInv, WakeInv, SignalInv, QueueInv, TaskInv, CoverInv, BegunInv, LateInv, CountInv, JoinInv;
    hide ApplyWorker, ApplyClient, Total, WorkRank, CommitRank;
    if a.WorkerStep? {
      WorkerSpends(s, a.w);
      TotalUpdate(s.workers, a.w, ApplyWorker(s, a.w).workers[a.w], WorkRank);
    } else {
      hide WorkLeft;
      ClientSpends(s, a.c, a.woken);
    }
  }

  lemma StopStays(s: State, a: Action)
    requires Enabled(s, a)
    ensures s.stopped || (a.DestructorStep? && s.destructor == Alive) ==> Apply(s, a).stopped
    ensures s.built ==> Apply(s, a).built
  {}

  lemma {:induction false} StoppedRun(s: State, actions: seq<Action>, t: State)
    requires Run(s, actions, t) && s.stopped
    ensures t.stopped
    decreases |actions|
  {
    hide Enabled, Apply;
    if actions != [] {
      StopStays(s, actions[0]);
      StoppedRun(Apply(s, actions[0]), actions[1..], t);
    }
  }

  /** The allowances of all steps of a run. */
  function Allowances(s: State, actions: seq<Action>): nat
    decreases |actions|
  {
    if actions == [] || !Enabled(s, actions[0]) then 0
    else Allowance(s, actions[0]) + Allowances(Apply(s, actions[0]), actions[1..])
  }

  /**
   * While the pool runs it cannot go round in circles: the length of every run is bounded by the work at
   * its beginning, 17 steps for each new commit and 4 for each spurious wake-up.
   */
  lemma {:induction false} RunningIsBounded(s: State, actions: seq<Action>, t: State)
    requires Inv(s) && s.built && Run(s, actions, t) && !t.stopped
    ensures |actions| + WorkLeft(t) <= WorkLeft(s) + Allowances(s, actions)
    decreases |actions|
  {
    hide Inv, Enabled, Apply, WorkLeft, Allowance;
    if s.stopped {
      StoppedRun(s, actions, t);
    } else if actions != [] {
      var a := actions[0];
      StopStays(s, a);
      if a.DestructorStep? {
        AliveUntilStopped(s);
        StoppedRun(Apply(s, a), actions[1..], t);
      } else {
        InvStep(s, a);
        RunningStepSpends(s, a);
        RunningIsBounded(Apply(s, a), actions[1..], t);
      }
    }
  }

  lemma AliveUntilStopped(s: State)
    requires Inv(s) && !s.stopped
    ensures s.destructor == Alive
  {}

  /** No thread and no client can carry on. */
  ghost predicate AtRest(s: State) {
    forall a :: Enabled(s, a) ==> !IsWork(s, a)
  }

  lemma RestFacts(s: State)
    requires Inv(s) && s.built && !s.stopped && AtRest(s)
    ensures forall w :: 0 <= w < |s.workers| ==> s.workers[w] == Blocked
    ensures forall c :: 0 <= c < |s.clients| ==> s.clients[c] == Outside
    ensures |s.workers| > 0
  {
    hide IdleInv, WakeInv, SignalInv, QueueInv, TaskInv, CoverInv, BegunInv, LateInv, CountInv, JoinInv;
    if s.lock.Some? {
      var a := OwnerMoves(s);
    }
    forall w | 0 <= w < |s.workers| ensures s.workers[w] == Blocked {
      assert !(Enabled(s, WorkerStep(w)) && IsWork(s, WorkerStep(w)));
    }
    forall c | 0 <= c < |s.clients| ensures s.clients[c] == Outside {
      var a := ClientStep(c, Some(0));
      assert !(Enabled(s, a) && IsWork(s, a));
    }
  }

  /** When a running pool comes to rest, the queue is empty and every accepted task has finished. */
  lemma RestMeansFinished(s: State)
    requires Reachable(s) && s.built && !s.stopped && AtRest(s)
    ensures s.queue == [] && |s.finished| == s.accepted
    ensures forall k: nat :: k < s.accepted <==> k in s.finished
  {
    hide Reachable, AtRest;
    ReachableInv(s);
    RestFacts(s);
    IdleAtRest(s);
  }

  lemma IdleAtRest(s: State)
    requires Inv(s) && !s.stopped && |s.workers| > 0
    requires forall w :: 0 <= w < |s.workers| ==> s.workers[w] == Blocked
    requires forall c :: 0 <= c < |s.clients| ==> s.clients[c] == Outside
    ensures s.queue == [] && |s.finished| == s.accepted
    ensures forall k: nat :: k < s.accepted <==> k in s.finished
  {
    hide LockInv, BuildInv, IdleInv, StopInv, WakeInv, BegunInv, LateInv, JoinInv;
    CountNone(s.workers, IsHeading);
    CountNone(s.workers, HasTask);
    NoneOwes(s.clients);
    assert s.workers[0] in s.workers;
    forall k: nat | k < s.accepted ensures k in s.finished {
      assert forall w :: !HeldBy(s, w, k);
    }
  }

  lemma {:induction false} NoneOwes(clients: seq<ClientPc>)
    requires forall c :: 0 <= c < |clients| ==> clients[c] == Outside
    ensures Total(clients, Owes) == 0
  {
    if clients != [] {
      NoneOwes(clients[1..]);
    }
  }

  /** A run in which every step is work. */
  ghost predicate WorkRun(s: State, actions: seq<Action>, t: State)
    decreases |actions|
  {
    if actions == [] then s == t
    else Enabled(s, actions[0]) && IsWork(s, actions[0]) && WorkRun(Apply(s, actions[0]), actions[1..], t)
  }

  lemma {:induction false} WorkRunSpends(s: State, actions: seq<Action>, t: State)
    requires Inv(s) && s.built && !s.stopped && WorkRun(s, actions, t)
    ensures |actions| + WorkLeft(t) <= WorkLeft(s) && Inv(t) && t.built && !t.stopped
    decreases |actions|
  {
    hide Inv, Enabled, Apply, WorkLeft, IsWork;
    if actions != [] {
      NotDestruction(s, actions[0]);
      InvStep(s, actions[0]);
      RunningStepSpends(s, actions[0]);
      WorkRunSpends(Apply(s, actions[0]), actions[1..], t);
    }
  }

  lemma NotDestruction(s: State, a: Action)
    requires IsWork(s, a)
    ensures !a.DestructorStep?
  {}

  lemma {:induction false} WorkRunIsRun(s: State, actions: seq<Action>, t: State)
    requires WorkRun(s, actions, t)
    ensures Run(s, actions, t)
    decreases |actions|
  {
    hide Enabled, Apply, IsWork;
    if actions != [] {
      WorkRunIsRun(Apply(s, actions[0]), actions[1..], t);
    }
  }

  /**
   * Progress of a running pool under every schedule: left to itself it stops after at most `WorkLeft(s)`
   * steps, and where it cannot go on every accepted task has finished.
   */
  lemma EveryTaskRuns(s: State, actions: seq<Action>, t: State)
    requires Reachable(s) && s.built && !s.stopped && WorkRun(s, actions, t)
    ensures |actions| <= WorkLeft(s)
    ensures AtRest(t) ==> t.queue == [] && forall k: nat :: k < t.accepted <==> k in t.finished
  {
    hide Inv, Reachable, WorkRun, WorkLeft, AtRest;
    ReachableInv(s);
    WorkRunSpends(s, actions, t);
    if AtRest(t) {
      RestFacts(t);
      IdleAtRest(t);
    }
  }

  /** As long as an accepted task has not finished, some thread or client can carry on. */
  lemma UnfinishedMeansWork(s: State, k: nat) returns (a: Action)
    requires Reachable(s) && s.built && !s.stopped && k < s.accepted && k !in s.finished
    ensures Enabled(s, a) && IsWork(s, a)
  {
    hide Reachable, Enabled, IsWork;
    if AtRest(s) {
      RestMeansFinished(s);
    }
    a :| Enabled(s, a) && IsWork(s, a);
  }

  lemma DeadFacts(s: State)
    requires Inv(s) && s.destructor == Dead
    ensures forall w :: 0 <= w < |s.workers| ==> s.workers[w] == Exited
    ensures forall t: nat :: t < Dequeued(s) <==> t in s.finished
    ensures |s.finished| == Dequeued(s) && s.idle == PoolSize(s.size)
  {
    hide LockInv, BuildInv, StopInv, WakeInv, BegunInv, LateInv;
    CountNone(s.workers, HasTask);
    CountNone(s.workers, IsBusy);
    forall t: nat | t < Dequeued(s) ensures t in s.finished {
      assert forall w :: !HeldBy(s, w, t);
    }
  }

  /** When the joins have returned, every thread is gone and every dequeued task has run once and finished. */
  lemma JoinedMeansFinished(s: State)
    requires Reachable(s) && s.destructor == Dead
    ensures forall w :: 0 <= w < |s.workers| ==> s.workers[w] == Exited
    ensures forall t: nat :: t < Dequeued(s) <==> t in s.finished
    ensures |s.finished| == Dequeued(s) && s.idle == PoolSize(s.size)
    ensures forall i, j :: 0 <= i < j < |s.begun| ==> s.begun[i] != s.begun[j]
  {
    hide Reachable;
    ReachableInv(s);
    DeadFacts(s);
  }

  // ----- which accepted tasks run when the pool is stopped

  function Sum(xs: seq<nat>): nat {
    if xs == [] then 0 else xs[0] + Sum(xs[1..])
  }

  lemma SumUpdate(xs: seq<nat>, i: nat, x: nat)
    requires i < |xs|
    ensures Sum(xs[i := x]) == Sum(xs) - xs[i] + x
  {
    if i > 0 {
      assert xs[i := x][1..] == xs[1..][i - 1 := x];
      SumUpdate(xs[1..], i - 1, x);
    } else {
      assert xs[0 := x][1..] == xs[1..];
    }
  }

  lemma SumOfOnes(xs: seq<nat>)
    requires forall i :: 0 <= i < |xs| ==> xs[i] <= 1
    ensures Sum(xs) <= |xs|
  {}

  lemma LateWorkerCounts(s: State, w: nat)
    requires s.stopped && |s.late| == |s.workers| && WorkerEnabled(s, w)
    ensures var s' := ApplyWorker(s, w);
            && |s'.workers| == |s.workers|
            && (|| (Dequeued(s') == Dequeued(s) && s'.late == s.late)
                || (Dequeued(s') == Dequeued(s) + 1 && s'.late == s.late[w := s.late[w] + 1]))
  {}

  lemma LateOtherSame(s: State, a: Action)
    requires s.built && Enabled(s, a) && !a.WorkerStep?
    ensures var s' := Apply(s, a);
            Dequeued(s') == Dequeued(s) && s'.late == s.late && |s'.workers| == |s.workers|
  {
    hide ApplyWorker, WorkerEnabled;
  }

  /** Tasks dequeued since the stop flag was set are what the late counters add up to. */
  lemma LateCounts(s: State, a: Action)
    requires s.stopped && s.built && |s.late| == |s.workers| && Enabled(s, a)
    ensures var s' := Apply(s, a);
            Dequeued(s') - Sum(s'.late) == Dequeued(s) - Sum(s.late) && |s'.workers| == |s.workers|
  {
    if a.WorkerStep? {
      hide ApplyWorker, Dequeued;
      LateWorkerCounts(s, a.w);
      SumUpdate(s.late, a.w, s.late[a.w] + 1);
    } else {
      hide Apply, Enabled, Dequeued;
      LateOtherSame(s, a);
    }
  }

  lemma {:induction false} LateRun(s: State, actions: seq<Action>, t: State)
    requires Inv(s) && s.stopped && Run(s, actions, t)
    ensures Inv(t) && t.stopped && |t.workers| == |s.workers|
    ensures Dequeued(t) - Sum(t.late) == Dequeued(s) - Sum(s.late)
    decreases |actions|
  {
    hide Inv, Enabled, Apply, Dequeued;
    if actions != [] {
      InvStep(s, actions[0]);
      PotentialDecreases(s, actions[0]);
      StoppedFacts(s);
      LateCounts(s, actions[0]);
      LateRun(Apply(s, actions[0]), actions[1..], t);
    }
  }

  lemma StoppedFacts(s: State)
    requires Inv(s) && s.stopped
    ensures s.built && |s.late| == |s.workers| == PoolSize(s.size)
    ensures Sum(s.late) <= PoolSize(s.size)
  {
    hide LockInv, IdleInv, WakeInv, QueueInv, TaskInv, CoverInv, BegunInv, CountInv, JoinInv;
    SumOfOnes(s.late);
  }

  /** Setting the flag starts the late counters at zero. */
  lemma StopFacts(s: State)
    requires Inv(s) && s.destructor == Alive && s.built
    ensures var s' := Apply(s, DestructorStep);
            && Enabled(s, DestructorStep) && s'.stopped && s'.size == s.size
            && Dequeued(s') == Dequeued(s) && |s'.workers| == PoolSize(s.size) && Sum(s'.late) == 0
            && s'.accepted == s.accepted && s'.queue == s.queue && s'.clients == s.clients
  {
    hide LockInv, IdleInv, WakeInv, QueueInv, TaskInv, CoverInv, BegunInv, CountInv, JoinInv;
    SumOfZeros(s.late);
  }

  /**
   * From the moment the stop flag is set, at most one task per thread is still dequeued, whatever
   * the schedule; tasks queued beyond the threads that look for one are accepted but never run.
   */
  lemma StopAbandonsSurplus(s: State, actions: seq<Action>, t: State)
    requires Reachable(s) && s.destructor == Alive && s.built
    requires Run(Apply(s, DestructorStep), actions, t)
    ensures Dequeued(t) <= Dequeued(s) + PoolSize(s.size)
    ensures t.destructor == Dead && |s.queue| > Count(s.workers, IsSeeker) ==> |t.finished| < s.accepted
  {
    hide Inv, Reachable, Run, Apply, Enabled;
    ReachableInv(s);
    StopFacts(s);
    InvStep(s, DestructorStep);
    LateRun(Apply(s, DestructorStep), actions, t);
    StoppedFacts(t);
    if t.destructor == Dead {
      FinishedAfterShutdown(s, actions, t);
    }
  }

  // ----- exactly how many tasks finish

  /** Workers that will look at the queue once more after the stop flag is set. */
  predicate IsSeeker(pc: WorkerPc) {
    pc == Acquire || pc == Evaluate || pc == PreWait || pc == Blocked || pc == Take
  }

  function Waits(pc: ClientPc): nat {
    if pc == Admitted then 1 else 0
  }

  /** One when a client has the mutex and is about to enqueue. */
  function Entering(s: State): nat {
    if s.lock.Some? && s.lock.value.ByClient? then 1 else 0
  }

  /** Tasks in the queue or in the hands of a client with the mutex. */
  function Landing(s: State): nat {
    |s.queue| + Entering(s)
  }

  function Min(a: int, b: int): int {
    if a <= b then a else b
  }

  /** Tasks that finish whatever clients without the mutex do: those dequeued, and one for each seeker. */
  function Sure(s: State): int {
    Dequeued(s) + Min(Landing(s), Count(s.workers, IsSeeker))
  }

  /** Tasks that finish if every admitted client gets the mutex in time. */
  function Possible(s: State): int {
    Dequeued(s) + Min(Landing(s) + Total(s.clients, Waits), Count(s.workers, IsSeeker))
  }

  lemma SeekWorker(s: State, w: nat)
    requires LockInv(s) && s.stopped && WorkerEnabled(s, w)
    ensures var s' := ApplyWorker(s, w); Sure(s) == Sure(s') && Possible(s') <= Possible(s)
  {
    hide Count, Total;
    CountUpdate(s.workers, w, ApplyWorker(s, w).workers[w], IsSeeker);
  }

  lemma SeekClient(s: State, c: nat, woken: Option<nat>)
    requires LockInv(s) && s.stopped && ClientEnabled(s, c, woken)
    ensures var s' := ApplyClient(s, c, woken); Sure(s) <= Sure(s') && Possible(s') == Possible(s)
  {
    hide Count, Total;
    var s' := ApplyClient(s, c, woken);
    TotalUpdate(s.clients, c, s'.clients[c], Waits);
    if s.clients[c] == Enqueued && woken.Some? {
      CountUpdate(s.workers, woken.value, Acquire, IsSeeker);
    }
  }

  lemma SeekDestructor(s: State)
    requires LockInv(s) && DestructorEnabled(s)
    ensures var s' := ApplyDestructor(s); Sure(s) == Sure(s') && Possible(s') == Possible(s)
  {
    var s' := ApplyDestructor(s);
    CountSame(s.workers, s'.workers, IsSeeker);
    hide Count, Total;
  }

  /** After the stop flag no step takes a sure task away, and none makes more tasks possible. */
  lemma SeekStep(s: State, a: Action)
    requires Inv(s) && s.stopped && Enabled(s, a)
    ensures Sure(s) <= Sure(Apply(s, a)) && Possible(Apply(s, a)) <= Possible(s)
  {
    StoppedFacts(s);
    hide IdleInv, WakeInv, SignalInv, StopInv, BuildInv, QueueInv, TaskInv, CoverInv, BegunInv, LateInv, CountInv, JoinInv;
    hide LockInv, Sure, Possible, ApplyWorker, WorkerEnabled, ApplyClient, ClientEnabled, ApplyDestructor, DestructorEnabled;
    match a
    case WorkerStep(w) => SeekWorker(s, w);
    case ClientStep(c, woken) => SeekClient(s, c, woken);
    case DestructorStep => SeekDestructor(s);
    case ConstructorStep =>
  }

  lemma {:induction false} SeekRun(s: State, actions: seq<Action>, t: State)
    requires Inv(s) && s.stopped && Run(s, actions, t)
    ensures Inv(t) && t.stopped && Sure(s) <= Sure(t) && Possible(t) <= Possible(s)
    decreases |actions|
  {
    hide Inv, Enabled, Apply, Sure, Possible;
    if actions != [] {
      InvStep(s, actions[0]);
      PotentialDecreases(s, actions[0]);
      SeekStep(s, actions[0]);
      SeekRun(Apply(s, actions[0]), actions[1..], t);
    }
  }

  /** No client is past the stop flag without the mutex, nor will one be in the way of the destructor again. */
  predicate Settled(s: State) {
    && s.stopped && s.built
    && (forall c :: 0 <= c < |s.clients| ==> s.clients[c] != Admitted)
    && (s.destructor != Stopping ==> Entering(s) == 0)
  }

  lemma SettledWorker(s: State, w: nat)
    requires LockInv(s) && WorkerEnabled(s, w)
    ensures var s' := ApplyWorker(s, w);
            && s'.clients == s.clients && s'.destructor == s.destructor && s'.stopped == s.stopped && s'.built == s.built
            && s'.accepted == s.accepted && Entering(s') == Entering(s)
  {}

  lemma SettledStep(s: State, a: Action)
    requires Settled(s) && LockInv(s) && s.destructor != Alive && Enabled(s, a)
    ensures var s' := Apply(s, a);
            Settled(s') && s'.destructor != Alive && s'.accepted + Entering(s') == s.accepted + Entering(s)
  {
    hide ApplyWorker, HasTask;
    if a.WorkerStep? {
      SettledWorker(s, a.w);
    }
  }

  lemma {:induction false} SettledRun(s: State, actions: seq<Action>, t: State)
    requires Settled(s) && Inv(s) && s.destructor != Alive && Run(s, actions, t)
    ensures Settled(t) && t.accepted + Entering(t) == s.accepted + Entering(s)
    decreases |actions|
  {
    hide Enabled, Apply, Settled, Run, Entering;
    hide BuildInv, IdleInv, StopInv, WakeInv, SignalInv, QueueInv, TaskInv, CoverInv, BegunInv, LateInv, CountInv, JoinInv;
    FirstStep(s, actions, t);
    if actions != [] {
      InvStep(s, actions[0]);
      SettledStep(s, actions[0]);
      SettledRun(Apply(s, actions[0]), actions[1..], t);
    }
  }

  lemma FirstStep(s: State, actions: seq<Action>, t: State)
    requires Run(s, actions, t)
    ensures actions == [] ==> s == t
    ensures actions != [] ==> Enabled(s, actions[0]) && Run(Apply(s, actions[0]), actions[1..], t)
  {}

  /** Setting the flag changes none of the counts. */
  lemma StopKeepsCounts(s: State)
    requires Inv(s) && s.destructor == Alive && s.built
    ensures Enabled(s, DestructorStep)
    ensures var s' := Apply(s, DestructorStep);
            Sure(s') == Sure(s) && Possible(s') == Possible(s) && s'.accepted + Entering(s') == s.accepted + Entering(s)
    ensures (forall c :: 0 <= c < |s.clients| ==> s.clients[c] != Admitted) ==> Settled(Apply(s, DestructorStep))
    ensures Apply(s, DestructorStep).destructor == Stopping
  {
    hide LockInv, IdleInv, WakeInv, SignalInv, QueueInv, TaskInv, CoverInv, BegunInv, LateInv, CountInv, JoinInv;
  }

  lemma {:induction false} NoneWaits(clients: seq<ClientPc>)
    requires forall c :: 0 <= c < |clients| ==> clients[c] != Admitted
    ensures Total(clients, Waits) == 0
  {
    if clients != [] {
      NoneWaits(clients[1..]);
    }
  }

  lemma DeadCounts(t: State)
    requires Inv(t) && t.destructor == Dead
    ensures Sure(t) == Possible(t) == Dequeued(t)
  {
    hide LockInv, BuildInv, IdleInv, StopInv, WakeInv, SignalInv, QueueInv, TaskInv, CoverInv, BegunInv, LateInv, CountInv;
    CountNone(t.workers, IsSeeker);
  }

  /**
   * What has finished when the destructor returns, over every run. At the stop flag each worker that
   * still looks for a task gets one as long as tasks last. Clients already admitted may add to that;
   * without them the number is fixed, and no accepted task is lost if and only if there are at least as
   * many such workers as tasks landing in the queue.
   */
  lemma FinishedAfterShutdown(s: State, actions: seq<Action>, t: State)
    requires Reachable(s) && s.destructor == Alive && s.built
    requires Run(Apply(s, DestructorStep), actions, t) && t.destructor == Dead
    ensures Sure(s) <= |t.finished| <= Possible(s)
    ensures forall k: nat :: k in t.finished <==> k < |t.finished|
    ensures (forall c :: 0 <= c < |s.clients| ==> s.clients[c] != Admitted) ==>
              && |t.finished| == Sure(s) && t.accepted == Dequeued(s) + Landing(s)
              && (|t.finished| == t.accepted <==> Landing(s) <= Count(s.workers, IsSeeker))
  {
    hide Inv, Reachable, Run, Apply, Enabled, Count, Total, Entering;
    ReachableInv(s);
    StopKeepsCounts(s);
    var s' := Apply(s, DestructorStep);
    StopFacts(s);
    InvStep(s, DestructorStep);
    SeekRun(s', actions, t);
    DeadFacts(t);
    DeadCounts(t);
    if forall c :: 0 <= c < |s.clients| ==> s.clients[c] != Admitted {
      NoneWaits(s.clients);
      SettledRun(s', actions, t);
    }
  }

  /** In particular an empty queue and no commit under way lose nothing. */
  lemma CleanShutdown(s: State, actions: seq<Action>, t: State)
    requires Reachable(s) && s.destructor == Alive && s.built && s.queue == []
    requires forall c :: 0 <= c < |s.clients| ==> s.clients[c] == Outside
    requires Run(Apply(s, DestructorStep), actions, t) && t.destructor == Dead
    ensures t.accepted == s.accepted && |t.finished| == s.accepted
    ensures forall k: nat :: k < s.accepted ==> k in t.finished
  {
    hide Reachable, Run, Apply, Enabled, Count;
    hide BuildInv, IdleInv, StopInv, WakeInv, SignalInv, QueueInv, TaskInv, CoverInv, BegunInv, LateInv, CountInv, JoinInv;
    ReachableInv(s);
    FinishedAfterShutdown(s, actions, t);
    NobodyEnters(s);
  }

  lemma NobodyEnters(s: State)
    requires LockInv(s) && forall c :: 0 <= c < |s.clients| ==> s.clients[c] == Outside
    ensures Entering(s) == 0
  {}

  // ----- an admitted client can always lose its task

  lemma {:induction false} RunAppend(s: State, actions: seq<Action>, t: State, a: Action)
    requires Run(s, actions, t) && Enabled(t, a)
    ensures Run(s, actions + [a], Apply(t, a))
    decreases |actions|
  {
    hide Enabled, Apply;
    if actions != [] {
      assert (actions + [a])[1..] == actions[1..] + [a];
      RunAppend(Apply(s, actions[0]), actions[1..], t, a);
    } else {
      assert [a][1..] == [];
    }
  }

  lemma OthersKeep(s: State, a: Action, c: nat)
    requires Enabled(s, a) && c < |s.clients| && !(a.ClientStep? && a.c == c)
    ensures |Apply(s, a).clients| == |s.clients| && Apply(s, a).clients[c] == s.clients[c]
  {
    hide HasTask;
  }

  /** The destructor can return without another step of a client that waits for the mutex. */
  lemma {:induction false} FinishWithout(s: State, c: nat) returns (actions: seq<Action>, t: State)
    requires Inv(s) && s.stopped && c < |s.clients| && s.clients[c] == Admitted
    ensures Run(s, actions, t) && Inv(t) && t.stopped && t.destructor == Dead
    ensures c < |t.clients| && t.clients[c] == Admitted
    decreases Potential(s)
  {
    hide Inv, Enabled, Apply, Potential, IsRefusal;
    if s.destructor == Dead {
      return [], s;
    }
    PotentialNonNegative(s);
    var a := StoppedMoves(s);
    InvStep(s, a);
    PotentialDecreases(s, a);
    OthersKeep(s, a, c);
    PotentialNonNegative(Apply(s, a));
    var rest;
    rest, t := FinishWithout(Apply(s, a), c);
    Prepend(s, a, rest, t);
    actions := [a] + rest;
  }

  /** After the joins only clients are left, so whoever has the mutex gives it back with one step. */
  lemma FreeLock(s: State, actions: seq<Action>, t: State, c: nat) returns (actions': seq<Action>, t': State)
    requires Inv(t) && t.stopped && t.destructor == Dead && Run(s, actions, t) && c < |t.clients| && t.clients[c] == Admitted
    ensures Run(s, actions', t') && Inv(t') && t'.destructor == Dead && t'.lock.None? && t'.built
    ensures c < |t'.clients| && t'.clients[c] == Admitted
  {
    hide Run;
    StoppedFacts(t);
    if t.lock.None? {
      return actions, t;
    }
    var owner := t.lock.value;
    assert owner.ByClient? && t.clients[owner.c] == Enqueueing by {
      hide BuildInv, IdleInv, StopInv, WakeInv, SignalInv, QueueInv, TaskInv, CoverInv, BegunInv, LateInv, CountInv;
    }
    hide Inv;
    var a := ClientStep(owner.c, None);
    InvStep(t, a);
    RunAppend(s, actions, t, a);
    actions', t' := actions + [a], Apply(t, a);
  }

  /**
   * A client that has passed the stop flag but has not got the mutex can always lose its task: some run
   * lets the destructor return first, and then the commit succeeds with nobody left to run the task.
   */
  lemma AdmittedTaskCanBeLost(s: State, c: nat) returns (actions: seq<Action>, t: State)
    requires Reachable(s) && s.destructor == Alive && s.built && c < |s.clients| && s.clients[c] == Admitted
    ensures Run(Apply(s, DestructorStep), actions, t) && t.destructor == Dead
    ensures c < |t.clients| && t.clients[c] == Enqueued && forall w :: 0 <= w < |t.workers| ==> t.workers[w] == Exited
    ensures t.accepted > 0 && t.accepted - 1 in t.queue && t.accepted - 1 !in t.finished
  {
    hide Inv, Reachable, Run;
    ReachableInv(s);
    StopFacts(s);
    var s' := Apply(s, DestructorStep);
    InvStep(s, DestructorStep);
    actions, t := FinishWithout(s', c);
    actions, t := FreeLock(s', actions, t, c);
    var a := ClientStep(c, None);
    InvStep(t, a);
    RunAppend(s', actions, t, a);
    actions, t := actions + [a], Apply(t, a);
    InvStep(t, a);
    RunAppend(s', actions, t, a);
    actions, t := actions + [a], Apply(t, a);
    DeadFacts(t);
    LastQueued(t);
  }

  lemma SumOfZeros(xs: seq<nat>)
    requires forall i :: 0 <= i < |xs| ==> xs[i] == 0
    ensures Sum(xs) == 0
  {}

  lemma Prepend(s: State, a: Action, rest: seq<Action>, t: State)
    requires Enabled(s, a) && Run(Apply(s, a), rest, t)
    ensures Run(s, [a] + rest, t)
  {
    assert ([a] + rest)[1..] == rest;
  }

  /**
   * Acceptance alone is no promise: here the pool is destroyed right after a commit has returned, and
   * its only thread sees the stop flag before it looks at the queue.
   */
  lemma AcceptedTaskAbandoned() returns (t: State)
    ensures Reachable(t) && t.destructor == Dead && t.accepted == 1 && t.finished == {}
  {
    hide Run, Reachable;
    var base := State(1, true, [Check], [Outside], Alive, false, None, [], 1, 0, [], {}, [0]);
    var committed := base.(queue := [0], accepted := 1);
    t := committed.(workers := [Exited], destructor := Dead, stopped := true);
    var destroy := AbandonedShutdown(committed, t);
    var commit := Committed(base, committed, destroy, t);
    var build := Constructed(base, commit, t);
    ReachedBy(1, 1, build, t);
  }

  lemma ReachedBy(size: nat, clients: nat, actions: seq<Action>, t: State)
    requires Run(Init(size, clients), actions, t)
    ensures Reachable(t)
  {}

  lemma Constructed(base: State, rest: seq<Action>, t: State) returns (actions: seq<Action>)
    requires base == State(1, true, [Check], [Outside], Alive, false, None, [], 1, 0, [], {}, [0])
    requires Run(base, rest, t)
    ensures Run(Init(1, 1), actions, t)
  {
    var s0 := Init(1, 1);
    var s1 := Apply(s0, ConstructorStep);
    assert Apply(s1, ConstructorStep) == base;
    Prepend(s1, ConstructorStep, rest, t);
    actions := [ConstructorStep] + rest;
    Prepend(s0, ConstructorStep, actions, t);
    actions := [ConstructorStep] + actions;
  }

  lemma Committed(base: State, done: State, rest: seq<Action>, t: State) returns (actions: seq<Action>)
    requires base == State(1, true, [Check], [Outside], Alive, false, None, [], 1, 0, [], {}, [0])
    requires done == base.(queue := [0], accepted := 1) && Run(done, rest, t)
    ensures Run(base, actions, t)
  {
    var a := ClientStep(0, None);
    var s1 := Apply(base, a);
    var s2 := Apply(s1, a);
    var s3 := Apply(s2, a);
    assert Apply(s3, a) == done;
    Prepend(s3, a, rest, t);
    Prepend(s2, a, [a] + rest, t);
    Prepend(s1, a, [a] + ([a] + rest), t);
    Prepend(base, a, [a] + ([a] + ([a] + rest)), t);
    actions := [a] + ([a] + ([a] + ([a] + rest)));
  }

  lemma AbandonedShutdown(s: State, t: State) returns (actions: seq<Action>)
    requires s == State(1, true, [Check], [Outside], Alive, false, None, [0], 1, 1, [], {}, [0])
    requires t == s.(workers := [Exited], destructor := Dead, stopped := true)
    ensures Run(s, actions, t)
  {
    var d := DestructorStep;
    var s1 := Apply(s, d);
    var s2 := Apply(s1, WorkerStep(0));
    var s3 := Apply(s2, d);
    var s4 := Apply(s3, d);
    var s5 := Apply(s4, d);
    var s6 := Apply(s5, d);
    assert Apply(s6, d) == t;
    assert Run(t, [], t);
    Prepend(s6, d, [], t);
    Prepend(s5, d, [d] + [], t);
    Prepend(s4, d, [d] + ([d] + []), t);
    Prepend(s3, d, [d] + ([d] + ([d] + [])), t);
    Prepend(s2, d, [d] + ([d] + ([d] + ([d] + []))), t);
    actions := [d] + ([d] + ([d] + ([d] + ([d] + []))));
    Prepend(s1, WorkerStep(0), actions, t);
    actions := [WorkerStep(0)] + actions;
    Prepend(s, d, actions, t);
    actions := [d] + actions;
  }

  lemma LastQueued(t: State)
    requires Inv(t) && t.queue != []
    ensures t.accepted > 0 && t.accepted - 1 in t.queue && t.accepted - 1 !in t.finished
  {
    assert t.queue[|t.queue| - 1] == t.accepted - 1;
  }
}
