/** The thread pool as a state machine.

    Each label is one atomic step of one thread; `Apply` says what it does to the shared
    state. A critical section is one step, except where another thread can look in between:
    a push or a pull holds the queue mutex over two steps (update the list, then post), and
    thpool_wait holds the count lock while it reads the two counters one after the other.
    thpool_destroy reads the alive count without a lock, so each of its tests is a step.

    Jobs are numbered in the order in which they enter the queue. */
module PoolModel {
  import opened Wrappers
  import opened JobQueue

  /** Where a worker stands in thread_do. */
  datatype Pc =
    | LoopTop                  // about to test the keepalive flag at the head of the loop
    | Enter                    // about to lock the semaphore and test its value
    | Asleep                   // blocked in pthread_cond_wait inside bsem_wait
    | Signalled                // woken, about to lock the semaphore and test it again
    | Woken                    // took the semaphore, about to test the keepalive flag
    | Counting                 // about to add itself to the working count
    | Pulling                  // counted, about to lock the queue
    | Reposting(job: nat)      // holds the queue mutex, has unlinked the job, about to post
    | Holding(found: Option<nat>)  // back from the pull, about to run what it got
    | Ran                      // about to leave the working count
    | Leaving                  // left the loop, about to leave the alive count
    | Exited

  /** Who holds the queue mutex between two steps. */
  datatype Owner = Free | Pusher | Puller(id: nat)

  /** The thread that calls thpool_wait. It holds the count lock in Checking, SawEmpty and
      SawBusy. */
  datatype WaitPc = Outside | Calling | Checking | SawEmpty | SawBusy | WaitAsleep | WaitSignalled

  /** The thread that calls thpool_destroy. It tests the alive count in Polling, without a
      lock, and broadcasts in Posting: workers can leave in between. */
  datatype DestroyPc = NotCalled | Polling | Posting | Clearing | Destroyed

  datatype Pool = Pool(
    workers: seq<Pc>,
    v: nat,
    queue: seq<nat>,
    mutex: Owner,
    working: int,
    alive: int,
    keepalive: bool,
    waiter: WaitPc,
    destroyer: DestroyPc,
    // history: what was pushed, pulled by workers, run to the end, and discarded
    pushed: seq<nat>,
    pulled: seq<nat>,
    finished: seq<nat>,
    discarded: seq<nat>,
    // pushes seen by the current call of thpool_wait, and covered by a returned one
    target: nat,
    settled: nat
  )

  /** The pool right after thpool_init: n workers, each alive. */
  function Init(n: nat): Pool {
    Pool(seq(n, _ => LoopTop), 0, [], Free, 0, n, true, Outside, NotCalled, [], [], [], [], 0, 0)
  }

  datatype Label =
    // any thread inside thpool_add_work
    | PushUpdate
    | PushPost(wake: Option<nat>)
    // worker id
    | TestLoop(id: nat)
    | TakeOrSleep(id: nat)
    | TestWoken(id: nat)
    | CountIn(id: nat)
    | PullUpdate(id: nat)
    | PullPost(id: nat, wake: Option<nat>)
    | RunJob(id: nat)
    | CountOut(id: nat)
    | Leave(id: nat)
    | Spurious(id: nat)
    // the caller of thpool_wait
    | WaitCall
    | WaitLock
    | WaitReadLen
    | WaitReadWorking
    | WaitSleep
    | WaitSpurious
    // the caller of thpool_destroy
    | DestroyCall
    | TestAlive
    | PostAll
    | StartClear
    | ClearPull
    | EndClear

  /** pthread_cond_signal wakes one sleeper, any one, when there is one. */
  predicate MayWake(workers: seq<Pc>, wake: Option<nat>) {
    match wake
    case Some(i) => i < |workers| && workers[i] == Asleep
    case None => Asleep !in workers
  }

  function Wake(workers: seq<Pc>, wake: Option<nat>): (r: seq<Pc>)
    requires MayWake(workers, wake)
    ensures |r| == |workers|
  {
    match wake
    case Some(i) => workers[i := Signalled]
    case None => workers
  }

  /** pthread_cond_broadcast wakes every sleeper. */
  function WakeAll(workers: seq<Pc>): (r: seq<Pc>)
    ensures |r| == |workers|
    ensures forall i :: 0 <= i < |workers| ==>
      r[i] == if workers[i] == Asleep then Signalled else workers[i]
  {
    seq(|workers|, i requires 0 <= i < |workers| => if workers[i] == Asleep then Signalled else workers[i])
  }

  predicate At(s: Pool, id: nat, pc: Pc) {
    id < |s.workers| && s.workers[id] == pc
  }

  predicate CountLockFree(s: Pool) {
    s.waiter !in {Checking, SawEmpty, SawBusy}
  }

  predicate Enabled(s: Pool, l: Label) {
    match l
    // an add must not overlap the cleanup of the queue it adds to
    case PushUpdate => s.mutex == Free && s.destroyer in {NotCalled, Polling, Posting}
    case PushPost(wake) => s.mutex == Pusher && MayWake(s.workers, wake)
    case TestLoop(id) => At(s, id, LoopTop)
    case TakeOrSleep(id) => At(s, id, Enter) || At(s, id, Signalled)
    case TestWoken(id) => At(s, id, Woken)
    case CountIn(id) => At(s, id, Counting) && CountLockFree(s)
    case PullUpdate(id) => At(s, id, Pulling) && s.mutex == Free
    case PullPost(id, wake) => id < |s.workers| && s.workers[id].Reposting? && MayWake(s.workers, wake)
    case RunJob(id) => id < |s.workers| && s.workers[id].Holding?
    case CountOut(id) => At(s, id, Ran) && CountLockFree(s)
    case Leave(id) => At(s, id, Leaving) && CountLockFree(s)
    case Spurious(id) => At(s, id, Asleep)
    case WaitCall => s.waiter == Outside && s.destroyer == NotCalled
    case WaitLock => s.waiter in {Calling, WaitSignalled}
    case WaitReadLen => s.waiter == Checking
    case WaitReadWorking => s.waiter == SawEmpty
    case WaitSleep => s.waiter == SawBusy
    case WaitSpurious => s.waiter == WaitAsleep
    // destroying a pool that is being waited for would free it under the waiter
    case DestroyCall => s.destroyer == NotCalled && s.waiter == Outside
    case TestAlive => s.destroyer == Polling && s.alive != 0
    case PostAll => s.destroyer == Posting
    case StartClear => s.destroyer == Polling && s.alive == 0
    case ClearPull => s.destroyer == Clearing && s.queue != [] && s.mutex == Free
    case EndClear => s.destroyer == Clearing && s.queue == [] && s.mutex == Free
  }

  function SetPc(s: Pool, id: nat, pc: Pc): Pool
    requires id < |s.workers|
  {
    s.(workers := s.workers[id := pc])
  }

  /** The condition signal sent by a worker that brings the working count to zero. */
  function SignalWaiter(w: WaitPc): WaitPc {
    if w == WaitAsleep then WaitSignalled else w
  }

  function Apply(s: Pool, l: Label): Pool
    requires Enabled(s, l)
  {
    match l
    case PushUpdate =>
      var job := |s.pushed|;
      s.(queue := Enqueue(s.queue, job), pushed := s.pushed + [job], mutex := Pusher)
    case PushPost(wake) =>
      s.(v := 1, workers := Wake(s.workers, wake), mutex := Free)
    case TestLoop(id) =>
      SetPc(s, id, if s.keepalive then Enter else Leaving)
    case TakeOrSleep(id) =>
      if s.v == 1 then SetPc(s, id, Woken).(v := 0) else SetPc(s, id, Asleep)
    case TestWoken(id) =>
      SetPc(s, id, if s.keepalive then Counting else LoopTop)
    case CountIn(id) =>
      SetPc(s, id, Pulling).(working := s.working + 1)
    case PullUpdate(id) =>
      (match Front(s.queue)
       case None => SetPc(s, id, Holding(None))
       case Some(job) =>
         var s' := s.(queue := Dequeue(s.queue), pulled := s.pulled + [job]);
         if MustRepost(s.queue) then SetPc(s', id, Reposting(job)).(mutex := Puller(id))
         else SetPc(s', id, Holding(Some(job))))
    case PullPost(id, wake) =>
      var job := s.workers[id].job;
      SetPc(s.(v := 1, workers := Wake(s.workers, wake), mutex := Free), id, Holding(Some(job)))
    case RunJob(id) =>
      (match s.workers[id].found
       case None => SetPc(s, id, Ran)
       case Some(job) => SetPc(s, id, Ran).(finished := s.finished + [job]))
    case CountOut(id) =>
      var left := s.working - 1;
      SetPc(s, id, LoopTop).(working := left, waiter := if left == 0 then SignalWaiter(s.waiter) else s.waiter)
    case Leave(id) =>
      SetPc(s, id, Exited).(alive := s.alive - 1)
    case Spurious(id) =>
      SetPc(s, id, Signalled)
    case WaitCall => s.(waiter := Calling, target := |s.pushed|)
    case WaitLock => s.(waiter := Checking)
    case WaitReadLen => s.(waiter := if |s.queue| != 0 then SawBusy else SawEmpty)
    case WaitReadWorking =>
      if s.working != 0 then s.(waiter := SawBusy) else s.(waiter := Outside, settled := s.target)
    case WaitSleep => s.(waiter := WaitAsleep)
    case WaitSpurious => s.(waiter := WaitSignalled)
    case DestroyCall => s.(keepalive := false, destroyer := Polling)
    case TestAlive => s.(destroyer := Posting)
    case PostAll => s.(v := 1, workers := WakeAll(s.workers), destroyer := Polling)
    case StartClear => s.(destroyer := Clearing)
    case ClearPull =>
      s.(queue := Dequeue(s.queue), discarded := s.discarded + [s.queue[0]],
         v := if MustRepost(s.queue) then 1 else s.v)
    case EndClear => s.(v := 0, destroyer := Destroyed)
  }

  /** A run: the states visited by a sequence of steps. */
  ghost predicate Run(states: seq<Pool>, labels: seq<Label>) {
    && |states| == |labels| + 1
    && forall i {:trigger Enabled(states[i], labels[i])} :: 0 <= i < |labels| ==>
      Enabled(states[i], labels[i]) && states[i + 1] == Apply(states[i], labels[i])
  }

  /** A run from the initialised pool with n workers. */
  ghost predicate RunFromInit(n: nat, states: seq<Pool>, labels: seq<Label>) {
    Run(states, labels) && states[0] == Init(n)
  }
}
