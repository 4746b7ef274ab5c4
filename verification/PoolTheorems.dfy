/** What the invariant says about whole runs of the thread pool: jobs run once and in no
    case twice, thpool_wait is safe and live, the pool comes to rest, and thpool_destroy
    accounts for every job. */
module PoolTheorems {
  import opened Wrappers
  import opened PoolModel
  import opened PoolInvariant

  /** Every reachable state satisfies the invariant, for any number of workers and any
      interleaving of adds, workers, waiter and destroyer. */
  lemma ReachableKeepsInvariant(n: nat, states: seq<Pool>, labels: seq<Label>, i: nat)
    requires RunFromInit(n, states, labels) && i < |states|
    ensures Inv(states[i]) && |states[i].workers| == n
  {
    InitEstablishes(n);
    RunKeeps(states, labels, i);
    WorkersStay(states, labels, i);
  }

  lemma {:induction false} WorkersStay(states: seq<Pool>, labels: seq<Label>, i: nat)
    requires Run(states, labels) && i < |states|
    ensures |states[i].workers| == |states[0].workers|
  {
    if i > 0 {
      WorkersStay(states, labels, i - 1);
      StepKeepsCrew(states[i - 1], labels[i - 1]);
    }
  }

  lemma RunPart(states: seq<Pool>, labels: seq<Label>, i: nat, j: nat)
    requires Run(states, labels) && i <= j <= |labels|
    ensures Run(states[i..j + 1], labels[i..j])
  {
    var ss, ls := states[i..j + 1], labels[i..j];
    forall k | 0 <= k < |ls|
      ensures Enabled(ss[k], ls[k]) && ss[k + 1] == Apply(ss[k], ls[k])
    {
      assert Enabled(states[i + k], labels[i + k]);
    }
  }

  // ---------- exactly once ----------

  lemma {:induction false} CountInDistinct<T>(s: seq<T>, x: T)
    requires Distinct(s)
    ensures multiset(s)[x] == if x in s then 1 else 0
  {
    if s != [] {
      assert s == s[..|s| - 1] + [s[|s| - 1]];
      CountInDistinct(s[..|s| - 1], x);
    }
  }

  /** When no worker holds a job, the finished jobs are the pulled ones, each once. */
  lemma FinishedArePulled(s: Pool)
    requires Inv(s) && forall i :: 0 <= i < |s.workers| ==> Held(s.workers[i]).None?
    ensures multiset(s.finished) == multiset(s.pulled)
  {
    forall k | 0 <= k < |s.pulled|
      ensures s.pulled[k] == k
    {
      assert (s.pulled + s.discarded + s.queue)[k] == s.pulled[k];
    }
    forall job: nat
      ensures multiset(s.finished)[job] == multiset(s.pulled)[job]
    {
      CountInDistinct(s.finished, job);
      CountInDistinct(s.pulled, job);
      assert job < |s.pulled| ==> s.pulled[job] == job;
    }
  }

  // ---------- thpool_wait ----------

  lemma {:induction false} TargetStays(states: seq<Pool>, labels: seq<Label>, i: nat, j: nat)
    requires Run(states, labels) && i < j < |states| && labels[i] == WaitCall
    requires forall k :: i < k <= j ==> states[k].waiter != Outside
    ensures states[j].target == |states[i].pushed|
  {
    assert Enabled(states[j - 1], labels[j - 1]);
    if i + 1 < j {
      TargetStays(states, labels, i, j - 1);
    }
  }

  /** thpool_wait returns only by the step that reads a working count of zero. */
  lemma ReturnSettles(s: Pool, l: Label)
    requires Enabled(s, l) && s.waiter != Outside && Apply(s, l).waiter == Outside
    ensures Apply(s, l).settled == s.target
  {
  }

  lemma PushedAreNumbered(s: Pool)
    requires Inv(s)
    ensures forall job :: job in s.pushed ==> job < |s.pushed|
  {
  }

  /** thpool_wait is safe: when a call returns, every job whose add had returned before the
      call has been run to its end. */
  lemma WaitIsSafe(n: nat, states: seq<Pool>, labels: seq<Label>, call: nat, ret: nat)
    requires RunFromInit(n, states, labels) && call < ret < |labels|
    requires labels[call] == WaitCall
    requires forall k :: call < k <= ret ==> states[k].waiter != Outside
    requires states[ret + 1].waiter == Outside
    ensures forall job :: job in states[call].pushed ==> job in states[ret + 1].finished
  {
    ReachableKeepsInvariant(n, states, labels, call);
    PushedAreNumbered(states[call]);
    TargetStays(states, labels, call, ret);
    ReturnSettles(states[ret], labels[ret]);
    ReachableKeepsInvariant(n, states, labels, ret + 1);
  }

  // ---------- coming to rest ----------

  /** The steps a pool takes on its own: everything but new calls of its interface and
      spurious wake-ups. */
  predicate Internal(l: Label) {
    || l.PushPost? || l.TestLoop? || l.TakeOrSleep? || l.TestWoken? || l.CountIn? || l.PullUpdate?
    || l.PullPost? || l.RunJob? || l.CountOut? || l.Leave?
    || l.WaitLock? || l.WaitReadLen? || l.WaitReadWorking? || l.WaitSleep?
  }

  function WaitRank(w: WaitPc): nat {
    match w
    case Outside => 0
    case WaitAsleep => 0
    case SawBusy => 1
    case SawEmpty => 2
    case Checking => 3
    case Calling => 4
    case WaitSignalled => 4
  }

  /** An upper bound on the internal steps still to come. */
  function Measure(s: Pool): nat {
    13 * |s.queue| + 11 * s.v + (if s.mutex == Pusher then 13 else 0) + Sum(Rank, s.workers) + WaitRank(s.waiter)
  }

  /** The workers' share of the measure after a step. A post raises it by at most the one
      unit of the sleeper it wakes. */
  lemma RankAfter(s: Pool, l: Label)
    requires Internal(l) && Enabled(s, l)
    ensures MovesOne(l) ==> l.id < |s.workers| && l.id < |Apply(s, l).workers|
    ensures MovesOne(l) ==>
      Sum(Rank, Apply(s, l).workers) ==
      Sum(Rank, s.workers) + Weight(Rank, Apply(s, l).workers[l.id]) - Weight(Rank, s.workers[l.id])
    ensures l.PushPost? ==> Sum(Rank, Apply(s, l).workers) <= Sum(Rank, s.workers) + 1
    ensures l.PullPost? ==> Sum(Rank, Apply(s, l).workers) + 12 <= Sum(Rank, s.workers)
    ensures !MovesOne(l) && !l.PushPost? && !l.PullPost? ==> Apply(s, l).workers == s.workers
  {
    var s' := Apply(s, l);
    if MovesOne(l) {
      MoveOne(s, l);
      SumUpdate(Rank, s.workers, l.id, s'.workers[l.id]);
    } else if l.PushPost? {
      SumWake(Rank, s.workers, l.wake);
    } else if l.PullPost? {
      SumWake(Rank, s.workers, l.wake);
      SumUpdate(Rank, Wake(s.workers, l.wake), l.id, s'.workers[l.id]);
    }
  }

  /** The other parts of the measure after a step of one worker. */
  lemma OthersAfter(s: Pool, l: Label)
    requires Internal(l) && MovesOne(l) && Enabled(s, l)
    ensures Apply(s, l).mutex == Pusher <==> s.mutex == Pusher
    ensures |Apply(s, l).queue| == |s.queue| - if l.PullUpdate? && s.queue != [] then 1 else 0
    ensures Apply(s, l).v == if l.TakeOrSleep? && s.v == 1 then 0 else s.v
    ensures Apply(s, l).waiter == s.waiter || (l.CountOut? && WaitRank(Apply(s, l).waiter) <= WaitRank(s.waiter) + 4)
  {
  }

  /** What a worker spends of its own rank: enough to pay for waking the waiter, and never
      more than a queued job or a raised semaphore pays back. */
  lemma RankSpent(s: Pool, l: Label)
    requires Internal(l) && MovesOne(l) && Enabled(s, l) && l.id < |s.workers|
    ensures l.id < |Apply(s, l).workers|
    ensures Weight(Rank, Apply(s, l).workers[l.id]) <= Weight(Rank, s.workers[l.id])
      + if l.PullUpdate? && s.queue != [] then 12
        else if l.TakeOrSleep? && s.v == 1 then 10
        else if l.CountOut? then -5 else -1
  {
  }

  lemma MeasureDecreases(s: Pool, l: Label)
    requires s.v <= 1 && Internal(l) && Enabled(s, l)
    ensures Measure(Apply(s, l)) < Measure(s)
  {
    RankAfter(s, l);
    if MovesOne(l) {
      OthersAfter(s, l);
      RankSpent(s, l);
    }
  }

  /** A wake-up that no signal caused. */
  predicate SpuriousWake(l: Label) {
    l.Spurious? || l.WaitSpurious?
  }

  /** Every other step is one of thpool_destroy after its call, or a new call. */
  lemma LabelsAreClassified(l: Label)
    ensures l == PushUpdate || l == WaitCall || l == DestroyCall <==> !Internal(l) && !SpuriousWake(l) && !OfDestroy(l)
    ensures !(Internal(l) && SpuriousWake(l)) && !(Internal(l) && OfDestroy(l)) && !(SpuriousWake(l) && OfDestroy(l))
  {
  }

  /** When they happen. */
  function Wakes(labels: seq<Label>): set<nat> {
    set i: nat | i < |labels| && SpuriousWake(labels[i])
  }

  /** A thread that is woken for nothing tests its condition again, and no more. */
  lemma WakeCosts(s: Pool, l: Label)
    requires SpuriousWake(l) && Enabled(s, l)
    ensures Measure(Apply(s, l)) <= Measure(s) + 4
    ensures Apply(s, l).destroyer == s.destroyer
  {
    if l.Spurious? {
      SumUpdate(Rank, s.workers, l.id, Signalled);
    }
  }

  /** The steps of a pool that is left alone. */
  predicate LeftAlone(labels: seq<Label>) {
    forall i {:trigger labels[i]} :: 0 <= i < |labels| ==> Internal(labels[i]) || SpuriousWake(labels[i])
  }

  lemma MeasureAt(states: seq<Pool>, labels: seq<Label>, i: nat)
    requires Run(states, labels) && Inv(states[0]) && i < |labels|
    requires Internal(labels[i]) || SpuriousWake(labels[i])
    ensures Measure(states[i + 1]) < Measure(states[i]) + if i in Wakes(labels) then 5 else 0
  {
    RunKeeps(states, labels, i);
    assert Enabled(states[i], labels[i]);
    if Internal(labels[i]) {
      MeasureDecreases(states[i], labels[i]);
    } else {
      WakeCosts(states[i], labels[i]);
    }
  }

  /** Left alone, the pool stops within Measure steps, whatever the scheduler does, and five
      more for each spurious wake-up. */
  lemma RunsAreBounded(states: seq<Pool>, labels: seq<Label>)
    requires Run(states, labels) && Inv(states[0]) && LeftAlone(labels)
    ensures |labels| + Measure(states[|labels|]) <= Measure(states[0]) + 5 * |Wakes(labels)|
  {
    var stock := seq(|states|, i requires 0 <= i < |states| => Measure(states[i]));
    forall i: nat | i < |labels|
      ensures Draws(stock, {}, 0, Wakes(labels), 5, i)
    {
      MeasureAt(states, labels, i);
    }
    Charged(stock, {}, 0, Wakes(labels), 5, |labels|);
    ChargeIsProduct(0, 0);
    ChargeIsProduct(5, |Wakes(labels)|);
  }

  ghost predicate Quiescent(s: Pool) {
    forall l {:trigger Enabled(s, l)} :: Internal(l) ==> !Enabled(s, l)
  }

  /** The steps of one worker that need no sleeper to be chosen. */
  function WorkerSteps(i: nat): set<Label> {
    {TestLoop(i), TakeOrSleep(i), TestWoken(i), CountIn(i), PullUpdate(i), RunJob(i), CountOut(i), Leave(i)}
  }

  /** A worker that cannot move while both locks are free sleeps or is gone. */
  lemma StuckWorker(s: Pool, i: nat)
    requires i < |s.workers| && s.mutex == Free && CountLockFree(s) && !s.workers[i].Reposting?
    requires forall l :: l in WorkerSteps(i) ==> !Enabled(s, l)
    ensures s.workers[i] == Asleep || s.workers[i] == Exited
  {
    assert !Enabled(s, TestLoop(i)) && !Enabled(s, TakeOrSleep(i)) && !Enabled(s, TestWoken(i));
    assert !Enabled(s, CountIn(i)) && !Enabled(s, PullUpdate(i)) && !Enabled(s, RunJob(i));
    assert !Enabled(s, CountOut(i)) && !Enabled(s, Leave(i));
  }

  lemma LocksFreeAtRest(s: Pool)
    requires Locking(s) && Quiescent(s)
    ensures s.mutex == Free && s.waiter in {Outside, WaitAsleep}
  {
    var wake := SomeWake(s.workers);
    assert !Enabled(s, PushPost(wake));
    var puller := if s.mutex.Puller? then s.mutex.id else 0;
    assert !Enabled(s, PullPost(puller, wake));
    assert !Enabled(s, WaitLock) && !Enabled(s, WaitReadLen);
    assert !Enabled(s, WaitReadWorking) && !Enabled(s, WaitSleep);
  }

  /** In a quiescent state nobody is between two steps: workers sleep or are gone. */
  lemma AtRest(s: Pool)
    requires Locking(s) && Quiescent(s)
    ensures s.mutex == Free && s.waiter in {Outside, WaitAsleep}
    ensures forall i :: 0 <= i < |s.workers| ==> s.workers[i] == Asleep || s.workers[i] == Exited
  {
    LocksFreeAtRest(s);
    forall i | 0 <= i < |s.workers|
      ensures s.workers[i] == Asleep || s.workers[i] == Exited
    {
      StuckWorker(s, i);
    }
  }

  lemma {:induction false} IdleSum(ws: seq<Pc>)
    requires forall i :: 0 <= i < |ws| ==> Weight(Working, ws[i]) == 0
    ensures Sum(Working, ws) == 0
  {
    if ws != [] {
      IdleSum(ws[1..]);
    }
  }

  /** A pool at rest has done its work: with a worker and before thpool_destroy, the queue
      is empty, every pushed job has run exactly once, and no thpool_wait call is left
      sleeping. */
  lemma RestMeansDone(s: Pool)
    requires Inv(s) && Quiescent(s) && s.keepalive && s.workers != []
    ensures s.queue == [] && s.working == 0 && s.v == 0
    ensures multiset(s.finished) == multiset(s.pushed)
    ensures s.waiter == Outside
  {
    AtRest(s);
    assert s.workers[0] == Asleep;
    IdleSum(s.workers);
    FinishedArePulled(s);
    assert s.pulled + s.discarded + s.queue == s.pulled;
  }

  /** Without workers nothing is ever run. */
  lemma {:induction false} NothingRunWithoutWorkers(states: seq<Pool>, labels: seq<Label>, i: nat)
    requires Run(states, labels) && i < |states| && states[0].workers == [] && states[0].finished == []
    ensures states[i].finished == []
  {
    if i > 0 {
      NothingRunWithoutWorkers(states, labels, i - 1);
      WorkersStay(states, labels, i - 1);
      assert Enabled(states[i - 1], labels[i - 1]);
      JobsAfter(states[i - 1], labels[i - 1]);
    }
  }

  /** The liveness theorem: let a pool run under any interleaving of calls, then make no more
      calls. It takes at most Measure further steps and five more for each spurious wake-up.
      When it stops, and has a worker, every job ever added has run exactly once and every
      waiting caller has been released; without workers that is so only if no job was added. */
  lemma EveryJobRunsOnce(n: nat, before: seq<Pool>, calls: seq<Label>, after: seq<Pool>, labels: seq<Label>)
    requires RunFromInit(n, before, calls)
    requires Run(after, labels) && after[0] == before[|calls|] && after[0].keepalive
    requires LeftAlone(labels)
    ensures |labels| <= Measure(after[0]) + 5 * |Wakes(labels)|
    ensures n > 0 && Quiescent(after[|labels|]) ==>
      && after[|labels|].queue == []
      && multiset(after[|labels|].finished) == multiset(before[|calls|].pushed)
      && after[|labels|].waiter == Outside
    ensures Quiescent(after[|labels|]) ==>
      (multiset(after[|labels|].finished) == multiset(before[|calls|].pushed) <==> n > 0 || before[|calls|].pushed == [])
  {
    ReachableKeepsInvariant(n, before, calls, |calls|);
    RunsAreBounded(after, labels);
    if n == 0 {
      NothingRunWithoutWorkers(before, calls, |calls|);
      NothingRunWithoutWorkers(after, labels, |labels|);
      EmptyMultiset(before[|calls|].pushed);
    } else if Quiescent(after[|labels|]) {
      RestAfter(after, labels);
    }
  }

  lemma EmptyMultiset(pushed: seq<nat>)
    ensures multiset(pushed) == multiset([]) <==> pushed == []
  {
    assert pushed != [] ==> pushed[0] in multiset(pushed);
  }

  lemma RestAfter(states: seq<Pool>, labels: seq<Label>)
    requires Run(states, labels) && Inv(states[0]) && states[0].keepalive && states[0].workers != []
    requires LeftAlone(labels) && Quiescent(states[|labels|])
    ensures states[|labels|].queue == [] && states[|labels|].waiter == Outside
    ensures multiset(states[|labels|].finished) == multiset(states[0].pushed)
  {
    RunKeeps(states, labels, |labels|);
    WorkersStay(states, labels, |labels|);
    NothingAdded(states, labels, |labels|);
    RestMeansDone(states[|labels|]);
  }

  lemma {:induction false} NothingAdded(states: seq<Pool>, labels: seq<Label>, i: nat)
    requires Run(states, labels) && i < |states|
    requires NoCalls(labels)
    ensures states[i].pushed == states[0].pushed && states[i].keepalive == states[0].keepalive
  {
    if i > 0 {
      NothingAdded(states, labels, i - 1);
      assert Enabled(states[i - 1], labels[i - 1]);
      assert Internal(labels[i - 1]) || OfDestroy(labels[i - 1]) || SpuriousWake(labels[i - 1]);
    }
  }

  // ---------- thpool_destroy accounts for every job ----------

  lemma AllExitedWhenCleaning(s: Pool)
    requires Counters(s) && s.alive == 0
    ensures forall k :: 0 <= k < |s.workers| ==> s.workers[k] == Exited
  {
    forall k | 0 <= k < |s.workers|
      ensures s.workers[k] == Exited
    {
      SumAtLeast(Living, s.workers, k);
    }
  }

  /** When thpool_destroy starts to clean up the queue, no worker is left and every pulled
      job has finished. When it is done, each pushed job was either run or discarded,
      exactly one of the two, and exactly once; the discarded ones are those that were
      still queued, in queue order. */
  lemma DestroyConserves(n: nat, states: seq<Pool>, labels: seq<Label>, i: nat)
    requires RunFromInit(n, states, labels) && i < |states|
    requires states[i].destroyer in {Clearing, Destroyed}
    ensures forall k :: 0 <= k < n ==> k < |states[i].workers| && states[i].workers[k] == Exited
    ensures multiset(states[i].finished) == multiset(states[i].pulled)
    ensures states[i].destroyer == Destroyed ==>
      && states[i].pulled + states[i].discarded == states[i].pushed
      && multiset(states[i].finished) + multiset(states[i].discarded) == multiset(states[i].pushed)
  {
    ReachableKeepsInvariant(n, states, labels, i);
    CleanedUp(states[i]);
  }

  lemma CleanedUp(s: Pool)
    requires Inv(s) && s.destroyer in {Clearing, Destroyed}
    ensures forall k :: 0 <= k < |s.workers| ==> s.workers[k] == Exited
    ensures multiset(s.finished) == multiset(s.pulled)
    ensures s.destroyer == Destroyed ==>
      && s.pulled + s.discarded == s.pushed
      && multiset(s.finished) + multiset(s.discarded) == multiset(s.pushed)
  {
    AllExitedWhenCleaning(s);
    FinishedArePulled(s);
    if s.destroyer == Destroyed {
      assert s.pulled + s.discarded + s.queue == s.pulled + s.discarded;
    }
  }

  // ---------- thpool_destroy makes progress ----------

  lemma {:induction false} SumShrinks(ws: seq<Pc>, ws': seq<Pc>, k: nat)
    requires |ws| == |ws'| && k < |ws|
    requires forall i :: 0 <= i < |ws| && ws[i] == Exited ==> ws'[i] == Exited
    requires ws[k] != Exited && ws'[k] == Exited
    ensures Sum(Living, ws') < Sum(Living, ws)
  {
    if k == 0 {
      SumNeverGrows(ws[1..], ws'[1..]);
    } else {
      SumShrinks(ws[1..], ws'[1..], k - 1);
    }
  }

  lemma {:induction false} SumNeverGrows(ws: seq<Pc>, ws': seq<Pc>)
    requires |ws| == |ws'|
    requires forall i :: 0 <= i < |ws| && ws[i] == Exited ==> ws'[i] == Exited
    ensures Sum(Living, ws') <= Sum(Living, ws)
  {
    if ws != [] {
      SumNeverGrows(ws[1..], ws'[1..]);
    }
  }

  /** Once the pool is told to stop, a worker here takes no more jobs. */
  predicate OnItsWayOut(pc: Pc) {
    pc.Woken? || pc.LoopTop? || pc.Leaving? || pc.Exited?
  }

  /** Between a test or a broadcast that saw the workers at start, and a later state: the
      broadcast is still to come, or nobody has taken it yet, or one of those who had not
      left is on its way out. */
  ghost predicate Outbound(start: seq<Pc>, s: Pool) {
    && |s.workers| == |start|
    && (forall i :: 0 <= i < |start| && start[i] == Exited ==> s.workers[i] == Exited)
    && (s.destroyer == Posting || s.v == 1
        || exists i :: 0 <= i < |start| && start[i] != Exited && OnItsWayOut(s.workers[i]))
  }

  lemma WayOutKept(s: Pool, l: Label, i: nat)
    requires Enabled(s, l) && !s.keepalive && i < |s.workers|
    ensures i < |Apply(s, l).workers|
    ensures s.workers[i] == Exited ==> Apply(s, l).workers[i] == Exited
    ensures OnItsWayOut(s.workers[i]) ==> OnItsWayOut(Apply(s, l).workers[i])
  {
  }

  lemma RaisedUntilTaken(s: Pool, l: Label)
    requires Enabled(s, l) && s.v == 1 && Phase(Apply(s, l).destroyer) == 1
    ensures Apply(s, l).v != 1 ==>
      && l.TakeOrSleep? && l.id < |s.workers| && s.workers[l.id] != Exited
      && l.id < |Apply(s, l).workers| && Apply(s, l).workers[l.id] == Woken
  {
  }

  lemma PostingEndsRaised(s: Pool, l: Label)
    requires Enabled(s, l)
    ensures s.destroyer == Posting ==> Apply(s, l).destroyer == Posting || Apply(s, l).v == 1
  {
  }

  /** Phases only advance and workers only leave. */
  ghost predicate Forward(s: Pool, t: Pool) {
    Phase(s.destroyer) <= Phase(t.destroyer) && t.alive <= s.alive && (!s.keepalive ==> !t.keepalive)
  }

  lemma StepGoesForward(s: Pool, l: Label)
    requires Enabled(s, l)
    ensures Forward(s, Apply(s, l))
  {
  }

  lemma OutboundKept(start: seq<Pc>, s: Pool, l: Label)
    requires Outbound(start, s) && !s.keepalive && Enabled(s, l)
    requires Phase(Apply(s, l).destroyer) == 1
    ensures Outbound(start, Apply(s, l))
  {
    StepKeepsCrew(s, l);
    PostingEndsRaised(s, l);
    forall i | 0 <= i < |start|
      ensures s.workers[i] == Exited ==> Apply(s, l).workers[i] == Exited
      ensures OnItsWayOut(s.workers[i]) ==> OnItsWayOut(Apply(s, l).workers[i])
    {
      WayOutKept(s, l, i);
    }
    if s.v == 1 {
      RaisedUntilTaken(s, l);
    }
  }

  /** thpool_destroy goes through its phases in order. */
  function Phase(d: DestroyPc): nat {
    match d
    case NotCalled => 0
    case Polling => 1
    case Posting => 1
    case Clearing => 2
    case Destroyed => 3
  }

  lemma {:induction false} RunGoesForward(states: seq<Pool>, labels: seq<Label>, i: nat, j: nat)
    requires Run(states, labels) && i <= j < |states|
    ensures Forward(states[i], states[j])
  {
    if i < j {
      RunGoesForward(states, labels, i, j - 1);
      StepGoesForward(states[j - 1], labels[j - 1]);
    }
  }

  lemma {:induction false} OutboundThroughout(states: seq<Pool>, labels: seq<Label>, i: nat)
    requires Run(states, labels) && 0 < i < |states| && (labels[0] == TestAlive || labels[0] == PostAll)
    requires !states[0].keepalive && Phase(states[i].destroyer) == 1
    ensures Outbound(states[0].workers, states[i])
  {
    assert Enabled(states[0], labels[0]) && Enabled(states[i - 1], labels[i - 1]);
    if i > 1 {
      RunGoesForward(states, labels, 0, i - 1);
      RunGoesForward(states, labels, i - 1, i);
      OutboundThroughout(states, labels, i - 1);
      OutboundKept(states[0].workers, states[i - 1], labels[i - 1]);
    }
  }

  lemma RoundRetires(first: Pool, last: Pool)
    requires Counters(first) && first.alive != 0
    requires Counters(last) && Locking(last) && NoLostWakeup(last) && Outbound(first.workers, last)
    requires last.destroyer == Polling
    requires forall i :: 0 <= i < |last.workers| ==> last.workers[i] == Asleep || last.workers[i] == Exited
    ensures last.alive < first.alive
  {
    if last.v == 1 {
      assert forall i :: 0 <= i < |last.workers| ==> last.workers[i] == Exited;
      AllExited(last.workers);
    } else {
      var i :| 0 <= i < |first.workers| && first.workers[i] != Exited && OnItsWayOut(last.workers[i]);
      SumShrinks(first.workers, last.workers, i);
    }
  }

  lemma {:induction false} AllExited(ws: seq<Pc>)
    requires forall i :: 0 <= i < |ws| ==> ws[i] == Exited
    ensures Sum(Living, ws) == 0
  {
    if ws != [] {
      AllExited(ws[1..]);
    }
  }

  /** A round of the polling loop, from a test that found workers alive to any later state of
      rest in which the loop is about to test again: fewer workers are alive then, whatever
      else happens in between. The last worker may leave before the broadcast or after it. */
  lemma EveryRoundRetiresAWorker(states: seq<Pool>, labels: seq<Label>)
    requires Run(states, labels) && Inv(states[0]) && labels != [] && labels[0] == TestAlive
    requires Quiescent(states[|labels|]) && states[|labels|].destroyer == Polling
    ensures states[|labels|].alive < states[0].alive
  {
    assert Enabled(states[0], labels[0]);
    RunKeeps(states, labels, |labels|);
    AtRest(states[|labels|]);
    OutboundThroughout(states, labels, |labels|);
    RoundRetires(states[0], states[|labels|]);
  }

  /** Which broadcasts do their work: exactly those that find a worker alive make one leave by
      any later state of rest in which the loop is about to test again. */
  lemma BroadcastRetiresIff(states: seq<Pool>, labels: seq<Label>)
    requires Run(states, labels) && Inv(states[0]) && labels != [] && labels[0] == PostAll
    requires Quiescent(states[|labels|]) && states[|labels|].destroyer == Polling
    ensures states[|labels|].alive < states[0].alive <==> states[0].alive != 0
  {
    assert Enabled(states[0], labels[0]);
    RunKeeps(states, labels, |labels|);
    AtRest(states[|labels|]);
    if states[0].alive != 0 {
      OutboundThroughout(states, labels, |labels|);
      RoundRetires(states[0], states[|labels|]);
    }
  }

  /** A level that falls from mark to mark, and is positive at each, bounds their number. */
  lemma {:induction false} FallingLevels(marks: set<nat>, level: seq<int>, top: nat, k: nat)
    requires k <= |level| && forall i :: i in marks ==> k <= i < |level| && 0 < level[i] <= top
    requires forall i, j :: i in marks && j in marks && i < j ==> level[j] < level[i]
    ensures |marks| <= top
    decreases |level| - k
  {
    if k in marks {
      FallingLevels(marks - {k}, level, level[k] - 1, k + 1);
    } else if k < |level| {
      FallingLevels(marks, level, top, k + 1);
    } else {
      assert marks == {};
    }
  }

  /** A test of thpool_destroy that finds workers alive, at rest or in a busy pool. */
  ghost predicate Poll(s: Pool, l: Label, resting: bool) {
    l == TestAlive && (Quiescent(s) <==> resting)
  }

  /** When they happen. */
  ghost function Polls(states: seq<Pool>, labels: seq<Label>, resting: bool): set<nat>
    requires |labels| <= |states|
  {
    set i: nat | i < |labels| && Poll(states[i], labels[i], resting)
  }

  lemma PollFindsWorkers(s: Pool)
    requires Counters(s) && Enabled(s, TestAlive)
    ensures s.alive > 0 && s.destroyer == Polling
  {
  }

  lemma LaterRestPoll(states: seq<Pool>, labels: seq<Label>, i: nat, j: nat)
    requires Run(states, labels) && Inv(states[0]) && i < j < |labels|
    requires Poll(states[i], labels[i], true) && Poll(states[j], labels[j], true)
    ensures states[j].alive < states[i].alive
  {
    RunKeeps(states, labels, i);
    RunKeeps(states, labels, j);
    PollFindsWorkers(states[j]);
    RunPart(states, labels, i, j);
    EveryRoundRetiresAWorker(states[i..j + 1], labels[i..j]);
  }

  lemma AliveAtPoll(states: seq<Pool>, labels: seq<Label>, i: nat)
    requires Run(states, labels) && Inv(states[0]) && i < |states|
    ensures 0 <= states[i].alive <= states[0].alive
    ensures i < |labels| && labels[i] == TestAlive ==> states[i].alive > 0
  {
    RunKeeps(states, labels, i);
    RunGoesForward(states, labels, 0, i);
    if i < |labels| && labels[i] == TestAlive {
      PollFindsWorkers(states[i]);
    }
  }

  lemma RestPollsAtMostAlive(states: seq<Pool>, labels: seq<Label>)
    requires Run(states, labels) && Inv(states[0])
    ensures 0 <= states[0].alive && |Polls(states, labels, true)| <= states[0].alive
  {
    var marks := Polls(states, labels, true);
    var level := seq(|states|, i requires 0 <= i < |states| => states[i].alive);
    AliveAtPoll(states, labels, 0);
    forall i | i in marks
      ensures 0 < level[i] <= states[0].alive
    {
      AliveAtPoll(states, labels, i);
    }
    forall i, j | i in marks && j in marks && i < j
      ensures level[j] < level[i]
    {
      LaterRestPoll(states, labels, i, j);
    }
    FallingLevels(marks, level, states[0].alive, 0);
  }

  /** Whatever else happens, the polling loop of thpool_destroy finds a pool at rest with
      workers alive at most as often as there are workers. */
  lemma PollingRoundsAreBounded(n: nat, states: seq<Pool>, labels: seq<Label>)
    requires RunFromInit(n, states, labels)
    ensures |Polls(states, labels, true)| <= n
  {
    InitEstablishes(n);
    RestPollsAtMostAlive(states, labels);
  }

  /** A run in which the last worker leaves between the test and the broadcast: its labels
      and what changes from state to state. */
  const LATE_LABELS: seq<Label> := [DestroyCall, TestAlive, TestLoop(0), Leave(0), PostAll]

  function LateState(k: nat): Pool {
    var destroyer := if k == 0 then NotCalled else if k == 1 || k >= 5 then Polling else Posting;
    var worker := if k < 3 then LoopTop else if k == 3 then Leaving else Exited;
    Init(1).(keepalive := k == 0, destroyer := destroyer, workers := [worker],
             alive := if k < 4 then 1 else 0, v := if k < 5 then 0 else 1)
  }

  lemma LateStep(k: nat)
    requires k < 5
    ensures Enabled(LateState(k), LATE_LABELS[k]) && Apply(LateState(k), LATE_LABELS[k]) == LateState(k + 1)
  {
  }

  lemma LastBroadcastCanBeLate() returns (states: seq<Pool>, labels: seq<Label>)
    ensures RunFromInit(1, states, labels)
    ensures |labels| == 5 && labels[1] == TestAlive && states[1].alive == 1
    ensures labels[4] == PostAll && states[4].alive == 0
  {
    states, labels := seq(6, k requires 0 <= k => LateState(k)), LATE_LABELS;
    forall k | 0 <= k < 5
      ensures Enabled(states[k], labels[k]) && states[k + 1] == Apply(states[k], labels[k])
    {
      LateStep(k);
    }
    assert Init(1).workers == [LoopTop];
  }

  // ---------- thpool_destroy completes ----------

  /** The steps of thpool_destroy after its call. */
  predicate OfDestroy(l: Label) {
    l.TestAlive? || l.PostAll? || l.StartClear? || l.ClearPull? || l.EndClear?
  }

  predicate NoCalls(labels: seq<Label>) {
    forall i {:trigger labels[i]} :: 0 <= i < |labels| ==>
      Internal(labels[i]) || OfDestroy(labels[i]) || SpuriousWake(labels[i])
  }

  /** What the destroyer has still to pay for. A pending broadcast may wake every worker. */
  function Outlay(s: Pool): nat {
    Measure(s) +
    match s.destroyer
    case NotCalled => 3
    case Polling => 2
    case Posting => |s.workers| + 14
    case Clearing => 1
    case Destroyed => 0
  }

  lemma {:induction false} RankWakeAll(ws: seq<Pc>)
    ensures Sum(Rank, WakeAll(ws)) <= Sum(Rank, ws) + |ws|
  {
    if ws != [] {
      assert WakeAll(ws)[1..] == WakeAll(ws[1..]);
      RankWakeAll(ws[1..]);
    }
  }

  lemma InternalLeavesDestroyer(s: Pool, l: Label)
    requires Internal(l) && Enabled(s, l)
    ensures Apply(s, l).destroyer == s.destroyer
  {
  }

  /** What a step may cost, in a pool of n workers. */
  function Fee(l: Label, n: nat): nat {
    if l == TestAlive then n + 13 else if SpuriousWake(l) then 5 else 0
  }

  lemma StepSpends(s: Pool, l: Label)
    requires s.v <= 1 && (Internal(l) || OfDestroy(l) || SpuriousWake(l)) && Enabled(s, l)
    ensures Outlay(Apply(s, l)) < Outlay(s) + Fee(l, |s.workers|)
  {
    StepKeepsCrew(s, l);
    if Internal(l) {
      MeasureDecreases(s, l);
      InternalLeavesDestroyer(s, l);
    } else if SpuriousWake(l) {
      WakeCosts(s, l);
    } else if l.PostAll? {
      RankWakeAll(s.workers);
    }
  }

  /** A charge of c, made k times. */
  function Charge(c: nat, k: nat): nat {
    if k == 0 then 0 else Charge(c, k - 1) + c
  }

  lemma {:induction false} ChargeIsProduct(c: nat, k: nat)
    ensures Charge(c, k) == c * k
  {
    if k > 0 {
      ChargeIsProduct(c, k - 1);
    }
  }

  lemma {:induction false} ChargeGrows(c: nat, k: nat, j: nat)
    requires k <= j
    ensures Charge(c, k) <= Charge(c, j)
  {
    if k < j {
      ChargeGrows(c, k, j - 1);
    }
  }

  /** A stock that each step draws on, and that marked steps refill by less than c or d. */
  lemma {:induction false} Charged(stock: seq<nat>, marks: set<nat>, c: nat, wakes: set<nat>, d: nat, k: nat)
    requires k < |stock| && forall i :: i in marks || i in wakes ==> i < k
    requires forall i: nat {:trigger Draws(stock, marks, c, wakes, d, i)} :: i < k ==> Draws(stock, marks, c, wakes, d, i)
    ensures k + stock[k] <= stock[0] + Charge(c, |marks|) + Charge(d, |wakes|)
  {
    if k == 0 {
      assert marks == {} && wakes == {};
    } else {
      var marks', wakes' := marks - {k - 1}, wakes - {k - 1};
      forall i: nat | i < k - 1
        ensures Draws(stock, marks', c, wakes', d, i)
      {
        assert Draws(stock, marks, c, wakes, d, i);
      }
      Charged(stock, marks', c, wakes', d, k - 1);
      OneLess(marks, c, k - 1);
      OneLess(wakes, d, k - 1);
      assert Draws(stock, marks, c, wakes, d, k - 1);
    }
  }

  predicate Draws(stock: seq<nat>, marks: set<nat>, c: nat, wakes: set<nat>, d: nat, i: nat) {
    i + 1 < |stock| && stock[i + 1] < stock[i] + if i in marks then c else if i in wakes then d else 0
  }

  lemma OneLess(marks: set<nat>, c: nat, k: nat)
    ensures Charge(c, |marks|) == Charge(c, |marks - {k}|) + if k in marks then c else 0
  {
    if k in marks {
      assert |marks| == |marks - {k}| + 1;
    } else {
      assert marks - {k} == marks;
    }
  }

  lemma SpendsAt(states: seq<Pool>, labels: seq<Label>, i: nat)
    requires Run(states, labels) && Inv(states[0]) && i < |labels|
    requires Internal(labels[i]) || OfDestroy(labels[i]) || SpuriousWake(labels[i])
    ensures Outlay(states[i + 1]) < Outlay(states[i]) + Fee(labels[i], |states[0].workers|)
  {
    RunKeeps(states, labels, i);
    WorkersStay(states, labels, i);
    StepSpends(states[i], labels[i]);
  }

  /** Each step is paid for by the outlay and its fee. */
  ghost predicate PaidFor(states: seq<Pool>, labels: seq<Label>, n: nat) {
    && |states| == |labels| + 1
    && forall i {:trigger Pays(states[i], labels[i], states[i + 1], n)} :: 0 <= i < |labels| ==>
      Pays(states[i], labels[i], states[i + 1], n)
  }

  predicate Pays(s: Pool, l: Label, t: Pool, n: nat) {
    Outlay(t) < Outlay(s) + Fee(l, n)
  }

  lemma RunIsPaidFor(states: seq<Pool>, labels: seq<Label>)
    requires Run(states, labels) && Inv(states[0]) && NoCalls(labels)
    ensures PaidFor(states, labels, |states[0].workers|)
  {
    forall i | 0 <= i < |labels|
      ensures Pays(states[i], labels[i], states[i + 1], |states[0].workers|)
    {
      SpendsAt(states, labels, i);
    }
  }

  lemma TestIsPoll(states: seq<Pool>, labels: seq<Label>, i: nat)
    requires i < |labels| <= |states|
    ensures i in Polls(states, labels, true) + Polls(states, labels, false) <==> labels[i] == TestAlive
  {
    assert labels[i] == TestAlive ==> Poll(states[i], labels[i], Quiescent(states[i]));
  }

  lemma PaysAt(states: seq<Pool>, labels: seq<Label>, n: nat, i: nat)
    requires PaidFor(states, labels, n) && i < |labels|
    ensures Outlay(states[i + 1]) < Outlay(states[i]) +
      if i in Polls(states, labels, true) + Polls(states, labels, false) then n + 13
      else if i in Wakes(labels) then 5 else 0
  {
    assert Pays(states[i], labels[i], states[i + 1], n);
    TestIsPoll(states, labels, i);
  }

  lemma PaidForBounds(states: seq<Pool>, labels: seq<Label>, n: nat)
    requires PaidFor(states, labels, n)
    ensures |labels| <= Outlay(states[0]) + Charge(5, |Wakes(labels)|)
      + Charge(n + 13, |Polls(states, labels, true) + Polls(states, labels, false)|)
  {
    var marks, wakes := Polls(states, labels, true) + Polls(states, labels, false), Wakes(labels);
    var c := n + 13;
    var stock := seq(|states|, i requires 0 <= i < |states| => Outlay(states[i]));
    forall i: nat | i < |labels|
      ensures Draws(stock, marks, c, wakes, 5, i)
    {
      PaysAt(states, labels, n, i);
    }
    Charged(stock, marks, c, wakes, 5, |labels|);
  }

  lemma ChargesAdd(c: nat, n: nat, rest: set<nat>, busy: set<nat>)
    requires |rest| <= n
    ensures Charge(c, |rest + busy|) <= Charge(c, n + |busy|)
  {
    ChargeGrows(c, |rest + busy|, n + |busy|);
  }

  /** Nothing is left to do, for the pool or for thpool_destroy. */
  ghost predicate Stuck(s: Pool) {
    forall l {:trigger Enabled(s, l)} :: Internal(l) || OfDestroy(l) ==> !Enabled(s, l)
  }

  lemma StuckMeansDestroyed(s: Pool)
    requires Locking(s) && Stuck(s) && s.destroyer != NotCalled
    ensures s.destroyer == Destroyed
  {
    assert !Enabled(s, TestAlive) && !Enabled(s, PostAll) && !Enabled(s, StartClear);
    assert !Enabled(s, ClearPull) && !Enabled(s, EndClear);
    LocksFreeAtRest(s);
  }

  lemma DestroyedMeansStuck(s: Pool)
    requires Counters(s) && Locking(s) && Phases(s) && s.destroyer == Destroyed
    ensures Stuck(s)
  {
    AllExitedWhenCleaning(s);
  }

  /** thpool_destroy completes. From any reachable state after its call, with no further calls,
      a run is no longer than the outlay, a charge for each test that finds workers alive, and
      five for each spurious wake-up; at most n of those tests find the pool at rest. So only
      an endless row of spurious wake-ups, or of tests that each come before the workers have
      moved, can keep it from the end, and there the queue is freed and every job ever added
      was run or discarded, once. */
  lemma DestroyCompletes(n: nat, before: seq<Pool>, calls: seq<Label>, after: seq<Pool>, labels: seq<Label>)
    requires RunFromInit(n, before, calls)
    requires Run(after, labels) && after[0] == before[|calls|] && after[0].destroyer != NotCalled
    requires NoCalls(labels)
    ensures |labels| <= Outlay(after[0]) + (n + 13) * (n + |Polls(after, labels, false)|) + 5 * |Wakes(labels)|
    ensures Stuck(after[|labels|]) <==> after[|labels|].destroyer == Destroyed
    ensures Stuck(after[|labels|]) ==>
      multiset(after[|labels|].finished) + multiset(after[|labels|].discarded) == multiset(before[|calls|].pushed)
  {
    ReachableKeepsInvariant(n, before, calls, |calls|);
    RunIsPaidFor(after, labels);
    RestPollsAtMostCrew(after, labels);
    PaidRunsAreBounded(after, labels, n);
    StuckAfter(after, labels);
  }

  lemma BoundedByRests(states: seq<Pool>, labels: seq<Label>, n: nat, charge: nat)
    requires PaidFor(states, labels, n) && |Polls(states, labels, true)| <= n
    requires charge == Charge(n + 13, n + |Polls(states, labels, false)|)
    ensures |labels| <= Outlay(states[0]) + charge + 5 * |Wakes(labels)|
  {
    PaidForBounds(states, labels, n);
    ChargesAdd(n + 13, n, Polls(states, labels, true), Polls(states, labels, false));
    ChargeIsProduct(5, |Wakes(labels)|);
  }

  lemma PaidRunsAreBounded(states: seq<Pool>, labels: seq<Label>, n: nat)
    requires PaidFor(states, labels, n) && |Polls(states, labels, true)| <= n
    ensures |labels| <= Outlay(states[0]) + (n + 13) * (n + |Polls(states, labels, false)|) + 5 * |Wakes(labels)|
  {
    var charge := Charge(n + 13, n + |Polls(states, labels, false)|);
    BoundedByRests(states, labels, n, charge);
    ChargeIsProduct(n + 13, n + |Polls(states, labels, false)|);
  }

  lemma RestPollsAtMostCrew(states: seq<Pool>, labels: seq<Label>)
    requires Run(states, labels) && Inv(states[0])
    ensures |Polls(states, labels, true)| <= |states[0].workers|
  {
    RestPollsAtMostAlive(states, labels);
    LivingAtMost(states[0].workers);
  }

  lemma StuckAfter(states: seq<Pool>, labels: seq<Label>)
    requires Run(states, labels) && Inv(states[0]) && states[0].destroyer != NotCalled
    requires NoCalls(labels)
    ensures var last := states[|labels|];
      && (Stuck(last) <==> last.destroyer == Destroyed)
      && (Stuck(last) ==> multiset(last.finished) + multiset(last.discarded) == multiset(states[0].pushed))
  {
    RunKeeps(states, labels, |labels|);
    RunGoesForward(states, labels, 0, |labels|);
    NothingAdded(states, labels, |labels|);
    if states[|labels|].destroyer == Destroyed {
      DestroyedMeansStuck(states[|labels|]);
      CleanedUp(states[|labels|]);
    } else if Stuck(states[|labels|]) {
      StuckMeansDestroyed(states[|labels|]);
    }
  }

  lemma {:induction false} LivingAtMost(ws: seq<Pc>)
    ensures Sum(Living, ws) <= |ws|
  {
    if ws != [] {
      LivingAtMost(ws[1..]);
    }
  }
}
