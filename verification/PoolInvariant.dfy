/** What every step of the thread pool keeps. */
module PoolInvariant {
  import opened Wrappers
  import opened JobQueue
  import opened PoolModel

  // ---------- counting workers ----------

  datatype Tally = Working | Living | Rank

  /** What one worker contributes to a tally. Rank is the worker's share of the termination
      measure: how many steps it may still take before it needs a new wake-up. */
  function Weight(t: Tally, pc: Pc): nat {
    match t
    case Working => if pc.Pulling? || pc.Reposting? || pc.Holding? || pc.Ran? then 1 else 0
    case Living => if pc.Exited? then 0 else 1
    case Rank =>
      (match pc
       case Exited => 0
       case Asleep => 0
       case Leaving => 1
       case Enter => 1
       case Signalled => 1
       case LoopTop => 2
       case Ran => 7
       case Holding(_) => 8
       case Pulling => 9
       case Counting => 10
       case Woken => 11
       case Reposting(_) => 21)
  }

  function Sum(t: Tally, ws: seq<Pc>): nat {
    if ws == [] then 0 else Weight(t, ws[0]) + Sum(t, ws[1..])
  }

  lemma {:induction false} SumUpdate(t: Tally, ws: seq<Pc>, id: nat, pc: Pc)
    requires id < |ws|
    ensures Sum(t, ws[id := pc]) == Sum(t, ws) - Weight(t, ws[id]) + Weight(t, pc)
  {
    if id == 0 {
      assert ws[id := pc][1..] == ws[1..];
    } else {
      assert ws[id := pc][1..] == ws[1..][id - 1 := pc];
      SumUpdate(t, ws[1..], id - 1, pc);
    }
  }

  lemma {:induction false} SumAtLeast(t: Tally, ws: seq<Pc>, id: nat)
    requires id < |ws|
    ensures Sum(t, ws) >= Weight(t, ws[id])
  {
    if id > 0 {
      SumAtLeast(t, ws[1..], id - 1);
    }
  }

  /** Waking sleepers leaves the working and the alive count as they were. */
  lemma {:induction false} SumWakeAll(t: Tally, ws: seq<Pc>)
    requires t != Rank
    ensures Sum(t, WakeAll(ws)) == Sum(t, ws)
  {
    if ws != [] {
      assert WakeAll(ws)[1..] == WakeAll(ws[1..]);
      SumWakeAll(t, ws[1..]);
    }
  }

  // ---------- the invariant ----------

  /** The counters count what their names say. */
  ghost predicate Counters(s: Pool) {
    && s.working == Sum(Working, s.workers)
    && s.alive == Sum(Living, s.workers)
  }

  /** The queue mutex is held by the one worker that is between its update and its post, and
      such a worker has left jobs in the queue. */
  ghost predicate Locking(s: Pool) {
    && s.v <= 1
    && (s.mutex.Puller? ==> s.mutex.id < |s.workers| && s.workers[s.mutex.id].Reposting? && s.queue != [])
    && (forall i :: 0 <= i < |s.workers| && s.workers[i].Reposting? ==> s.mutex == Puller(i))
  }

  /** The phases of a pool's life. */
  ghost predicate Phases(s: Pool) {
    && (s.keepalive <==> s.destroyer == NotCalled)
    && (s.keepalive ==> forall i :: 0 <= i < |s.workers| ==> s.workers[i] != Leaving && s.workers[i] != Exited)
    && (s.waiter != Outside ==> s.destroyer == NotCalled)
    && (s.destroyer in {Clearing, Destroyed} ==> s.alive == 0)
    && (s.destroyer !in {Clearing, Destroyed} ==> s.discarded == [])
    && (s.destroyer == Destroyed ==> s.queue == [] && s.mutex == Free && s.v == 0)
  }

  /** First in, first out: what was pulled, then what was thrown away, then what is still
      queued is what was pushed, in the order of the pushes. */
  ghost predicate Fifo(s: Pool) {
    && (forall i :: 0 <= i < |s.pushed| ==> s.pushed[i] == i)
    && s.pulled + s.discarded + s.queue == s.pushed
  }

  /** The job a worker has taken off the queue and not yet finished. */
  function Held(pc: Pc): Option<nat> {
    match pc
    case Reposting(job) => Some(job)
    case Holding(found) => found
    case _ => None
  }

  ghost predicate IsHeld(workers: seq<Pc>, job: nat) {
    exists i :: 0 <= i < |workers| && Held(workers[i]) == Some(job)
  }

  /** Only pulled jobs finish, and none twice; no job is held by two workers, or held and
      finished. */
  ghost predicate Exclusive(s: Pool) {
    && Distinct(s.finished)
    && (forall job :: job in s.finished ==> job < |s.pulled|)
    && (forall i :: 0 <= i < |s.workers| && Held(s.workers[i]).Some? ==>
          Held(s.workers[i]).value < |s.pulled| && Held(s.workers[i]).value !in s.finished)
    && (forall i, j :: 0 <= i < j < |s.workers| && Held(s.workers[i]).Some? ==> Held(s.workers[i]) != Held(s.workers[j]))
  }

  /** No pulled job is forgotten: it is finished or some worker holds it. */
  ghost predicate Accounted(s: Pool) {
    forall job: nat :: job < |s.pulled| ==> job in s.finished || IsHeld(s.workers, job)
  }

  /** A worker that has taken the semaphore and has not finished its pull. */
  predicate Carries(pc: Pc) {
    pc.Woken? || pc.Counting? || pc.Pulling? || pc.Reposting?
  }

  ghost predicate SomeCarrier(workers: seq<Pc>) {
    exists i :: 0 <= i < |workers| && Carries(workers[i])
  }

  /** No job is stranded, although the semaphore forgets how often it was posted. */
  ghost predicate NotStranded(s: Pool) {
    s.keepalive && s.queue != [] ==> s.v == 1 || s.mutex == Pusher || SomeCarrier(s.workers)
  }

  /** No wake-up is lost: a raised semaphore never has only sleepers behind it. */
  ghost predicate NoLostWakeup(s: Pool) {
    s.v == 1 && Asleep in s.workers ==> Signalled in s.workers
  }

  /** What thpool_wait relies on while it holds the lock and while it sleeps. */
  ghost predicate Waiting(s: Pool) {
    && (s.waiter in {SawBusy, WaitAsleep} ==> s.queue != [] || s.working > 0)
    && (s.waiter != Outside ==> s.target <= |s.pushed|)
    && (s.waiter == SawEmpty ==> s.target <= |s.pulled|)
    && (forall job: nat :: job < s.settled ==> job in s.finished)
  }

  ghost predicate Inv(s: Pool) {
    && Counters(s) && Locking(s) && Phases(s) && Fifo(s) && Exclusive(s) && Accounted(s)
    && NotStranded(s) && NoLostWakeup(s) && Waiting(s)
  }

  // ---------- it holds initially ----------

  lemma {:induction false} SumOfLoopTops(n: nat)
    ensures Sum(Working, seq(n, _ => LoopTop)) == 0
    ensures Sum(Living, seq(n, _ => LoopTop)) == n
  {
    if n > 0 {
      assert seq(n, _ => LoopTop)[1..] == seq(n - 1, _ => LoopTop);
      SumOfLoopTops(n - 1);
    }
  }

  lemma InitEstablishes(n: nat)
    ensures Inv(Init(n))
  {
    SumOfLoopTops(n);
  }

  // ---------- every step keeps it ----------

  lemma SumWake(t: Tally, ws: seq<Pc>, wake: Option<nat>)
    requires MayWake(ws, wake)
    ensures t != Rank ==> Sum(t, Wake(ws, wake)) == Sum(t, ws)
    ensures Sum(t, Wake(ws, wake)) <= Sum(t, ws) + 1
  {
    if wake.Some? {
      SumUpdate(t, ws, wake.value, Signalled);
    }
  }

  /** The worker a step moves, if it moves exactly one. */
  predicate MovesOne(l: Label) {
    || l.TestLoop? || l.TakeOrSleep? || l.TestWoken? || l.CountIn? || l.PullUpdate? || l.RunJob?
    || l.CountOut? || l.Leave? || l.Spurious?
  }

  lemma MoveOne(s: Pool, l: Label)
    requires MovesOne(l) && Enabled(s, l)
    ensures l.id < |s.workers| == |Apply(s, l).workers|
    ensures Apply(s, l).workers == s.workers[l.id := Apply(s, l).workers[l.id]]
  {
  }

  lemma TallyKept(t: Tally, s: Pool, l: Label)
    requires t != Rank && Enabled(s, l)
    ensures MovesOne(l) ==> l.id < |s.workers| && l.id < |Apply(s, l).workers|
    ensures Sum(t, Apply(s, l).workers) == Sum(t, s.workers)
      + if MovesOne(l) then Weight(t, Apply(s, l).workers[l.id]) - Weight(t, s.workers[l.id]) else 0
  {
    var s' := Apply(s, l);
    if MovesOne(l) {
      MoveOne(s, l);
      SumUpdate(t, s.workers, l.id, s'.workers[l.id]);
    } else if l.PushPost? {
      SumWake(t, s.workers, l.wake);
    } else if l.PullPost? {
      SumWake(t, s.workers, l.wake);
      SumUpdate(t, Wake(s.workers, l.wake), l.id, s'.workers[l.id]);
    } else if l.PostAll? {
      SumWakeAll(t, s.workers);
    }
  }

  /** The counters change as the one moving worker's weights do. */
  lemma WorkingMoves(s: Pool, l: Label)
    requires Enabled(s, l)
    ensures MovesOne(l) ==> l.id < |s.workers| && l.id < |Apply(s, l).workers|
    ensures Apply(s, l).working == s.working
      + if MovesOne(l) then Weight(Working, Apply(s, l).workers[l.id]) - Weight(Working, s.workers[l.id]) else 0
  {
  }

  lemma AliveMoves(s: Pool, l: Label)
    requires Enabled(s, l)
    ensures MovesOne(l) ==> l.id < |s.workers| && l.id < |Apply(s, l).workers|
    ensures Apply(s, l).alive == s.alive
      + if MovesOne(l) then Weight(Living, Apply(s, l).workers[l.id]) - Weight(Living, s.workers[l.id]) else 0
  {
  }

  lemma CountersKept(s: Pool, l: Label)
    requires Counters(s) && Enabled(s, l)
    ensures Counters(Apply(s, l))
  {
    WorkingMoves(s, l);
    AliveMoves(s, l);
    TallyKept(Working, s, l);
    TallyKept(Living, s, l);
  }

  lemma HolderStays(s: Pool, l: Label, i: nat)
    requires Locking(s) && Enabled(s, l) && i < |s.workers|
    ensures i < |Apply(s, l).workers|
    ensures Apply(s, l).workers[i].Reposting? ==> Apply(s, l).mutex == Puller(i)
  {
  }

  /** The queue mutex between two steps: a pull takes it if it leaves jobs behind. */
  lemma MutexMoves(s: Pool, l: Label)
    requires Locking(s) && Enabled(s, l)
    ensures var s' := Apply(s, l);
      s'.v <= 1 && (s'.mutex.Puller? ==>
        s'.mutex.id < |s'.workers| && s'.workers[s'.mutex.id].Reposting? && s'.queue != [])
  {
  }

  lemma LockingKept(s: Pool, l: Label)
    requires Locking(s) && Enabled(s, l)
    ensures Locking(Apply(s, l))
  {
    StepKeepsCrew(s, l);
    MutexMoves(s, l);
    forall i | 0 <= i < |s.workers| && Apply(s, l).workers[i].Reposting?
      ensures Apply(s, l).mutex == Puller(i)
    {
      HolderStays(s, l, i);
    }
  }

  lemma NoOneLeavesKept(s: Pool, l: Label, i: nat)
    requires Enabled(s, l) && s.keepalive && i < |s.workers|
    requires s.workers[i] != Leaving && s.workers[i] != Exited
    ensures i < |Apply(s, l).workers|
    ensures Apply(s, l).workers[i] != Leaving && Apply(s, l).workers[i] != Exited
  {
  }

  lemma FlagsMove(s: Pool, l: Label)
    requires Phases(s) && Enabled(s, l)
    ensures var s' := Apply(s, l);
      && (s'.keepalive ==> s.keepalive)
      && (s'.keepalive <==> s'.destroyer == NotCalled)
      && (s'.waiter != Outside ==> s'.destroyer == NotCalled)
  {
  }

  lemma CleanupMoves(s: Pool, l: Label)
    requires Phases(s) && Locking(s) && Enabled(s, l)
    requires l.Leave? ==> s.destroyer in {NotCalled, Polling, Posting}
    ensures var s' := Apply(s, l);
      && (s'.destroyer == Clearing || s'.destroyer == Destroyed ==> s'.alive == 0)
      && (s'.destroyer != Clearing && s'.destroyer != Destroyed ==> s'.discarded == [])
  {
  }

  lemma DestroyedStays(s: Pool, l: Label)
    requires Phases(s) && Locking(s) && Enabled(s, l) && Apply(s, l).destroyer == Destroyed
    ensures Apply(s, l).queue == [] && Apply(s, l).mutex == Free && Apply(s, l).v == 0
  {
  }

  lemma PhasesKept(s: Pool, l: Label)
    requires Phases(s) && Locking(s) && Enabled(s, l)
    requires l.Leave? ==> s.destroyer in {NotCalled, Polling, Posting}
    ensures Phases(Apply(s, l))
  {
    StepKeepsCrew(s, l);
    FlagsMove(s, l);
    CleanupMoves(s, l);
    if Apply(s, l).destroyer == Destroyed {
      DestroyedStays(s, l);
    }
    if s.keepalive {
      forall i | 0 <= i < |s.workers|
        ensures Apply(s, l).workers[i] != Leaving && Apply(s, l).workers[i] != Exited
      {
        NoOneLeavesKept(s, l, i);
      }
    }
  }

  /** While a worker lives, nothing has been discarded. */
  lemma AliveMeansNotCleared(s: Pool, id: nat)
    requires Inv(s) && id < |s.workers| && s.workers[id] != Exited
    ensures s.destroyer in {NotCalled, Polling, Posting} && s.discarded == []
  {
    SumAtLeast(Living, s.workers, id);
  }

  /** Moving the front of the queue behind what was taken before keeps the order. */
  lemma TakenInOrder(pulled: seq<nat>, discarded: seq<nat>, queue: seq<nat>)
    requires queue != []
    ensures pulled + (discarded + [queue[0]]) + queue[1..] == pulled + discarded + queue
    ensures discarded == [] ==> pulled + [queue[0]] + discarded + queue[1..] == pulled + discarded + queue
  {
    assert queue == [queue[0]] + queue[1..];
  }

  /** Which steps move jobs: an add, a pull by a worker, and a pull of the cleanup. */
  lemma JobsMove(s: Pool, l: Label)
    requires Enabled(s, l)
    ensures var s' := Apply(s, l);
      if l.PushUpdate? then
        && s'.queue == s.queue + [|s.pushed|] && s'.pushed == s.pushed + [|s.pushed|]
        && s'.pulled == s.pulled && s'.discarded == s.discarded
      else if l.PullUpdate? && s.queue != [] then
        && s'.queue == s.queue[1..] && s'.pulled == s.pulled + [s.queue[0]]
        && s'.pushed == s.pushed && s'.discarded == s.discarded
      else if l.ClearPull? then
        && s'.queue == s.queue[1..] && s'.discarded == s.discarded + [s.queue[0]]
        && s'.pushed == s.pushed && s'.pulled == s.pulled
      else
        && s'.queue == s.queue && s'.pushed == s.pushed
        && s'.pulled == s.pulled && s'.discarded == s.discarded
  {
  }

  lemma FifoKept(s: Pool, l: Label)
    requires Fifo(s) && Enabled(s, l)
    requires l.PullUpdate? ==> s.discarded == []
    ensures Fifo(Apply(s, l))
  {
    JobsMove(s, l);
    if l.PushUpdate? {
      Regroup(s.pulled + s.discarded, s.queue, [|s.pushed|]);
    } else if l.ClearPull? || (l.PullUpdate? && s.queue != []) {
      TakenInOrder(s.pulled, s.discarded, s.queue);
    }
  }

  /** The number of the job at the front is the number of jobs pulled so far. */
  lemma FrontNumber(s: Pool, id: nat)
    requires Inv(s) && id < |s.workers| && s.workers[id] != Exited && s.queue != []
    ensures s.queue[0] == |s.pulled|
  {
    AliveMeansNotCleared(s, id);
    assert (s.pulled + s.discarded + s.queue)[|s.pulled|] == s.queue[0];
  }

  /** How a step changes who holds what: one worker takes the job at the front, or one
      finishes its job, or nothing changes. */
  lemma HoldersAfter(s: Pool, l: Label)
    requires Enabled(s, l)
    ensures |Apply(s, l).workers| == |s.workers|
    ensures forall i :: 0 <= i < |s.workers| ==> Held(Apply(s, l).workers[i]) == HeldAfter(s, l, i)
  {
    StepKeepsCrew(s, l);
    forall i | 0 <= i < |s.workers|
      ensures Held(Apply(s, l).workers[i]) == HeldAfter(s, l, i)
    {
      HolderAfter(s, l, i);
    }
  }

  function HeldAfter(s: Pool, l: Label, i: nat): Option<nat>
    requires i < |s.workers|
  {
    if l.PullUpdate? && l.id == i then Front(s.queue)
    else if l.RunJob? && l.id == i then None
    else Held(s.workers[i])
  }

  lemma HolderAfter(s: Pool, l: Label, i: nat)
    requires Enabled(s, l) && i < |s.workers|
    ensures i < |Apply(s, l).workers| && Held(Apply(s, l).workers[i]) == HeldAfter(s, l, i)
  {
  }

  /** How a step changes which jobs are finished and which are pulled. */
  lemma JobsAfter(s: Pool, l: Label)
    requires Enabled(s, l)
    ensures Apply(s, l).finished == s.finished +
      if l.RunJob? && s.workers[l.id].found.Some? then [s.workers[l.id].found.value] else []
    ensures Apply(s, l).pulled == s.pulled +
      if l.PullUpdate? && s.queue != [] then [s.queue[0]] else []
  {
  }

  lemma StepKeepsCrew(s: Pool, l: Label)
    requires Enabled(s, l)
    ensures |Apply(s, l).workers| == |s.workers|
  {
  }

  lemma ExclusiveKept(s: Pool, l: Label)
    requires Exclusive(s) && Enabled(s, l)
    requires l.PullUpdate? && s.queue != [] ==> s.queue[0] == |s.pulled|
    ensures Exclusive(Apply(s, l))
  {
    HoldersAfter(s, l);
    JobsAfter(s, l);
  }

  lemma AccountedKept(s: Pool, l: Label)
    requires Accounted(s) && Enabled(s, l)
    requires l.PullUpdate? && s.queue != [] ==> s.queue[0] == |s.pulled|
    ensures Accounted(Apply(s, l))
  {
    var s' := Apply(s, l);
    if l.PullUpdate? && s.queue != [] {
      assert Held(s'.workers[l.id]) == Some(|s.pulled|);
    }
    forall job: nat | job < |s.pulled| && job !in s'.finished
      ensures IsHeld(s'.workers, job)
    {
      assert job !in s.finished;
      var i :| 0 <= i < |s.workers| && Held(s.workers[i]) == Some(job);
      assert Held(s'.workers[i]) == Some(job);
    }
  }

  /** A carrier goes on carrying until nothing is left to carry or the semaphore is raised. */
  lemma CarrierStays(s: Pool, l: Label, i: nat)
    requires s.v <= 1 && Enabled(s, l) && i < |s.workers| && Carries(s.workers[i])
    ensures i < |Apply(s, l).workers|
    ensures Carries(Apply(s, l).workers[i]) || Apply(s, l).v == 1 || Apply(s, l).queue == [] || !s.keepalive
  {
  }

  /** Who takes the semaphore becomes a carrier, and so does who leaves jobs behind. */
  lemma NewCarrier(s: Pool, l: Label)
    requires Enabled(s, l)
    requires l.PullUpdate? || (l.TakeOrSleep? && s.v == 1)
    ensures l.id < |Apply(s, l).workers|
    ensures Carries(Apply(s, l).workers[l.id]) || Apply(s, l).queue == []
  {
  }

  lemma NotStrandedKept(s: Pool, l: Label)
    requires Locking(s) && NotStranded(s) && Phases(s) && Enabled(s, l)
    ensures NotStranded(Apply(s, l))
  {
    if SomeCarrier(s.workers) {
      var i :| 0 <= i < |s.workers| && Carries(s.workers[i]);
      CarrierStays(s, l, i);
    }
    if l.PullUpdate? || (l.TakeOrSleep? && s.v == 1) {
      NewCarrier(s, l);
    }
  }

  lemma NoLostWakeupKept(s: Pool, l: Label)
    requires Locking(s) && NoLostWakeup(s) && Enabled(s, l)
    requires l.ClearPull? ==> Asleep !in s.workers
    ensures NoLostWakeup(Apply(s, l))
  {
    var s' := Apply(s, l);
    if s'.v == 1 && Asleep in s'.workers {
      var k :| 0 <= k < |s'.workers| && s'.workers[k] == Asleep;
      assert s.workers[k] == Asleep;
      if l.PushPost? || l.PullPost? {
        assert l.wake.Some? && s'.workers[l.wake.value] == Signalled;
      } else if Signalled in s.workers {
        var i :| 0 <= i < |s.workers| && s.workers[i] == Signalled;
        assert s'.workers[i] == Signalled;
      }
    }
  }

  /** With the working count at zero no worker holds a job, so every pulled job is done. */
  lemma IdleMeansFinished(s: Pool)
    requires Counters(s) && Accounted(s) && s.working == 0
    ensures forall job: nat :: job < |s.pulled| ==> job in s.finished
  {
    forall job: nat | job < |s.pulled|
      ensures job in s.finished
    {
      if job !in s.finished {
        var i :| 0 <= i < |s.workers| && Held(s.workers[i]) == Some(job);
        SumAtLeast(Working, s.workers, i);
      }
    }
  }

  /** How a step moves the waiter, its two marks, and the working count it reads. */
  lemma WaiterMoves(s: Pool, l: Label)
    requires Enabled(s, l)
    ensures var s' := Apply(s, l);
      && s'.working == s.working + (if l.CountIn? then 1 else if l.CountOut? then -1 else 0)
      && s'.target == (if l == WaitCall then |s.pushed| else s.target)
      && s'.settled == (if l == WaitReadWorking && s.working == 0 then s.target else s.settled)
      && (s'.waiter != Outside ==> s.waiter != Outside || l == WaitCall)
      && (s'.waiter == SawEmpty ==> s.waiter == SawEmpty || (l == WaitReadLen && s.queue == []))
      && (l == WaitReadWorking ==> s.waiter == SawEmpty)
  {
  }

  lemma SleeperMoves(s: Pool, l: Label)
    requires Enabled(s, l)
    ensures var s' := Apply(s, l);
      && (s'.waiter == SawBusy ==> !l.CountOut? && (s.waiter == SawBusy || (l == WaitReadLen && s.queue != [])
                                                   || (l == WaitReadWorking && s.working != 0)))
      && (s'.waiter == WaitAsleep ==> s.waiter in {SawBusy, WaitAsleep} && (l.CountOut? ==> s'.working != 0))
  {
  }

  lemma WaitingKept(s: Pool, l: Label)
    requires Waiting(s) && Enabled(s, l) && s.working >= 0
    requires |s.pulled| + |s.discarded| + |s.queue| == |s.pushed|
    requires s.waiter != Outside ==> s.discarded == [] && s.destroyer == NotCalled
    requires l.PullUpdate? ==> s.working > 0
    requires l.WaitReadWorking? && s.working == 0 ==> forall job: nat :: job < |s.pulled| ==> job in s.finished
    ensures Waiting(Apply(s, l))
  {
    JobsMove(s, l);
    JobsAfter(s, l);
    WaiterMoves(s, l);
    SleeperMoves(s, l);
  }

  lemma StepKeeps(s: Pool, l: Label)
    requires Inv(s) && Enabled(s, l)
    ensures Inv(Apply(s, l))
  {
    CountersKept(s, l);
    LockingKept(s, l);
    if l.Leave? {
      AliveMeansNotCleared(s, l.id);
    }
    PhasesKept(s, l);
    if l.PullUpdate? {
      AliveMeansNotCleared(s, l.id);
      if s.queue != [] {
        FrontNumber(s, l.id);
      }
    }
    FifoKept(s, l);
    ExclusiveKept(s, l);
    AccountedKept(s, l);
    NotStrandedKept(s, l);
    if l.ClearPull? {
      forall i | 0 <= i < |s.workers|
        ensures s.workers[i] == Exited
      {
        SumAtLeast(Living, s.workers, i);
      }
    }
    NoLostWakeupKept(s, l);
    if l.PullUpdate? {
      SumAtLeast(Working, s.workers, l.id);
    } else if l.WaitReadWorking? && s.working == 0 {
      IdleMeansFinished(s);
    }
    WaitingKept(s, l);
  }

  /** Every state of every run satisfies the invariant. */
  lemma {:induction false} RunKeeps(states: seq<Pool>, labels: seq<Label>, i: nat)
    requires Run(states, labels) && Inv(states[0]) && i < |states|
    ensures Inv(states[i])
  {
    if i > 0 {
      RunKeeps(states, labels, i - 1);
      StepKeeps(states[i - 1], labels[i - 1]);
    }
  }

  // ---------- what single steps do and do not do ----------

  /** A worker posts again exactly if it leaves jobs in the queue, and so does the cleanup. */
  lemma RepostsIffJobsAreLeft(s: Pool, l: Label)
    requires Locking(s) && Enabled(s, l)
    ensures l.PullUpdate? ==> l.id < |Apply(s, l).workers|
    ensures l.PullUpdate? ==> (Apply(s, l).workers[l.id].Reposting? <==> Apply(s, l).queue != [])
    ensures l.PullPost? ==> s.queue != [] && Apply(s, l).v == 1
    ensures l.ClearPull? ==> Apply(s, l).v == if Apply(s, l).queue != [] then 1 else s.v
    ensures l.PullUpdate? || l.RunJob? || l.CountOut? ==> Apply(s, l).v == s.v
  {
  }

  lemma {:induction false} NoneCounted(ws: seq<Pc>)
    ensures Sum(Working, ws) == 0 <==>
      forall i :: 0 <= i < |ws| ==> !(ws[i].Pulling? || ws[i].Reposting? || ws[i].Holding? || ws[i].Ran?)
  {
    if ws != [] {
      NoneCounted(ws[1..]);
      assert forall i :: 0 < i < |ws| ==> ws[i] == ws[1..][i - 1];
    }
  }

  /** A worker that counts itself out wakes the sleeping caller of thpool_wait exactly if no
      other worker is counted in. */
  lemma WaiterWokenIffIdle(s: Pool, id: nat)
    requires Counters(s) && Enabled(s, CountOut(id)) && s.waiter == WaitAsleep
    ensures var s' := Apply(s, CountOut(id));
      && s'.waiter in {WaitAsleep, WaitSignalled}
      && (s'.waiter == WaitSignalled <==> forall i :: 0 <= i < |s'.workers| ==>
            !(s'.workers[i].Pulling? || s'.workers[i].Reposting? || s'.workers[i].Holding? || s'.workers[i].Ran?))
  {
    CountersKept(s, CountOut(id));
    NoneCounted(Apply(s, CountOut(id)).workers);
  }

  /** While the caller of thpool_wait holds the count lock, nobody changes what it guards. */
  lemma CountsFrozenUnderLock(s: Pool, l: Label)
    requires Enabled(s, l) && s.waiter in {Checking, SawEmpty, SawBusy}
    ensures Apply(s, l).working == s.working && Apply(s, l).alive == s.alive
  {
  }

  /** Workers go round their loop, and the keepalive flag is obeyed: only with it set does a
      worker go on to wait for a job or to count itself in, it leaves only by finding it cleared
      at the head of the loop, and it comes back there after each job and each wake-up without
      one. What it does between counting itself in and out is one pull, then one run. */
  lemma WorkersFollowTheLoop(s: Pool, l: Label, i: nat)
    requires Enabled(s, l) && i < |s.workers|
    ensures i < |Apply(s, l).workers|
    ensures var pc, pc' := s.workers[i], Apply(s, l).workers[i];
      && (pc == LoopTop && pc' != pc ==> pc' == if s.keepalive then Enter else Leaving)
      && (pc == Woken && pc' != pc ==> pc' == if s.keepalive then Counting else LoopTop)
      && (pc' == Enter && pc' != pc ==> pc == LoopTop)
      && (pc' == Leaving && pc' != pc ==> pc == LoopTop)
      && (pc' == Counting && pc' != pc ==> pc == Woken)
      && (pc == Counting && pc' != pc ==> pc' == Pulling)
      && (pc == Pulling && pc' != pc ==> pc'.Reposting? || pc'.Holding?)
      && (pc.Reposting? && pc' != pc ==> pc' == Holding(Some(pc.job)))
      && (pc.Holding? && pc' != pc ==> pc' == Ran)
      && (pc == Ran && pc' != pc ==> pc' == LoopTop)
  {
  }

  /** Label l is a step of worker i. */
  predicate By(l: Label, i: nat) {
    match l
    case TestLoop(id) => id == i
    case TakeOrSleep(id) => id == i
    case TestWoken(id) => id == i
    case CountIn(id) => id == i
    case PullUpdate(id) => id == i
    case PullPost(id, _) => id == i
    case RunJob(id) => id == i
    case CountOut(id) => id == i
    case Leave(id) => id == i
    case _ => false
  }

  /** A step of this worker that is possible, if there is one. */
  function StepAt(s: Pool, i: nat, wake: Option<nat>): Label
    requires i < |s.workers|
  {
    match s.workers[i]
    case LoopTop => TestLoop(i)
    case Enter => TakeOrSleep(i)
    case Asleep => TakeOrSleep(i)
    case Signalled => TakeOrSleep(i)
    case Woken => TestWoken(i)
    case Counting => CountIn(i)
    case Pulling => PullUpdate(i)
    case Reposting(_) => PullPost(i, wake)
    case Holding(_) => RunJob(i)
    case Ran => CountOut(i)
    case Leaving => Leave(i)
    case Exited => Leave(i)
  }

  /** Workers are held up only by locks that others hold: one that neither sleeps nor has gone
      can move, unless it needs the count lock while the caller of thpool_wait has it, or the
      queue mutex while another thread has it. */
  lemma WorkerMovesIff(s: Pool, i: nat)
    requires i < |s.workers|
    ensures (exists l :: By(l, i) && Enabled(s, l)) <==>
      && s.workers[i] != Asleep && s.workers[i] != Exited
      && !(s.workers[i] in {Counting, Ran, Leaving} && s.waiter in {Checking, SawEmpty, SawBusy})
      && !(s.workers[i] == Pulling && s.mutex != Free)
  {
    var wake := SomeWake(s.workers);
    assert By(StepAt(s, i, wake), i);
    assert (exists l :: By(l, i) && Enabled(s, l)) ==> Enabled(s, StepAt(s, i, wake)) by {
      if l :| By(l, i) && Enabled(s, l) {
      }
    }
  }

  lemma SomeWake(workers: seq<Pc>) returns (wake: Option<nat>)
    ensures MayWake(workers, wake)
  {
    wake := None;
    if Asleep in workers {
      var k :| 0 <= k < |workers| && workers[k] == Asleep;
      wake := Some(k);
    }
  }

  /** An add needs the queue mutex, and must not overlap the cleanup; then its post is next. */
  lemma AdderMovesIff(s: Pool)
    ensures Enabled(s, PushUpdate) <==> s.mutex == Free && s.destroyer != Clearing && s.destroyer != Destroyed
    ensures (exists wake :: Enabled(s, PushPost(wake))) <==> s.mutex == Pusher
  {
    var wake := SomeWake(s.workers);
    assert Enabled(s, PushPost(wake)) <==> s.mutex == Pusher;
  }

  /** The caller of thpool_wait is never held up but asleep. */
  lemma WaiterMovesIff(s: Pool)
    ensures Enabled(s, WaitCall) <==> s.waiter == Outside && s.destroyer == NotCalled
    ensures Enabled(s, WaitLock) || Enabled(s, WaitReadLen) || Enabled(s, WaitReadWorking) || Enabled(s, WaitSleep)
      <==> s.waiter != Outside && s.waiter != WaitAsleep
  {
  }

  /** The caller of thpool_destroy is held up only by a holder of the queue mutex. */
  lemma DestroyerMovesIff(s: Pool)
    ensures Enabled(s, DestroyCall) <==> s.waiter == Outside && s.destroyer == NotCalled
    ensures Enabled(s, TestAlive) || Enabled(s, StartClear) || Enabled(s, PostAll)
      <==> s.destroyer == Polling || s.destroyer == Posting
    ensures Enabled(s, ClearPull) || Enabled(s, EndClear) <==> s.destroyer == Clearing && s.mutex == Free
  {
  }

  // ---------- before the first job ----------

  /** No worker gets past its wait, and nothing is counted or raised. */
  ghost predicate Untouched(s: Pool) {
    && s.v == 0 && s.queue == [] && s.mutex == Free && s.working == 0 && s.pulled == [] && s.finished == []
    && forall i :: 0 <= i < |s.workers| ==> s.workers[i] in {LoopTop, Enter, Asleep, Signalled}
  }

  lemma UntouchedKept(s: Pool, l: Label)
    requires Untouched(s) && Enabled(s, l) && s.keepalive && Apply(s, l).keepalive && Apply(s, l).pushed == []
    requires s.destroyer == NotCalled
    ensures Untouched(Apply(s, l)) && Apply(s, l).destroyer == NotCalled
  {
  }

  /** As long as no job has been added and the pool is kept alive, every worker waits and
      nothing moves but those who wait. */
  lemma {:induction false} IdleBeforeFirstJob(n: nat, states: seq<Pool>, labels: seq<Label>, i: nat)
    requires RunFromInit(n, states, labels) && i < |states|
    requires states[i].pushed == [] && states[i].keepalive
    ensures Untouched(states[i]) && states[i].destroyer == NotCalled
  {
    if i > 0 {
      assert Enabled(states[i - 1], labels[i - 1]);
      StillUnpushed(states[i - 1], labels[i - 1]);
      IdleBeforeFirstJob(n, states, labels, i - 1);
      UntouchedKept(states[i - 1], labels[i - 1]);
    }
  }

  lemma StillUnpushed(s: Pool, l: Label)
    requires Enabled(s, l) && Apply(s, l).pushed == [] && Apply(s, l).keepalive
    ensures s.pushed == [] && s.keepalive
  {
  }
}
