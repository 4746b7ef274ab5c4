/** The job queue of the thread pool: a singly linked list of heap nodes guarded by one
    mutex, together with the flag of its binary semaphore. */
module JobQueue {
  import opened Wrappers

  /** What a push does to the queued tasks. */
  function Enqueue<T>(jobs: seq<T>, task: T): seq<T> {
    jobs + [task]
  }

  /** What a pull hands out, if anything. */
  function Front<T>(jobs: seq<T>): Option<T> {
    if jobs == [] then None else Some(jobs[0])
  }

  /** What a pull leaves behind. */
  function Dequeue<T>(jobs: seq<T>): seq<T> {
    if jobs == [] then [] else jobs[1..]
  }

  /** A pull posts the semaphore again exactly when it leaves a job behind. */
  predicate MustRepost<T>(jobs: seq<T>) {
    |jobs| > 1
  }

  class Job<T> {
    const task: T
    var prev: Job?<T>

    constructor (task: T)
      ensures this.task == task
    {
      this.task := task;
      this.prev := null;
    }
  }

  class Queue<T> {
    var front: Job?<T>
    var rear: Job?<T>
    var len: int
    var v: int

    /** The nodes in queue order, front first. */
    ghost var nodes: seq<Job<T>>

    ghost predicate Valid()
      reads this, nodes
    {
      && Distinct(nodes)
      && len == |nodes|
      && (len == 0 ==> front == null && rear == null)
      && (len > 0 ==> front == nodes[0] && rear == nodes[len - 1] && rear.prev == null)
      && (forall i {:trigger nodes[i].prev} :: 0 <= i < len - 1 ==> nodes[i].prev == nodes[i + 1])
      && 0 <= v <= 1
    }

    /** The abstract value: the queued tasks, front first. */
    ghost function Tasks(): (ts: seq<T>)
      reads this
      ensures |ts| == |nodes|
      ensures forall i :: 0 <= i < |nodes| ==> ts[i] == nodes[i].task
    {
      var ns := nodes;
      seq(|ns|, i requires 0 <= i < |ns| => ns[i].task)
    }

    /** Following prev k times from the front; null once the chain ends. */
    ghost function Hops(k: nat): Job?<T>
      reads this, nodes
    {
      if k == 0 then front
      else
        var n := Hops(k - 1);
        if n == null || n !in nodes then null else n.prev
    }

    /** The chain from front enumerates the nodes: rear is len - 1 hops away and the next
        hop falls off the end. */
    lemma {:induction false} HopsEnumerate(k: nat)
      requires Valid()
      ensures k < |nodes| ==> Hops(k) == nodes[k]
      ensures k == |nodes| ==> Hops(k) == null
      ensures k + 1 == |nodes| ==> Hops(k) == rear
    {
      if k > 0 && k <= |nodes| {
        HopsEnumerate(k - 1);
      }
    }

    constructor ()
      ensures Valid() && Tasks() == [] && nodes == [] && v == 0
    {
      len, front, rear, v := 0, null, null, 0;
      nodes := [];
    }

    /** jobqueue_push: links the node behind the rear, then posts. */
    method Push(newjob: Job<T>)
      requires Valid() && newjob !in nodes
      modifies this, nodes, newjob
      ensures Valid()
      ensures nodes == old(nodes) + [newjob]
      ensures Tasks() == Enqueue(old(Tasks()), newjob.task)
      ensures v == 1
    {
      newjob.prev := null;
      if len == 0 {
        front := newjob;
        rear := newjob;
      } else {
        rear.prev := newjob;
        rear := newjob;
      }
      len := len + 1;
      nodes := nodes + [newjob];
      v := 1;
    }

    /** thpool_add_work: allocates the node and pushes it. */
    method AddWork(task: T) returns (newjob: Job<T>)
      requires Valid()
      modifies this, nodes
      ensures Valid() && fresh(newjob) && newjob.task == task
      ensures nodes == old(nodes) + [newjob]
      ensures Tasks() == Enqueue(old(Tasks()), task)
      ensures v == 1
    {
      newjob := new Job(task);
      Push(newjob);
    }

    /** jobqueue_pull: unlinks the front node, posting again when jobs remain. */
    method Pull() returns (job: Job?<T>)
      requires Valid()
      modifies this
      ensures Valid()
      ensures job == null <==> old(nodes) == []
      ensures job != null ==> job == old(nodes)[0] && nodes == old(nodes)[1..]
      ensures job == null ==> nodes == []
      ensures Front(old(Tasks())) == if job == null then None else Some(job.task)
      ensures Tasks() == Dequeue(old(Tasks()))
      ensures v == if nodes != [] then 1 else old(v)
    {
      job := front;
      if len == 0 {
      } else if len == 1 {
        front := null;
        rear := null;
        len := 0;
        nodes := [];
      } else {
        front := job.prev;
        len := len - 1;
        nodes := nodes[1..];
        v := 1;
      }
    }

    /** jobqueue_clear: frees every node exactly once, in queue order, and resets the flag. */
    method Clear() returns (ghost freed: seq<Job<T>>)
      requires Valid()
      modifies this
      ensures Valid()
      ensures freed == old(nodes)
      ensures nodes == [] && v == 0
    {
      freed := [];
      ghost var all := nodes;
      while len != 0
        invariant Valid()
        invariant |freed| <= |all| && nodes == all[|freed|..]
        invariant freed == all[..|freed|]
        decreases len
      {
        var job := Pull();
        freed := freed + [job];
      }
      front := null;
      rear := null;
      v := 0;
      len := 0;
    }
  }
}
