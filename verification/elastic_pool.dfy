/**
 The elastic ("SEDA") scheduler: one command queue and a pool of worker
 threads that grows by one on `enqueue` when the queue is deep and sheds its
 oldest worker on `dequeue` when the queue is shallow. Both operations are
 `synchronized`, so each call is one atomic transition of `Scheduler`.

 Workers are named by creation order: the n-th `DPThread` ever constructed is
 worker `n`. `killed` is the set of workers whose `execute` flag has been
 cleared by `kill`; such a worker finishes its current drain and stops.
 */
module ElasticPool {
  import opened JavaSemantics
  import TaskQueue

  /** `MAX_THREAD_POOL_SIZE`. */
  const MaxThreadPoolSize: nat := 50
  /** `enqueue` adds a worker only when the queue holds more commands than this. */
  const GrowDepth: nat := 50
  /** `dequeue` retires a worker only when the queue holds fewer commands than this. */
  const ShrinkDepth: nat := 50
  /** `dequeue` never retires the last worker. */
  const MinThreadPoolSize: nat := 1

  type WorkerId = nat

  datatype Scheduler<T> = Scheduler(
    queue: seq<T>,
    threads: seq<WorkerId>,   // the pool, oldest first
    killed: set<WorkerId>,    // workers told to stop
    created: nat              // workers constructed so far
  )

  /** The result of one `dequeue`: the new state and the polled command. */
  datatype Dequeued<T> = Dequeued(next: Scheduler<T>, command: Option<T>)

  predicate WithinBounds<T>(s: Scheduler<T>) {
    MinThreadPoolSize <= |s.threads| <= MaxThreadPoolSize
  }

  /** The reachable states: the pool size is within bounds, the pool holds the
      most recently created workers in creation order, and every older worker
      has been killed. */
  ghost predicate Valid<T>(s: Scheduler<T>) {
    && WithinBounds(s)
    && |s.threads| <= s.created
    && (forall i :: 0 <= i < |s.threads| ==> s.threads[i] == s.created - |s.threads| + i)
    && (forall w: WorkerId :: w in s.killed <==> w < s.created - |s.threads|)
  }

  /** The constructor: an empty queue and one started worker. */
  function Create<T>(): (s: Scheduler<T>)
    ensures s.queue == [] && |s.threads| == 1 && s.killed == {}
    ensures Valid(s)
  {
    Scheduler([], [0], {}, 1)
  }

  /** `enqueue`: possibly add one worker, then append the command. */
  function Enqueue<T>(s: Scheduler<T>, command: T): (s': Scheduler<T>)
    ensures s'.queue == s.queue + [command]
    ensures |s'.threads| == |s.threads| + 1 <==> |s.queue| > GrowDepth && |s.threads| < MaxThreadPoolSize
    ensures |s'.threads| == |s.threads| + 1 ==> s'.threads == s.threads + [s.created] && s'.created == s.created + 1
    ensures |s'.threads| != |s.threads| + 1 ==> s'.threads == s.threads && s'.created == s.created
    ensures s'.killed == s.killed
    ensures WithinBounds(s) ==> WithinBounds(s')
    ensures Valid(s) ==> Valid(s')
  {
    var grown :=
      if |s.queue| > GrowDepth && |s.threads| < MaxThreadPoolSize
      then s.(threads := s.threads + [s.created], created := s.created + 1)
      else s;
    grown.(queue := TaskQueue.Add(grown.queue, command))
  }

  /** `DPThread.kill`: clear the worker's `execute` flag. */
  function Kill<T>(s: Scheduler<T>, w: WorkerId): (s': Scheduler<T>)
    ensures w in s'.killed && s'.killed - {w} == s.killed - {w}
    ensures s'.queue == s.queue && s'.threads == s.threads && s'.created == s.created
  {
    s.(killed := s.killed + {w})
  }

  /** `dequeue`: possibly remove and kill the oldest worker, then poll the queue. */
  function Dequeue<T>(s: Scheduler<T>): (r: Dequeued<T>)
    ensures |r.next.threads| == |s.threads| - 1 <==> |s.queue| < ShrinkDepth && |s.threads| > MinThreadPoolSize
    ensures |r.next.threads| == |s.threads| - 1 ==>
      r.next.threads == s.threads[1..] && r.next.killed == s.killed + {s.threads[0]}
    ensures |r.next.threads| != |s.threads| - 1 ==> r.next.threads == s.threads && r.next.killed == s.killed
    ensures r.next.created == s.created
    ensures |s.queue| == 0 ==> r.command == None && r.next.queue == []
    ensures |s.queue| > 0 ==> r.command == Some(s.queue[0]) && r.next.queue == s.queue[1..]
    ensures WithinBounds(s) ==> WithinBounds(r.next)
    ensures Valid(s) ==> Valid(r.next)
  {
    var shrunk :=
      if |s.queue| < ShrinkDepth && |s.threads| > MinThreadPoolSize
      then Kill(s.(threads := s.threads[1..]), s.threads[0])
      else s;
    var (head, rest) := TaskQueue.Poll(shrunk.queue);
    Dequeued(shrunk.(queue := rest), head)
  }

  /** The state after `ops`, and the result of every claim. */
  function Run<T>(s: Scheduler<T>, ops: seq<TaskQueue.Op<T>>): (r: (Scheduler<T>, seq<Option<T>>)) {
    if |ops| == 0 then (s, [])
    else
      var (s0, out) := Run(s, ops[..|ops| - 1]);
      match ops[|ops| - 1]
      case Submit(c) => (Enqueue(s0, c), out)
      case Claim => var d := Dequeue(s0); (d.next, out + [d.command])
  }

  /** Every reachable state is valid, so `1 <= |pool| <= 50` holds after any run. */
  lemma {:induction false} RunPreservesValid<T>(s: Scheduler<T>, ops: seq<TaskQueue.Op<T>>)
    requires Valid(s)
    ensures Valid(Run(s, ops).0)
    ensures WithinBounds(Run(s, ops).0)
  {
    if |ops| > 0 {
      RunPreservesValid(s, ops[..|ops| - 1]);
    }
  }

  /** Each single operation moves the pool size by at most one. */
  lemma StepChangesPoolByAtMostOne<T>(s: Scheduler<T>, op: TaskQueue.Op<T>)
    ensures var s' := Run(s, [op]).0; |s.threads| - 1 <= |s'.threads| <= |s.threads| + 1
  {
    assert [op][..0] == [];
  }

  /** With exactly 50 queued commands neither operation resizes the pool: both
      comparisons are strict. */
  lemma NoResizeAtFifty<T>(s: Scheduler<T>, command: T)
    requires |s.queue| == 50
    ensures Enqueue(s, command).threads == s.threads
    ensures Dequeue(s).next.threads == s.threads
  {
  }

  /** The pool logic never touches the queue: the queue and the claim results
      of a run are those of the bare queue under the same operations. */
  lemma {:induction false} RunAgreesWithQueue<T>(s: Scheduler<T>, ops: seq<TaskQueue.Op<T>>)
    ensures Run(s, ops).0.queue == TaskQueue.Run(s.queue, ops).0
    ensures Run(s, ops).1 == TaskQueue.Run(s.queue, ops).1
  {
    if |ops| > 0 {
      RunAgreesWithQueue(s, ops[..|ops| - 1]);
    }
  }

  /** No lost command, FIFO order: claimed commands followed by the queue are
      the initial queue followed by the submissions, in order. */
  lemma Fifo<T>(s: Scheduler<T>, ops: seq<TaskQueue.Op<T>>)
    ensures TaskQueue.Claimed(Run(s, ops).1) + Run(s, ops).0.queue == s.queue + TaskQueue.Submitted(ops)
  {
    RunAgreesWithQueue(s, ops);
    TaskQueue.Fifo(s.queue, ops);
  }

  /** A worker, once killed, is never in the pool again, and every worker ever
      created is either in the pool or killed. */
  lemma KilledWorkersStayRetired<T>(s: Scheduler<T>, ops: seq<TaskQueue.Op<T>>, w: WorkerId)
    requires Valid(s)
    requires w in s.killed
    ensures var s' := Run(s, ops).0; w in s'.killed && w !in s'.threads
    ensures var s' := Run(s, ops).0; forall v: WorkerId :: v < s'.created ==> (v in s'.killed <==> v !in s'.threads)
  {
    RunPreservesValid(s, ops);
    RunKeepsKilled(s, ops, w);
    var s' := Run(s, ops).0;
    forall v: WorkerId | v < s'.created
      ensures v in s'.killed <==> v !in s'.threads
    {
      if v in s'.threads {
        var i :| 0 <= i < |s'.threads| && s'.threads[i] == v;
      }
      if v >= s'.created - |s'.threads| {
        assert s'.threads[v - (s'.created - |s'.threads|)] == v;
      }
    }
  }

  lemma {:induction false} RunKeepsKilled<T>(s: Scheduler<T>, ops: seq<TaskQueue.Op<T>>, w: WorkerId)
    requires w in s.killed
    ensures w in Run(s, ops).0.killed
  {
    if |ops| > 0 {
      RunKeepsKilled(s, ops[..|ops| - 1], w);
    }
  }

  /** A burst of `n` submissions to a fresh scheduler with no claims: the
      enqueue that finds more than 50 commands waiting adds a worker, so the
      52nd submission is the first to grow the pool, and growth stops at 50. */
  lemma {:induction false} BurstGrowth<T>(cs: seq<T>)
    ensures Run(Create<T>(), TaskQueue.Submits(cs)).0.queue == cs
    ensures |Run(Create<T>(), TaskQueue.Submits(cs)).0.threads| == BurstPoolSize(|cs|)
  {
    if |cs| > 0 {
      var init := cs[..|cs| - 1];
      var ops := TaskQueue.Submits(cs);
      assert ops[..|cs| - 1] == TaskQueue.Submits(init);
      BurstGrowth(init);
      var s0 := Run(Create<T>(), TaskQueue.Submits(init)).0;
      assert Run(Create<T>(), ops).0 == Enqueue(s0, cs[|cs| - 1]);
    }
  }

  /** Pool size after `n` back-to-back submissions to a fresh scheduler. */
  function BurstPoolSize(n: nat): nat {
    if n <= GrowDepth + 1 then 1
    else if n - GrowDepth < MaxThreadPoolSize then n - GrowDepth
    else MaxThreadPoolSize
  }

  /** With an empty queue every claim retires one worker until one is left. */
  lemma {:induction false} IdleShrinksToOne<T>(s: Scheduler<T>, k: nat)
    requires WithinBounds(s) && s.queue == []
    ensures Run(s, TaskQueue.Claims<T>(k)).0.queue == []
    ensures |Run(s, TaskQueue.Claims<T>(k)).0.threads| ==
      if |s.threads| - k >= MinThreadPoolSize then |s.threads| - k else MinThreadPoolSize
  {
    if k > 0 {
      assert TaskQueue.Claims<T>(k)[..k - 1] == TaskQueue.Claims<T>(k - 1);
      IdleShrinksToOne(s, k - 1);
    }
  }
}
