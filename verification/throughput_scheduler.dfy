/**
 The throughput-measuring elastic scheduler: the elastic pool of `ElasticPool`
 together with the `Metrics` recorder. Every `synchronized` method and every
 timer tick is one atomic event; a worker's handling of one command is the
 three events `Claim`, `Complete` and `Latency`, in that order.
 */
module ThroughputScheduler {
  import opened JavaSemantics
  import TaskQueue
  import ElasticPool
  import Metrics

  datatype State<T> = State(pool: ElasticPool.Scheduler<T>, metrics: Metrics.Recorder)

  /** One atomic event. `Latency` carries the two clock readings of the task
      it records; `Tick` is one firing of the once-a-second timer task. */
  datatype Event<T> =
    | Submit(command: T)
    | Claim
    | Complete
    | Latency(startTime: int, now: int)
    | Tick

  /** The pool sizes a sample can read from a valid pool. */
  predicate PoolSize(n: int) {
    ElasticPool.MinThreadPoolSize <= n <= ElasticPool.MaxThreadPoolSize
  }

  /** The reachable states: a valid pool, lockstep metrics, and every recorded
      pool size within the pool's bounds. */
  ghost predicate Valid<T>(st: State<T>) {
    && ElasticPool.Valid(st.pool)
    && Metrics.Lockstep(st.metrics)
    && (forall i :: 0 <= i < |st.metrics.threadCounts| ==> PoolSize(st.metrics.threadCounts[i]))
    && (forall i :: 0 <= i < |st.metrics.latencyThreadCounts| ==> PoolSize(st.metrics.latencyThreadCounts[i]))
  }

  /** The constructor: one worker, an empty queue, a fresh recorder. */
  function Create<T>(): (st: State<T>)
    ensures |st.pool.threads| == 1 && st.pool.queue == []
    ensures st.metrics.secondMarker == 0 && Metrics.Accounted(st.metrics) == 0
    ensures st.pool.killed == {}
    ensures |st.metrics.seconds| == 0
    ensures |st.metrics.latencySeconds| == 0 && |st.metrics.latencyProcessTimes| == 0
    ensures Valid(st)
  {
    InitialValid<T>();
    State(ElasticPool.Create(), Metrics.Initial())
  }

  lemma InitialValid<T>()
    ensures Valid(State(ElasticPool.Create<T>(), Metrics.Initial()))
  {
  }

  /** The state after one event, and the claim result if the event is a claim. */
  function Step<T>(st: State<T>, e: Event<T>): (r: (State<T>, Option<Option<T>>))
    ensures e.Claim? <==> r.1.Some?
    ensures !e.Submit? && !e.Claim? ==> r.0.pool == st.pool
    ensures e.Submit? || e.Claim? ==> r.0.metrics == st.metrics
    ensures e.Complete? ==> r.0.metrics == Metrics.AddToProcessedTasks(st.metrics)
    ensures e.Latency? ==> r.0.metrics == Metrics.CalculateLatencyData(st.metrics, e.startTime, e.now, |st.pool.threads|)
    ensures e.Tick? ==> r.0.metrics == Metrics.Tick(st.metrics, |st.pool.threads|)
    ensures Valid(st) ==> Valid(r.0)
  {
    match e
    case Submit(c) => (st.(pool := ElasticPool.Enqueue(st.pool, c)), None)
    case Claim =>
      var d := ElasticPool.Dequeue(st.pool);
      (st.(pool := d.next), Some(d.command))
    case Complete => (st.(metrics := Metrics.AddToProcessedTasks(st.metrics)), None)
    case Latency(startTime, now) =>
      var m' := Metrics.CalculateLatencyData(st.metrics, startTime, now, |st.pool.threads|);
      assert m'.latencyThreadCounts[|st.metrics.latencyThreadCounts|] == |st.pool.threads|;
      (st.(metrics := m'), None)
    case Tick =>
      var m' := Metrics.Tick(st.metrics, |st.pool.threads|);
      assert m'.threadCounts[|st.metrics.threadCounts|] == |st.pool.threads|;
      (st.(metrics := m'), None)
  }

  /** The state after `evs`, and the result of every claim. */
  function Run<T>(st: State<T>, evs: seq<Event<T>>): (r: (State<T>, seq<Option<T>>)) {
    if |evs| == 0 then (st, [])
    else
      var (st0, out) := Run(st, evs[..|evs| - 1]);
      var (st1, claimed) := Step(st0, evs[|evs| - 1]);
      (st1, if claimed.Some? then out + [claimed.value] else out)
  }

  /** The submissions and claims of `evs`, in order. */
  function QueueOps<T>(evs: seq<Event<T>>): seq<TaskQueue.Op<T>> {
    if |evs| == 0 then []
    else
      QueueOps(evs[..|evs| - 1]) +
        match evs[|evs| - 1]
        case Submit(c) => [TaskQueue.Submit(c)]
        case Claim => [TaskQueue.Claim]
        case _ => []
  }

  /** The number of `Complete` events in `evs`. */
  function Completions<T>(evs: seq<Event<T>>): nat {
    if |evs| == 0 then 0
    else Completions(evs[..|evs| - 1]) + (if evs[|evs| - 1].Complete? then 1 else 0)
  }

  /** Every reachable state is valid: the pool stays within `1..50`, the
      metric arrays stay in lockstep, and every recorded pool size is in `1..50`. */
  lemma {:induction false} RunPreservesValid<T>(st: State<T>, evs: seq<Event<T>>)
    requires Valid(st)
    ensures Valid(Run(st, evs).0)
  {
    if |evs| > 0 {
      RunPreservesValid(st, evs[..|evs| - 1]);
    }
  }

  /** The metrics never influence the pool: the pool, the queue and the claim
      results of a run are those of the elastic scheduler under its submissions
      and claims alone. */
  lemma {:induction false} RunAgreesWithPool<T>(st: State<T>, evs: seq<Event<T>>)
    ensures Run(st, evs).0.pool == ElasticPool.Run(st.pool, QueueOps(evs)).0
    ensures Run(st, evs).1 == ElasticPool.Run(st.pool, QueueOps(evs)).1
  {
    if |evs| > 0 {
      var init := evs[..|evs| - 1];
      RunAgreesWithPool(st, init);
      var ops := QueueOps(evs);
      var e := evs[|evs| - 1];
      match e
      case Submit(c) =>
        assert ops == QueueOps(init) + [TaskQueue.Submit(c)];
        assert ops[..|ops| - 1] == QueueOps(init);
      case Claim =>
        assert ops == QueueOps(init) + [TaskQueue.Claim];
        assert ops[..|ops| - 1] == QueueOps(init);
      case Complete =>
        assert ops == QueueOps(init);
      case Latency(_, _) =>
        assert ops == QueueOps(init);
      case Tick =>
        assert ops == QueueOps(init);
    }
  }

  /** No lost command, FIFO order, whatever the metric events in between. */
  lemma Fifo<T>(st: State<T>, evs: seq<Event<T>>)
    ensures TaskQueue.Claimed(Run(st, evs).1) + Run(st, evs).0.pool.queue ==
            st.pool.queue + TaskQueue.Submitted(QueueOps(evs))
  {
    RunAgreesWithPool(st, evs);
    ElasticPool.Fifo(st.pool, QueueOps(evs));
  }

  /** Every completion is counted exactly once: the sampled counts plus the
      count since the last tick grow by one per `Complete` event and by
      nothing else. */
  lemma {:induction false} CompletionsAccounted<T>(st: State<T>, evs: seq<Event<T>>)
    ensures Metrics.Accounted(Run(st, evs).0.metrics) == Metrics.Accounted(st.metrics) + Completions(evs)
  {
    if |evs| > 0 {
      CompletionsAccounted(st, evs[..|evs| - 1]);
    }
  }
}
