/**
 The fixed-size scheduler: `numberOfThreads` workers created and started by
 the constructor, and a command queue that `enqueue` appends to and `dequeue`
 polls. Neither operation ever touches the pool.
 */
module FixedPool {
  import opened JavaSemantics
  import TaskQueue

  /** A worker thread: its `execute` flag and whether it has been started. */
  datatype Worker = Worker(execute: bool, started: bool)

  datatype Scheduler<T> = Scheduler(threads: seq<Worker>, queue: seq<T>)

  /** The result of one `dequeue`: the new state and the polled command. */
  datatype Dequeued<T> = Dequeued(next: Scheduler<T>, command: Option<T>)

  /** The `DPThread` constructor: the flag is set, the thread is not yet started. */
  function NewWorker(): (w: Worker)
    ensures w.execute && !w.started
  {
    Worker(true, false)
  }

  /** `Thread.start`. */
  function Start(w: Worker): (w': Worker)
    ensures w'.started && w'.execute == w.execute
  {
    w.(started := true)
  }

  /** The constructor: allocating the array of workers throws for a negative
      size; otherwise every slot gets a new worker, which is then started. */
  function Create<T>(numberOfThreads: int): (r: Result<Scheduler<T>>)
    ensures numberOfThreads < 0 <==> r == Thrown(NegativeArraySizeException)
    ensures numberOfThreads >= 0 ==> r.Ok?
    ensures r.Ok? ==> |r.value.threads| == numberOfThreads && r.value.queue == []
    ensures r.Ok? ==> forall i :: 0 <= i < |r.value.threads| ==>
                         r.value.threads[i].execute && r.value.threads[i].started
  {
    if numberOfThreads < 0 then Thrown(NegativeArraySizeException)
    else Ok(Scheduler(seq(numberOfThreads, i => Start(NewWorker())), []))
  }

  /** `enqueue`: the command goes to the tail of the queue. */
  function Enqueue<T>(s: Scheduler<T>, command: T): (s': Scheduler<T>)
    ensures s'.queue == s.queue + [command]
    ensures s'.threads == s.threads
  {
    s.(queue := TaskQueue.Add(s.queue, command))
  }

  /** `dequeue`: the head of the queue, or `null` with the queue left empty. */
  function Dequeue<T>(s: Scheduler<T>): (r: Dequeued<T>)
    ensures r.next.threads == s.threads
    ensures |s.queue| == 0 ==> r.command == None && r.next.queue == s.queue
    ensures |s.queue| > 0 ==> r.command == Some(s.queue[0]) && r.next.queue == s.queue[1..]
  {
    var (head, rest) := TaskQueue.Poll(s.queue);
    Dequeued(s.(queue := rest), head)
  }

  /** The state after `ops`, and the result of every claim. */
  function Run<T>(s: Scheduler<T>, ops: seq<TaskQueue.Op<T>>): (r: (Scheduler<T>, seq<Option<T>>)) {
    if |ops| == 0 then (s, [])
    else
      var (s0, out) := Run(s, ops[..|ops| - 1]);
      match ops[|ops| - 1]
      case Submit(c) => (Enqueue(s0, c), out)
      case Claim => var d := Dequeue(s0); (d.next, out + [d.command])
  }

  /** After construction the pool never changes, and the queue and the claim
      results are exactly those of the bare queue under the same operations. */
  lemma {:induction false} RunAgreesWithQueue<T>(s: Scheduler<T>, ops: seq<TaskQueue.Op<T>>)
    ensures Run(s, ops).0.threads == s.threads
    ensures Run(s, ops).0.queue == TaskQueue.Run(s.queue, ops).0
    ensures Run(s, ops).1 == TaskQueue.Run(s.queue, ops).1
  {
    if |ops| > 0 {
      RunAgreesWithQueue(s, ops[..|ops| - 1]);
    }
  }

  /** Commands are claimed in exactly the order they were submitted, and none is lost. */
  lemma Fifo<T>(s: Scheduler<T>, ops: seq<TaskQueue.Op<T>>)
    ensures TaskQueue.Claimed(Run(s, ops).1) + Run(s, ops).0.queue == s.queue + TaskQueue.Submitted(ops)
  {
    RunAgreesWithQueue(s, ops);
    TaskQueue.Fifo(s.queue, ops);
  }
}
