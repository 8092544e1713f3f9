# Schedulers with throughput analysis, in Dafny

A model of a small family of Java work schedulers (`java.util.concurrent.Executor`
implementations) and the instrumentation one of them carries, with proofs about
the model:

- the **elastic ("SEDA") scheduler** `DPSedaScheduler`: a command queue and a
  pool of worker threads. `enqueue` adds a worker when more than 50 commands
  are waiting and the pool has fewer than 50 workers. `dequeue` retires the
  oldest worker when fewer than 50 commands are waiting and more than one
  worker is left;
- the **fixed-size scheduler** `DPFstpScheduler`: a queue and a pool fixed at
  construction;
- the **throughput-measuring elastic scheduler** `DPSedaSchedulerWithThroughput`:
  the elastic pool plus a once-a-second sample of completed tasks and pool
  size, a per-task latency record, the post-processing that averages latency
  per second, and the two text reports built from them;
- two pure helpers of the driver program `Main`: `calculateNthPrime` and
  `printNthSuffixFor`.

Every `synchronized` method is one atomic transition of an immutable state.
A run is a sequence of such events, and the lemmas quantify over all runs.

Java semantics the code depends on are written out in `JavaSemantics`
(`java.dfy`):

- exceptions as a `Result` value and `null` as `Option`;
- `/` and `%` truncating toward zero;
- `int` and `long` wrap-around;
- `Integer == Integer` as reference comparison, which agrees with value
  comparison only inside the boxing cache (-128..127).

| file | module | models |
|---|---|---|
| java.dfy | JavaSemantics | exceptions, `null`, truncating division, 32/64-bit wrap, boxed `==` |
| decimal.dfy | Decimal | `Integer.toString` and reading a decimal back |
| task_queue.dfy | TaskQueue | the `LinkedList` queue: `add`, `poll`, runs of submissions and claims |
| elastic_pool.dfy | ElasticPool | `DPSedaScheduler` |
| fixed_pool.dfy | FixedPool | `DPFstpScheduler` |
| metrics.dfy | Metrics | `RecordData.run`, the task counter, latency records, `averageLatencyData` and the averages |
| reports.dfy | Reports | `getThroughputDataString`, `getLatencyDataString` |
| throughput_scheduler.dfy | ThroughputScheduler | `DPSedaSchedulerWithThroughput` as a whole: pool and metrics under one event trace |
| primes.dfy | Primes | `Main.calculateNthPrime` |
| ordinals.dfy | Ordinals | `Main.printNthSuffixFor` |

Workers of the elastic pool are named by creation order: the n-th worker
ever constructed is worker `n`. Its reachable states are characterized by
`ElasticPool.Valid`:

- the pool is the most recently created workers, oldest first;
- every older worker has been killed;
- the pool size is in 1..50.

Three behaviours of the code are worth stating outright:

- **Burst growth.** A burst of 51 submissions to a fresh scheduler does not
  grow the pool. `enqueue` tests the queue size before adding, so the 52nd
  submission is the first to add a worker (`ElasticPool.BurstGrowth`).
- **Per-second averages.** `averageLatencyData` walks the entries with an
  expected second that starts at 1. It compares each entry's marker with the
  expected second using `==` on two `Integer` objects. That comparison
  agrees with value equality only inside the boxing cache, i.e. up to 127.
  - an entry that matches the expected second joins two buffers, which are
    never cleared, so each row is a running average of every entry kept so
    far;
  - every other entry emits one row, the averages of the unchanged buffers
    for the expected second, advances the expected second by one, and is
    itself dropped;
  - within the first 127 seconds the last second therefore never gets a row;
  - once a marker skips a second, the expected second lags behind the
    markers. Every later entry is dropped until one carries a marker equal to
    the expected second, and each dropped entry emits one more row repeating
    the previous values. With markers 1, 1, 3, 3 the two second-3 entries
    emit rows 1 and 2, row 2 repeats row 1, and neither entry is averaged;
  - from expected second 128 on, `==` compares two distinct `Integer`
    objects, so no entry matches, even one with the same value. Each entry
    emits one more row repeating the last averages and is dropped, and rows
    continue past the last second (`Metrics.NoMatchBeyondCache`).

  `Metrics.AverageLatencyData` states this for every marker sequence, with
  the comparison made as an `Integer` reference.
  `Metrics.AverageOnOrderedMarkers` restates it for markers without gaps
  that stay at most 127, in terms of which entry opens a second.
  `Metrics.QuirksExample` and `Metrics.GapExample` show it on small inputs.
- **Latency before the first sample.** A latency entry recorded before the
  first timer tick carries marker 0. The marker is compared with `Integer ==`
  against the boxed value 1, so the first emit divides by an empty list and
  the latency report throws `ArithmeticException`
  (`Metrics.AverageLatencyData`, `Reports.GetLatencyDataString`).

## Model

| member | source | states |
|---|---|---|
| JavaSemantics.Quot | src/throughputAnalysis/DPSedaSchedulerWithThroughput.java:225 | Java's `/` rounds toward zero: the remainder it leaves is smaller than the divisor in magnitude and has the dividend's sign |
| JavaSemantics.Rem | src/main/Main.java:130-131 | Java's `%` is what `/` leaves over: `(a / b) * b + a % b == a`, smaller than the divisor, with the dividend's sign |
| JavaSemantics.Wrap | src/throughputAnalysis/DPSedaSchedulerWithThroughput.java:221 | an `Integer` or `Long` result is the unique value in the type's range congruent to the mathematical result, and equals it when no overflow occurs |
| JavaSemantics.WrapAdd | src/throughputAnalysis/DPSedaSchedulerWithThroughput.java:233 | wrapping after every addition gives the same value as wrapping once at the end |
| JavaSemantics.WrappedSumIsWrappedTotal | src/throughputAnalysis/DPSedaSchedulerWithThroughput.java:217-223 | the accumulator loop, wrapping at every step, ends with the wrapped mathematical total |
| JavaSemantics.BoxedEquals | src/throughputAnalysis/DPSedaSchedulerWithThroughput.java:203 | `==` on two boxed `Integer`s is true only for equal values, and for equal values exactly when they lie in the cache range -128..127 |
| Decimal.IntToString | src/main/Main.java:135-146 | the text of `n` in string concatenation: a leading '-' exactly for a negative number, followed by the digits of its magnitude |
| Decimal.NatToString | src/throughputAnalysis/DPSedaSchedulerWithThroughput.java:117-119 | the decimal text of a non-negative number is all digits, without a leading zero, and ends in its last digit |
| Decimal.IntToStringRoundTrip | src/throughputAnalysis/DPSedaSchedulerWithThroughput.java:117-119 | reading the decimal text of any integer back gives the integer |
| Decimal.IntToStringInjective | src/throughputAnalysis/DPSedaSchedulerWithThroughput.java:117-119 | distinct integers have distinct decimal texts |
| TaskQueue.Add | src/schedulers/DPSedaScheduler.java:78 | `add` keeps the queue as it was and puts the command after it, one element longer |
| TaskQueue.Poll | src/schedulers/DPSedaScheduler.java:92 | `poll` yields the head and leaves the rest, or `null` on an empty queue, which stays empty |
| TaskQueue.Fifo | src/schedulers/DPFstpScheduler.java:67-77 | over any run, the claimed commands followed by the queue are the initial queue followed by every submission, in order |
| ElasticPool.Create | src/schedulers/DPSedaScheduler.java:15-20 | construction gives an empty queue and a pool of exactly one worker, in a valid state |
| ElasticPool.Enqueue | src/schedulers/DPSedaScheduler.java:73-79 | the command goes to the tail; the pool gains one new worker iff more than 50 commands were waiting and fewer than 50 workers exist, otherwise it is unchanged; validity is preserved |
| ElasticPool.Kill | src/schedulers/DPSedaScheduler.java:56-58 | a killed worker is marked stopped and nothing else changes |
| ElasticPool.Dequeue | src/schedulers/DPSedaScheduler.java:85-93 | the oldest worker is removed and killed iff fewer than 50 commands are waiting and more than one worker exists; the head is returned, or `null` on an empty queue; validity is preserved |
| ElasticPool.RunPreservesValid | src/schedulers/DPSedaScheduler.java:73-92 | after any sequence of operations the pool holds between 1 and 50 workers |
| ElasticPool.StepChangesPoolByAtMostOne | src/schedulers/DPSedaScheduler.java:74-89 | each single operation changes the pool size by at most one |
| ElasticPool.NoResizeAtFifty | src/schedulers/DPSedaScheduler.java:74-87 | with exactly 50 commands waiting neither operation resizes the pool |
| ElasticPool.RunAgreesWithQueue | src/schedulers/DPSedaScheduler.java:78-92 | resizing never touches the queue: queue and claim results are those of the bare queue |
| ElasticPool.Fifo | src/schedulers/DPSedaScheduler.java:78-92 | no command is lost or reordered, whatever the pool does |
| ElasticPool.KilledWorkersStayRetired | src/schedulers/DPSedaScheduler.java:86-91 | a killed worker never returns to the pool, and every worker ever created is either in the pool or killed, never both |
| ElasticPool.BurstGrowth | src/schedulers/DPSedaScheduler.java:73-79 | n back-to-back submissions to a fresh scheduler leave them all queued and a pool of 1 worker up to n = 51, then n - 50, capped at 50 |
| ElasticPool.IdleShrinksToOne | src/schedulers/DPSedaScheduler.java:85-93 | on an empty queue every claim retires one worker until a single worker is left |
| FixedPool.Create | src/schedulers/DPFstpScheduler.java:12-20 | a negative size throws `NegativeArraySizeException`; otherwise exactly that many workers, all flagged to execute and started, and an empty queue |
| FixedPool.NewWorker | src/schedulers/DPFstpScheduler.java:31-34 | a new worker has its flag set and is not yet started |
| FixedPool.Enqueue | src/schedulers/DPFstpScheduler.java:67-69 | the command goes to the tail and the pool is untouched |
| FixedPool.Dequeue | src/schedulers/DPFstpScheduler.java:75-77 | the head is returned, or `null` with the queue unchanged when empty; the pool is untouched |
| FixedPool.RunAgreesWithQueue | src/schedulers/DPFstpScheduler.java:58-77 | after construction no operation changes the pool; queue and claims are those of the bare queue |
| FixedPool.Fifo | src/schedulers/DPFstpScheduler.java:67-77 | commands are claimed in exactly the order they were submitted, none lost |
| Metrics.Initial | src/throughputAnalysis/DPSedaSchedulerWithThroughput.java:18-46 | the recorder starts with zero marker and count and empty arrays, satisfying the lockstep invariant |
| Metrics.Tick | src/throughputAnalysis/DPSedaSchedulerWithThroughput.java:100-106 | a tick appends marker, count and pool size to the three per-tick arrays, resets the count and advances the marker, keeps every completion accounted for and keeps the arrays in lockstep with `seconds[i] == i` |
| Metrics.AddToProcessedTasks | src/throughputAnalysis/DPSedaSchedulerWithThroughput.java:176-178 | one more completion is accounted for and nothing else changes |
| Metrics.ClearProcessedTasks | src/throughputAnalysis/DPSedaSchedulerWithThroughput.java:183-185 | the count since the last tick becomes zero and nothing else changes |
| Metrics.CalculateLatencyData | src/throughputAnalysis/DPSedaSchedulerWithThroughput.java:187-191 | the elapsed time (as a `long` difference), the current marker and the pool size are appended in lockstep; the per-tick state is untouched |
| Metrics.CalculateIntegerAverage | src/throughputAnalysis/DPSedaSchedulerWithThroughput.java:216-226 | an empty list divides by zero; otherwise the 32-bit wrapped sum divided toward zero by the size |
| Metrics.CalculateLongAverage | src/throughputAnalysis/DPSedaSchedulerWithThroughput.java:228-238 | an empty list divides by zero; otherwise the 64-bit wrapped sum divided toward zero by the size |
| Metrics.AverageWithinBounds | src/throughputAnalysis/DPSedaSchedulerWithThroughput.java:216-238 | without overflow, the average of non-negative values lies between their bounds |
| Metrics.LoopAfter | src/throughputAnalysis/DPSedaSchedulerWithThroughput.java:198-212 | the loop throws exactly when the first entry's marker is not the boxed 1; otherwise its output rows are seconds 1, 2, 3, ... in lockstep, one fewer than the expected second |
| Metrics.AverageLatencyData | src/throughputAnalysis/DPSedaSchedulerWithThroughput.java:193-213 | throws `ArithmeticException` iff there is an entry and the first one's marker is not the boxed 1. Otherwise it gives three equal-length arrays for seconds 1, 2, 3, ..., with one row per entry that does not match the expected second as an `Integer` reference, for any markers. The row of such an entry averages every earlier entry that matched its expected second |
| Metrics.Step | src/throughputAnalysis/DPSedaSchedulerWithThroughput.java:203-211 | an entry whose marker is the expected second (compared as `Integer` references) joins both buffers and changes nothing else. Any other entry leaves the buffers as they are and appends one row for the expected second, holding the buffers' averages; it throws exactly when a buffer is empty |
| Metrics.NoMatchBeyondCache | src/throughputAnalysis/DPSedaSchedulerWithThroughput.java:198-211 | once 127 entries have failed to match, so that the expected second is at least 128, no later entry matches as an `Integer` reference: each one emits one more row |
| Metrics.AnyLoop | src/throughputAnalysis/DPSedaSchedulerWithThroughput.java:198-212 | the loop invariant for any markers: the expected second is one more than the number of non-matching entries so far, the buffers hold exactly the matching entries, and every emitted row averages the matching entries before the entry that emitted it |
| Metrics.AverageOnOrderedMarkers | src/throughputAnalysis/DPSedaSchedulerWithThroughput.java:199-212 | for markers that start at 1 and rise by at most one: no exception, no row for the last second, and the row for each second averages every entry up to it except each later second's opening entry |
| Metrics.OrderedLoop | src/throughputAnalysis/DPSedaSchedulerWithThroughput.java:202-212 | the loop invariant: the buffers hold exactly the kept entries and every emitted row is the average of the kept entries before it |
| Metrics.GapExample | src/throughputAnalysis/DPSedaSchedulerWithThroughput.java:202-211 | with markers 1, 1, 3, 3, both second-3 entries emit a row from the same buffers, so row 2 repeats row 1 and neither entry is averaged |
| Metrics.QuirksExample | src/throughputAnalysis/DPSedaSchedulerWithThroughput.java:199-212 | on five entries over three seconds the result shows the cumulative buffers, the dropped entry and the missing last row |
| Reports.LinesOfRender | src/throughputAnalysis/DPSedaSchedulerWithThroughput.java:114-122 | splitting the text built by appending `line + "\n"` per line gives back exactly those lines |
| Reports.ParseRowRoundTrip | src/throughputAnalysis/DPSedaSchedulerWithThroughput.java:117-119 | every report line reads back into the three numbers it was built from |
| Reports.RenderRows | src/throughputAnalysis/DPSedaSchedulerWithThroughput.java:116-120 | the rendered text ends a line, has one line per row, and line i reads back as row i |
| Reports.GetThroughputDataString | src/throughputAnalysis/DPSedaSchedulerWithThroughput.java:113-123 | one newline-terminated line per tick, in order, and line i reads back as the i-th marker, task count and pool size |
| Reports.LatencyRows | src/throughputAnalysis/DPSedaSchedulerWithThroughput.java:130-134 | one line per averaged second, and line i reads back as second i + 1 with its two averages |
| Reports.GetLatencyDataString | src/throughputAnalysis/DPSedaSchedulerWithThroughput.java:125-137 | throws iff averaging throws; otherwise one line per emitted second, line i reading back as second i + 1 and its averages |
| ThroughputScheduler.Create | src/throughputAnalysis/DPSedaSchedulerWithThroughput.java:34-50 | construction gives one worker, nothing killed, an empty queue, marker 0, nothing accounted, no sample and no latency entry, in a valid state |
| ThroughputScheduler.Step | src/throughputAnalysis/DPSedaSchedulerWithThroughput.java:151-191 | only submissions and claims touch the pool, and they leave the metrics alone; claims alone return a result; a completion counts one task; a latency record and a tick store the current pool size through the recorder's transitions; every event preserves validity |
| ThroughputScheduler.RunPreservesValid | src/throughputAnalysis/DPSedaSchedulerWithThroughput.java:100-106 | after any run the pool holds 1..50 workers, the metric arrays are in lockstep, and every recorded pool size is in 1..50 |
| ThroughputScheduler.RunAgreesWithPool | src/throughputAnalysis/DPSedaSchedulerWithThroughput.java:151-171 | the resize rule is that of the elastic scheduler: pool, queue and claims after any run are the elastic scheduler's under the same submissions and claims |
| ThroughputScheduler.Fifo | src/throughputAnalysis/DPSedaSchedulerWithThroughput.java:156-170 | no command is lost or reordered, whatever metric events come in between |
| ThroughputScheduler.CompletionsAccounted | src/throughputAnalysis/DPSedaSchedulerWithThroughput.java:176-185 | sampled counts plus the current count grow by exactly the number of completions |
| Primes.CalculateNthPrime | src/main/Main.java:89-127 | 0 gives 0, 1 gives 2, a negative number gives 3, and n >= 2 gives the n-th prime: a prime with exactly n - 1 primes below it |
| Primes.TrialDivision | src/main/Main.java:106-112 | the inner loop stops at a divisor at least 4 whose square does not exceed the candidate, or past every number up to the square root when none divides it |
| Primes.CandidateTest | src/main/Main.java:105-117 | a candidate not divisible by 2 or 3 is counted, i.e. passes `temp * temp > counter` after trial division, exactly when it is prime |
| Primes.TrialDivisionFindsPrime | src/main/Main.java:113-116 | a candidate not divisible by 2 or 3 with no divisor from 4 up to its square root is prime |
| Primes.SmallDivisor | src/main/Main.java:107 | a number with a proper divisor has one no larger than its square root, which is why the search stops there |
| Primes.PrimeAtLeast | src/main/Main.java:103-124 | beyond every number there is a prime, so the counting loop always ends |
| Ordinals.SuffixFor | src/main/Main.java:130-147 | the suffix is two letters from "st", "nd", "rd", "th", and always "th" for a negative number |
| Ordinals.PrintNthSuffixFor | src/main/Main.java:129-148 | the result is the decimal text of n followed by exactly two suffix letters, "th" for negative n |
| Ordinals.SuffixIsEnglish | src/main/Main.java:129-148 | for every non-negative n, Java's `%` arithmetic picks the suffix the English rule reads off the digits: "th" for a tens digit of 1, otherwise "st", "nd", "rd" for a last digit of 1, 2, 3 and "th" for the rest |

## Left out

- Worker thread lifecycle: `DPThread.run` loops, `start`, `Thread.sleep(1)` and
  `InterruptedException` handling are concurrency with no sequential meaning.
  The visibility of the non-volatile `execute` flag is left out for the same
  reason. A killed worker keeps draining the queue until `dequeue` returns
  `null`. The model records only that it was killed.
- `java.util.Timer` and `System.currentTimeMillis`: a tick is an explicit event
  and a latency record takes the two clock readings as parameters. The timer's
  first firing at construction time is not forced.
- Unsynchronised reads in `RecordData.run` of `processedTasks` and the pool
  size are data races. The tick is modelled as one atomic event. In Java the
  count is read, and then reset by a separate synchronized
  `clearProcessedTasks`. A completion counted between the two is never
  sampled. `ThroughputScheduler.CompletionsAccounted` holds for the atomic
  tick, not for that interleaving.
- `execute(Runnable)` only delegates to `enqueue`; it is the `Submit` event.
- Commands are non-null. `LinkedList.add` accepts a `null` command, and
  `poll` later returns it as `null`. A worker cannot tell that from an empty
  queue, so Java silently loses such a command. The model has no null
  command, so `TaskQueue.Fifo` and the other FIFO lemmas do not cover this
  loss.
- Metrics.Tick: `secondMarker` and `processedTasks` are `Integer` fields that
  would wrap after 2^31 increments. They are unbounded here, because that many
  ticks or tasks is far beyond any run.
- Metrics.AddToProcessedTasks: the same `Integer` wrap-around of the counter is
  not modelled.
- Metrics.AverageOnOrderedMarkers: characterizes only markers that start at 1,
  rise by at most one and stay at most 127. Every other marker sequence is
  covered by the contract of `Metrics.AverageLatencyData`.
- Primes.CalculateNthPrime: `counter` and `temp * temp` are 32-bit `int`s in
  `calculateNthPrime`, and the model uses unbounded integers. The two agree while
  `counter` stays below 2^31 - 1, i.e. for n up to about 10^8. The driver asks
  for n up to 10,000.
- The rest of `Main` (`main`, `run`, `getFuture`, `sleep`, `printToConsoleln`)
  is the `CompletableFuture` pipeline and console output.
- `SchedulerType` is an enum with no behaviour.
