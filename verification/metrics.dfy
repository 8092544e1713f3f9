/**
 The instrumentation of the throughput-measuring elastic scheduler: the
 once-a-second sample (`RecordData.run`), the completed-task counter, the
 per-task latency record, and the post-processing that averages latency per
 second (`averageLatencyData` with its two averaging helpers).

 The clock is not modelled: the pool size a sample reads and the start and
 end times of a task are parameters.
 */
module Metrics {
  import opened JavaSemantics

  /** The recorder's fields. The first three arrays hold one entry per tick,
      the last three one entry per completed task. */
  datatype Recorder = Recorder(
    secondMarker: int,
    processedTasks: int,
    seconds: seq<int>,              // secondsArray
    tasksProcessed: seq<int>,       // tasksProcessedArray
    threadCounts: seq<int>,         // numberOfThreadsArray
    latencyProcessTimes: seq<int>,  // latencyProcessTimeArray
    latencyThreadCounts: seq<int>,  // latencyThreadCountArray
    latencySeconds: seq<int>        // latencySecondCountArray
  )

  /** What the constructor sets up: both counters zero, every array empty. */
  function Initial(): (m: Recorder)
    ensures m.secondMarker == 0 && m.processedTasks == 0
    ensures Lockstep(m)
    ensures |m.seconds| == 0 && |m.latencySeconds| == 0
  {
    Recorder(0, 0, [], [], [], [], [], [])
  }

  /** The per-tick arrays grow together, `seconds[i] == i`, the marker counts the
      ticks so far; the per-task arrays grow together and their markers are
      non-negative, non-decreasing and never ahead of the current marker. */
  ghost predicate Lockstep(m: Recorder) {
    && |m.tasksProcessed| == |m.seconds|
    && |m.threadCounts| == |m.seconds|
    && m.secondMarker == |m.seconds|
    && (forall i :: 0 <= i < |m.seconds| ==> m.seconds[i] == i)
    && |m.latencyThreadCounts| == |m.latencyProcessTimes|
    && |m.latencySeconds| == |m.latencyProcessTimes|
    && (forall i :: 0 <= i < |m.latencySeconds| ==> 0 <= m.latencySeconds[i] <= m.secondMarker)
    && (forall i, j :: 0 <= i <= j < |m.latencySeconds| ==> m.latencySeconds[i] <= m.latencySeconds[j])
  }

  /** Completions accounted for: those already sampled plus those since the last tick. */
  function Accounted(m: Recorder): int {
    Sum(m.tasksProcessed) + m.processedTasks
  }

  /** `clearProcessedTasks`. */
  function ClearProcessedTasks(m: Recorder): (m': Recorder)
    ensures m'.processedTasks == 0
    ensures m' == m.(processedTasks := m'.processedTasks)
  {
    m.(processedTasks := 0)
  }

  /** `addToProcessedTasks`: one more task completed since the last tick. */
  function AddToProcessedTasks(m: Recorder): (m': Recorder)
    ensures Accounted(m') == Accounted(m) + 1
    ensures m' == m.(processedTasks := m'.processedTasks)
    ensures Lockstep(m) ==> Lockstep(m')
  {
    m.(processedTasks := m.processedTasks + 1)
  }

  /** `RecordData.run`, one timer tick: append the marker, the count since the
      last tick and the pool size to the three per-tick arrays, reset the
      count, advance the marker. */
  function Tick(m: Recorder, poolSize: int): (m': Recorder)
    ensures m'.seconds == m.seconds + [m.secondMarker]
    ensures m'.tasksProcessed == m.tasksProcessed + [m.processedTasks]
    ensures m'.threadCounts == m.threadCounts + [poolSize]
    ensures m'.processedTasks == 0 && m'.secondMarker == m.secondMarker + 1
    ensures m'.latencyProcessTimes == m.latencyProcessTimes
    ensures m'.latencyThreadCounts == m.latencyThreadCounts
    ensures m'.latencySeconds == m.latencySeconds
    ensures Accounted(m') == Accounted(m)
    ensures Lockstep(m) ==> Lockstep(m')
  {
    var sampled := m.(
      seconds := m.seconds + [m.secondMarker],
      tasksProcessed := m.tasksProcessed + [m.processedTasks],
      threadCounts := m.threadCounts + [poolSize]);
    var cleared := ClearProcessedTasks(sampled);
    assert sampled.tasksProcessed[..|sampled.tasksProcessed| - 1] == m.tasksProcessed;
    cleared.(secondMarker := m.secondMarker + 1)
  }

  /** `calculateLatencyData`: record the task's elapsed time (a `long`
      difference of two clock readings), the current marker and the pool size. */
  function CalculateLatencyData(m: Recorder, startTime: int, now: int, poolSize: int): (m': Recorder)
    ensures m'.latencyProcessTimes == m.latencyProcessTimes + [Wrap(now - startTime, Int64)]
    ensures m'.latencySeconds == m.latencySeconds + [m.secondMarker]
    ensures m'.latencyThreadCounts == m.latencyThreadCounts + [poolSize]
    ensures m'.secondMarker == m.secondMarker && m'.processedTasks == m.processedTasks
    ensures m'.seconds == m.seconds && m'.tasksProcessed == m.tasksProcessed && m'.threadCounts == m.threadCounts
    ensures Lockstep(m) ==> Lockstep(m')
  {
    m.(latencyProcessTimes := m.latencyProcessTimes + [Wrap(now - startTime, Int64)],
       latencySeconds := m.latencySeconds + [m.secondMarker],
       latencyThreadCounts := m.latencyThreadCounts + [poolSize])
  }

  /** `calculateIntegerAverage`: an `Integer` accumulator (wrapping at 32 bits)
      divided by the size; an empty list divides by zero. */
  function CalculateIntegerAverage(a: seq<int>): (r: Result<int>)
    ensures |a| == 0 <==> r == Thrown(ArithmeticException)
    ensures |a| > 0 ==> r == Ok(Quot(Wrap(Sum(a), Int32), |a|))
  {
    if |a| == 0 then Thrown(ArithmeticException)
    else
      WrappedSumIsWrappedTotal(a, Int32);
      Ok(Quot(WrappedSum(a, Int32), |a|))
  }

  /** `calculateLongAverage`: as above with a `Long` accumulator (64 bits). */
  function CalculateLongAverage(a: seq<int>): (r: Result<int>)
    ensures |a| == 0 <==> r == Thrown(ArithmeticException)
    ensures |a| > 0 ==> r == Ok(Quot(Wrap(Sum(a), Int64), |a|))
  {
    if |a| == 0 then Thrown(ArithmeticException)
    else
      WrappedSumIsWrappedTotal(a, Int64);
      Ok(Quot(WrappedSum(a, Int64), |a|))
  }

  /** When the sum does not overflow and the values are non-negative, the
      average lies between the smallest and largest possible element. */
  lemma AverageWithinBounds(a: seq<int>, w: Width, lo: int, hi: int)
    requires |a| > 0 && 0 <= lo
    requires forall i :: 0 <= i < |a| ==> lo <= a[i] <= hi
    requires InRange(Sum(a), w)
    ensures lo <= Quot(Wrap(Sum(a), w), |a|) <= hi
  {
    SumBounds(a, lo, hi);
    var n := |a|;
    var s := Sum(a);
    assert Wrap(s, w) == s;
    assert s >= 0 by { assert n * lo >= 0; }
    QuotBounds(s, n, lo, hi);
  }

  /** Dividing a non-negative `s` with `n * lo <= s <= n * hi` by `n`. */
  lemma QuotBounds(s: int, n: int, lo: int, hi: int)
    requires n > 0 && 0 <= s && n * lo <= s <= n * hi
    ensures lo <= Quot(s, n) <= hi
  {
    var q := s / n;
    assert Quot(s, n) == q;
    assert s == q * n + s % n && 0 <= s % n < n;
    if q < lo {
      MulMonotone(q + 1, lo, n);
      assert false;
    }
    if q > hi {
      MulMonotone(hi + 1, q, n);
      assert false;
    }
  }

  lemma {:induction false} SumBounds(a: seq<int>, lo: int, hi: int)
    requires forall i :: 0 <= i < |a| ==> lo <= a[i] <= hi
    ensures |a| * lo <= Sum(a) <= |a| * hi
  {
    if |a| > 0 {
      SumBounds(a[..|a| - 1], lo, hi);
      assert |a| * lo == (|a| - 1) * lo + lo;
      assert |a| * hi == (|a| - 1) * hi + hi;
    }
  }

  /** The result of `averageLatencyData`: one entry per emitted second. */
  datatype Averaged = Averaged(processTimes: seq<int>, threadCounts: seq<int>, seconds: seq<int>)

  /** The loop's state: the expected second, the two buffers, and the output. */
  datatype LoopState = LoopState(second: int, timeBuffer: seq<int>, countBuffer: seq<int>, out: Averaged)

  /** The three output arrays have equal lengths and emit seconds 1, 2, 3, ... */
  predicate Consecutive(a: Averaged) {
    && |a.processTimes| == |a.seconds|
    && |a.threadCounts| == |a.seconds|
    && forall j :: 0 <= j < |a.seconds| ==> a.seconds[j] == j + 1
  }

  /** One iteration of the loop for an entry `(time, count, marker)`. An entry
      whose marker is the expected second (compared as `Integer` references)
      joins the buffers. Any other entry emits the averages of the buffers,
      which are never cleared, and advances the expected second; the entry
      itself is discarded. */
  function Step(l: LoopState, time: int, count: int, marker: int): (r: Result<LoopState>)
    ensures r.Thrown? <==> !BoxedEquals(marker, l.second) && (|l.timeBuffer| == 0 || |l.countBuffer| == 0)
    ensures r.Thrown? ==> r.error == ArithmeticException
    ensures r.Ok? && BoxedEquals(marker, l.second) ==>
      && r.value.timeBuffer == l.timeBuffer + [time] && r.value.countBuffer == l.countBuffer + [count]
      && r.value.second == l.second && r.value.out == l.out
    ensures r.Ok? && !BoxedEquals(marker, l.second) ==>
      && r.value.timeBuffer == l.timeBuffer && r.value.countBuffer == l.countBuffer
      && r.value.second == l.second + 1
      && r.value.out.seconds == l.out.seconds + [l.second]
      && r.value.out.processTimes == l.out.processTimes + [Quot(Wrap(Sum(l.timeBuffer), Int64), |l.timeBuffer|)]
      && r.value.out.threadCounts == l.out.threadCounts + [Quot(Wrap(Sum(l.countBuffer), Int32), |l.countBuffer|)]
  {
    if BoxedEquals(marker, l.second) then
      Ok(l.(timeBuffer := l.timeBuffer + [time], countBuffer := l.countBuffer + [count]))
    else
      match CalculateLongAverage(l.timeBuffer)
      case Thrown(e) => Thrown(e)
      case Ok(t) =>
        match CalculateIntegerAverage(l.countBuffer)
        case Thrown(e) => Thrown(e)
        case Ok(c) =>
          Ok(l.(second := l.second + 1,
                out := Averaged(l.out.processTimes + [t], l.out.threadCounts + [c], l.out.seconds + [l.second])))
  }

  predicate SameLength(times: seq<int>, counts: seq<int>, markers: seq<int>) {
    |counts| == |times| && |markers| == |times|
  }

  /** The loop's state after its first `i` iterations. Once the first entry
      matches second 1 the buffers are non-empty for good, so the only
      division by zero is at a first entry whose marker is not 1. */
  function LoopAfter(times: seq<int>, counts: seq<int>, markers: seq<int>, i: nat): (r: Result<LoopState>)
    requires SameLength(times, counts, markers) && i <= |times|
    ensures i == 0 ==> r == Ok(LoopState(1, [], [], Averaged([], [], [])))
    ensures i > 0 && !BoxedEquals(markers[0], 1) ==> r == Thrown(ArithmeticException)
    ensures i > 0 && BoxedEquals(markers[0], 1) ==> r.Ok? && |r.value.timeBuffer| >= 1
    ensures r.Ok? ==> |r.value.timeBuffer| == |r.value.countBuffer|
    ensures r.Ok? ==> Consecutive(r.value.out) && |r.value.out.seconds| == r.value.second - 1
  {
    if i == 0 then Ok(LoopState(1, [], [], Averaged([], [], [])))
    else
      match LoopAfter(times, counts, markers, i - 1)
      case Thrown(e) => Thrown(e)
      case Ok(l) => Step(l, times[i - 1], counts[i - 1], markers[i - 1])
  }

  /** `averageLatencyData` over the three per-task arrays. For any markers,
      stated without the loop: one row per entry that does not match the
      expected second, and that row averages every matching entry before it.
      A marker that jumps past the expected second therefore emits a row from
      unchanged buffers and is itself dropped, and so is every entry after it
      until the expected second catches up with the markers. */
  function AverageLatencyData(times: seq<int>, counts: seq<int>, markers: seq<int>): (r: Result<Averaged>)
    requires SameLength(times, counts, markers)
    ensures r.Thrown? <==> |markers| > 0 && !BoxedEquals(markers[0], 1)
    ensures r.Thrown? ==> r.error == ArithmeticException
    ensures r.Ok? ==> Consecutive(r.value)
    ensures r.Ok? ==> |r.value.seconds| == Mismatches(markers, |markers|)
    ensures r.Ok? ==> forall j :: 0 <= j < |markers| && !Matches(markers, j) ==>
                        RowIsAverageOfMatched(times, counts, markers, r.value, j)
  {
    match LoopAfter(times, counts, markers, |times|)
    case Thrown(e) => Thrown(e)
    case Ok(l) =>
      AnyLoop(times, counts, markers, |times|);
      Ok(l.out)
  }

  /** The number of entries among the first `i` that do not match the second
      the loop expects when it reaches them. The loop expects second 1 at the
      start and one second more after every such entry. */
  function Mismatches(markers: seq<int>, i: nat): nat
    requires i <= |markers|
    decreases i, 1
  {
    if i == 0 then 0
    else Mismatches(markers, i - 1) + (if Matches(markers, i - 1) then 0 else 1)
  }

  /** Entry `j` is the expected second, compared as `Integer` references. */
  predicate Matches(markers: seq<int>, j: nat)
    requires j < |markers|
    decreases j + 1, 0
  {
    BoxedEquals(markers[j], Mismatches(markers, j) + 1)
  }

  /** The values among the first `i` entries that match the expected second. */
  function Matched(values: seq<int>, markers: seq<int>, i: nat): seq<int>
    requires |markers| == |values| && i <= |values|
  {
    if i == 0 then []
    else Matched(values, markers, i - 1) + (if Matches(markers, i - 1) then [values[i - 1]] else [])
  }

  /** The row emitted by the non-matching entry `j`: it is row number
      `Mismatches(markers, j)` and averages every matching entry before `j`. */
  predicate RowIsAverageOfMatched(times: seq<int>, counts: seq<int>, markers: seq<int>, out: Averaged, j: nat)
    requires SameLength(times, counts, markers) && j < |markers|
  {
    var k := Mismatches(markers, j);
    && k < |out.seconds| && Consecutive(out)
    && |Matched(times, markers, j)| > 0 && |Matched(counts, markers, j)| > 0
    && out.processTimes[k] == Quot(Wrap(Sum(Matched(times, markers, j)), Int64), |Matched(times, markers, j)|)
    && out.threadCounts[k] == Quot(Wrap(Sum(Matched(counts, markers, j)), Int32), |Matched(counts, markers, j)|)
  }

  /** Past the `Integer` cache no entry matches: once the expected second
      reaches 128, `==` compares two distinct objects, so every later entry
      emits one more row and none joins the buffers. */
  lemma {:induction false} NoMatchBeyondCache(markers: seq<int>, i: nat, j: nat)
    requires i <= j <= |markers| && Mismatches(markers, i) >= 127
    ensures Mismatches(markers, j) == Mismatches(markers, i) + (j - i)
    ensures j < |markers| ==> !Matches(markers, j)
  {
    if j > i {
      NoMatchBeyondCache(markers, i, j - 1);
    }
  }

  /** The loop invariant behind the contract of `AverageLatencyData`, after `i` entries. */
  predicate AnyInvariant(times: seq<int>, counts: seq<int>, markers: seq<int>, i: nat, l: LoopState)
    requires SameLength(times, counts, markers) && i <= |markers|
  {
    && l.second == Mismatches(markers, i) + 1
    && |l.out.seconds| == Mismatches(markers, i)
    && l.timeBuffer == Matched(times, markers, i)
    && l.countBuffer == Matched(counts, markers, i)
    && forall j :: 0 <= j < i && !Matches(markers, j) ==>
         RowIsAverageOfMatched(times, counts, markers, l.out, j)
  }

  lemma {:induction false} AnyLoop(times: seq<int>, counts: seq<int>, markers: seq<int>, i: nat)
    requires SameLength(times, counts, markers) && i <= |markers|
    requires LoopAfter(times, counts, markers, i).Ok?
    ensures AnyInvariant(times, counts, markers, i, LoopAfter(times, counts, markers, i).value)
  {
    if i > 0 {
      var k := i - 1;
      assert LoopAfter(times, counts, markers, k).Ok?;
      AnyLoop(times, counts, markers, k);
      var l := LoopAfter(times, counts, markers, k).value;
      assert LoopAfter(times, counts, markers, i) == Step(l, times[k], counts[k], markers[k]);
      if Matches(markers, k) {
        AnyKeep(times, counts, markers, k, l);
      } else {
        AnyEmit(times, counts, markers, k, l);
      }
    }
  }

  /** A matching entry joins the buffers. */
  lemma AnyKeep(times: seq<int>, counts: seq<int>, markers: seq<int>, k: nat, l: LoopState)
    requires SameLength(times, counts, markers) && k < |markers| && Matches(markers, k)
    requires AnyInvariant(times, counts, markers, k, l)
    ensures Step(l, times[k], counts[k], markers[k]).Ok?
    ensures AnyInvariant(times, counts, markers, k + 1, Step(l, times[k], counts[k], markers[k]).value)
  {
  }

  /** A non-matching entry emits the row for the expected second, if the
      buffers allow it. */
  lemma AnyEmit(times: seq<int>, counts: seq<int>, markers: seq<int>, k: nat, l: LoopState)
    requires SameLength(times, counts, markers) && k < |markers| && !Matches(markers, k)
    requires AnyInvariant(times, counts, markers, k, l) && Consecutive(l.out)
    requires Step(l, times[k], counts[k], markers[k]).Ok?
    ensures AnyInvariant(times, counts, markers, k + 1, Step(l, times[k], counts[k], markers[k]).value)
  {
    var l' := Step(l, times[k], counts[k], markers[k]).value;
    assert l.second == Mismatches(markers, k) + 1 && |l.out.seconds| == Mismatches(markers, k);
    assert l.timeBuffer == Matched(times, markers, k) && l.countBuffer == Matched(counts, markers, k);
    NewRow(times, counts, markers, k, l);
    EarlierRowsKept(times, counts, markers, k, l.out, l'.out);
    AnyInvariantIntro(times, counts, markers, k, l');
  }

  /** The invariant after entry `k` from its parts: the rows of the entries
      before `k` and the row of entry `k` itself, if it emits one. */
  lemma AnyInvariantIntro(times: seq<int>, counts: seq<int>, markers: seq<int>, k: nat, l: LoopState)
    requires SameLength(times, counts, markers) && k < |markers|
    requires l.second == Mismatches(markers, k + 1) + 1 && |l.out.seconds| == Mismatches(markers, k + 1)
    requires l.timeBuffer == Matched(times, markers, k + 1) && l.countBuffer == Matched(counts, markers, k + 1)
    requires forall j :: 0 <= j < k && !Matches(markers, j) ==> RowIsAverageOfMatched(times, counts, markers, l.out, j)
    requires !Matches(markers, k) ==> RowIsAverageOfMatched(times, counts, markers, l.out, k)
    ensures AnyInvariant(times, counts, markers, k + 1, l)
  {
  }

  /** Appending rows keeps every row the first `k` entries emitted. */
  lemma EarlierRowsKept(times: seq<int>, counts: seq<int>, markers: seq<int>, k: nat, out: Averaged, out': Averaged)
    requires SameLength(times, counts, markers) && k <= |markers|
    requires forall j :: 0 <= j < k && !Matches(markers, j) ==> RowIsAverageOfMatched(times, counts, markers, out, j)
    requires Consecutive(out') && |out.seconds| <= |out'.seconds|
    requires |out.processTimes| <= |out'.processTimes| && |out.threadCounts| <= |out'.threadCounts|
    requires out'.processTimes[..|out.processTimes|] == out.processTimes
    requires out'.threadCounts[..|out.threadCounts|] == out.threadCounts
    ensures forall j :: 0 <= j < k && !Matches(markers, j) ==> RowIsAverageOfMatched(times, counts, markers, out', j)
  {
    forall j | 0 <= j < k && !Matches(markers, j)
      ensures RowIsAverageOfMatched(times, counts, markers, out', j)
    {
      EarlierRowKept(times, counts, markers, j, out, out');
    }
  }

  /** The row a non-matching entry emits averages the matching entries before it. */
  lemma NewRow(times: seq<int>, counts: seq<int>, markers: seq<int>, k: nat, l: LoopState)
    requires SameLength(times, counts, markers) && k < |markers| && !Matches(markers, k)
    requires l.second == Mismatches(markers, k) + 1 && |l.out.seconds| == Mismatches(markers, k)
    requires l.timeBuffer == Matched(times, markers, k) && l.countBuffer == Matched(counts, markers, k)
    requires Consecutive(l.out)
    requires Step(l, times[k], counts[k], markers[k]).Ok?
    ensures var l' := Step(l, times[k], counts[k], markers[k]).value;
      && l'.second == Mismatches(markers, k + 1) + 1
      && |l'.out.seconds| == Mismatches(markers, k + 1)
      && l'.timeBuffer == Matched(times, markers, k + 1)
      && l'.countBuffer == Matched(counts, markers, k + 1)
      && RowIsAverageOfMatched(times, counts, markers, l'.out, k)
      && |l.out.processTimes| < |l'.out.processTimes| && |l.out.threadCounts| < |l'.out.threadCounts|
      && l'.out.processTimes[..|l.out.processTimes|] == l.out.processTimes
      && l'.out.threadCounts[..|l.out.threadCounts|] == l.out.threadCounts
  {
    var l' := Step(l, times[k], counts[k], markers[k]).value;
    var n := Mismatches(markers, k);
    assert Mismatches(markers, k + 1) == n + 1;
    assert Matched(times, markers, k + 1) == Matched(times, markers, k);
    assert Matched(counts, markers, k + 1) == Matched(counts, markers, k);
    assert |l.timeBuffer| > 0 && |l.countBuffer| > 0;
    ConsecutiveAppend(l.out, l'.out);
    assert l'.out.processTimes[n] == Quot(Wrap(Sum(l.timeBuffer), Int64), |l.timeBuffer|);
    assert l'.out.threadCounts[n] == Quot(Wrap(Sum(l.countBuffer), Int32), |l.countBuffer|);
  }

  /** One more row for the next second keeps the output consecutive. */
  lemma ConsecutiveAppend(out: Averaged, out': Averaged)
    requires Consecutive(out)
    requires |out'.processTimes| == |out.processTimes| + 1 && |out'.threadCounts| == |out.threadCounts| + 1
    requires out'.seconds == out.seconds + [|out.seconds| + 1]
    ensures Consecutive(out')
  {
  }

  /** Appending rows keeps every row already emitted. */
  lemma EarlierRowKept(times: seq<int>, counts: seq<int>, markers: seq<int>, j: nat, out: Averaged, out': Averaged)
    requires SameLength(times, counts, markers) && j < |markers|
    requires RowIsAverageOfMatched(times, counts, markers, out, j) && Consecutive(out')
    requires |out.seconds| <= |out'.seconds|
    requires out'.processTimes[..|out.processTimes|] == out.processTimes
    requires out'.threadCounts[..|out.threadCounts|] == out.threadCounts
    ensures RowIsAverageOfMatched(times, counts, markers, out', j)
  {
    var k := Mismatches(markers, j);
    assert out'.processTimes[k] == out'.processTimes[..|out.processTimes|][k];
    assert out'.threadCounts[k] == out'.threadCounts[..|out.threadCounts|][k];
  }

  /** A gap in the markers: entries (10, 1) and (20, 1) in second 1, then
      (30, 2) and (40, 2) both marked second 3. The first second-3 entry emits
      row 1 and the second emits row 2 from the same buffers, so row 2 repeats
      row 1 and neither second-3 entry is averaged. */
  lemma GapExample()
    ensures AverageLatencyData(GapTimes, GapCounts, GapMarkers)
         == Ok(Averaged([15, 15], [1, 1], [1, 2]))
  {
    GapUpToThree();
    GapFourthEntry();
  }

  const GapTimes: seq<int> := [10, 20, 30, 40]
  const GapCounts: seq<int> := [1, 1, 2, 2]
  const GapMarkers: seq<int> := [1, 1, 3, 3]

  lemma GapUpToTwo()
    ensures LoopAfter(GapTimes, GapCounts, GapMarkers, 2)
         == Ok(LoopState(1, [10, 20], [1, 1], Averaged([], [], [])))
  {
    var l0 := LoopState(1, [], [], Averaged([], [], []));
    var l1 := LoopState(1, [10], [1], Averaged([], [], []));
    StepKeeps(l0, 10, 1, 1);
    assert l0.timeBuffer + [10] == [10] && l0.countBuffer + [1] == [1];
    assert LoopAfter(GapTimes, GapCounts, GapMarkers, 1) == Ok(l1);
    StepKeeps(l1, 20, 1, 1);
    assert l1.timeBuffer + [20] == [10, 20] && l1.countBuffer + [1] == [1, 1];
  }

  lemma GapUpToThree()
    ensures LoopAfter(GapTimes, GapCounts, GapMarkers, 3)
         == Ok(LoopState(2, [10, 20], [1, 1], Averaged([15], [1], [1])))
  {
    GapUpToTwo();
    ExampleThirdEntry(3);
  }

  /** Entry (40, 2) marked second 3 while second 2 is expected: the buffers
      are unchanged since row 1, so row 2 repeats it. */
  lemma GapFourthEntry()
    ensures Step(LoopState(2, [10, 20], [1, 1], Averaged([15], [1], [1])), 40, 2, 3)
         == Ok(LoopState(3, [10, 20], [1, 1], Averaged([15, 15], [1, 1], [1, 2])))
  {
    var l3 := LoopState(2, [10, 20], [1, 1], Averaged([15], [1], [1]));
    StepEmits(l3, 40, 2, 3);
    assert Sum([10, 20]) == 30 && Sum([1, 1]) == 2;
    assert Quot(Wrap(30, Int64), 2) == 15 && Quot(Wrap(2, Int32), 2) == 1;
    assert l3.out.processTimes + [15] == [15, 15] && l3.out.threadCounts + [1] == [1, 1];
    assert l3.out.seconds + [2] == [1, 2];
  }

  /** The markers a well-behaved run produces: starting at 1, each entry's
      marker equal to or one more than the previous one, all inside the
      `Integer` cache. */
  predicate OrderedMarkers(markers: seq<int>) {
    && (|markers| > 0 ==> markers[0] == 1)
    && (forall j :: 0 < j < |markers| ==> markers[j - 1] <= markers[j] <= markers[j - 1] + 1)
    && (forall j :: 0 <= j < |markers| ==> markers[j] <= 127)
  }

  /** Entry `j` is the first of a later second. */
  predicate OpensSecond(markers: seq<int>, j: nat)
    requires j < |markers|
  {
    j > 0 && markers[j] != markers[j - 1]
  }

  /** The values among the first `i` entries that are not the first of a later second. */
  function Kept(values: seq<int>, markers: seq<int>, i: nat): seq<int>
    requires |markers| == |values| && i <= |values|
  {
    if i == 0 then []
    else Kept(values, markers, i - 1) + (if OpensSecond(markers, i - 1) then [] else [values[i - 1]])
  }

  lemma StepKeeps(l: LoopState, time: int, count: int, marker: int)
    requires BoxedEquals(marker, l.second)
    ensures Step(l, time, count, marker) ==
      Ok(l.(timeBuffer := l.timeBuffer + [time], countBuffer := l.countBuffer + [count]))
  {
  }

  lemma StepEmits(l: LoopState, time: int, count: int, marker: int)
    requires !BoxedEquals(marker, l.second) && |l.timeBuffer| > 0 && |l.countBuffer| > 0
    ensures Step(l, time, count, marker) ==
      Ok(l.(second := l.second + 1,
            out := Averaged(l.out.processTimes + [Quot(Wrap(Sum(l.timeBuffer), Int64), |l.timeBuffer|)],
                            l.out.threadCounts + [Quot(Wrap(Sum(l.countBuffer), Int32), |l.countBuffer|)],
                            l.out.seconds + [l.second])))
  {
  }

  /** The averages the row opened by entry `j` must carry: those of every
      kept entry before it. */
  predicate RowIsAverageOfKept(times: seq<int>, counts: seq<int>, markers: seq<int>, out: Averaged, j: nat)
    requires SameLength(times, counts, markers) && j < |markers|
  {
    var k := markers[j] - 2;
    && 0 <= k < |out.seconds| && Consecutive(out)
    && |Kept(times, markers, j)| > 0 && |Kept(counts, markers, j)| > 0
    && out.processTimes[k] == Quot(Wrap(Sum(Kept(times, markers, j)), Int64), |Kept(times, markers, j)|)
    && out.threadCounts[k] == Quot(Wrap(Sum(Kept(counts, markers, j)), Int32), |Kept(counts, markers, j)|)
  }

  /** What `averageLatencyData` computes for ordered markers, stated without the
      loop: the last second gets no row, and the row for second `s` averages
      every entry up to second `s` except the first entry of each second after
      the first: the buffers are cumulative and each second's opening entry is
      dropped. */
  lemma AverageOnOrderedMarkers(times: seq<int>, counts: seq<int>, markers: seq<int>)
    requires SameLength(times, counts, markers) && |markers| > 0
    requires OrderedMarkers(markers)
    ensures var r := AverageLatencyData(times, counts, markers);
      && r.Ok?
      && |r.value.seconds| == markers[|markers| - 1] - 1
      && forall j :: 0 < j < |markers| && OpensSecond(markers, j) ==>
           RowIsAverageOfKept(times, counts, markers, r.value, j)
  {
    OrderedLoop(times, counts, markers, |markers|);
  }

  /** The loop invariant behind `AverageOnOrderedMarkers`, after `i` entries:
      the expected second is the last entry's marker, the buffers hold the
      kept entries, and every row emitted so far averages the kept entries
      before the entry that opened it. */
  predicate OrderedInvariant(times: seq<int>, counts: seq<int>, markers: seq<int>, i: nat, l: LoopState)
    requires SameLength(times, counts, markers) && 0 < i <= |markers|
  {
    && l.second == markers[i - 1]
    && l.timeBuffer == Kept(times, markers, i)
    && l.countBuffer == Kept(counts, markers, i)
    && forall j :: 0 < j < i && OpensSecond(markers, j) ==>
         RowIsAverageOfKept(times, counts, markers, l.out, j)
  }

  lemma {:induction false} OrderedLoop(times: seq<int>, counts: seq<int>, markers: seq<int>, i: nat)
    requires SameLength(times, counts, markers) && 0 < i <= |markers|
    requires OrderedMarkers(markers)
    ensures LoopAfter(times, counts, markers, i).Ok?
    ensures OrderedInvariant(times, counts, markers, i, LoopAfter(times, counts, markers, i).value)
  {
    var k := i - 1;
    if k == 0 {
      var l0 := LoopState(1, [], [], Averaged([], [], []));
      StepKeeps(l0, times[0], counts[0], markers[0]);
    } else {
      OrderedLoop(times, counts, markers, k);
      var l := LoopAfter(times, counts, markers, k).value;
      assert LoopAfter(times, counts, markers, i) == Step(l, times[k], counts[k], markers[k]);
      if markers[k] == markers[k - 1] {
        OrderedKeep(times, counts, markers, k, l);
      } else {
        OrderedEmit(times, counts, markers, k, l);
      }
    }
  }

  /** An entry in the current second joins the buffers. */
  lemma OrderedKeep(times: seq<int>, counts: seq<int>, markers: seq<int>, k: nat, l: LoopState)
    requires SameLength(times, counts, markers) && 0 < k < |markers|
    requires OrderedMarkers(markers) && markers[k] == markers[k - 1]
    requires OrderedInvariant(times, counts, markers, k, l)
    requires |l.out.seconds| == l.second - 1
    ensures Step(l, times[k], counts[k], markers[k]).Ok?
    ensures OrderedInvariant(times, counts, markers, k + 1, Step(l, times[k], counts[k], markers[k]).value)
  {
    StepKeeps(l, times[k], counts[k], markers[k]);
  }

  /** An entry opening the next second emits the row for the current one. */
  lemma OrderedEmit(times: seq<int>, counts: seq<int>, markers: seq<int>, k: nat, l: LoopState)
    requires SameLength(times, counts, markers) && 0 < k < |markers|
    requires OrderedMarkers(markers) && markers[k] != markers[k - 1]
    requires OrderedInvariant(times, counts, markers, k, l)
    requires Consecutive(l.out) && |l.out.seconds| == l.second - 1
    ensures Step(l, times[k], counts[k], markers[k]).Ok?
    ensures OrderedInvariant(times, counts, markers, k + 1, Step(l, times[k], counts[k], markers[k]).value)
  {
    KeptLengths(times, counts, markers, k);
    StepEmits(l, times[k], counts[k], markers[k]);
    var l' := Step(l, times[k], counts[k], markers[k]).value;
    forall j | 0 < j < k + 1 && OpensSecond(markers, j)
      ensures RowIsAverageOfKept(times, counts, markers, l'.out, j)
    {
      if j < k {
        assert RowIsAverageOfKept(times, counts, markers, l.out, j);
      }
    }
  }

  lemma {:induction false} KeptLengths(times: seq<int>, counts: seq<int>, markers: seq<int>, i: nat)
    requires SameLength(times, counts, markers) && i <= |markers|
    ensures |Kept(times, markers, i)| == |Kept(counts, markers, i)|
    ensures i > 0 ==> |Kept(times, markers, i)| > 0
  {
    if i > 0 {
      KeptLengths(times, counts, markers, i - 1);
    }
  }

  /** The three quirks on a small input: entries (10, 1), (20, 1) in second 1,
      (30, 2), (40, 2) in second 2 and (50, 3) in second 3. The entry 30 opens
      second 2 and is dropped, the second row averages 10, 20 and 40 together,
      and second 3 gets no row. */
  lemma QuirksExample()
    ensures AverageLatencyData(ExampleTimes, ExampleCounts, ExampleMarkers)
         == Ok(Averaged([15, 23], [1, 1], [1, 2]))
  {
    ExampleUpToFour();
    ExampleFifthEntry();
  }

  const ExampleTimes: seq<int> := [10, 20, 30, 40, 50]
  const ExampleCounts: seq<int> := [1, 1, 2, 2, 3]
  const ExampleMarkers: seq<int> := [1, 1, 2, 2, 3]

  lemma ExampleUpToTwo()
    ensures LoopAfter(ExampleTimes, ExampleCounts, ExampleMarkers, 2)
         == Ok(LoopState(1, [10, 20], [1, 1], Averaged([], [], [])))
  {
    var l0 := LoopState(1, [], [], Averaged([], [], []));
    var l1 := LoopState(1, [10], [1], Averaged([], [], []));
    StepKeeps(l0, 10, 1, 1);
    assert l0.timeBuffer + [10] == [10] && l0.countBuffer + [1] == [1];
    assert LoopAfter(ExampleTimes, ExampleCounts, ExampleMarkers, 1) == Ok(l1);
    StepKeeps(l1, 20, 1, 1);
    assert l1.timeBuffer + [20] == [10, 20] && l1.countBuffer + [1] == [1, 1];
  }

  /** Entry (30, 2) arriving after (10, 1), (20, 1) with a marker other than 1. */
  lemma ExampleThirdEntry(marker: int)
    requires marker != 1
    ensures Step(LoopState(1, [10, 20], [1, 1], Averaged([], [], [])), 30, 2, marker)
         == Ok(LoopState(2, [10, 20], [1, 1], Averaged([15], [1], [1])))
  {
    var l2 := LoopState(1, [10, 20], [1, 1], Averaged([], [], []));
    StepEmits(l2, 30, 2, marker);
    assert Sum([10, 20]) == 30 && Sum([1, 1]) == 2;
    assert Quot(Wrap(30, Int64), 2) == 15 && Quot(Wrap(2, Int32), 2) == 1;
    assert l2.out.processTimes + [15] == [15] && l2.out.threadCounts + [1] == [1] && l2.out.seconds + [1] == [1];
  }

  lemma ExampleUpToFour()
    ensures LoopAfter(ExampleTimes, ExampleCounts, ExampleMarkers, 4)
         == Ok(LoopState(2, [10, 20, 40], [1, 1, 2], Averaged([15], [1], [1])))
  {
    ExampleUpToTwo();
    ExampleThirdEntry(2);
    var l3 := LoopState(2, [10, 20], [1, 1], Averaged([15], [1], [1]));
    assert LoopAfter(ExampleTimes, ExampleCounts, ExampleMarkers, 3) == Ok(l3);
    StepKeeps(l3, 40, 2, 2);
    assert l3.timeBuffer + [40] == [10, 20, 40] && l3.countBuffer + [2] == [1, 1, 2];
  }

  lemma ExampleFifthEntry()
    ensures Step(LoopState(2, [10, 20, 40], [1, 1, 2], Averaged([15], [1], [1])), 50, 3, 3)
         == Ok(LoopState(3, [10, 20, 40], [1, 1, 2], Averaged([15, 23], [1, 1], [1, 2])))
  {
    var l4 := LoopState(2, [10, 20, 40], [1, 1, 2], Averaged([15], [1], [1]));
    StepEmits(l4, 50, 3, 3);
    ExampleSecondRow();
    assert l4.out.processTimes + [23] == [15, 23] && l4.out.threadCounts + [1] == [1, 1];
    assert l4.out.seconds + [2] == [1, 2];
  }

  lemma ExampleSecondRow()
    ensures Quot(Wrap(Sum([10, 20, 40]), Int64), 3) == 23
    ensures Quot(Wrap(Sum([1, 1, 2]), Int32), 3) == 1
  {
    assert [10, 20, 40][..2] == [10, 20] && [1, 1, 2][..2] == [1, 1];
    assert Sum([10, 20]) == 30 && Sum([1, 1]) == 2;
    assert Sum([10, 20, 40]) == 70 && Sum([1, 1, 2]) == 4;
    assert Wrap(70, Int64) == 70 && Wrap(4, Int32) == 4;
  }
}
