/**
 The two text reports of the throughput-measuring scheduler. Each is built
 with a `StringBuilder` appending one newline-terminated line per row, every
 line of the form `<label>: <n>; <label>: <n>; <label>: <n>`.

 Partners: `Lines` splits a text back into its lines, and `ParseRow` reads a
 line back into its three numbers; both are proved to invert the rendering.
 */
module Reports {
  import opened JavaSemantics
  import opened Decimal
  import Metrics

  /** Position of the first occurrence of `c` in `s`. */
  function FirstIndex(c: char, s: string): (k: nat)
    requires c in s
    ensures k < |s| && s[k] == c && c !in s[..k]
  {
    if s[0] == c then 0
    else
      var k := 1 + FirstIndex(c, s[1..]);
      assert s[..k] == [s[0]] + s[1..][..k - 1];
      k
  }

  lemma FirstIndexUnique(c: char, s: string, k: nat)
    requires k < |s| && s[k] == c && c !in s[..k]
    ensures FirstIndex(c, s) == k
  {
  }

  /** The lines of a text. Each line ends at a newline, which belongs to no
      line; text after the last newline forms a final line. */
  function Lines(s: string): seq<string>
    decreases |s|
  {
    if |s| == 0 then []
    else if '\n' !in s then [s]
    else
      var k := FirstIndex('\n', s);
      [s[..k]] + Lines(s[k + 1..])
  }

  predicate EndsLine(s: string) {
    |s| == 0 || s[|s| - 1] == '\n'
  }

  /** What a `StringBuilder` holds after appending `line + "\n"` for each line in order. */
  function Render(lines: seq<string>): string {
    if |lines| == 0 then "" else lines[0] + "\n" + Render(lines[1..])
  }

  lemma {:induction false} RenderEndsLine(lines: seq<string>)
    ensures EndsLine(Render(lines))
  {
    if |lines| > 0 {
      RenderEndsLine(lines[1..]);
    }
  }

  /** A line without a newline, then a newline, is split off as the first line. */
  lemma FirstLine(line: string, rest: string)
    requires '\n' !in line
    ensures Lines(line + "\n" + rest) == [line] + Lines(rest)
  {
    var s := line + "\n" + rest;
    assert s[|line|] == '\n';
    assert s[..|line|] == line;
    FirstIndexUnique('\n', s, |line|);
    assert s[|line| + 1..] == rest;
  }

  /** Splitting the rendering gives back the lines, provided none contains a newline. */
  lemma {:induction false} LinesOfRender(lines: seq<string>)
    requires forall i :: 0 <= i < |lines| ==> '\n' !in lines[i]
    ensures Lines(Render(lines)) == lines
  {
    if |lines| > 0 {
      LinesOfRender(lines[1..]);
      FirstLine(lines[0], Render(lines[1..]));
    }
  }

  /** `l1 + a + "; " + l2 + b + "; " + l3 + c`, the shape of every report line. */
  function Row(l1: string, a: int, l2: string, b: int, l3: string, c: int): string {
    l1 + (IntToString(a) + RowTail(l2, b, l3, c))
  }

  /** `"; " + l2 + b + "; " + l3 + c`. */
  function RowTail(l2: string, b: int, l3: string, c: int): string {
    "; " + l2 + (IntToString(b) + RowLast(l3, c))
  }

  /** `"; " + l3 + c`. */
  function RowLast(l3: string, c: int): string {
    "; " + l3 + IntToString(c)
  }

  /** The rest of `s` after the prefix `p`, if `s` starts with `p`. */
  function Expect(p: string, s: string): (r: Option<string>)
    ensures r.Some? ==> s == p + r.value
  {
    if |p| <= |s| && s[..|p|] == p then
      assert s == s[..|p|] + s[|p|..];
      Some(s[|p|..])
    else None
  }

  lemma ExpectPrefix(p: string, rest: string)
    ensures Expect(p, p + rest) == Some(rest)
  {
    assert (p + rest)[..|p|] == p;
    assert (p + rest)[|p|..] == rest;
  }

  /** The number in front of the first `;` of `s`, and the rest from that `;` on. */
  function ReadField(s: string): Option<(int, string)> {
    if ';' !in s then None
    else
      var k := FirstIndex(';', s);
      match ParseInt(s[..k])
      case Some(v) => Some((v, s[k..]))
      case None => None
  }

  /** Reads a line of the shape `Row(l1, _, l2, _, l3, _)` back into its three numbers. */
  function ParseRow(l1: string, l2: string, l3: string, line: string): Option<(int, int, int)> {
    match Expect(l1, line)
    case None => None
    case Some(r1) =>
      match ReadField(r1)
      case None => None
      case Some((a, r2)) =>
        match ParseTail(l2, l3, r2)
        case None => None
        case Some((b, c)) => Some((a, b, c))
  }

  /** Reads `"; " + l2 + b + "; " + l3 + c` back into `b` and `c`. */
  function ParseTail(l2: string, l3: string, s: string): Option<(int, int)> {
    match Expect("; " + l2, s)
    case None => None
    case Some(r3) =>
      match ReadField(r3)
      case None => None
      case Some((b, r4)) =>
        match ParseLast(l3, r4)
        case None => None
        case Some(c) => Some((b, c))
  }

  /** Reads `"; " + l3 + c` back into `c`. */
  function ParseLast(l3: string, s: string): Option<int> {
    match Expect("; " + l3, s)
    case None => None
    case Some(r5) => ParseInt(r5)
  }

  lemma NumberHasNoSeparator(n: int)
    ensures ';' !in IntToString(n) && '\n' !in IntToString(n)
  {
    var s := IntToString(n);
    if n < 0 {
      assert s == [s[0]] + s[1..];
    }
  }

  /** Reading `v` back out of `IntToString(v) + rest`, where `rest` starts with `;`. */
  lemma ReadFieldRoundTrip(v: int, rest: string)
    requires |rest| > 0 && rest[0] == ';'
    ensures ReadField(IntToString(v) + rest) == Some((v, rest))
  {
    var t := IntToString(v);
    var s := t + rest;
    NumberHasNoSeparator(v);
    assert s[|t|] == ';';
    assert s[..|t|] == t;
    FirstIndexUnique(';', s, |t|);
    assert s[|t|..] == rest;
    IntToStringRoundTrip(v);
  }

  /** Every report line can be read back into the numbers it was built from. */
  lemma ParseRowRoundTrip(l1: string, a: int, l2: string, b: int, l3: string, c: int)
    ensures ParseRow(l1, l2, l3, Row(l1, a, l2, b, l3, c)) == Some((a, b, c))
  {
    var r2 := RowTail(l2, b, l3, c);
    ExpectPrefix(l1, IntToString(a) + r2);
    ReadFieldRoundTrip(a, r2);
    ParseTailRoundTrip(l2, b, l3, c);
  }

  lemma ParseTailRoundTrip(l2: string, b: int, l3: string, c: int)
    ensures ParseTail(l2, l3, RowTail(l2, b, l3, c)) == Some((b, c))
  {
    var r4 := RowLast(l3, c);
    ExpectPrefix("; " + l2, IntToString(b) + r4);
    ReadFieldRoundTrip(b, r4);
    ParseLastRoundTrip(l3, c);
  }

  lemma ParseLastRoundTrip(l3: string, c: int)
    ensures ParseLast(l3, RowLast(l3, c)) == Some(c)
  {
    ExpectPrefix("; " + l3, IntToString(c));
    IntToStringRoundTrip(c);
  }

  lemma RowHasNoNewline(l1: string, a: int, l2: string, b: int, l3: string, c: int)
    requires '\n' !in l1 && '\n' !in l2 && '\n' !in l3
    ensures '\n' !in Row(l1, a, l2, b, l3, c)
  {
    NumberHasNoSeparator(a);
    NumberHasNoSeparator(b);
    NumberHasNoSeparator(c);
    assert '\n' !in "; ";
  }

  const SecondLabel := "Second Marker: "
  const TasksLabel := "Tasks Processed: "
  const ThreadsLabel := "Number of Active Threads: "
  const AverageTimeLabel := "Average Process Time: "
  const AverageThreadsLabel := "Average Number of Active Threads: "

  lemma LabelsHaveNoNewline()
    ensures '\n' !in SecondLabel && '\n' !in TasksLabel && '\n' !in ThreadsLabel
    ensures '\n' !in AverageTimeLabel && '\n' !in AverageThreadsLabel
  {
  }

  /** The report text for rows `(xs[i], ys[i], zs[i])` under the given labels. */
  function RenderRows(l1: string, l2: string, l3: string, xs: seq<int>, ys: seq<int>, zs: seq<int>): (s: string)
    requires '\n' !in l1 && '\n' !in l2 && '\n' !in l3
    requires |ys| >= |xs| && |zs| >= |xs|
    ensures EndsLine(s)
    ensures |Lines(s)| == |xs|
    ensures forall i :: 0 <= i < |xs| ==> ParseRow(l1, l2, l3, Lines(s)[i]) == Some((xs[i], ys[i], zs[i]))
  {
    var rows := seq(|xs|, i requires 0 <= i < |xs| => Row(l1, xs[i], l2, ys[i], l3, zs[i]));
    forall i | 0 <= i < |rows|
      ensures '\n' !in rows[i]
      ensures ParseRow(l1, l2, l3, rows[i]) == Some((xs[i], ys[i], zs[i]))
    {
      RowHasNoNewline(l1, xs[i], l2, ys[i], l3, zs[i]);
      ParseRowRoundTrip(l1, xs[i], l2, ys[i], l3, zs[i]);
    }
    LinesOfRender(rows);
    RenderEndsLine(rows);
    Render(rows)
  }

  /** `getThroughputDataString`: one line per tick, in order, made of that
      tick's marker, task count and pool size; each line reads back into them. */
  function GetThroughputDataString(m: Metrics.Recorder): (s: string)
    requires |m.tasksProcessed| >= |m.seconds| && |m.threadCounts| >= |m.seconds|
    ensures EndsLine(s)
    ensures |Lines(s)| == |m.seconds|
    ensures forall i :: 0 <= i < |m.seconds| ==>
      ParseRow(SecondLabel, TasksLabel, ThreadsLabel, Lines(s)[i]) ==
        Some((m.seconds[i], m.tasksProcessed[i], m.threadCounts[i]))
  {
    LabelsHaveNoNewline();
    RenderRows(SecondLabel, TasksLabel, ThreadsLabel, m.seconds, m.tasksProcessed, m.threadCounts)
  }

  /** The lines of the latency report for the averages `a`: line `i` reads
      back as second `i + 1` and that second's two averages. */
  function LatencyRows(a: Metrics.Averaged): (s: string)
    requires Metrics.Consecutive(a)
    ensures EndsLine(s)
    ensures |Lines(s)| == |a.seconds|
    ensures forall i :: 0 <= i < |a.seconds| ==>
      ParseRow(SecondLabel, AverageTimeLabel, AverageThreadsLabel, Lines(s)[i]) ==
        Some((i + 1, a.processTimes[i], a.threadCounts[i]))
  {
    LabelsHaveNoNewline();
    RenderRows(SecondLabel, AverageTimeLabel, AverageThreadsLabel, a.seconds, a.processTimes, a.threadCounts)
  }

  /** `getLatencyDataString`: runs `averageLatencyData`, propagating its
      division by zero, then one line per emitted second, in order, made of
      that second's marker and two averages. */
  function GetLatencyDataString(m: Metrics.Recorder): (r: Result<string>)
    requires Metrics.SameLength(m.latencyProcessTimes, m.latencyThreadCounts, m.latencySeconds)
    ensures r.Thrown? <==> |m.latencySeconds| > 0 && !BoxedEquals(m.latencySeconds[0], 1)
    ensures r.Ok? ==>
      var a := Metrics.AverageLatencyData(m.latencyProcessTimes, m.latencyThreadCounts, m.latencySeconds).value;
      && EndsLine(r.value)
      && |Lines(r.value)| == |a.seconds|
      && forall i :: 0 <= i < |a.seconds| ==>
           ParseRow(SecondLabel, AverageTimeLabel, AverageThreadsLabel, Lines(r.value)[i]) ==
             Some((i + 1, a.processTimes[i], a.threadCounts[i]))
  {
    match Metrics.AverageLatencyData(m.latencyProcessTimes, m.latencyThreadCounts, m.latencySeconds)
    case Thrown(e) => Thrown(e)
    case Ok(a) => Ok(LatencyRows(a))
  }
}
