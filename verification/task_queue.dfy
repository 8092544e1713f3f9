/**
 The command queue both schedulers keep (a `LinkedList` used as a `Queue`):
 `add` appends at the tail, `poll` removes the head or yields `null` when the
 queue is empty. A run of submissions and claims is described by a sequence
 of operations, and the queue is proved to be first-in first-out over any run.
 */
module TaskQueue {
  import opened JavaSemantics

  /** `Queue.add`: the command goes to the tail. */
  function Add<T>(q: seq<T>, command: T): (q': seq<T>)
    ensures |q'| == |q| + 1
    ensures q'[..|q|] == q && q'[|q|] == command
  {
    q + [command]
  }

  /** `Queue.poll`: the head and the rest, or `null` and an unchanged empty queue. */
  function Poll<T>(q: seq<T>): (r: (Option<T>, seq<T>))
    ensures |q| == 0 ==> r.0 == None && r.1 == q
    ensures |q| > 0 ==> r.0 == Some(q[0]) && [q[0]] + r.1 == q
  {
    if |q| == 0 then (None, q) else (Some(q[0]), q[1..])
  }

  /** One atomic step of a run: a caller submits a command, or a worker claims one. */
  datatype Op<T> = Submit(command: T) | Claim

  /** A burst of submissions, one per command. */
  function Submits<T>(cs: seq<T>): (ops: seq<Op<T>>)
    ensures |ops| == |cs|
    ensures forall i :: 0 <= i < |cs| ==> ops[i] == Submit(cs[i])
  {
    seq(|cs|, i requires 0 <= i < |cs| => Submit(cs[i]))
  }

  /** `k` claims in a row. */
  function Claims<T>(k: nat): (ops: seq<Op<T>>)
    ensures |ops| == k
    ensures forall i :: 0 <= i < k ==> ops[i] == Claim
  {
    seq(k, i => Claim)
  }

  /** The commands submitted during `ops`, in submission order. */
  function Submitted<T>(ops: seq<Op<T>>): seq<T> {
    if |ops| == 0 then []
    else Submitted(ops[..|ops| - 1]) + (match ops[|ops| - 1] case Submit(c) => [c] case Claim => [])
  }

  /** The non-null results of the claims, in claim order. */
  function Claimed<T>(r: seq<Option<T>>): seq<T> {
    if |r| == 0 then []
    else Claimed(r[..|r| - 1]) + (match r[|r| - 1] case Some(c) => [c] case None => [])
  }

  /** Queue contents after `ops`, and what each claim returned. */
  function Run<T>(q: seq<T>, ops: seq<Op<T>>): (r: (seq<T>, seq<Option<T>>)) {
    if |ops| == 0 then (q, [])
    else
      var (q0, out) := Run(q, ops[..|ops| - 1]);
      match ops[|ops| - 1]
      case Submit(c) => (Add(q0, c), out)
      case Claim => var (head, q1) := Poll(q0); (q1, out + [head])
  }

  /** No command is lost or reordered: whatever has been claimed, followed by
      what is still queued, is the initial queue followed by every submission. */
  lemma {:induction false} Fifo<T>(q: seq<T>, ops: seq<Op<T>>)
    ensures Claimed(Run(q, ops).1) + Run(q, ops).0 == q + Submitted(ops)
  {
    if |ops| > 0 {
      var init := ops[..|ops| - 1];
      Fifo(q, init);
      var (q0, out) := Run(q, init);
      match ops[|ops| - 1]
      case Submit(c) =>
        assert Submitted(ops) == Submitted(init) + [c];
        assert Run(q, ops) == (q0 + [c], out);
        assert Claimed(out) + (q0 + [c]) == (Claimed(out) + q0) + [c];
      case Claim =>
        var (head, q1) := Poll(q0);
        assert Run(q, ops).1 == out + [head];
        assert (out + [head])[..|out|] == out;
        if |q0| > 0 {
          assert Claimed(out + [head]) == Claimed(out) + [q0[0]];
        } else {
          assert Claimed(out + [head]) == Claimed(out);
        }
        assert Submitted(ops) == Submitted(init);
    }
  }
}
