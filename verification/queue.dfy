/**
 * The doubly linked run-buffer queue of a stream, modelled as a sequence.
 * Position i of the sequence is the i-th node from the head: its `prev`
 * link names position i - 1 and its `next` link position i + 1, and the
 * head and tail pointers are null exactly when the sequence is empty.
 */
module Queue {
  import opened Wrappers
  import opened RunBufs

  /** The `queue` head pointer. */
  function Head(q: seq<RunBuf>): Option<RunBuf>
  {
    if |q| == 0 then None else Some(q[0])
  }

  /** The `queueTail` pointer. */
  function Tail(q: seq<RunBuf>): Option<RunBuf>
  {
    if |q| == 0 then None else Some(q[|q| - 1])
  }

  /** The `prev` link of the node at position i. */
  function Prev(q: seq<RunBuf>, i: nat): (r: Option<nat>)
    requires i < |q|
    ensures r.Some? ==> r.value < i
  {
    if i == 0 then None else Some(i - 1)
  }

  /** The `next` link of the node at position i. */
  function Next(q: seq<RunBuf>, i: nat): (r: Option<nat>)
    requires i < |q|
    ensures r.Some? ==> i < r.value < |q|
  {
    if i + 1 == |q| then None else Some(i + 1)
  }

  /** The head pointer is null iff the tail pointer is null iff the queue is empty. */
  lemma EmptyIffBothNull(q: seq<RunBuf>)
    ensures Head(q).None? <==> Tail(q).None?
    ensures Head(q).None? <==> |q| == 0
  {
  }

  /** The links are mutually inverse and the head has no predecessor, the tail no successor. */
  lemma LinksConsistent(q: seq<RunBuf>, i: nat)
    requires i < |q|
    ensures Prev(q, i).Some? ==> Next(q, Prev(q, i).value) == Some(i)
    ensures Next(q, i).Some? ==> Prev(q, Next(q, i).value) == Some(i)
    ensures Prev(q, i).None? <==> i == 0
    ensures Next(q, i).None? <==> i == |q| - 1
  {
  }

  /** `inputStreamAppend`: the buffer becomes the new tail. */
  function Append(q: seq<RunBuf>, b: RunBuf): (r: seq<RunBuf>)
    ensures Tail(r) == Some(b) && |r| == |q| + 1
    ensures Head(r) == (if |q| == 0 then Some(b) else Head(q))
    ensures r[..|q|] == q
  {
    q + [b]
  }

  /** `inputStreamPrepend`: the buffer becomes the new head. */
  function Prepend(q: seq<RunBuf>, b: RunBuf): (r: seq<RunBuf>)
    ensures Head(r) == Some(b) && |r| == |q| + 1
    ensures Tail(r) == (if |q| == 0 then Some(b) else Tail(q))
    ensures r[1..] == q
  {
    [b] + q
  }

  /** `inputStreamPopHead`: detach and return the head; the next node becomes the head. */
  function PopHead(q: seq<RunBuf>): (r: (RunBuf, seq<RunBuf>))
    requires |q| > 0
    ensures Head(q) == Some(r.0)
    ensures [r.0] + r.1 == q
  {
    (q[0], q[1..])
  }

  /** The queue that remains once `newTail` is made the tail: empty when it is null. */
  function UpTo(q: seq<RunBuf>, newTail: Option<nat>): seq<RunBuf>
    requires newTail.Some? ==> newTail.value < |q|
  {
    match newTail
    case None => []
    case Some(t) => q[..t + 1]
  }

  /**
   * `inputStreamPopTail` as written: the new tail is read from the HEAD's
   * `prev` link (`is->queue->prev`), which is always null, so the whole
   * queue is dropped while only the old tail is returned.
   */
  function PopTailAsWritten(q: seq<RunBuf>): (r: (RunBuf, seq<RunBuf>))
    requires |q| > 0
    ensures Tail(q) == Some(r.0)
  {
    (q[|q| - 1], UpTo(q, Prev(q, 0)))
  }

  /** Whatever the queue held, the as-written pop-tail leaves it empty. */
  lemma PopTailAsWrittenEmpties(q: seq<RunBuf>)
    requires |q| > 0
    ensures PopTailAsWritten(q).1 == []
  {
  }

  /** A two-buffer queue shows the defect: appending then popping the tail loses the first buffer. */
  lemma PopTailAsWrittenLosesBuffers(a: RunBuf, b: RunBuf)
    ensures PopTailAsWritten(Append([a], b)) == (b, [])
    ensures PopTailAsWritten(Append([a], b)).1 != [a]
  {
  }

  /** Pop-tail with the evidently intended link: the new tail is the old tail's `prev`. */
  function PopTail(q: seq<RunBuf>): (r: (RunBuf, seq<RunBuf>))
    requires |q| > 0
    ensures Tail(q) == Some(r.0)
    ensures r.1 + [r.0] == q
    ensures r.1 == q[..|q| - 1]
  {
    (q[|q| - 1], UpTo(q, Prev(q, |q| - 1)))
  }

  /** On a one-buffer queue both versions agree: the queue becomes empty. */
  lemma PopTailSingleton(b: RunBuf)
    ensures PopTail([b]) == (b, []) == PopTailAsWritten([b])
  {
  }

  /** Prepending and then popping the head returns the buffer and the queue as it was. */
  lemma PrependPopHead(q: seq<RunBuf>, b: RunBuf)
    ensures PopHead(Prepend(q, b)) == (b, q)
  {
    assert Prepend(q, b)[1..] == q;
  }

  /** Appending and then popping the (corrected) tail returns the buffer and the queue as it was. */
  lemma AppendPopTail(q: seq<RunBuf>, b: RunBuf)
    ensures PopTail(Append(q, b)) == (b, q)
  {
    var r := PopTail(Append(q, b));
    assert r.1 + [r.0] == q + [b];
    assert r.1 == (r.1 + [r.0])[..|q|];
  }

  /** All four operations keep every buffer valid when the buffers they add are valid. */
  lemma QueueOpsPreserveValid(q: seq<RunBuf>, b: RunBuf)
    requires ValidQueue(q) && b.Valid()
    ensures ValidQueue(Append(q, b)) && ValidQueue(Prepend(q, b))
    ensures |q| > 0 ==> ValidQueue(PopHead(q).1) && ValidQueue(PopTail(q).1)
  {
  }
}
