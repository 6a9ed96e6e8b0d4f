/** Properties relating the queue's operations to one another: FIFO order
    over any interleaving of enqueues and dequeues, agreement of the
    inspections with the order of removal, the iteration protocol, and the
    divergence of the next callback as written from its intended behaviour.
 */
module QueueProperties {
  import opened JanetValues
  import opened Queues
  import opened Hooks

  /* ----- Interleaved mutation ----- */

  datatype Op = EnqueueOp(value: Janet) | DequeueOp

  /** The queue after a sequence of calls, and the values that dequeues
      actually removed (a dequeue on an empty queue removes nothing). */
  datatype Trace = Trace(queue: Queue, removed: seq<Janet>)

  function Run(q: Queue, ops: seq<Op>): Trace
    requires Valid(q)
    decreases |ops|
  {
    if |ops| == 0 then Trace(q, [])
    else match ops[0]
      case EnqueueOp(v) => Run(Enqueue(q, v), ops[1..])
      case DequeueOp =>
        if |q.contents| == 0 then Run(q, ops[1..])
        else
          var d := Dequeue(q);
          var t := Run(d.queue, ops[1..]);
          Trace(t.queue, [d.value] + t.removed)
  }

  /** The values enqueued by `ops`, in call order. */
  function Enqueued(ops: seq<Op>): seq<Janet> {
    if |ops| == 0 then []
    else match ops[0]
      case EnqueueOp(v) => [v] + Enqueued(ops[1..])
      case DequeueOp => Enqueued(ops[1..])
  }

  /** What a trace `t` from `q` must satisfy when `enq` were enqueued:
      everything that was in the queue or was enqueued, in order, is exactly
      what was removed followed by what is left, and the count still equals
      the number of nodes. */
  predicate FifoTrace(q: Queue, enq: seq<Janet>, t: Trace) {
    && Valid(t.queue)
    && q.contents + enq == t.removed + t.queue.contents
  }

  /** FIFO over any interleaving of enqueues and dequeues; as a consequence
      the count moves by the enqueues minus the successful dequeues. */
  lemma {:induction false} RunIsFifo(q: Queue, ops: seq<Op>)
    requires Valid(q)
    ensures FifoTrace(q, Enqueued(ops), Run(q, ops))
    ensures Run(q, ops).queue.length == q.length + |Enqueued(ops)| - |Run(q, ops).removed|
    decreases |ops|
  {
    var t := Run(q, ops);
    var enq := Enqueued(ops);
    if |ops| == 0 {
      assert q.contents + [] == q.contents;
    } else if ops[0].EnqueueOp? {
      var v := ops[0].value;
      var q1 := Enqueue(q, v);
      RunIsFifo(q1, ops[1..]);
      assert t == Run(q1, ops[1..]);
      assert enq == [v] + Enqueued(ops[1..]);
      assert q1.contents == q.contents + [v];
      assert q.contents + ([v] + Enqueued(ops[1..])) == (q.contents + [v]) + Enqueued(ops[1..]);
    } else if |q.contents| == 0 {
      RunIsFifo(q, ops[1..]);
      assert t == Run(q, ops[1..]);
      assert enq == Enqueued(ops[1..]);
    } else {
      var d := Dequeue(q);
      var t1 := Run(d.queue, ops[1..]);
      RunIsFifo(d.queue, ops[1..]);
      assert t == Trace(t1.queue, [d.value] + t1.removed);
      assert enq == Enqueued(ops[1..]);
      assert q.contents == [d.value] + d.queue.contents;
      assert ([d.value] + d.queue.contents) + enq == [d.value] + (d.queue.contents + enq);
      assert [d.value] + (t1.removed + t1.queue.contents) == ([d.value] + t1.removed) + t1.queue.contents;
    }
    assert |q.contents| + |enq| == |t.removed| + |t.queue.contents|;
  }

  /* ----- Draining ----- */

  datatype Drained = Drained(queue: Queue, values: seq<Janet>)

  /** Dequeues `k` times, collecting what each call returns. */
  function Drain(q: Queue, k: nat): (r: Drained)
    requires Valid(q)
    ensures Valid(r.queue)
    ensures |r.values| == k
    decreases k
  {
    if k == 0 then Drained(q, [])
    else
      var d := Dequeue(q);
      var rest := Drain(d.queue, k - 1);
      Drained(rest.queue, [d.value] + rest.values)
  }

  /** Dequeuing as many times as there are nodes returns every value front
      to back and leaves the queue empty with a zero count. */
  lemma {:induction false} DrainYieldsContents(q: Queue)
    requires Valid(q)
    ensures Drain(q, q.length).values == q.contents
    ensures Drain(q, q.length).queue == Empty()
    decreases q.length
  {
    if q.length > 0 {
      var d := Dequeue(q);
      DrainYieldsContents(d.queue);
    }
  }

  /** Enqueueing v1..vn into a new queue and then dequeuing n times yields
      v1..vn in that order. */
  lemma FifoOrder(vs: seq<Janet>)
    ensures Drain(New(vs), |vs|).values == vs
    ensures Drain(New(vs), |vs|).queue == Empty()
  {
    DrainYieldsContents(New(vs));
  }

  /** A dequeue on an empty queue returns nil, and any number of them leave
      it empty with a zero count. */
  lemma {:induction false} DrainEmpty(k: nat)
    ensures Drain(Empty(), k).queue == Empty()
    ensures Drain(Empty(), k).values == seq(k, _ => Nil)
  {
    if k > 0 {
      DrainEmpty(k - 1);
    }
  }

  /** Enqueue and dequeue commute on a non-empty queue: the classic queue law. */
  lemma DequeueEnqueueCommute(q: Queue, v: Janet)
    requires Valid(q) && |q.contents| > 0
    ensures Dequeue(Enqueue(q, v)) == Dequeued(Enqueue(Dequeue(q).queue, v), q.contents[0])
  {
    assert (q.contents + [v])[1..] == q.contents[1..] + [v];
  }

  /** On an empty queue an enqueued value is the next one dequeued, and the
      queue is empty again afterwards. */
  lemma DequeueEnqueueEmpty(q: Queue, v: Janet)
    requires Valid(q) && |q.contents| == 0
    ensures Dequeue(Enqueue(q, v)) == Dequeued(q, v)
  {
  }

  /* ----- Inspection ----- */

  /** peek-front returns what the next dequeue would return (nil when empty). */
  lemma PeekFrontIsNextDequeued(q: Queue)
    requires Valid(q)
    ensures PeekFront(q) == Dequeue(q).value
    ensures |q.contents| > 0 ==> PeekFront(q) == Drain(q, q.length).values[0]
  {
    if |q.contents| > 0 {
      DrainYieldsContents(q);
    }
  }

  /** peek-back returns the value most recently enqueued, and nil on an
      empty queue. */
  lemma PeekBackIsLastEnqueued(q: Queue, v: Janet)
    ensures PeekBack(Enqueue(q, v)) == v
    ensures |q.contents| == 0 ==> PeekBack(q) == Nil
  {
  }

  /** empty? (which tests the node list) agrees with the stored count, and
      with the reported length while the count fits an int32. */
  lemma EmptyAgreesWithCount(q: Queue)
    requires Valid(q)
    ensures IsEmpty(q) <==> q.length == 0
    ensures q.length <= INT32_MAX ==> (IsEmpty(q) <==> Length(q) == 0)
  {
  }

  /** to-array, when the list fits a host array, is the removal order; the
      queue itself is left as it was, so dequeues afterwards return the same
      values. */
  lemma ToArrayIsDrainOrder(q: Queue)
    requires Valid(q)
    ensures q.length <= INT32_MAX ==> ToArray(q) == Ok(Drain(q, q.length).values)
    ensures q.length > INT32_MAX ==> ToArray(q) == Panic(ArrayOverflow)
  {
    DrainYieldsContents(q);
  }

  /** After k dequeues (k at most the number of nodes) the queue holds the
      values from position k on, and those dequeues returned the values
      before it. */
  lemma {:induction false} DrainPrefix(q: Queue, k: nat)
    requires Valid(q) && k <= |q.contents|
    ensures Drain(q, k).queue.contents == q.contents[k..]
    ensures Drain(q, k).values == q.contents[..k]
    decreases k
  {
    if k > 0 {
      var d := Dequeue(q);
      DrainPrefix(d.queue, k - 1);
      assert d.queue.contents[k - 1..] == q.contents[k..];
      assert [d.value] + d.queue.contents[..k - 1] == q.contents[..k];
    }
  }

  /** get(i) is the value the (i+1)-th of a run of dequeues returns. */
  lemma GetMatchesDequeueOrder(q: Queue, key: Janet)
    requires Valid(q)
    requires IsInt(key) && 0 <= IntValue(key) < q.length
    ensures Get(q, key) == Ok(Found(Dequeue(Drain(q, IntValue(key)).queue).value))
  {
    DrainPrefix(q, IntValue(key));
  }

  /** A position past the int32 range is not an integer key to the host,
      so get reports "no such key" even when the queue is that long. */
  lemma GetBeyondInt32IsNotFound(q: Queue, i: int)
    requires Valid(q) && i > INT32_MAX
    ensures Get(q, FromInt(i)) == Ok(NotFound)
  {
  }

  /* ----- Iteration ----- */

  /** From the node at `pos`, the iteration visits every later node once,
      in order. */
  lemma {:induction false} KeysFromNode(q: Queue, pos: nat)
    requires pos < |q.contents|
    ensures |KeysFrom(q, Pointer(Node(pos)))| == |q.contents| - pos
    ensures forall j :: 0 <= j < |q.contents| - pos ==>
              KeysFrom(q, Pointer(Node(pos)))[j] == Pointer(Node(pos + j))
    decreases |q.contents| - pos
  {
    var next := NextIntended(q, Pointer(Node(pos))).value;
    if pos + 1 < |q.contents| {
      assert next == Pointer(Node(pos + 1));
      KeysFromNode(q, pos + 1);
    } else {
      assert next == Nil;
    }
  }

  /** Iterating from nil visits every node exactly once, front to back. */
  lemma IterationVisitsInOrder(q: Queue)
    ensures |IterationKeys(q)| == |q.contents|
    ensures forall j :: 0 <= j < |q.contents| ==> IterationKeys(q)[j] == Pointer(Node(j))
  {
    if |q.contents| > 0 {
      KeysFromNode(q, 0);
    }
  }

  /** The keys the iteration hands out are node pointers, which the get
      callback does not accept as keys: a lookup by iteration key finds
      nothing. */
  lemma IterationKeysAreNotIndices(q: Queue)
    requires Valid(q)
    ensures forall j :: 0 <= j < |IterationKeys(q)| ==> Get(q, IterationKeys(q)[j]) == Ok(NotFound)
  {
    IterationVisitsInOrder(q);
  }

  /** The next callback as written agrees with the intended one on every
      key except nil on an empty queue, where it returns the NULL pointer
      instead of nil. */
  lemma NextAsWrittenDiverges(q: Queue, key: Janet)
    requires KeyAccepted(q, key)
    ensures Next(q, key) != NextIntended(q, key) <==> key.Nil? && |q.contents| == 0
    ensures key.Nil? && |q.contents| == 0 ==> Next(q, key) == Ok(Pointer(Null))
  {
  }

  /** On an empty queue the as-written iteration does not end: the first key
      it hands the host is not nil, and is not a key the next callback can
      be given again (it would follow the NULL pointer). */
  lemma EmptyIterationAsWritten()
    ensures Next(Empty(), Nil) == Ok(Pointer(Null))
    ensures !Next(Empty(), Nil).value.Nil?
    ensures !KeyAccepted(Empty(), Next(Empty(), Nil).value)
    ensures IterationKeys(Empty()) == []
  {
  }

  /* ----- Printing ----- */

  /** Three values print as their renderings separated by single spaces. */
  lemma BracketedThree(a: Janet, b: Janet, c: Janet, render: Janet -> string)
    ensures Bracketed([a, b, c], render) == "[" + render(a) + " " + render(b) + " " + render(c) + "]"
  {
    assert [a, b, c][1..] == [b, c];
    assert [b, c][1..] == [c];
    assert Joined([b, c], render) == render(b) + " " + render(c);
    assert Joined([a, b, c], render) == render(a) + " " + (render(b) + " " + render(c));
  }

  /** An empty queue prints as `[]`. */
  lemma BracketedEmpty(render: Janet -> string)
    ensures Bracketed([], render) == "[]"
  {
  }

  /* ----- Worked scenarios ----- */

  /** new(1, 2, 3); peek-front; dequeue; enqueue(4); to-array. */
  lemma ScenarioOneTwoThree()
    ensures var q := New([FromInt(1), FromInt(2), FromInt(3)]);
            && Length(q) == 3
            && PeekFront(q) == FromInt(1)
            && Dequeue(q).value == FromInt(1)
            && Length(Dequeue(q).queue) == 2
            && ToArray(Enqueue(Dequeue(q).queue, FromInt(4))) == Ok([FromInt(2), FromInt(3), FromInt(4)])
  {
    var q := New([FromInt(1), FromInt(2), FromInt(3)]);
    assert q.contents == [FromInt(1), FromInt(2), FromInt(3)];
    assert q.contents[1..] == [FromInt(2), FromInt(3)];
    var q2 := Enqueue(Dequeue(q).queue, FromInt(4));
    assert q2.contents == [FromInt(2), FromInt(3), FromInt(4)];
  }

  /** new(); empty?; dequeue; peek-front. */
  lemma ScenarioEmpty()
    ensures IsEmpty(New([]))
    ensures Dequeue(New([])).value == Nil
    ensures Dequeue(New([])).queue == New([])
    ensures PeekFront(New([])) == Nil
  {
  }
}
