/** The queue itself: a list of nodes, front first, and a separately stored
    node count, with the public operations of the `queue/` module
    (new, enqueue, dequeue, peek-front, peek-back, empty?, length, to-array).

    The node list is modelled by the sequence of the values its nodes hold;
    a node is identified by its position in that sequence. The count is a
    field of its own, updated in lockstep with the list exactly where the
    source updates it, so that `Valid` is something every operation has to
    preserve rather than something true by construction.
 */
module Queues {
  import opened JanetValues

  datatype Queue = Queue(contents: seq<Janet>, length: nat)

  /** The representation invariant: the stored count is the number of
      linked nodes. */
  predicate Valid(q: Queue) {
    q.length == |q.contents|
  }

  /** The queue holding no node, with a zero count. */
  function Empty(): (q: Queue)
    ensures Valid(q) && |q.contents| == 0
  {
    Queue([], 0)
  }

  /** Links a new node holding `v` at the back and bumps the count. */
  function Enqueue(q: Queue, v: Janet): (r: Queue)
    ensures |r.contents| == |q.contents| + 1
    ensures r.contents[|q.contents|] == v
    ensures r.contents[..|q.contents|] == q.contents
    ensures r.length == q.length + 1
    ensures Valid(q) ==> Valid(r)
  {
    Queue(q.contents + [v], q.length + 1)
  }

  /** `queue/new`: starts from an empty list with a zero count and links one
      node per argument, in argument order, each time bumping the count. */
  function New(args: seq<Janet>): (q: Queue)
    ensures Valid(q)
    ensures q.contents == args
    ensures q.length == |args|
  {
    if |args| == 0 then Empty()
    else Enqueue(New(args[..|args| - 1]), args[|args| - 1])
  }

  /** `queue/new` when the node allocator can satisfy only `freeNodes`
      further requests: the first failed request panics, and no queue is
      returned. */
  function NewChecked(args: seq<Janet>, freeNodes: nat): (r: Result<Queue>)
    ensures r.Ok? <==> |args| <= freeNodes
    ensures r.Ok? ==> Valid(r.value) && r.value.contents == args
    ensures r.Panic? ==> r.error == OutOfMemory
  {
    if |args| <= freeNodes then Ok(New(args)) else Panic(OutOfMemory)
  }

  /** `queue/enqueue`: returns the same queue, now holding `v` at the back.
      The handle returned is the queue's own; in this value model that is
      the updated queue. */
  function EnqueueChecked(q: Queue, v: Janet, nodeAllocated: bool): (r: Result<Queue>)
    ensures r.Ok? <==> nodeAllocated
    ensures r.Ok? ==> r.value == Enqueue(q, v)
    ensures r.Panic? ==> r.error == OutOfMemory
  {
    if nodeAllocated then Ok(Enqueue(q, v)) else Panic(OutOfMemory)
  }

  /** The queue after a dequeue together with the value handed back. */
  datatype Dequeued = Dequeued(queue: Queue, value: Janet)

  /** `queue/dequeue`: nil and no change on an empty list; otherwise unlinks
      the front node, drops the count by one and returns the node's value. */
  function Dequeue(q: Queue): (r: Dequeued)
    requires Valid(q)
    ensures Valid(r.queue)
    ensures |q.contents| == 0 ==> r.queue == q && r.value == Nil
    ensures |q.contents| > 0 ==>
              && r.value == q.contents[0]
              && [r.value] + r.queue.contents == q.contents
              && r.queue.length == q.length - 1
  {
    if |q.contents| == 0 then Dequeued(q, Nil)
    else Dequeued(Queue(q.contents[1..], q.length - 1), q.contents[0])
  }

  /** `queue/peek-front`: the front node's value, or nil on an empty list;
      that is, what the next dequeue would return. */
  function PeekFront(q: Queue): (r: Janet)
    ensures |q.contents| == 0 ==> r == Nil
    ensures Valid(q) ==> r == Dequeue(q).value
  {
    if |q.contents| == 0 then Nil else q.contents[0]
  }

  /** `queue/peek-back`: the back node's value, or nil on an empty list. */
  function PeekBack(q: Queue): (r: Janet)
    ensures |q.contents| == 0 ==> r == Nil
    ensures |q.contents| > 0 ==> q.contents == q.contents[..|q.contents| - 1] + [r]
  {
    if |q.contents| == 0 then Nil else q.contents[|q.contents| - 1]
  }

  /** `queue/empty?`: tests the node list, not the count. */
  predicate IsEmpty(q: Queue)
    ensures Valid(q) ==> (IsEmpty(q) <==> q.length == 0)
  {
    |q.contents| == 0
  }

  /** `queue/length`: the stored count (never a traversal), converted to the
      host's int32 integers. */
  function Length(q: Queue): (r: int)
    ensures INT32_MIN <= r <= INT32_MAX
    ensures (r - q.length) % TWO_TO_32 == 0
    ensures q.length <= INT32_MAX ==> r == q.length
  {
    WrapInt32(q.length)
  }

  /** `queue/to-array`: a fresh array of the node values, front to back.
      The host's arrays hold at most INT32_MAX elements: pushing one more
      panics with an array overflow, so a longer list cannot be converted. */
  function ToArray(q: Queue): (r: Result<seq<Janet>>)
    ensures r.Ok? <==> |q.contents| <= INT32_MAX
    ensures r.Ok? ==> |r.value| == |q.contents|
    ensures r.Ok? && Valid(q) ==> |r.value| == q.length
    ensures r.Panic? ==> r.error == ArrayOverflow
  {
    if |q.contents| > INT32_MAX then Panic(ArrayOverflow) else Ok(q.contents)
  }
}
