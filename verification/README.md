# Janet FIFO queue — a Dafny model

This project models the `queue` native module for the Janet language. The module is a FIFO container kept as a
`TAILQ` doubly linked list of nodes plus a stored `length` count. The model covers:

- the public functions `queue/new`, `queue/enqueue`, `queue/dequeue`, `queue/peek-front`, `queue/peek-back`,
  `queue/empty?`, `queue/length` and `queue/to-array`;
- the callbacks the module registers for its abstract type: indexed `get`, key iteration (`next`),
  `tostring`, the garbage collector's mark pass (`gcmark`) and node release (`gc`).

Modules:

- `JanetValues` (`janet.dfy`) holds the part of the host's value model the queue touches:
  - the `Janet` tagged value: nil, boolean, number, raw pointer, or any other opaque handle;
  - the host's integer-key test (number, integral, within int32);
  - the size_t-to-int32 conversion behind `janet_wrap_integer`;
  - the panics, through a `Result` type.
- `Queues` (`queue.dfy`) holds the state `Queue(contents, length)` and the public operations.
  - `contents` is the sequence of node values, front first. A node is identified by its position.
  - `length` is a separate field, updated in lockstep exactly where the C code updates it.
  - `Valid` (`length == |contents|`) is therefore an invariant the operations must be proved to keep.
- `Hooks` (`hooks.dfy`) holds the abstract-type callbacks.
  - `get`, `next` and `tostring` are functions or methods of the state.
  - `gcmark` returns the sequence of values it reports to the collector.
  - `gc` returns the emptied queue and the number of nodes freed.
- `QueueProperties` (`properties.dfy`) relates the operations to each other. It covers:
  - FIFO order over any interleaving of enqueues and dequeues;
  - peeks, `to-array` and `get` agreeing with the order of removal;
  - the iteration protocol visiting each node once, front to back;
  - the divergence recorded under Findings;
  - the concrete scenarios `new(1, 2, 3)` … and `new()` ….

The model is functional. Each mutating call returns the queue's new state. `queue/enqueue` returns "the same
queue", which here means the updated queue value. Inspections return no new state, so they cannot change the queue.

The element printer `janet_pretty` is a parameter `render: Janet -> string`. Argument-count checks and the
abstract-type check (`janet_arity`, `janet_fixarity`, `janet_getabstract`) are expressed by the parameter
types. Allocation failure is modelled abstractly: `NewChecked` is given the number of nodes the allocator can
still supply, and `EnqueueChecked` is told whether its one allocation succeeds.

Two properties of the code as written are stated but not treated as bugs:

- `queue_gc` frees every node but leaves `length` unchanged (`Hooks.Gc`). The released queue is never used
  again, so `Valid` fails afterwards without consequence.
- `queue_next` hands out node pointers as keys, but `queue_get` accepts only integer keys. Looking up an
  iteration key therefore reports "no such key" (`QueueProperties.IterationKeysAreNotIndices`).

In these places the code may not do what a reader expects; the model follows the code:

- A non-integer key to `get` is "no such key" (the callback returns 0), not a panic.
- `empty?` tests the node list, not the count. Under `Valid` the two agree (`EmptyAgreesWithCount`).
- Pairing `next` with a value lookup does not reproduce the contents, because `get` rejects node keys.
- Release leaves the count stale, as described above.

## Model

| member | source | states |
|---|---|---|
| `JanetValues.IntKeyRoundTrip` | c/module.c:58 | a key passes the integer-key test exactly when it is a host number made from some int32, i.e. it survives the round trip through an int32 unchanged |
| `JanetValues.FromIntIsInt` | c/module.c:58-59 | every int32 made into a host number passes the integer-key test and reads back as the same int32 |
| `JanetValues.IntValue` | c/module.c:58-59 | an integer key carries an int32 whose value equals the key's number, and converting that int32 back gives the key |
| `JanetValues.WrapInt32` | c/module.c:245 | the size_t count converted to an int32 lies in the int32 range, agrees with the count modulo 2^32, and equals it whenever it fits |
| `Queues.New` | c/module.c:132-154 | `new(v1..vn)` holds exactly `v1..vn` in argument order, with count `n`, and satisfies the count invariant |
| `Queues.NewChecked` | c/module.c:143-147 | with too few allocatable nodes, `new` panics with out-of-memory and yields no queue; otherwise it yields the queue of the arguments |
| `Queues.Enqueue` | c/module.c:166-170 | enqueue puts `v` at the new last position, leaves every earlier element unchanged, raises the count by exactly one, and keeps the invariant |
| `Queues.EnqueueChecked` | c/module.c:157-171 | a failed node allocation panics with out-of-memory; otherwise the result is the queue with `v` appended |
| `Queues.Dequeue` | c/module.c:174-194 | on an empty queue it returns nil and leaves the queue unchanged; otherwise it returns the front value, the rest of the queue is the old contents minus that front element, the count drops by one, and the invariant is kept |
| `Queues.PeekFront` | c/module.c:197-212 | peek-front returns nil on an empty list, and on a valid queue it returns exactly the value the next dequeue would return |
| `Queues.PeekBack` | c/module.c:215-228 | peek-back returns nil on an empty list, and otherwise the element that ends the list |
| `Queues.IsEmpty` | c/module.c:231-237 | `empty?` tests the node list, and on a valid queue it holds exactly when the stored count is 0 |
| `Queues.ToArray` | c/module.c:249-261 | to-array succeeds exactly when the list fits a host array (at most INT32_MAX elements) and then has one element per node and per unit of the count; a longer list panics with an array overflow |
| `Queues.Length` | c/module.c:240-246 | `length` reports the stored count as an int32: the count itself whenever it fits, and otherwise the count modulo 2^32 |
| `Hooks.Get` | c/module.c:53-74 | an integer key in [0, length) finds the value at that position from the front; any other integer key panics with that key; a non-integer key is "no such key", not a panic |
| `Hooks.First` | c/module.c:87 | the first node is NULL exactly when the list is empty, and otherwise is position 0 |
| `Hooks.Successor` | c/module.c:95-96 | the node after position `p` is NULL exactly when `p` is the last position, and otherwise is `p + 1` |
| `Hooks.Next` | c/module.c:77-100 | as written, a nil key always yields a pointer, never nil, and on an empty list that pointer is NULL; on every other accepted input it agrees with the intended callback |
| `Hooks.NextIntended` | c/module.c:77-100 | nil and pointer keys succeed and any other key panics with that key; every key returned is nil or a live node; nil returns nil exactly on an empty queue and node 0 otherwise; node `p` returns nil exactly when it is the last node and node `p + 1` otherwise |
| `Hooks.ToString` | c/module.c:37-51 | the callback appends to the buffer `[`, then the renderings separated by single spaces with none after the last, then `]` (checked against an independent recursive definition) |
| `Hooks.JoinedSnoc` | c/module.c:44-49 | appending one more node to the printed list adds one space and that node's rendering, and adds no space when the list was empty |
| `Hooks.GcMark` | c/module.c:103-112 | the mark pass reports every stored value exactly once, front to back, and returns 0 |
| `Hooks.Gc` | c/module.c:115-129 | the release pass leaves no node linked, frees exactly as many nodes as there were, leaves the stored count untouched, and returns 0 |
| `QueueProperties.RunIsFifo` | c/module.c:157-194 | for any interleaving of enqueues and dequeues: initial contents ++ enqueued values == removed values ++ remaining contents; the invariant holds throughout; the count equals the initial count plus the enqueues minus the successful dequeues |
| `QueueProperties.DrainYieldsContents` | c/module.c:174-194 | dequeuing once per node returns the contents front to back and leaves an empty queue with a zero count |
| `QueueProperties.FifoOrder` | c/module.c:132-194 | after `new(v1..vn)`, n dequeues return `v1..vn` in order and leave the queue empty |
| `QueueProperties.DrainEmpty` | c/module.c:183-184 | any number of dequeues on an empty queue return nil each time and leave it empty with a zero count |
| `QueueProperties.DequeueEnqueueCommute` | c/module.c:157-194 | on a non-empty queue, enqueue-then-dequeue equals dequeue-then-enqueue, and the value returned is the old front |
| `QueueProperties.DequeueEnqueueEmpty` | c/module.c:157-194 | on an empty queue, the value just enqueued is the next value dequeued, and the queue is empty again afterwards |
| `QueueProperties.PeekFrontIsNextDequeued` | c/module.c:197-212 | peek-front returns what the next dequeue would return (nil when empty), which is the first value of a full drain |
| `QueueProperties.PeekBackIsLastEnqueued` | c/module.c:215-228 | peek-back returns the most recently enqueued value, and nil on an empty queue |
| `QueueProperties.EmptyAgreesWithCount` | c/module.c:231-246 | `empty?` tests the list, but under the invariant it holds exactly when the count is 0, and exactly when `length` reports 0 while the count fits an int32 |
| `QueueProperties.ToArrayIsDrainOrder` | c/module.c:249-261 | when the list fits a host array, to-array lists the values in the order repeated dequeues would return them; a count above INT32_MAX makes it panic with an array overflow |
| `QueueProperties.GetMatchesDequeueOrder` | c/module.c:58-70 | for an integer key `i` in range, `get(i)` is the value the (i+1)-th of a run of dequeues returns |
| `QueueProperties.DrainPrefix` | c/module.c:183-193 | after k dequeues from a queue of at least k nodes, those dequeues returned the first k values in order and the queue holds exactly the rest |
| `QueueProperties.GetBeyondInt32IsNotFound` | c/module.c:58-73 | a position beyond the int32 range is not an integer key to the host, so get reports "no such key" even in a queue that long |
| `QueueProperties.KeysFromNode` | c/module.c:94-99 | starting from node `p`, the iteration visits nodes `p, p+1, …, n-1` and then stops |
| `QueueProperties.IterationVisitsInOrder` | c/module.c:77-100 | iterating from nil visits every node exactly once, front to back: the k-th key is node k, and there are as many keys as nodes |
| `QueueProperties.IterationKeysAreNotIndices` | c/module.c:53-100 | every key the iteration hands out is a node pointer, for which get reports "no such key" |
| `QueueProperties.NextAsWrittenDiverges` | c/module.c:83-89 | `next` as written differs from the intended callback only on a nil key and an empty queue, where it returns the NULL pointer |
| `QueueProperties.EmptyIterationAsWritten` | c/module.c:83-95 | on an empty queue, `next(nil)` as written returns a non-nil key that `next` cannot be given again, while the intended iteration visits no key |
| `QueueProperties.BracketedThree` | c/module.c:42-50 | three values print as `[a b c]`: the renderings separated by single spaces inside brackets |
| `QueueProperties.BracketedEmpty` | c/module.c:42-50 | an empty queue prints as `[]` |
| `QueueProperties.ScenarioOneTwoThree` | c/module.c:132-261 | `new(1,2,3)` has length 3 and front 1; dequeue returns 1 and leaves length 2; enqueue 4 then makes to-array return `[2 3 4]` |
| `QueueProperties.ScenarioEmpty` | c/module.c:132-237 | `new()` is empty; dequeue returns nil and leaves it unchanged; peek-front returns nil |

## Left out

- Host internals are not modelled: `janet_mark`, `janet_malloc` and `janet_free`, and the registration of the abstract type and the functions (c/module.c:27-31, 267-290). The mark pass is modelled as the sequence of values it reports. Freeing is modelled as a count of nodes.
- `janet_checkint` and `janet_wrap_integer` belong to the host and are not part of this model. They are modelled from their documented meaning: a number that is integral and within int32, and an int32 argument.
- Host numbers are modelled as reals, so NaN, the infinities and negative zero are not represented. NaN and the infinities fail the integer-key test, so leaving them out loses no behaviour of `get`. Negative zero passes the test, since `-0.0 == (int32_t)-0.0`, and is looked up as index 0; `Number(0.0)` already models that key.
- Argument checks are not modelled as runtime errors. The queue is a parameter of type `Queue`, so a wrong argument count or type cannot occur. `queue/to-array` has no argument-count check in the source (extra arguments are ignored). The model does not represent its out-of-bounds read when it gets no arguments.
- The `janet_printf` console output inside peek-front and peek-back (c/module.c:209, 225) is I/O and is not modelled.
- Iteration keys that are stale, foreign or NULL pointers dereference memory the queue does not own (c/module.c:94). `Next` and `NextIntended` therefore require every pointer key to name a live node (`KeyAccepted`).
- Nodes are identified by position. A key therefore does not follow its node after a dequeue, but no key that lives across a mutation is modelled.
- The `render` parameter does not model how `janet_pretty` formats a value internally.
- The `size_t` count is an unbounded `nat`. Its wrap-around at 2^64 would need 2^64 linked nodes.
- The `janet_array` capacity argument is a size_t count converted to int32 (c/module.c:255). That affects only capacity, not contents, so it is not modelled. The limit that does affect contents is modelled: `janet_array_push` (c/module.c:258) panics once the array holds INT32_MAX elements, and `Queues.ToArray` returns that panic.
- `queue_get` reaches position `i` by following `i` links from the front (c/module.c:65-68). The model indexes the sequence directly; under `Valid` the result is the same.
- The timing and reachability rules of the garbage collector are left out. The model states only that the mark pass reports every stored value once and that release leaves no node linked.

## Findings

| source | as written | input that shows it | evidently intended | confidence | as-written member | corrected member |
|---|---|---|---|---|---|---|
| c/module.c:84-85 | on a nil key with an empty list, `janet_wrap_nil()` is evaluated but not returned, so control falls through and returns `TAILQ_FIRST` wrapped as a pointer, which is the NULL pointer | `next(nil)` on the queue from `new()` returns a NULL pointer instead of nil; a host loop then continues, and its next call dereferences NULL | return nil, so that iterating an empty queue visits no key | high (not executed) | `Hooks.Next`, shown by `QueueProperties.EmptyIterationAsWritten` | `Hooks.NextIntended`, with `QueueProperties.IterationVisitsInOrder` |
