/** The callbacks the queue registers with the host for its abstract type:
    indexed get, key iteration (`next`), printing, the garbage collector's
    mark pass and the release of the nodes.
 */
module Hooks {
  import opened JanetValues
  import opened Queues

  /* ----- Indexed get ----- */

  /** What the get callback reports: a value, or "no such key" (the
      callback's return of 0). */
  datatype Lookup = Found(value: Janet) | NotFound

  /** The get callback. An integer key must be a position of the list
      (0 is the front), otherwise the call panics; the value is found by
      walking that many links from the front. Any key that is not an
      integer is "no such key", not a panic. */
  function Get(q: Queue, key: Janet): (r: Result<Lookup>)
    requires Valid(q)
    ensures IsInt(key) && 0 <= IntValue(key) < q.length ==> r == Ok(Found(q.contents[IntValue(key)]))
    ensures r.Panic? <==> IsInt(key) && !(0 <= IntValue(key) < q.length)
    ensures r.Panic? ==> r.error == IndexOutOfBounds(key)
    ensures !IsInt(key) ==> r == Ok(NotFound)
  {
    if IsInt(key) then
      var index := IntValue(key);
      if index < 0 || index >= q.length then Panic(IndexOutOfBounds(key))
      else Ok(Found(q.contents[index]))
    else
      Ok(NotFound)
  }

  /* ----- Key iteration ----- */

  /** A pointer key naming a node that is currently linked in `q`. */
  predicate IsLiveNode(q: Queue, key: Janet) {
    key.Pointer? && key.addr.Node? && key.addr.pos < |q.contents|
  }

  /** The keys the next callback may be given without touching memory it
      does not own: nil, a non-pointer (which it rejects), or a live node. */
  predicate KeyAccepted(q: Queue, key: Janet) {
    !key.Pointer? || IsLiveNode(q, key)
  }

  /** The first node of the list, or NULL when it has none. */
  function First(q: Queue): (a: Addr)
    ensures a.Null? <==> |q.contents| == 0
    ensures a.Node? ==> a.pos == 0
  {
    if |q.contents| == 0 then Null else Node(0)
  }

  /** The node linked after the node at `pos`, or NULL after the last. */
  function Successor(q: Queue, pos: nat): (a: Addr)
    ensures a.Null? <==> pos + 1 >= |q.contents|
    ensures a.Node? ==> a.pos == pos + 1
  {
    if pos + 1 < |q.contents| then Node(pos + 1) else Null
  }

  /** The next callback AS WRITTEN. On a nil key the emptiness test computes
      nil but does not return it, so control falls through to returning the
      first node as a pointer: on an empty list that is the NULL pointer,
      not nil. A key that is neither nil nor a pointer panics. A node key
      yields its successor, or nil after the last node. */
  function Next(q: Queue, key: Janet): (r: Result<Janet>)
    requires KeyAccepted(q, key)
    ensures key.Nil? ==> r.Ok? && r.value.Pointer?
    ensures key.Nil? && |q.contents| == 0 ==> r == Ok(Pointer(Null))
    ensures !(key.Nil? && |q.contents| == 0) ==> r == NextIntended(q, key)
  {
    if key.Nil? then
      Ok(Pointer(First(q)))
    else if !key.Pointer? then
      Panic(KeyNotPointer(key))
    else
      var node := Successor(q, key.addr.pos);
      if node.Null? then Ok(Nil) else Ok(Pointer(node))
  }

  /** The next callback as intended: identical to `Next` except that a nil
      key on an empty list returns nil, ending the iteration at once. */
  function NextIntended(q: Queue, key: Janet): (r: Result<Janet>)
    requires KeyAccepted(q, key)
    ensures key.Nil? || key.Pointer? <==> r.Ok?
    ensures r.Panic? ==> r.error == KeyNotPointer(key)
    ensures r.Ok? ==> r.value.Nil? || IsLiveNode(q, r.value)
    ensures key.Nil? && r.Ok? && r.value.Pointer? ==> r.value.addr.pos == 0
    ensures IsLiveNode(q, key) && r.Ok? && r.value.Pointer? ==> r.value.addr.pos == key.addr.pos + 1
    ensures key.Nil? ==> (r == Ok(Nil) <==> |q.contents| == 0)
    ensures IsLiveNode(q, key) ==> (r == Ok(Nil) <==> key.addr.pos + 1 == |q.contents|)
  {
    if key.Nil? then
      if |q.contents| == 0 then Ok(Nil) else Ok(Pointer(First(q)))
    else if !key.Pointer? then
      Panic(KeyNotPointer(key))
    else
      var node := Successor(q, key.addr.pos);
      if node.Null? then Ok(Nil) else Ok(Pointer(node))
  }

  /** The keys a host loop sees when it starts at `key` and keeps calling
      the (intended) next callback until it returns nil. */
  function KeysFrom(q: Queue, key: Janet): seq<Janet>
    requires key.Nil? || IsLiveNode(q, key)
    decreases if key.Nil? then 0 else |q.contents| - key.addr.pos
  {
    if key.Nil? then []
    else [key] + KeysFrom(q, NextIntended(q, key).value)
  }

  /** The keys of a whole iteration, which starts from nil. */
  function IterationKeys(q: Queue): seq<Janet> {
    KeysFrom(q, NextIntended(q, Nil).value)
  }

  /* ----- Printing ----- */

  /** The renderings of `xs`, in order, separated by single spaces. */
  function Joined(xs: seq<Janet>, render: Janet -> string): string
  {
    if |xs| == 0 then ""
    else if |xs| == 1 then render(xs[0])
    else render(xs[0]) + " " + Joined(xs[1..], render)
  }

  /** The printed form of a queue holding `xs`: `[`, the joined renderings,
      `]`. */
  function Bracketed(xs: seq<Janet>, render: Janet -> string): string {
    "[" + Joined(xs, render) + "]"
  }

  lemma {:induction false} JoinedSnoc(xs: seq<Janet>, x: Janet, render: Janet -> string)
    ensures Joined(xs + [x], render) ==
              if |xs| == 0 then render(x) else Joined(xs, render) + " " + render(x)
    decreases |xs|
  {
    if |xs| == 0 {
      assert xs + [x] == [x];
    } else if |xs| == 1 {
      assert xs + [x] == [xs[0], x];
      assert (xs + [x])[1..] == [x];
    } else {
      assert (xs + [x])[0] == xs[0];
      assert (xs + [x])[1..] == xs[1..] + [x];
      JoinedSnoc(xs[1..], x, render);
    }
  }

  /** The tostring callback: pushes `[`, then each node's rendering followed
      by a space unless the node is the last one, then `]`, onto `buffer`.
      `render` stands for the host's pretty-printer. */
  method ToString(buffer: string, q: Queue, render: Janet -> string) returns (out: string)
    ensures out == buffer + Bracketed(q.contents, render)
  {
    var xs := q.contents;
    out := buffer + "[";
    var i := 0;
    while i < |xs|
      invariant 0 <= i <= |xs|
      invariant 0 < i < |xs| ==> out == buffer + "[" + Joined(xs[..i], render) + " "
      invariant i == 0 || i == |xs| ==> out == buffer + "[" + Joined(xs[..i], render)
    {
      assert xs[..i + 1] == xs[..i] + [xs[i]];
      JoinedSnoc(xs[..i], xs[i], render);
      out := out + render(xs[i]);
      if i != |xs| - 1 {
        out := out + " ";
      }
      i := i + 1;
    }
    assert xs[..i] == xs;
    out := out + "]";
  }

  /* ----- Garbage collection ----- */

  /** The mark callback: walks the list front to back, reporting each
      node's value to the collector once; returns 0. `marked` is the
      sequence of reports. */
  method GcMark(q: Queue) returns (marked: seq<Janet>, status: int)
    ensures marked == q.contents
    ensures status == 0
  {
    marked := [];
    var i := 0;
    while i < |q.contents|
      invariant 0 <= i <= |q.contents|
      invariant marked == q.contents[..i]
    {
      marked := marked + [q.contents[i]];
      i := i + 1;
    }
    status := 0;
  }

  /** The release callback: unlinks and frees the front node until the list
      is empty; the values are dropped, not freed. The stored count is not
      touched. Returns the emptied queue, the number of nodes freed, and 0. */
  method Gc(q: Queue) returns (released: Queue, freed: nat, status: int)
    ensures released.contents == []
    ensures released.length == q.length
    ensures freed == |q.contents|
    ensures status == 0
  {
    released := q;
    freed := 0;
    while |released.contents| != 0
      invariant released.length == q.length
      invariant freed <= |q.contents|
      invariant released.contents == q.contents[freed..]
      decreases |released.contents|
    {
      released := released.(contents := released.contents[1..]);
      freed := freed + 1;
    }
    status := 0;
  }
}
