/** The slice of the Janet host's value model that the queue touches: the
    tagged value it stores, the integer-key test used by indexed access, the
    int32 conversion used when a count is handed back to Janet, and the
    panics the queue can raise.
 */
module JanetValues {

  const INT32_MIN: int := -0x8000_0000
  const INT32_MAX: int := 0x7fff_ffff
  const TWO_TO_32: int := 0x1_0000_0000

  /** Where a raw pointer value points: the NULL pointer, or the queue node
      in position `pos` (0 is the front) of the queue being walked. */
  datatype Addr = Null | Node(pos: nat)

  /** A host value. The queue stores these as opaque handles; only the
      hooks look at the tag of a key (nil, number, pointer). Every other
      kind of host value (strings, tables, abstract values, ...) is an
      `Other` handle that the queue never inspects. */
  datatype Janet =
    | Nil
    | Boolean(b: bool)
    | Number(x: real)
    | Pointer(addr: Addr)
    | Other(id: nat)

  /** The host's integer-key test: a number whose value is integral and lies
      within the int32 range. (A negative zero compares equal to its int32
      conversion, so it is the key 0, which `Number(0.0)` stands for.) */
  predicate IsInt(v: Janet) {
    v.Number? && v.x.Floor as real == v.x && INT32_MIN <= v.x.Floor <= INT32_MAX
  }

  /** The int32 carried by an integer key. */
  function IntValue(v: Janet): (i: int)
    requires IsInt(v)
    ensures INT32_MIN <= i <= INT32_MAX
    ensures i as real == v.x
    ensures FromInt(i) == v
  {
    v.x.Floor
  }

  /** The host number with integral value `i`. */
  function FromInt(i: int): Janet {
    Number(i as real)
  }

  /** Every int32 converted to a host number passes the integer-key test
      and converts back to itself. */
  lemma FromIntIsInt(i: int)
    requires INT32_MIN <= i <= INT32_MAX
    ensures IsInt(FromInt(i))
    ensures IntValue(FromInt(i)) == i
  {
  }

  /** The integer keys are exactly the host numbers made from an int32:
      those that survive the round trip through an int32 unchanged. */
  lemma IntKeyRoundTrip(v: Janet)
    ensures IsInt(v) <==> v.Number? && exists i | INT32_MIN <= i <= INT32_MAX :: v == FromInt(i)
  {
    if IsInt(v) {
      assert v == FromInt(v.x.Floor);
    }
    if v.Number? && exists i | INT32_MIN <= i <= INT32_MAX :: v == FromInt(i) {
      var i :| INT32_MIN <= i <= INT32_MAX && v == FromInt(i);
      FromIntIsInt(i);
    }
  }

  /** Conversion of an unsigned count to the host's int32 integers: the
      value is reduced modulo 2^32 and read back as two's complement. */
  function WrapInt32(n: int): (r: int)
    ensures INT32_MIN <= r <= INT32_MAX
    ensures (r - n) % TWO_TO_32 == 0
    ensures INT32_MIN <= n <= INT32_MAX ==> r == n
  {
    var m := n % TWO_TO_32;
    if m > INT32_MAX then m - TWO_TO_32 else m
  }

  /** The panics the queue raises. Each carries the offending value, as the
      host's formatted panic message does. */
  datatype Error =
    | IndexOutOfBounds(key: Janet)
    | KeyNotPointer(key: Janet)
    | ArrayOverflow
    | OutOfMemory

  /** A call either returns normally or panics (a non-local abort in the
      host: no partial result is observable). */
  datatype Result<T> = Ok(value: T) | Panic(error: Error)
}
