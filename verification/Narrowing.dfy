/** Numbers made into narrower ones, and the conversions C++ gives no meaning to. */
module Narrowing {
  import opened Bytes
  import opened Ipmi

  /** A double. */
  datatype Double = Finite(value: real) | NotFinite

  /** A number in a JSON text; true and false count as 1 and 0. */
  datatype Number = Integer(i: int) | Float(x: real)

  const INT_MIN: int := -0x8000_0000
  const INT_MAX: nat := 0x7fff_ffff
  const UINT16_MAX: nat := 0xffff

  /** The integer left when the fraction is dropped. */
  function Truncated(x: real): (n: int)
    ensures x >= 0.0 ==> n as real <= x < n as real + 1.0
    ensures x <= 0.0 ==> n as real - 1.0 < x <= n as real
  {
    if x >= 0.0 then x.Floor else -(-x).Floor
  }

  /** static_cast of a double to an integer type from low to high. */
  function Converted(d: Double, low: int, high: int): (n: Option<int>)
    requires low <= 0 <= high
    ensures n.Some? <==> d.Finite? && low as real - 1.0 < d.value < high as real + 1.0
    ensures n.Some? ==> low <= n.value <= high && n.value == Truncated(d.value)
  {
    if d.Finite? && low <= Truncated(d.value) <= high then Some(Truncated(d.value)) else None
  }

  /** The octet is the number, up to a multiple of 256. */
  predicate HasOctet(r: Execution<byte>, i: int) {
    r.Ends? && r.answer.Value? && (i - r.answer.value) % 256 == 0
  }

  /** A JSON number read as an int and kept as a uint8_t; a wider integer wraps. */
  function AsOctet(n: Number): (r: Execution<byte>)
    ensures n.Integer? ==> HasOctet(r, n.i)
    ensures n.Float? ==>
              if INT_MIN as real - 1.0 < n.x < INT_MAX as real + 1.0 then HasOctet(r, Truncated(n.x))
              else r == Meaningless
  {
    match n
    case Integer(i) => Ends(Value(i % 256))
    case Float(x) =>
      match Converted(Finite(x), INT_MIN, INT_MAX)
      case Some(i) => Ends(Value(i % 256))
      case None => Meaningless
  }
}
