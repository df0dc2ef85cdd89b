/**
 * The shape of Java's hash codes, with the hashes of library types left as
 * parameters: `Objects.hash(a, b, ...)` and `List.hashCode()` both fold
 * `result = 31 * result + h` from 1, hand-written `hashCode` methods fold the
 * same step from the first field's hash, and every step wraps to 32 bits.
 */
module JavaHash {

  const TwoTo32: int := 0x1_0000_0000

  /** The 32-bit two's complement value congruent to `x`. */
  function Wrap32(x: int): (r: int)
    ensures -0x8000_0000 <= r <= 0x7FFF_FFFF
    ensures (r - x) % TwoTo32 == 0
  {
    var m := x % TwoTo32;
    if m >= 0x8000_0000 then m - TwoTo32 else m
  }

  /** One step `31 * result + h` of a hash fold, in `int` arithmetic. */
  function Step(result: int, h: int): int {
    Wrap32(31 * result + h)
  }

  /** `Arrays.hashCode` over the element hashes: `Objects.hash` and `List.hashCode`. */
  function ArraysHash(hs: seq<int>): int
    decreases |hs|
  {
    if hs == [] then 1 else Step(ArraysHash(hs[..|hs| - 1]), hs[|hs| - 1])
  }

  /** The hand-written fold `result = h0; result = 31 * result + h_i ...`. */
  function FieldsHash(first: int, rest: seq<int>): int
    decreases |rest|
  {
    if rest == [] then first else Step(FieldsHash(first, rest[..|rest| - 1]), rest[|rest| - 1])
  }
}
