/** The Java value types the entities use, with their width written out. */
module JavaTypes {

  /** A Java reference that may be `null`. */
  datatype Option<+T> = None | Some(value: T)

  /** A Java `long`, as its 64 two's-complement bits. Only equality and the
      hash code are ever computed on it. */
  type Long = bv64

  /** A Java `int`. */
  newtype Int32 = x: int | -0x8000_0000 <= x < 0x8000_0000

  /** A `java.util.Date`, as milliseconds since the epoch. */
  type Timestamp = int

  /** `Long.hashCode()`: the two halves of the value xor-ed, then truncated
      to an `int`. An id below 2^32 hashes to its own low 32 bits. */
  function LongHashCode(v: Long): (h: bv32)
    ensures v >> 32 == 0 ==> h as bv64 == v
  {
    ((v ^ (v >> 32)) & 0xFFFF_FFFF) as bv32
  }

  /** The `hashCode()` shared by the entities: `hash = 0; hash += (id != null
      ? id.hashCode() : 0)`. */
  function IdHashCode(id: Option<Long>): (h: bv32)
    ensures id.None? ==> h == 0
    ensures id.Some? && id.value >> 32 == 0 ==> h as bv64 == id.value
  {
    match id
    case None => 0
    case Some(v) => 0 + LongHashCode(v)
  }
}
