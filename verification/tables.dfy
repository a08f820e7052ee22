/** Vocabulary shared by the persistence engine: 32-bit integers as the
    engine's C# code uses them, clock readings, entry identifiers, the type
    tag that partitions the store, and the per-type data table. */
module Tables {

  /** A C# `int`. */
  newtype int32 = x: int | -0x8000_0000 <= x < 0x8000_0000

  const Int32Min: int32 := -0x8000_0000
  const Int32Max: int32 := 0x7FFF_FFFF

  /** `x++` on a C# `int` in the default unchecked context: the result is
      congruent to `x + 1` modulo 2^32, so it is `x + 1` except at the
      maximum, where it wraps around to the minimum. */
  function Increment(x: int32): (r: int32)
    ensures (r as int - x as int - 1) % 0x1_0000_0000 == 0
    ensures x < Int32Max ==> r as int == x as int + 1
  {
    if x == Int32Max then Int32Min else x + 1
  }

  /** A UTC clock reading in ticks; tick 0 is `default(DateTime)`. */
  type Time = nat

  const DefaultTime: Time := 0

  /** Entry identifiers are (non-null) strings. */
  type Id = string

  /** The identifier `Set` treats as "generate one for me". */
  const EmptyId: Id := ""

  /** The version argument meaning "no explicit version". */
  const NoVersion: int32 := -1

  /** The runtime type that selects a table. */
  datatype TypeTag = TypeTag(name: string)

  /** One type's table: its version, its revision counter, the time of its
      last successful `Set`, and its identifier-to-value entries. */
  datatype Table<V> = Table(version: int32, revision: int32, timestamp: Time, entries: map<Id, V>)
}
