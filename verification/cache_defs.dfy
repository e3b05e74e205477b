/** The declarations of the response cache: its capacity, its time-to-live
    and the record stored in each slot. */
module CacheDefs {

  /** Number of slots in the cache. */
  const MaxCacheSize: nat := 128

  /** An entry older than this many seconds is expired; exactly this old is not. */
  const CacheTtl: int := 1800

  /** Wide characters in a slot's path buffer, the terminator included. */
  const PathCapacity: nat := 512

  /** One cached file: its path key (without the terminator), the bytes
      the cache owns, their count, and the time of the last hit or insert. */
  datatype Entry = Entry(path: seq<char>, content: seq<bv8>, size: nat, lastAccessed: int)

  /** The path fits its fixed buffer with room for the terminator, and
      `size` counts exactly the stored bytes. */
  predicate WellFormed(e: Entry)
  {
    |e.path| < PathCapacity && e.size == |e.content|
  }
}
