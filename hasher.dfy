/** The CSHA512 accumulator as the probes see it.

    The probes only ever append to the hasher and never read its digest, so
    the model keeps the bytes appended so far, in order, and leaves the
    SHA-512 compression function out.
 */
module Sha512Log {
  import opened Native

  class Hasher {
    /** Every byte written since the hasher was created, in order. */
    var log: seq<uint8>

    constructor ()
      ensures log == []
    {
      log := [];
    }

    /** `CSHA512::Write`: appends the bytes and changes nothing else. */
    method Write(data: seq<uint8>)
      modifies this
      ensures log == old(log) + data
    {
      log := log + data;
    }
  }
}
