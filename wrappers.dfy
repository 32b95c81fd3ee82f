/** Small shared pieces: the optional value used for the operations of the
    packer that can fail, and one fact about sequences. */
module Wrappers {

  /** `None` stands for a Python exception (ValueError, struct.error) or a
      decoder that rejects its input. */
  datatype Option<+T> = None | Some(value: T)

  /** Concatenation is associative (stated once, so that proofs about long
      layouts need not rediscover it). */
  lemma ConcatAssoc<T>(x: seq<T>, y: seq<T>, z: seq<T>)
    ensures x + (y + z) == (x + y) + z
  {
  }
}
