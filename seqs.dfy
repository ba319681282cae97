/** Small facts about sequences that the append loops of the crawler rely on. */
module Seqs {

  /** Sequence concatenation is associative (used to step the append loops). */
  lemma AppendAssoc<T>(a: seq<T>, b: seq<T>, c: seq<T>)
    ensures a + (b + c) == a + b + c
  {
  }
}
