/** Concatenation is associative; the verifier uses this only where it is said. */
module Sequences {

  lemma Join<T>(a: seq<T>, b: seq<T>, c: seq<T>)
    ensures a + b + c == a + (b + c)
  {
  }
}
