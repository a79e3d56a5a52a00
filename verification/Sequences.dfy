/** Rearranging concatenations, which the verifier does not do on its own. */
module Sequences {

  lemma Associates<T>(a: seq<T>, b: seq<T>, c: seq<T>)
    ensures a + (b + c) == a + b + c
  {
  }

  lemma Regroup<T>(a: seq<T>, b: seq<T>, c: seq<T>, d: seq<T>)
    ensures a + (b + c + d) == a + b + c + d && a + (b + c) + d == a + b + c + d
    ensures (a + b) + (c + d) == a + b + c + d && a + (b + (c + d)) == a + b + c + d
    ensures |a + b + c| == |a| + |b| + |c|
  {
  }
}
