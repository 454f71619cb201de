/** Regrouping of sequence concatenations, stated once so that proofs can
    name the step instead of leaving it to extensionality. */
module SeqLaws {

  lemma Assoc<T>(a: seq<T>, b: seq<T>, c: seq<T>)
    ensures a + b + c == a + (b + c)
  {
  }

  lemma Concat4<T>(c: seq<T>, a: seq<T>, b: seq<T>, d: seq<T>, e: seq<T>)
    ensures c + a + b + d + e == c + (a + b + d + e)
  {
  }

  lemma Nest<T>(a: seq<T>, b: seq<T>, c: seq<T>, d: seq<T>)
    ensures a + b + c + d == a + (b + (c + d))
  {
  }
}
