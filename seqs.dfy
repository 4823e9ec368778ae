/** Facts about sequences used by the field-selection and parser proofs. */
module SeqFacts {

  /** `xs` is obtained from `ys` by deleting zero or more elements. */
  predicate IsSubsequence<T(==)>(xs: seq<T>, ys: seq<T>)
    decreases |ys|
  {
    xs == [] || (ys != [] && ((xs[0] == ys[0] && IsSubsequence(xs[1..], ys[1..])) || IsSubsequence(xs, ys[1..])))
  }

  /** Concatenation is associative; stated generically so that the inductive
      proofs over fields and arguments can use it without unfolding their
      own functions. */
  lemma AppendAssoc<T>(p: seq<T>, q: seq<T>, r: seq<T>)
    ensures (p + q) + r == p + (q + r)
  {
  }
}
