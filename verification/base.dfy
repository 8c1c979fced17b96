/** Small shared vocabulary of the catalog model. */
module Base {

  datatype Option<+T> = None | Some(value: T)

  function Max(a: int, b: int): int
  {
    if a < b then b else a
  }

  /** `a` is `b` with some elements left out, the rest kept in order. */
  predicate Subsequence<T(==)>(a: seq<T>, b: seq<T>)
    decreases |b|
  {
    |a| == 0 || (|b| > 0 && ((a[0] == b[0] && Subsequence(a[1..], b[1..])) || Subsequence(a, b[1..])))
  }

  /** Dropping the head of `b` keeps `a` a subsequence of it. */
  lemma SubsequenceOfTail<T>(a: seq<T>, b: seq<T>)
    requires |b| > 0 && Subsequence(a, b[1..])
    ensures Subsequence(a, b)
  {
  }
}
