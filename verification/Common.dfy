/** What several components share. */
module Common {

  datatype Option<T> = None | Some(value: T)

  lemma MulMonotone(x: int, y: int, p: int)
    requires x <= y && p >= 0
    ensures x * p <= y * p
  {
  }

  lemma OneMore(n: int, p: int)
    ensures n * p + p == (n + 1) * p
  {
  }
}
