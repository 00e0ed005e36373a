module Wrappers {
  /** An optional value, standing for the source's null pointers and `std::optional`. */
  datatype Option<+T> = None | Some(value: T)

  lemma Regrouped<T>(w: seq<T>, a: seq<T>, b: seq<T>)
    ensures (w + a) + b == w + (a + b)
  {
  }
}
