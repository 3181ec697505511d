// Small shared vocabulary: optional values and results.
module Prelude {

  datatype Option<+T> = None | Some(value: T)

  datatype Result<+T, +E> = Success(value: T) | Failure(error: E)

  lemma HasMember<T>(s: set<T>)
    requires s != {}
    ensures exists x :: x in s
  {}
}
