/** Shared by the modules of the model. */
module Basics {

  datatype Option<+T> = None | Some(value: T)

  /** Three pieces of a sequence put together either way. */
  lemma Regroup<T>(a: seq<T>, b: seq<T>, c: seq<T>)
    ensures a + b + c == a + (b + c) && [] + c == c
  {
  }
}
