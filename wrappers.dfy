/** Optional values, for lookups and parses that can fail, and two facts about concatenation. */
module Wrappers {

  datatype Option<+T> = None | Some(value: T)

  /** Regrouping a concatenation, stated once for any elements. */
  lemma AppendAssoc<T>(a: seq<T>, b: seq<T>, c: seq<T>)
    ensures a + (b + c) == (a + b) + c
  {
  }

  /** Dropping the first element of a sequence built with it in front. */
  lemma DropFront<T>(x: T, a: seq<T>)
    ensures ([x] + a)[0] == x && ([x] + a)[1..] == a
  {
  }
}
