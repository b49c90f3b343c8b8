/** Small things every module may need. */
module Wrappers {

  datatype Option<+T> = None | Some(value: T)

  /** The values an `unsigned long` can hold. */
  const WORD: nat := 0x1_0000_0000_0000_0000

  lemma EmptyFirst<T>(a: seq<T>)
    ensures [] + a == a
  {
  }

  lemma Reassociate<T>(a: seq<T>, b: seq<T>, c: seq<T>)
    ensures a + b + c == a + (b + c)
  {
  }
}
