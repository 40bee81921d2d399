/** Generic facts about sequence concatenation. Stating them once, over an
    arbitrary element type, keeps the string proofs that use them short. */
module Seqs {

  lemma Assoc<T>(a: seq<T>, b: seq<T>, c: seq<T>)
    ensures a + (b + c) == (a + b) + c
  {
  }

  /** The first element and the rest of a concatenation whose left part is
      not empty. */
  lemma ConsSplit<T>(x: seq<T>, y: seq<T>)
    requires x != []
    ensures (x + y)[0] == x[0] && (x + y)[1..] == x[1..] + y
    ensures |x| > 1 ==> (x + y)[1] == x[1]
    ensures |x| == 1 && y != [] ==> (x + y)[1] == y[0]
  {
  }

  /** The last element and the front of a concatenation whose right part is
      not empty. */
  lemma SnocSplit<T>(x: seq<T>, y: seq<T>)
    requires y != []
    ensures (x + y)[|x + y| - 1] == y[|y| - 1] && (x + y)[..|x + y| - 1] == x + y[..|y| - 1]
  {
  }

  /** A sequence is its prefix followed by the matching suffix. */
  lemma SplitAt<T>(x: seq<T>, k: int)
    requires 0 <= k <= |x|
    ensures x == x[..k] + x[k..]
  {
  }

  /** The two parts of a concatenation, recovered by slicing. */
  lemma Parts<T>(w: seq<T>, z: seq<T>)
    ensures (w + z)[..|w|] == w && (w + z)[|w|..] == z
  {
  }

  /** Slicing a suffix is slicing the whole sequence further along. */
  lemma SliceOfSuffix<T>(x: seq<T>, k: int, m: int)
    requires 0 <= k && 0 <= m && k + m <= |x|
    ensures x[k..][..m] == x[k..k + m] && x[k..][m..] == x[k + m..]
  {
  }

  lemma EmptyUnit<T>(x: seq<T>)
    ensures [] + x == x && x + [] == x
  {
  }
}
