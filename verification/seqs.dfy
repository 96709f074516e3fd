/** Sequence helpers shared by the search models. */
module Seqs {

  /** The last element of a non-empty sequence. */
  function Last<T>(s: seq<T>): T
    requires |s| >= 1
  {
    s[|s| - 1]
  }
}
