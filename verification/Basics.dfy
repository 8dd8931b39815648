/** What several of the models share: machine words, options, powers of two, and sequences without repetition. */
module Basics {

  const U32: nat := 0x1_0000_0000
  const U64: nat := 0x1_0000_0000_0000_0000

  datatype Option<+T> = None | Some(value: T)

  function Pow2(n: nat): (p: nat)
    ensures p > 0
  {
    if n == 0 then 1 else 2 * Pow2(n - 1)
  }

  ghost predicate NoRepeat<X>(s: seq<X>) {
    forall i, j :: 0 <= i < j < |s| ==> s[i] != s[j]
  }

  /** A sequence without its element at `i`. */
  function Without<X>(s: seq<X>, i: nat): seq<X>
    requires i < |s|
  {
    s[..i] + s[i + 1..]
  }
}
