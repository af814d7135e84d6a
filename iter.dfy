/** The one iterator adapter both halves of the program rely on. */
module Iter {

  /** `Iterator::any` over a slice: true when some element satisfies `p`. */
  function Any<T>(s: seq<T>, p: T -> bool): (r: bool)
    ensures r <==> exists i :: 0 <= i < |s| && p(s[i])
  {
    if |s| == 0 then false
    else p(s[0]) || Any(s[1..], p)
  }
}
