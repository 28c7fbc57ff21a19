/** Small things that several modules use. */
module Basics {

  function One(b: bool): nat { if b then 1 else 0 }

  function Min(a: int, b: int): int { if a <= b then a else b }

  ghost predicate NoDuplicates(s: seq<nat>)
  {
    forall i, j :: 0 <= i < j < |s| ==> s[i] != s[j]
  }
}
