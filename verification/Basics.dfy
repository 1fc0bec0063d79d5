/** What several components share. */
module Basics {
  datatype Option<+T> = None | Some(value: T)

  ghost predicate Distinct<T>(s: seq<T>) { forall i, j :: 0 <= i < j < |s| ==> s[i] != s[j] }

  function Total(xs: seq<nat>): nat { if xs == [] then 0 else Total(xs[..|xs| - 1]) + xs[|xs| - 1] }

  function Min(a: int, b: int): int { if a < b then a else b }
}
