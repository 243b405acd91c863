/**
 Numbers in order.
 */
module Numbers {
  function Max(a: int, b: int): int { if a < b then b else a }

  ghost predicate Ascending(s: seq<int>) { forall i, j :: 0 <= i < j < |s| ==> s[i] < s[j] }
}
