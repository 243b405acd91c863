/**
 Reading delimited text back.
 */
module Delimiters {
  /** Two texts that agree up to a delimiter neither head contains, agree on both sides of it. */
  lemma SplitAt(c: char, a: string, b: string, x: string, y: string)
    requires c !in a && c !in b && a + [c] + x == b + [c] + y
    ensures a == b && x == y
  {
    var u, v := a + [c] + x, b + [c] + y;
    assert u[|a|] == c && (forall i :: 0 <= i < |a| ==> u[i] == a[i] != c);
    assert v[|b|] == c && (forall i :: 0 <= i < |b| ==> v[i] == b[i] != c);
    assert |a| == |b|;
    assert u[..|a|] == a && v[..|b|] == b;
    assert u[|a| + 1..] == x && v[|b| + 1..] == y;
  }
}
