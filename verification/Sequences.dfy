/**
 Sequences: what they hold, and how concatenation groups.
 */
module Sequences {
  ghost function Elements<T>(s: seq<T>): set<T> { set x | x in s }

  lemma NothingListed<T>(s: seq<T>)
    ensures Elements(s) == {} <==> s == []
  {
    if s != [] { assert s[0] in Elements(s); }
  }

  /** Index of the first element that passes, or the length. */
  function FirstOf<T>(s: seq<T>, test: T -> bool): (i: nat)
    ensures i <= |s| && (i < |s| ==> test(s[i])) && forall j :: 0 <= j < i ==> !test(s[j])
  {
    if s == [] || test(s[0]) then 0 else 1 + FirstOf(s[1..], test)
  }

  lemma FirstOfIs<T>(s: seq<T>, test: T -> bool, i: nat)
    requires i <= |s| && (i < |s| ==> test(s[i])) && forall j :: 0 <= j < i ==> !test(s[j])
    ensures FirstOf(s, test) == i
  {
  }

  lemma Regroup<T>(a: seq<T>, b: seq<T>, c: seq<T>, d: seq<T>)
    ensures a + b + c == a + (b + c)
    ensures a + b + c + d == a + (b + (c + d)) == a + (b + c + d) == a + (b + c) + d
  {
    assert a + b + c == a + (b + c);
  }
}
