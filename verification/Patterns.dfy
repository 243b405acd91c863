/**
 What the regular expressions of the redactor are built from: maximal runs of a
 byte class. Text is a sequence of bytes, one `char` for each byte.
 */
module Patterns {
  datatype Class = Name | Space | Label

  /** The byte classes [A-Za-z0-9_.\-], \s and [A-Z0-9 ]. */
  predicate In(k: Class, c: char) {
    match k
    case Name => 'A' <= c <= 'Z' || 'a' <= c <= 'z' || '0' <= c <= '9' || c == '_' || c == '.' || c == '-'
    case Space => c == ' ' || c == '\t' || c == '\n' || c == '\r' || c == '\U{000C}'
    case Label => 'A' <= c <= 'Z' || '0' <= c <= '9' || c == ' '
  }

  /** One past the longest stretch of bytes of one class that starts at i. */
  function RunEnd(u: string, i: nat, k: Class): (e: nat)
    requires i <= |u|
    ensures i <= e <= |u|
    ensures forall j :: i <= j < e ==> In(k, u[j])
    ensures e < |u| ==> !In(k, u[e])
    decreases |u| - i
  {
    if i == |u| || !In(k, u[i]) then i else RunEnd(u, i + 1, k)
  }

  lemma RunEndIs(u: string, i: nat, k: Class, e: nat)
    requires i <= e <= |u|
    requires forall j :: i <= j < e ==> In(k, u[j])
    requires e < |u| ==> !In(k, u[e])
    ensures RunEnd(u, i, k) == e
  {
    hide RunEnd, In;
  }
}
