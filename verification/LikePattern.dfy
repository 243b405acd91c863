/**
 LIKE patterns with backslash as the escape character, and escaping a text so
 that it matches itself. Text is a sequence of code points.
 */
module LikePattern {
  const ESCAPE := '\\'

  predicate IsMeta(c: char) { c == ESCAPE || c == '%' || c == '_' }

  /** The LIKE predicate of section 8.5 of ISO/IEC 9075-2 for one escape character:
      % stands for any text, _ for any one character, an escaped character for
      itself. A pattern that ends in a lone escape matches nothing. */
  predicate Like(text: string, pattern: string)
    decreases |pattern|, |text|
  {
    if pattern == "" then text == ""
    else if pattern[0] == '%' then Like(text, pattern[1..]) || (text != "" && Like(text[1..], pattern))
    else if pattern[0] == '_' then text != "" && Like(text[1..], pattern[1..])
    else if pattern[0] == ESCAPE then
      |pattern| > 1 && text != "" && text[0] == pattern[1] && Like(text[1..], pattern[2..])
    else text != "" && text[0] == pattern[0] && Like(text[1..], pattern[1..])
  }

  function Escaped(s: string): string {
    if s == "" then ""
    else Escaped(s[..|s| - 1]) + (if IsMeta(s[|s| - 1]) then [ESCAPE, s[|s| - 1]] else [s[|s| - 1]])
  }

  method EscapeLike(s: string) returns (pattern: string)
    ensures pattern == Escaped(s)
  {
    pattern := "";
    for i := 0 to |s|
      invariant pattern == Escaped(s[..i])
    {
      assert s[..i + 1][..i] == s[..i];
      if IsMeta(s[i]) {
        pattern := pattern + [ESCAPE];
      }
      pattern := pattern + [s[i]];
    }
    assert s[..|s|] == s;
  }

  function Contains(s: string): string { "%" + Escaped(s) + "%" }

  method ContainsPattern(s: string) returns (pattern: string)
    ensures pattern == Contains(s)
  {
    var escaped := EscapeLike(s);
    pattern := "%" + escaped + "%";
  }

  lemma {:induction false} EscapedFirst(s: string)
    requires s != ""
    ensures Escaped(s) == (if IsMeta(s[0]) then [ESCAPE, s[0]] else [s[0]]) + Escaped(s[1..])
  {
    if |s| > 1 {
      EscapedFirst(s[..|s| - 1]);
      assert s[..|s| - 1][1..] == s[1..][..|s| - 2];
    }
  }

  /** An escaped text matches itself and goes on with the rest of the pattern. */
  lemma {:induction false} EscapedThen(s: string, rest: string, t: string)
    ensures Like(t, Escaped(s) + rest) <==> s <= t && Like(t[|s|..], rest)
  {
    if s == "" {
      assert Escaped(s) + rest == rest && t[0..] == t;
    } else {
      EscapedFirst(s);
      var p := Escaped(s) + rest;
      var tail := Escaped(s[1..]) + rest;
      var head := if IsMeta(s[0]) then [ESCAPE, s[0]] else [s[0]];
      assert p == head + tail && p[|head|..] == tail;
      assert Like(t, p) <==> t != "" && t[0] == s[0] && Like(t[1..], tail);
      if t != "" && t[0] == s[0] {
        EscapedThen(s[1..], rest, t[1..]);
        assert |s| <= |t| ==> t[1..][|s| - 1..] == t[|s|..];
        assert s <= t <==> s[1..] <= t[1..] by {
          assert s == [s[0]] + s[1..] && t == [t[0]] + t[1..];
        }
      }
    }
  }

  /** The escaped pattern of s matches s and nothing else. */
  lemma EscapedMatchesItself(s: string, t: string)
    ensures Like(t, Escaped(s)) <==> t == s
  {
    EscapedThen(s, "", t);
    assert Escaped(s) + "" == Escaped(s);
  }

  lemma {:induction false} PercentMatchesAll(t: string)
    ensures Like(t, "%")
  {
    if t != "" { PercentMatchesAll(t[1..]); }
  }

  ghost predicate IsPart(s: string, t: string) {
    exists i :: 0 <= i <= |t| && s <= t[i..]
  }

  lemma {:induction false} PercentThen(rest: string, t: string)
    ensures Like(t, "%" + rest) <==> exists i :: 0 <= i <= |t| && Like(t[i..], rest)
  {
    assert ("%" + rest)[1..] == rest && t[0..] == t;
    if t != "" {
      PercentThen(rest, t[1..]);
      forall i | 0 <= i <= |t| - 1 ensures t[1..][i..] == t[i + 1..] { }
      if i :| 0 <= i <= |t| && Like(t[i..], rest) {
        if i > 0 { assert Like(t[1..][i - 1..], rest); }
      }
    }
  }

  /** The contains pattern of s matches exactly the texts s is a part of. */
  lemma ContainsMatchesParts(s: string, t: string)
    ensures Like(t, Contains(s)) <==> IsPart(s, t)
  {
    PercentThen(Escaped(s) + "%", t);
    assert Contains(s) == "%" + (Escaped(s) + "%");
    forall i | 0 <= i <= |t|
      ensures Like(t[i..], Escaped(s) + "%") <==> s <= t[i..]
    {
      EscapedThen(s, "%", t[i..]);
      if s <= t[i..] { PercentMatchesAll(t[i..][|s|..]); }
    }
  }

  /** What each character of a pattern asks for. */
  lemma CharactersMean(text: string, c: char, rest: string)
    ensures Like(text, "") <==> text == ""
    ensures Like(text, "_" + rest) <==> text != "" && Like(text[1..], rest)
    ensures Like(text, "\\" + [c] + rest) <==> text != "" && text[0] == c && Like(text[1..], rest)
    ensures c !in "%_\\" ==> (Like(text, [c] + rest) <==> text != "" && text[0] == c && Like(text[1..], rest))
    ensures !Like(text, "\\")
  {
    assert ("_" + rest)[1..] == rest && ([c] + rest)[1..] == rest;
    var p := "\\" + [c] + rest;
    assert p[0] == '\\' && p[1] == c && p[2..] == rest;
  }

  /** A percent sign stands for any text at all. */
  lemma PercentMeans(text: string, rest: string)
    ensures Like(text, "%" + rest) <==> exists i :: 0 <= i <= |text| && Like(text[i..], rest)
  {
    PercentThen(rest, text);
  }

  /** Exactly the characters that mean something else are escaped. */
  lemma {:induction false} EscapesAre(s: string, c: char)
    ensures Escaped(s + [c]) == Escaped(s) + (if c in "%_\\" then ['\\', c] else [c]) && Escaped("") == ""
  {
    assert (s + [c])[..|s|] == s;
  }
}
