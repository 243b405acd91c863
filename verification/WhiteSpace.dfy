/**
 White space in text that is a sequence of bytes, and trimming it: a white-space
 character beyond ASCII is its two or three bytes in UTF-8 (section 3 of RFC 3629).
 */
module WhiteSpace {
  predicate IsAsciiSpace(c: char) { '\t' <= c <= '\r' || c == ' ' }

  /** U+0085 and U+00A0. */
  predicate IsTwoByteSpace(s: string) {
    |s| == 2 && s[0] == '\U{00C2}' && (s[1] == '\U{0085}' || s[1] == '\U{00A0}')
  }

  /** U+1680, U+2000 to U+200A, U+2028, U+2029, U+202F, U+205F and U+3000. */
  predicate IsThreeByteSpace(s: string) {
    && |s| == 3
    && (|| (s[0] == '\U{00E1}' && s[1] == '\U{009A}' && s[2] == '\U{0080}')
        || (s[0] == '\U{00E2}' && s[1] == '\U{0080}'
            && ('\U{0080}' <= s[2] <= '\U{008A}' || '\U{00A8}' <= s[2] <= '\U{00A9}' || s[2] == '\U{00AF}'))
        || (s[0] == '\U{00E2}' && s[1] == '\U{0081}' && s[2] == '\U{009F}')
        || (s[0] == '\U{00E3}' && s[1] == '\U{0080}' && s[2] == '\U{0080}'))
  }

  /** Length of the white-space character at the head of s, or 0. */
  function SpaceAhead(s: string): (n: nat)
    ensures n <= |s|
  {
    if s != "" && IsAsciiSpace(s[0]) then 1
    else if |s| >= 2 && IsTwoByteSpace(s[..2]) then 2
    else if |s| >= 3 && IsThreeByteSpace(s[..3]) then 3
    else 0
  }

  /** Length of the white-space character at the end of s, or 0. */
  function SpaceBehind(s: string): (n: nat)
    ensures n <= |s|
  {
    if s != "" && IsAsciiSpace(s[|s| - 1]) then 1
    else if |s| >= 2 && IsTwoByteSpace(s[|s| - 2..]) then 2
    else if |s| >= 3 && IsThreeByteSpace(s[|s| - 3..]) then 3
    else 0
  }

  function TrimLeft(s: string): string {
    if SpaceAhead(s) == 0 then s else TrimLeft(s[SpaceAhead(s)..])
  }

  function TrimRight(s: string): string {
    if SpaceBehind(s) == 0 then s else TrimRight(s[..|s| - SpaceBehind(s)])
  }

  function Trim(s: string): string { TrimRight(TrimLeft(s)) }

  /** An ASCII byte that is no white space is part of no white-space character. */
  predicate IsSolid(c: char) { c < '\U{0080}' && !IsAsciiSpace(c) }

  lemma SolidAhead(s: string)
    requires s != "" && IsSolid(s[0])
    ensures SpaceAhead(s) == 0 && TrimLeft(s) == s
  {
  }

  /** The bytes of the longer ones are not ASCII. */
  lemma SpacesAreHigh(s: string, i: nat)
    requires (IsTwoByteSpace(s) || IsThreeByteSpace(s)) && i < |s|
    ensures s[i] >= '\U{0080}'
  {
  }

  lemma SolidBehind(s: string, n: nat)
    requires n < |s| && IsSolid(s[n])
    ensures n < |s| - SpaceBehind(s)
  {
    hide IsTwoByteSpace, IsThreeByteSpace;
    var k := |s| - SpaceBehind(s);
    if k <= n < |s| - 1 || (n == |s| - 1 && SpaceBehind(s) > 1) {
      assert s[k..][n - k] == s[n];
      SpacesAreHigh(s[k..], n - k);
    }
  }

  lemma {:induction false} TrimRightKeeps(s: string, n: nat)
    requires n < |s| && IsSolid(s[n])
    ensures n < |TrimRight(s)| && s[..n + 1] <= TrimRight(s)
  {
    SolidBehind(s, n);
    hide SpaceBehind, IsSolid;
    if SpaceBehind(s) > 0 { TrimRightKeeps(s[..|s| - SpaceBehind(s)], n); }
  }

  /** The last byte of an accented letter stays, though alone it would read as a space. */
  lemma LettersStay(s: string)
    ensures Trim("x" + s + "\U{00C3}\U{00A0}") == "x" + s + "\U{00C3}\U{00A0}"
  {
    SolidAhead("x" + s + "\U{00C3}\U{00A0}");
  }

  lemma TrimUnpadded(s: string)
    requires s != "" && IsSolid(s[0]) && IsSolid(s[|s| - 1])
    ensures Trim(s) == s
  {
    SolidAhead(s);
    SolidBehind(s, |s| - 1);
  }

  // ---------- the characters, by their numbers ----------

  /** The characters with Unicode's property White_Space. */
  predicate IsSpaceRune(r: nat) {
    || 0x09 <= r <= 0x0D || r == 0x20 || r == 0x85 || r == 0xA0 || r == 0x1680
    || 0x2000 <= r <= 0x200A || r == 0x2028 || r == 0x2029 || r == 0x202F || r == 0x205F || r == 0x3000
  }

  /** A character below U+10000 as UTF-8 writes it. */
  function Utf8(r: nat): string
    requires r < 0x10000
  {
    if r < 0x80 then [r as char]
    else if r < 0x800 then [(0xC0 + r / 0x40) as char, (0x80 + r % 0x40) as char]
    else [(0xE0 + r / 0x1000) as char, (0x80 + r / 0x40 % 0x40) as char, (0x80 + r % 0x40) as char]
  }

  ghost predicate IsSpaceChar(s: string) { exists r: nat | r < 0x10000 :: IsSpaceRune(r) && s == Utf8(r) }

  lemma RuneIsSpace(r: nat)
    requires r < 0x10000 && IsSpaceRune(r)
    ensures var s := Utf8(r); (|s| == 1 && IsAsciiSpace(s[0])) || IsTwoByteSpace(s) || IsThreeByteSpace(s)
  {
  }

  lemma AsciiIsRune(s: string)
    requires |s| == 1 && IsAsciiSpace(s[0])
    ensures IsSpaceChar(s)
  {
    assert s == Utf8(s[0] as int);
  }

  lemma TwoBytesAreRune(s: string)
    requires IsTwoByteSpace(s)
    ensures IsSpaceChar(s)
  {
    assert s == Utf8(s[1] as int);
  }

  lemma ThreeBytesAreRune(s: string)
    requires IsThreeByteSpace(s)
    ensures IsSpaceChar(s)
  {
    var r := (s[0] as int - 0xE0) * 0x1000 + (s[1] as int - 0x80) * 0x40 + (s[2] as int - 0x80);
    assert IsSpaceRune(r) && s == Utf8(r);
  }

  lemma SpaceCharsAre(s: string)
    ensures IsSpaceChar(s) <==> (|s| == 1 && IsAsciiSpace(s[0])) || IsTwoByteSpace(s) || IsThreeByteSpace(s)
  {
    hide IsSpaceRune, Utf8, IsAsciiSpace, IsTwoByteSpace, IsThreeByteSpace;
    if |s| == 1 && IsAsciiSpace(s[0]) { AsciiIsRune(s); }
    if IsTwoByteSpace(s) { TwoBytesAreRune(s); }
    if IsThreeByteSpace(s) { ThreeBytesAreRune(s); }
    forall r: nat | r < 0x10000 && IsSpaceRune(r) && s == Utf8(r)
      ensures (|s| == 1 && IsAsciiSpace(s[0])) || IsTwoByteSpace(s) || IsThreeByteSpace(s)
    {
      RuneIsSpace(r);
    }
  }

  /** Nothing but white-space characters. */
  ghost predicate AllSpace(s: string) {
    s == "" || exists k :: 1 <= k <= |s| && IsSpaceChar(s[..k]) && AllSpace(s[k..])
  }

  lemma AheadIs(s: string, k: nat)
    requires k <= |s|
    ensures 0 < k == SpaceAhead(s) <==> 0 < k && IsSpaceChar(s[..k])
  {
    hide IsSpaceChar;
    SpaceCharsAre(s[..k]);
  }

  lemma {:induction false} TrimLeftTakesAll(s: string)
    ensures TrimLeft(s) == "" <==> AllSpace(s)
  {
    hide SpaceAhead, IsSpaceChar;
    forall k | 0 <= k <= |s| ensures 0 < k == SpaceAhead(s) <==> 0 < k && IsSpaceChar(s[..k]) { AheadIs(s, k); }
    if SpaceAhead(s) > 0 { TrimLeftTakesAll(s[SpaceAhead(s)..]); }
    NothingAhead(s);
  }

  lemma NothingAhead(s: string)
    ensures s == "" ==> SpaceAhead(s) == 0
  {
  }

  lemma {:induction false} TrimRightLeavesSome(s: string)
    requires s != "" && SpaceAhead(s) == 0
    ensures TrimRight(s) != ""
  {
    var k := |s| - SpaceBehind(s);
    if SpaceBehind(s) > 0 {
      BehindIsAhead(s);
      hide SpaceAhead, SpaceBehind;
      TrimRightLeavesSome(s[..k]);
    }
  }

  lemma BehindIsAhead(s: string)
    requires s != "" && SpaceAhead(s) == 0 && SpaceBehind(s) > 0
    ensures SpaceBehind(s) < |s| && SpaceAhead(s[..|s| - SpaceBehind(s)]) == 0
  {
    hide IsSpaceChar, SpaceAhead;
    BehindIs(s);
    var n := |s| - SpaceBehind(s);
    hide SpaceBehind;
    AheadIs(s, |s|);
    assert s[0..] == s == s[..|s|];
    var k := SpaceAhead(s[..n]);
    AheadIs(s[..n], k);
    AheadIs(s, k);
    assert s[..n][..k] == s[..k];
  }

  lemma BehindIs(s: string)
    requires SpaceBehind(s) > 0
    ensures IsSpaceChar(s[|s| - SpaceBehind(s)..])
  {
    hide IsSpaceChar, IsAsciiSpace, IsTwoByteSpace, IsThreeByteSpace;
    SpaceCharsAre(s[|s| - SpaceBehind(s)..]);
  }

  /** Trimming leaves nothing of a text exactly if it is nothing but white space. */
  lemma {:induction false} TrimsToNothing(s: string)
    ensures Trim(s) == "" <==> AllSpace(s)
  {
    hide SpaceAhead, SpaceBehind, AllSpace;
    TrimLeftTakesAll(s);
    TrimmedLeft(s);
    if TrimLeft(s) != "" { TrimRightLeavesSome(TrimLeft(s)); } else { NothingBehind(); }
  }

  lemma {:induction false} TrimmedLeft(s: string)
    ensures SpaceAhead(TrimLeft(s)) == 0
  {
    hide SpaceAhead;
    if SpaceAhead(s) > 0 { TrimmedLeft(s[SpaceAhead(s)..]); }
  }

  lemma NothingBehind()
    ensures TrimRight("") == ""
  {
  }

  // ---------- what trimming leaves ----------

  lemma {:induction false} TrimLeftCuts(s: string) returns (a: string)
    ensures s == a + TrimLeft(s) && AllSpace(a) && SpaceAhead(TrimLeft(s)) == 0
  {
    hide SpaceAhead, IsSpaceChar;
    if SpaceAhead(s) == 0 {
      a := "";
    } else {
      var k := SpaceAhead(s);
      var b := TrimLeftCuts(s[k..]);
      a := s[..k] + b;
      AheadIs(s, k);
      assert a[..k] == s[..k] && a[k..] == b;
    }
  }

  lemma {:induction false} TrimRightCuts(s: string) returns (b: string)
    ensures s == TrimRight(s) + b && AllSpace(b) && SpaceBehind(TrimRight(s)) == 0
  {
    hide SpaceBehind, IsSpaceChar;
    if SpaceBehind(s) == 0 {
      b := "";
    } else {
      var n := |s| - SpaceBehind(s);
      var c := TrimRightCuts(s[..n]);
      b := c + s[n..];
      BehindIs(s);
      OneSpaceMore(c, s[n..]);
    }
  }

  lemma {:induction false} OneSpaceMore(a: string, c: string)
    requires AllSpace(a) && IsSpaceChar(c)
    ensures AllSpace(a + c)
    decreases |a|
  {
    hide IsSpaceChar;
    if a == "" {
      SpaceCharIsSome(c);
      assert a + c == c == c[..|c|] && c[|c|..] == "";
    } else {
      var k :| 1 <= k <= |a| && IsSpaceChar(a[..k]) && AllSpace(a[k..]);
      OneSpaceMore(a[k..], c);
      assert (a + c)[..k] == a[..k] && (a + c)[k..] == a[k..] + c;
    }
  }

  lemma SpaceCharIsSome(c: string)
    requires IsSpaceChar(c)
    ensures c != ""
  {
  }

  lemma {:induction false} AheadStays(s: string)
    requires SpaceAhead(s) == 0
    ensures SpaceAhead(TrimRight(s)) == 0
  {
    if SpaceBehind(s) > 0 {
      BehindIsAhead(s);
      hide SpaceAhead, SpaceBehind;
      AheadStays(s[..|s| - SpaceBehind(s)]);
    }
  }

  /** Trimming takes white space off both ends, and all of it. */
  lemma {:induction false} TrimIs(s: string)
    ensures exists a, b :: s == a + Trim(s) + b && AllSpace(a) && AllSpace(b)
    ensures forall k :: 1 <= k <= |Trim(s)| ==> !IsSpaceChar(Trim(s)[..k]) && !IsSpaceChar(Trim(s)[|Trim(s)| - k..])
  {
    hide SpaceAhead, SpaceBehind, AllSpace, IsSpaceChar, TrimLeft, TrimRight;
    var a := TrimLeftCuts(s);
    var b := TrimRightCuts(TrimLeft(s));
    var t := Trim(s);
    assert s == a + t + b;
    AheadStays(TrimLeft(s));
    forall k | 1 <= k <= |t| ensures !IsSpaceChar(t[..k]) && !IsSpaceChar(t[|t| - k..]) {
      AheadIs(t, k);
      BehindIsAll(t, k);
    }
  }

  lemma BehindIsAll(s: string, k: nat)
    requires 1 <= k <= |s| && SpaceBehind(s) == 0
    ensures !IsSpaceChar(s[|s| - k..])
  {
    SpaceCharsAre(s[|s| - k..]);
    hide IsSpaceChar;
  }
}
