/**
 Decimal numerals, as `strconv.Itoa` writes them and `strconv.Atoi` reads them.
 */
module Decimal {
  predicate IsDigit(c: char) { '0' <= c <= '9' }

  predicate AllDigits(s: string) { s != "" && forall i :: 0 <= i < |s| ==> IsDigit(s[i]) }

  function DigitOf(d: nat): char
    requires d < 10
  {
    '0' + d as char
  }

  function ValueOf(c: char): (d: nat)
    requires IsDigit(c)
    ensures d < 10 && DigitOf(d) == c
  {
    c as int - '0' as int
  }

  function Itoa(n: nat): (s: string)
    ensures AllDigits(s)
    ensures s[0] == '0' ==> n == 0
  {
    if n < 10 then [DigitOf(n)] else Itoa(n / 10) + [DigitOf(n % 10)]
  }

  /** The number a digit string denotes, leading zeros and all. */
  function Atoi(s: string): nat
    requires forall i :: 0 <= i < |s| ==> IsDigit(s[i])
  {
    if s == "" then 0 else 10 * Atoi(s[..|s| - 1]) + ValueOf(s[|s| - 1])
  }

  lemma {:induction false} AtoiItoa(n: nat)
    ensures Atoi(Itoa(n)) == n
  {
    var s := Itoa(n);
    if n < 10 {
      assert Atoi(s) == 10 * Atoi("") + n;
    } else {
      AtoiItoa(n / 10);
      assert s[..|s| - 1] == Itoa(n / 10);
    }
  }

  /** Numerals are decimal: another digit behind makes ten times as much and the digit. */
  lemma {:induction false} TensAndUnits(n: nat, d: nat, s: string, c: char)
    requires d < 10 && (forall i :: 0 <= i < |s| ==> IsDigit(s[i])) && '0' <= c <= '9'
    ensures Itoa(10 * n + d) == (if n == 0 then "" else Itoa(n)) + ["0123456789"[d]]
    ensures Atoi(s + [c]) == 10 * Atoi(s) + (c as int - 48) && Atoi("") == 0
  {
    assert (10 * n + d) / 10 == n && (10 * n + d) % 10 == d;
    assert (s + [c])[..|s|] == s;
    assert DigitOf(d) == "0123456789"[d];
  }
}
