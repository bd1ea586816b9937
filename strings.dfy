/** The few java.lang.String operations the model relies on. */
module Strings {

  /** The first loop of String.trim(): from st, skip characters at or below
      U+0020. Every skipped character is one, and the index it stops at is
      the end or a character above U+0020. */
  function TrimFrom(s: string, st: nat): (n: nat)
    requires st <= |s|
    ensures st <= n <= |s|
    ensures forall i | st <= i < n :: s[i] <= ' '
    ensures n < |s| ==> s[n] > ' '
    decreases |s| - st
  {
    if st < |s| && s[st] <= ' ' then TrimFrom(s, st + 1) else st
  }

  /** The second loop of String.trim(): move the end len down past
      characters at or below U+0020, never below st. Every passed character
      is one, and the end it stops at is st or follows a character above
      U+0020. */
  function TrimTo(s: string, st: nat, len: nat): (n: nat)
    requires st <= len <= |s|
    ensures st <= n <= len
    ensures forall i | n <= i < len :: s[i] <= ' '
    ensures st < n ==> s[n - 1] > ' '
  {
    if st < len && s[len - 1] <= ' ' then TrimTo(s, st, len - 1) else len
  }

  /** String.trim(): the slice of s left after dropping its leading and
      trailing characters at or below U+0020. Everything dropped is at or
      below U+0020; what is left is empty exactly when all of s is, and
      otherwise starts and ends with a character above U+0020. */
  function Trim(s: string): (r: string)
    ensures var a := TrimFrom(s, 0);
      && a + |r| <= |s| && r == s[a..a + |r|]
      && (forall i | 0 <= i < a :: s[i] <= ' ')
      && (forall i | a + |r| <= i < |s| :: s[i] <= ' ')
    ensures r == [] <==> forall i | 0 <= i < |s| :: s[i] <= ' '
    ensures r == [] || (r[0] > ' ' && r[|r| - 1] > ' ')
  {
    var a := TrimFrom(s, 0);
    var b := TrimTo(s, a, |s|);
    s[a..b]
  }

  /** A blank string: every character is at or below U+0020. */
  predicate IsBlank(s: string) {
    forall i | 0 <= i < |s| :: s[i] <= ' '
  }

  /** Blank is what a not-blank check built on trim() rejects. */
  lemma BlankIffTrimEmpty(s: string)
    ensures IsBlank(s) <==> Trim(s) == []
  {
  }

  /** String.contains: p occurs in s as a contiguous substring. */
  predicate Contains(s: string, p: string): (c: bool)
    ensures p == [] ==> c
    ensures c ==> |p| <= |s|
  {
    p <= s || (s != [] && Contains(s[1..], p))
  }

  /** p occurs in s starting at offset i. */
  predicate OccursAt(s: string, p: string, i: nat) {
    i + |p| <= |s| && s[i..i + |p|] == p
  }

  /** An occurrence of p at some offset of s is a witness of Contains. */
  lemma {:induction false} ContainsAt(s: string, p: string, i: nat)
    requires OccursAt(s, p, i)
    ensures Contains(s, p)
  {
    if i > 0 {
      assert s[1..][i - 1..i - 1 + |p|] == s[i..i + |p|];
      ContainsAt(s[1..], p, i - 1);
    } else {
      assert p == s[..|p|];
    }
  }

  /** Every Contains comes from an occurrence at some offset. */
  lemma {:induction false} ContainsHasOffset(s: string, p: string)
    requires Contains(s, p)
    ensures exists i: nat :: OccursAt(s, p, i)
  {
    if p <= s {
      assert OccursAt(s, p, 0);
    } else {
      ContainsHasOffset(s[1..], p);
      var i: nat :| OccursAt(s[1..], p, i);
      assert s[1..][i..i + |p|] == s[i + 1..i + 1 + |p|];
      assert OccursAt(s, p, i + 1);
    }
  }

  function DigitChar(d: nat): (c: char)
    requires d < 10
    ensures '0' <= c <= '9'
  {
    (48 + d) as char
  }

  predicate AllDigits(s: string) {
    forall i | 0 <= i < |s| :: '0' <= s[i] <= '9'
  }

  /** Decimal rendering of a non-negative number, as Long.toString gives it. */
  function NatToString(n: nat): (s: string)
    ensures |s| > 0 && AllDigits(s)
    ensures n >= 10 ==> s[0] != '0'
  {
    if n < 10 then [DigitChar(n)] else NatToString(n / 10) + [DigitChar(n % 10)]
  }

  /** The number a string of decimal digits denotes. */
  function DigitsValue(s: string): nat
    requires AllDigits(s)
  {
    if s == [] then 0 else DigitsValue(s[..|s| - 1]) * 10 + (s[|s| - 1] as int - 48)
  }

  /** Reading back the rendering of n gives n. */
  lemma {:induction false} NatToStringRoundTrip(n: nat)
    ensures DigitsValue(NatToString(n)) == n
  {
    var s := NatToString(n);
    if n >= 10 {
      NatToStringRoundTrip(n / 10);
      assert s[..|s| - 1] == NatToString(n / 10);
    }
  }

}
