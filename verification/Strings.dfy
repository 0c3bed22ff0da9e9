/** The string operations the program takes from its library, for ASCII letters. */
module Strings {

  function LowerChar(c: char): char {
    if 'A' <= c <= 'Z' then ((c as int) + 32) as char else c
  }

  function Lower(s: string): (r: string)
    ensures |r| == |s| && forall i :: 0 <= i < |s| ==> r[i] == LowerChar(s[i])
  {
    seq(|s|, i requires 0 <= i < |s| => LowerChar(s[i]))
  }

  predicate StartsWith(s: string, t: string) {
    t <= s
  }

  predicate EndsWith(s: string, t: string) {
    |t| <= |s| && s[|s| - |t|..] == t
  }

  const CAPITALS := "ABCDEFGHIJKLMNOPQRSTUVWXYZ"
  const SMALL := "abcdefghijklmnopqrstuvwxyz"

  /** Capitals become the small letters in the same place of the alphabet; nothing else changes. */
  lemma LowerLetters(i: nat, c: char)
    requires i < 26
    ensures |CAPITALS| == |SMALL| == 26 && LowerChar(CAPITALS[i]) == SMALL[i]
    ensures c !in CAPITALS ==> LowerChar(c) == c
  {
    assert forall k :: 0 <= k < 26 ==> CAPITALS[k] as int == 65 + k && SMALL[k] as int == 97 + k;
    if 'A' <= c <= 'Z' {
      assert CAPITALS[c as int - 65] == c;
    }
  }

  /** Without the slashes at the end. */
  function Rstrip(p: string): string {
    if p != "" && p[|p| - 1] == '/' then Rstrip(p[..|p| - 1]) else p
  }

  /** Exactly the slashes at the end go. */
  lemma {:induction false} RstripTakesSlashes(p: string)
    ensures Rstrip(p) <= p && (Rstrip(p) != "" ==> Rstrip(p)[|Rstrip(p)| - 1] != '/')
    ensures forall i :: |Rstrip(p)| <= i < |p| ==> p[i] == '/'
    decreases |p|
  {
    if p != "" && p[|p| - 1] == '/' {
      RstripTakesSlashes(p[..|p| - 1]);
    }
  }
}
