/** Letter case as the C locale sees it. */
module Ascii {

  function LowerChar(c: char): char {
    if 'A' <= c <= 'Z' then (c as int + 32) as char else c
  }

  lemma Alphabets(i: nat)
    requires i < 26
    ensures "ABCDEFGHIJKLMNOPQRSTUVWXYZ"[i] == ('A' as int + i) as char
    ensures "abcdefghijklmnopqrstuvwxyz"[i] == ('a' as int + i) as char
  {}

  /** The 26 letters go to lower case, and every other character stays. */
  lemma LowerChars()
    ensures var upper, lower := "ABCDEFGHIJKLMNOPQRSTUVWXYZ", "abcdefghijklmnopqrstuvwxyz";
            && |upper| == |lower| == 26
            && (forall i :: 0 <= i < 26 ==> LowerChar(upper[i]) == LowerChar(lower[i]) == lower[i])
            && (forall c :: c in upper || LowerChar(c) == c)
  {
    var upper := "ABCDEFGHIJKLMNOPQRSTUVWXYZ";
    forall i: nat | i < 26 ensures LowerChar(upper[i]) == "abcdefghijklmnopqrstuvwxyz"[i] {
      Alphabets(i);
    }
    forall c ensures c in upper || LowerChar(c) == c {
      if 'A' <= c <= 'Z' {
        Alphabets(c as int - 65);
      }
    }
  }

  function ToLower(s: string): (r: string)
    ensures |r| == |s|
    ensures forall i :: 0 <= i < |s| ==> r[i] == LowerChar(s[i])
  {
    seq(|s|, i requires 0 <= i < |s| => LowerChar(s[i]))
  }
}
