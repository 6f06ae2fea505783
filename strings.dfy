/**
 * The parts of `java.lang.String` and `StringBuilder` that `getPalindrome` relies on:
 * `compareToIgnoreCase` and `StringBuilder.reverse`. A string is a `seq<char>`, a sequence of
 * Unicode scalar values. A Java string is a sequence of UTF-16 code units, so the two agree
 * exactly on text without supplementary characters (each of which Java stores as two units).
 */
module Strings {

  /** The case folding `compareToIgnoreCase` applies to a character before comparing it:
      lower case after upper case. Only the ASCII letters are mapped. */
  function FoldCase(c: char): (r: char)
    ensures !('A' <= r <= 'Z')
    ensures 'A' <= c <= 'Z' ==> 'a' <= r <= 'z'
    ensures !('A' <= c <= 'Z') ==> r == c
  {
    if 'A' <= c <= 'Z' then (c as int - 'A' as int + 'a' as int) as char else c
  }

  /** `new StringBuilder(s).reverse().toString()`: position i holds the character at the mirror
      position |s| - 1 - i. A supplementary character stays whole, as `reverse` keeps a surrogate
      pair in order. */
  function Reverse(s: string): string {
    seq(|s|, i requires 0 <= i < |s| => s[|s| - 1 - i])
  }

  /** `u` is an upper-case ASCII letter and `l` its lower-case form. */
  predicate IsCasePair(u: char, l: char) {
    'A' <= u <= 'Z' && l as int == u as int - 'A' as int + 'a' as int
  }

  /** Two characters fold alike exactly when they are equal or are the two cases of one ASCII
      letter. */
  lemma FoldCaseEqual(a: char, b: char)
    ensures FoldCase(a) == FoldCase(b) <==> a == b || IsCasePair(a, b) || IsCasePair(b, a)
  {
  }

  /** Reversing twice gives back the string. */
  lemma ReverseInvolution(s: string)
    ensures Reverse(Reverse(s)) == s
  {
  }

  /** `a.compareToIgnoreCase(b)`: the difference of the first pair of folded characters that
      differ, or else the difference of the lengths. */
  function CompareToIgnoreCase(a: string, b: string): int {
    if a == [] || b == [] then |a| - |b|
    else if FoldCase(a[0]) != FoldCase(b[0]) then FoldCase(a[0]) as int - FoldCase(b[0]) as int
    else CompareToIgnoreCase(a[1..], b[1..])
  }

  /** `compareToIgnoreCase` answers 0 exactly when the strings have the same length and agree
      position by position after case folding. */
  lemma {:induction false} CompareToIgnoreCaseZero(a: string, b: string)
    ensures CompareToIgnoreCase(a, b) == 0 <==>
      |a| == |b| && forall i :: 0 <= i < |a| ==> FoldCase(a[i]) == FoldCase(b[i])
  {
    if a != [] && b != [] {
      CompareToIgnoreCaseZero(a[1..], b[1..]);
      if FoldCase(a[0]) == FoldCase(b[0]) && |a| == |b| {
        if forall i :: 0 <= i < |a| - 1 ==> FoldCase(a[1..][i]) == FoldCase(b[1..][i]) {
          forall i | 0 <= i < |a| ensures FoldCase(a[i]) == FoldCase(b[i]) {
            if i > 0 {
              assert a[i] == a[1..][i - 1] && b[i] == b[1..][i - 1];
            }
          }
        }
      }
    }
  }

  /** The test in `getPalindrome`: the string equals its own reverse, ignoring case. */
  predicate IsPalindromeIgnoreCase(s: string) {
    CompareToIgnoreCase(s, Reverse(s)) == 0
  }

  /** A string equals its reverse ignoring case exactly when each character folds to the same
      character as its mirror image. */
  lemma PalindromeIgnoreCaseIff(s: string)
    ensures IsPalindromeIgnoreCase(s) <==> forall i :: 0 <= i < |s| ==> FoldCase(s[i]) == FoldCase(s[|s| - 1 - i])
  {
    CompareToIgnoreCaseZero(s, Reverse(s));
  }
}
