/**
 This module models the case-insensitive string comparer the token endpoint uses
 to drop the "anonymous" role. The culture-aware comparer of the platform is
 approximated by ASCII lower-casing: two strings are equal ignoring case when
 their lower-cased forms are equal.
 */
module CaseFold {

  predicate IsUpper(c: char) {
    'A' <= c <= 'Z'
  }

  /** Maps an ASCII upper-case letter to its lower-case letter; leaves every other character alone. */
  function LowerChar(c: char): (d: char)
    ensures !IsUpper(d)
    ensures !IsUpper(c) ==> d == c
    ensures IsUpper(c) ==> 'a' <= d <= 'z' && d as int - c as int == 'a' as int - 'A' as int
  {
    if IsUpper(c) then (c as int - 'A' as int + 'a' as int) as char else c
  }

  /** The comparison key of a string: the string with every letter lower-cased. */
  function Fold(s: string): (k: string)
    ensures |k| == |s|
    ensures forall i :: 0 <= i < |k| ==> !IsUpper(k[i])
    ensures forall i :: 0 <= i < |s| && !IsUpper(s[i]) ==> k[i] == s[i]
    ensures forall i :: 0 <= i < |s| && IsUpper(s[i]) ==> k[i] as int == s[i] as int + ('a' as int - 'A' as int)
  {
    seq(|s|, i requires 0 <= i < |s| => LowerChar(s[i]))
  }

  /** Folding a key again changes nothing, so keys are canonical representatives. */
  lemma FoldIdempotent(s: string)
    ensures Fold(Fold(s)) == Fold(s)
  {
    var k := Fold(s);
    assert forall i :: 0 <= i < |k| ==> Fold(k)[i] == k[i];
  }

  /**
   String equality ignoring case, as the comparer decides it: the strings have the
   same length and agree character by character once each character is lower-cased.
   */
  predicate EqualsIgnoreCase(a: string, b: string)
    ensures EqualsIgnoreCase(a, b) <==>
      |a| == |b| && forall i :: 0 <= i < |a| ==> LowerChar(a[i]) == LowerChar(b[i])
  {
    Fold(a) == Fold(b)
  }

  /** An upper-case letter and its lower-case letter are equal ignoring case. */
  lemma LetterCaseVariants(a: string, b: string)
    requires |a| == |b|
    requires forall i :: 0 <= i < |a| ==> a[i] == b[i] || (IsUpper(a[i]) && b[i] as int == a[i] as int + 32)
    ensures EqualsIgnoreCase(a, b)
  {
  }
}
