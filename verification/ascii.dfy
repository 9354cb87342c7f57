/**
 Case mapping restricted to ASCII letters, as used by C#'s `ToUpper`/`ToLower`
 and JavaScript's `toUpperCase`/`toLowerCase` on the inputs of the signing
 scheme. Every other character is left as it is.
 */
module Ascii {

  predicate IsUpper(c: char) { 'A' <= c <= 'Z' }

  predicate IsLower(c: char) { 'a' <= c <= 'z' }

  /** The two characters are the same letter in either case, or the same character. */
  predicate CharsMatch(a: char, b: char)
  {
    || a == b
    || (IsUpper(a) && b as int == a as int + 32)
    || (IsUpper(b) && a as int == b as int + 32)
  }

  /** Case-insensitive equality, defined character by character. */
  predicate EqualIgnoringCase(a: string, b: string)
  {
    |a| == |b| && forall i :: 0 <= i < |a| ==> CharsMatch(a[i], b[i])
  }

  function UpperChar(c: char): (r: char)
    ensures !IsLower(r)
    ensures CharsMatch(c, r)
    ensures IsUpper(r) <==> IsUpper(c) || IsLower(c)
  {
    if IsLower(c) then (c as int - 32) as char else c
  }

  function LowerChar(c: char): (r: char)
    ensures !IsUpper(r)
    ensures CharsMatch(c, r)
    ensures IsLower(r) <==> IsUpper(c) || IsLower(c)
  {
    if IsUpper(c) then (c as int + 32) as char else c
  }

  function ToUpper(s: string): (r: string)
    ensures |r| == |s|
    ensures forall i :: 0 <= i < |r| ==> !IsLower(r[i])
    ensures EqualIgnoringCase(s, r)
  {
    seq(|s|, i requires 0 <= i < |s| => UpperChar(s[i]))
  }

  function ToLower(s: string): (r: string)
    ensures |r| == |s|
    ensures forall i :: 0 <= i < |r| ==> !IsUpper(r[i])
    ensures EqualIgnoringCase(s, r)
  {
    seq(|s|, i requires 0 <= i < |s| => LowerChar(s[i]))
  }

  /** Two characters match ignoring case exactly when they lower-case alike. */
  lemma CharsMatchIffLower(a: char, b: char)
    ensures CharsMatch(a, b) <==> LowerChar(a) == LowerChar(b)
  {
  }

  /** Two characters match ignoring case exactly when they upper-case alike. */
  lemma CharsMatchIffUpper(a: char, b: char)
    ensures CharsMatch(a, b) <==> UpperChar(a) == UpperChar(b)
  {
  }

  /** The character-wise definition agrees with comparing lower-cased strings. */
  lemma EqualIgnoringCaseIffLower(a: string, b: string)
    ensures EqualIgnoringCase(a, b) <==> ToLower(a) == ToLower(b)
  {
    if EqualIgnoringCase(a, b) {
      forall i | 0 <= i < |a|
        ensures ToLower(a)[i] == ToLower(b)[i]
      {
        CharsMatchIffLower(a[i], b[i]);
      }
    }
    if ToLower(a) == ToLower(b) {
      forall i | 0 <= i < |a|
        ensures CharsMatch(a[i], b[i])
      {
        assert ToLower(a)[i] == ToLower(b)[i];
        CharsMatchIffLower(a[i], b[i]);
      }
    }
  }

  /** The character-wise definition agrees with comparing upper-cased strings. */
  lemma EqualIgnoringCaseIffUpper(a: string, b: string)
    ensures EqualIgnoringCase(a, b) <==> ToUpper(a) == ToUpper(b)
  {
    if EqualIgnoringCase(a, b) {
      forall i | 0 <= i < |a|
        ensures ToUpper(a)[i] == ToUpper(b)[i]
      {
        CharsMatchIffUpper(a[i], b[i]);
      }
    }
    if ToUpper(a) == ToUpper(b) {
      forall i | 0 <= i < |a|
        ensures CharsMatch(a[i], b[i])
      {
        assert ToUpper(a)[i] == ToUpper(b)[i];
        CharsMatchIffUpper(a[i], b[i]);
      }
    }
  }

  /** Lower-casing distributes over concatenation. */
  lemma ToLowerAppend(a: string, b: string)
    ensures ToLower(a + b) == ToLower(a) + ToLower(b)
  {
  }

  /** Swapping a middle part for one that lower-cases alike keeps the whole lower-casing alike. */
  lemma ToLowerSplice(before: string, m1: string, m2: string, after: string)
    requires ToLower(m1) == ToLower(m2)
    ensures ToLower(before + m1 + after) == ToLower(before + m2 + after)
  {
    ToLowerAppend(before + m1, after);
    ToLowerAppend(before, m1);
    ToLowerAppend(before + m2, after);
    ToLowerAppend(before, m2);
  }

  /** A character is kept by lower-casing exactly when it is not an upper-case letter. */
  lemma LowerCharFixes(c: char)
    ensures LowerChar(c) == c <==> !IsUpper(c)
  {
  }

  /** A lower-cased string is its own lower-casing. */
  lemma ToLowerIdempotent(s: string)
    ensures ToLower(ToLower(s)) == ToLower(s)
  {
    forall i | 0 <= i < |s|
      ensures ToLower(ToLower(s))[i] == ToLower(s)[i]
    {
      LowerCharFixes(ToLower(s)[i]);
    }
  }
}
