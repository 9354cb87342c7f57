/**
 What gets signed. Both clients sign the string `VERB+path+timestamp`, with
 the verb upper-cased and the path lower-cased, under HMAC-SHA256 keyed by the
 shared secret, the MAC then written in base64. The MAC and the base64 step
 are library primitives and enter the model only as the parameter `sign`.
 */
module Signing {
  import opened Ascii
  import opened Text

  /** HMAC-SHA256 of the message (second argument) under the key (first argument), in base64. */
  type Signer = (string, string) -> string

  /** The character between the three signed fields. */
  const FieldSeparator: char := '+'

  /** The three fields joined in the fixed order verb, path, timestamp. */
  function SigningInput(verb: string, path: string, timestamp: string): (r: string)
    ensures |r| == |verb| + |path| + |timestamp| + 2
    ensures r[..|verb|] == verb && r[|verb|] == FieldSeparator
    ensures r[|verb| + 1..|verb| + 1 + |path|] == path && r[|verb| + 1 + |path|] == FieldSeparator
    ensures r[|verb| + |path| + 2..] == timestamp
    ensures r == Join([verb, path, timestamp], FieldSeparator)
  {
    assert [verb, path, timestamp][1..] == [path, timestamp];
    assert [path, timestamp][1..] == [timestamp];
    assert Join([path, timestamp], FieldSeparator) == path + [FieldSeparator] + timestamp;
    assert Join([verb, path, timestamp], FieldSeparator)
        == verb + [FieldSeparator] + (path + [FieldSeparator] + timestamp);
    verb + [FieldSeparator] + path + [FieldSeparator] + timestamp
  }

  /** The C# client's plain text: method upper-cased, absolute path lower-cased, timestamp as given. */
  function CanonicalString(httpMethod: string, absolutePath: string, timestamp: string): (r: string)
    ensures |r| == |httpMethod| + |absolutePath| + |timestamp| + 2
    ensures r[..|httpMethod|] == ToUpper(httpMethod) && r[|httpMethod|] == FieldSeparator
    ensures r[|httpMethod| + 1..|httpMethod| + 1 + |absolutePath|] == ToLower(absolutePath)
    ensures r[|httpMethod| + 1 + |absolutePath|] == FieldSeparator
    ensures r[|httpMethod| + |absolutePath| + 2..] == timestamp
  {
    SigningInput(ToUpper(httpMethod), ToLower(absolutePath), timestamp)
  }

  /**
   The C# client's digest: the signer applied to the secret and the `+` join
   of the upper-cased method, the lower-cased path and the timestamp.
   */
  function CalculateDigest(sign: Signer, secret: string, httpMethod: string, absolutePath: string, timestamp: string): (r: string)
    ensures r == sign(secret, Join([ToUpper(httpMethod), ToLower(absolutePath), timestamp], FieldSeparator))
  {
    sign(secret, CanonicalString(httpMethod, absolutePath, timestamp))
  }

  /** Fields without `+` are recovered by splitting the signed string on `+`. */
  lemma SigningInputSplit(verb: string, path: string, timestamp: string)
    requires FieldSeparator !in verb && FieldSeparator !in path && FieldSeparator !in timestamp
    ensures Split(SigningInput(verb, path, timestamp), FieldSeparator) == [verb, path, timestamp]
  {
    SplitJoin([verb, path, timestamp], FieldSeparator);
  }

  /** Case mapping neither creates nor removes a `+`. */
  lemma CaseMappingKeepsSeparator(s: string)
    ensures FieldSeparator in ToUpper(s) <==> FieldSeparator in s
    ensures FieldSeparator in ToLower(s) <==> FieldSeparator in s
  {
    if FieldSeparator in s {
      var i :| 0 <= i < |s| && s[i] == FieldSeparator;
      assert ToUpper(s)[i] == FieldSeparator && ToLower(s)[i] == FieldSeparator;
    }
    if FieldSeparator in ToUpper(s) {
      var i :| 0 <= i < |s| && ToUpper(s)[i] == FieldSeparator;
      assert s[i] == FieldSeparator;
    }
    if FieldSeparator in ToLower(s) {
      var i :| 0 <= i < |s| && ToLower(s)[i] == FieldSeparator;
      assert s[i] == FieldSeparator;
    }
  }

  /** For `+`-free fields, splitting the canonical string gives the case-mapped fields in order. */
  lemma CanonicalStringSplit(httpMethod: string, absolutePath: string, timestamp: string)
    requires FieldSeparator !in httpMethod && FieldSeparator !in absolutePath && FieldSeparator !in timestamp
    ensures Split(CanonicalString(httpMethod, absolutePath, timestamp), FieldSeparator)
         == [ToUpper(httpMethod), ToLower(absolutePath), timestamp]
  {
    CaseMappingKeepsSeparator(httpMethod);
    CaseMappingKeepsSeparator(absolutePath);
    SigningInputSplit(ToUpper(httpMethod), ToLower(absolutePath), timestamp);
  }

  /** Methods and paths that differ only in letter case give the same canonical string. */
  lemma CanonicalStringIgnoresCase(m1: string, p1: string, m2: string, p2: string, timestamp: string)
    requires EqualIgnoringCase(m1, m2) && EqualIgnoringCase(p1, p2)
    ensures CanonicalString(m1, p1, timestamp) == CanonicalString(m2, p2, timestamp)
  {
    EqualIgnoringCaseIffUpper(m1, m2);
    EqualIgnoringCaseIffLower(p1, p2);
  }

  /**
   With `+`-free methods and timestamps, equal canonical strings have fields
   of equal lengths: the first `+` ends the method and the last `+` starts the
   timestamp, whatever the paths hold.
   */
  lemma CanonicalStringFieldLengths(m1: string, p1: string, t1: string, m2: string, p2: string, t2: string)
    requires FieldSeparator !in m1 && FieldSeparator !in t1
    requires FieldSeparator !in m2 && FieldSeparator !in t2
    requires CanonicalString(m1, p1, t1) == CanonicalString(m2, p2, t2)
    ensures |m1| == |m2| && |p1| == |p2| && |t1| == |t2|
  {
  }

  /**
   For `+`-free methods and timestamps the converse holds too, whatever the
   paths hold: equal canonical strings come only from methods and paths equal
   up to case and identical timestamps.
   */
  lemma CanonicalStringInjective(m1: string, p1: string, t1: string, m2: string, p2: string, t2: string)
    requires FieldSeparator !in m1 && FieldSeparator !in t1
    requires FieldSeparator !in m2 && FieldSeparator !in t2
    ensures CanonicalString(m1, p1, t1) == CanonicalString(m2, p2, t2)
        <==> EqualIgnoringCase(m1, m2) && EqualIgnoringCase(p1, p2) && t1 == t2
  {
    EqualIgnoringCaseIffUpper(m1, m2);
    EqualIgnoringCaseIffLower(p1, p2);
    var r1, r2 := CanonicalString(m1, p1, t1), CanonicalString(m2, p2, t2);
    if r1 == r2 {
      CanonicalStringFieldLengths(m1, p1, t1, m2, p2, t2);
      assert ToUpper(m1) == r1[..|m1|] == ToUpper(m2);
      assert ToLower(p1) == r1[|m1| + 1..|m1| + 1 + |p1|] == ToLower(p2);
      assert t1 == r1[|m1| + |p1| + 2..] == t2;
    }
  }

  /**
   A `+` in the path alone is harmless, but one in the method or the timestamp
   can stand in for a separator: here the second request's timestamp holds a
   `+`, and two different requests sign the same text.
   */
  lemma CanonicalStringAmbiguous()
    ensures CanonicalString("GET", "/a+b", "c") == CanonicalString("GET", "/a", "b+c")
  {
  }

  /**
   The digest is a function of the secret and the canonical string alone:
   requests that agree on both are signed identically, whatever the signer is.
   */
  lemma DigestDeterministic(sign: Signer, secret: string,
                            m1: string, p1: string, t1: string,
                            m2: string, p2: string, t2: string)
    requires CanonicalString(m1, p1, t1) == CanonicalString(m2, p2, t2)
    ensures CalculateDigest(sign, secret, m1, p1, t1) == CalculateDigest(sign, secret, m2, p2, t2)
  {
  }

  /** Paths and methods differing only in case get the same digest. */
  lemma DigestIgnoresCase(sign: Signer, secret: string, m1: string, p1: string, m2: string, p2: string, timestamp: string)
    requires EqualIgnoringCase(m1, m2) && EqualIgnoringCase(p1, p2)
    ensures CalculateDigest(sign, secret, m1, p1, timestamp) == CalculateDigest(sign, secret, m2, p2, timestamp)
  {
    CanonicalStringIgnoresCase(m1, p1, m2, p2, timestamp);
  }
}
