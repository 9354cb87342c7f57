/**
 The Postman pre-request script. It builds the request path from the URL's
 segments, replaces each `:key` path variable with its value (one
 `String.prototype.replace` per variable, in list order), lower-cases the
 result, signs `VERB+path+timestamp` and appends an Authorization and an
 X-Timestamp header to the request.
 */
module PostmanScript {
  import opened Options
  import opened Ascii
  import opened Text
  import opened Signing

  /** The scheme marker in front of the Authorization value. */
  const DigestMarker: string := "TCN"

  /** The character between the API token and the digest. */
  const DigestSeparator: char := ':'

  /** A path variable of the request URL: `:key` in the path stands for `value`. */
  datatype Variable = Variable(key: string, value: string)

  /** One entry of the request's header list. */
  datatype Header = Header(key: string, value: string)

  /** The parts of `pm.request` the script reads and writes. */
  datatype Request = Request(
    httpMethod: string,
    pathSegments: seq<string>,
    variables: seq<Variable>,
    headers: seq<Header>)

  /** The environment variables `apiToken` and `apiSecret`. */
  datatype Environment = Environment(apiToken: string, apiSecret: string)

  /** `"/" + segments.join("/")`. */
  function InitialPath(segments: seq<string>): (r: string)
    ensures |r| >= 1 && r[0] == '/'
  {
    "/" + Join(segments, '/')
  }

  /** The initial path is a `/` followed by the URL's segments, which splitting recovers. */
  lemma InitialPathSegments(segments: seq<string>)
    requires |segments| >= 1
    requires forall i :: 0 <= i < |segments| ==> '/' !in segments[i]
    ensures InitialPath(segments)[0] == '/'
    ensures Split(InitialPath(segments)[1..], '/') == segments
  {
    assert InitialPath(segments)[1..] == Join(segments, '/');
    SplitJoin(segments, '/');
  }

  /** The characters that may follow `$` in a replacement pattern. */
  predicate IsPatternChar(c: char)
  {
    c == '$' || c == '&' || c == '`' || c == '\''
  }

  /** What the pattern `$p` stands for. */
  function Expansion(p: char, matched: string, before: string, after: string): string
  {
    if p == '$' then "$"
    else if p == '&' then matched
    else if p == '`' then before
    else after
  }

  /**
   The text that replaces a match of a string pattern (ECMAScript's
   GetSubstitution, with no capture groups): `$$` stands for `$`, `$&`
   for the match, `` $` `` for the text before it and `$'` for the text
   after it; every other character, `$` included, is copied.
   */
  function Substitution(replacement: string, matched: string, before: string, after: string): (r: string)
    ensures '$' !in replacement ==> r == replacement
    decreases |replacement|
  {
    if |replacement| == 0 then ""
    else if replacement[0] == '$' && |replacement| >= 2 && IsPatternChar(replacement[1]) then
      Expansion(replacement[1], matched, before, after) + Substitution(replacement[2..], matched, before, after)
    else
      [replacement[0]] + Substitution(replacement[1..], matched, before, after)
  }

  /** A first character other than `$` is copied. */
  lemma SubstitutionCopies(text: string, matched: string, before: string, after: string)
    requires |text| > 0 && text[0] != '$'
    ensures Substitution(text, matched, before, after) == [text[0]] + Substitution(text[1..], matched, before, after)
  {
  }

  /** A `$`-free prefix of the replacement is copied, and the rest expands on its own. */
  lemma {:induction false} SubstitutionLiteralPrefix(x: string, rest: string, matched: string, before: string, after: string)
    requires '$' !in x
    ensures Substitution(x + rest, matched, before, after) == x + Substitution(rest, matched, before, after)
    decreases |x|
  {
    if |x| == 0 {
      assert x + rest == rest;
    } else {
      var text := x + rest;
      assert text[0] == x[0] && text[1..] == x[1..] + rest;
      var tail := Substitution(rest, matched, before, after);
      calc {
        Substitution(text, matched, before, after);
        { SubstitutionCopies(text, matched, before, after); }
        [x[0]] + Substitution(x[1..] + rest, matched, before, after);
        { SubstitutionLiteralPrefix(x[1..], rest, matched, before, after); }
        [x[0]] + (x[1..] + tail);
        ([x[0]] + x[1..]) + tail;
        { assert [x[0]] + x[1..] == x; }
        x + tail;
      }
    }
  }

  /** A `$` followed by a pattern character expands. */
  lemma SubstitutionExpands(text: string, matched: string, before: string, after: string)
    requires |text| >= 2 && text[0] == '$' && IsPatternChar(text[1])
    ensures Substitution(text, matched, before, after)
         == Expansion(text[1], matched, before, after) + Substitution(text[2..], matched, before, after)
  {
  }

  /** One pattern `$p` in front of `$`-free text expands, and the text is copied. */
  lemma SubstitutionPatternStep(x: string, p: char, y: string, matched: string, before: string, after: string)
    requires '$' !in x && '$' !in y && IsPatternChar(p)
    ensures Substitution(x + ['$', p] + y, matched, before, after)
         == x + Expansion(p, matched, before, after) + y
  {
    var text := ['$', p] + y;
    assert x + ['$', p] + y == x + text;
    assert text[0] == '$' && text[1] == p && text[2..] == y;
    SubstitutionExpands(text, matched, before, after);
    SubstitutionLiteralPrefix(x, text, matched, before, after);
  }

  /**
   What each replacement pattern expands to between `$`-free text: `$$` to
   `$`, `$&` to the match, `` $` `` to the text before it, `$'` to the text
   after it.
   */
  lemma SubstitutionPatterns(x: string, y: string, matched: string, before: string, after: string)
    requires '$' !in x && '$' !in y
    ensures Substitution(x + "$$" + y, matched, before, after) == x + "$" + y
    ensures Substitution(x + "$&" + y, matched, before, after) == x + matched + y
    ensures Substitution(x + "$`" + y, matched, before, after) == x + before + y
    ensures Substitution(x + "$'" + y, matched, before, after) == x + after + y
  {
    SubstitutionPatternStep(x, '$', y, matched, before, after);
    SubstitutionPatternStep(x, '&', y, matched, before, after);
    SubstitutionPatternStep(x, '`', y, matched, before, after);
    SubstitutionPatternStep(x, '\'', y, matched, before, after);
    assert "$$" == ['$', '$'] && "$&" == ['$', '&'] && "$`" == ['$', '`'] && "$'" == ['$', '\''];
  }

  /** A `$` not followed by a pattern character is copied. */
  lemma SubstitutionLoneDollar(text: string, matched: string, before: string, after: string)
    requires |text| > 0 && text[0] == '$' && (|text| == 1 || !IsPatternChar(text[1]))
    ensures Substitution(text, matched, before, after) == "$" + Substitution(text[1..], matched, before, after)
  {
  }

  /** A `$` that starts no pattern, such as the `$` of `$1` or a trailing one, is copied. */
  lemma SubstitutionLiteralDollar(x: string, c: char, y: string, matched: string, before: string, after: string)
    requires '$' !in x && '$' !in y && !IsPatternChar(c)
    ensures Substitution(x + ['$', c] + y, matched, before, after) == x + ['$', c] + y
    ensures Substitution(x + "$", matched, before, after) == x + "$"
  {
    assert Substitution(x + ['$', c] + y, matched, before, after) == x + ['$', c] + y by {
      var text := ['$', c] + y;
      assert x + ['$', c] + y == x + text;
      assert text[0] == '$' && text[1] == c && text[1..] == [c] + y;
      SubstitutionLoneDollar(text, matched, before, after);
      assert '$' !in [c] + y;
      assert Substitution(text, matched, before, after) == "$" + ([c] + y) == text;
      SubstitutionLiteralPrefix(x, text, matched, before, after);
    }
    assert Substitution(x + "$", matched, before, after) == x + "$" by {
      SubstitutionLoneDollar("$", matched, before, after);
      assert "$"[1..] == "";
      SubstitutionLiteralPrefix(x, "$", matched, before, after);
    }
  }

  /** `s.replace(pattern, replacement)` for a string pattern: the first match only. */
  function ReplaceFirst(s: string, pattern: string, replacement: string): (r: string)
    ensures (forall j :: 0 <= j <= |s| ==> !OccursAt(s, pattern, j)) ==> r == s
    ensures forall i :: IsFirstOccurrence(s, pattern, i) ==>
      r == s[..i] + Substitution(replacement, pattern, s[..i], s[i + |pattern|..]) + s[i + |pattern|..]
  {
    match IndexOf(s, pattern)
    case None => s
    case Some(i) =>
      FirstOccurrenceUnique(s, pattern, i);
      s[..i] + Substitution(replacement, pattern, s[..i], s[i + |pattern|..]) + s[i + |pattern|..]
  }

  /** The text a path variable replaces. */
  function Placeholder(key: string): string
  {
    ":" + key
  }

  /**
   The `reduce` over the URL's variables: each replaces its placeholder in the
   path so far. A path holding none of the placeholders comes back unchanged.
   */
  function SubstituteVariables(path: string, variables: seq<Variable>): (r: string)
    ensures (forall i, j :: 0 <= i < |variables| && 0 <= j <= |path| ==> !OccursAt(path, Placeholder(variables[i].key), j))
      ==> r == path
    decreases |variables|
  {
    if |variables| == 0 then path
    else
      var v := variables[0];
      SubstituteVariables(ReplaceFirst(path, Placeholder(v.key), v.value), variables[1..])
  }

  /**
   The path before lower-casing: the initial path with its variables
   substituted, then expanded by `pm.variables.replaceIn` (a parameter here).
   */
  function ScriptPath(request: Request, replaceIn: string -> string): string
  {
    replaceIn(SubstituteVariables(InitialPath(request.pathSegments), request.variables))
  }

  /** The signed path: the script's path lower-cased, letter for letter. */
  function ResolvedUrl(request: Request, replaceIn: string -> string): (r: string)
    ensures |r| == |ScriptPath(request, replaceIn)|
    ensures forall k :: 0 <= k < |r| ==> !IsUpper(r[k])
    ensures EqualIgnoringCase(ScriptPath(request, replaceIn), r)
  {
    ToLower(ScriptPath(request, replaceIn))
  }

  /** The script's `authToken`: marker, space, API token, colon, digest. */
  function AuthToken(apiToken: string, digest: string): (r: string)
    ensures |r| == |DigestMarker| + |apiToken| + |digest| + 2
    ensures r[..|DigestMarker|] == DigestMarker && r[|DigestMarker|] == ' '
    ensures r[|DigestMarker| + 1..|DigestMarker| + 1 + |apiToken|] == apiToken
    ensures r[|DigestMarker| + 1 + |apiToken|] == DigestSeparator
    ensures r[|DigestMarker| + 2 + |apiToken|..] == digest
  {
    DigestMarker + " " + apiToken + [DigestSeparator] + digest
  }

  /**
   The script's `input`: upper-cased verb, resolved URL and timestamp joined
   with `+`. It is the C# client's canonical string for the script's path.
   */
  function SignedInput(request: Request, timestamp: string, replaceIn: string -> string): (r: string)
    ensures r == CanonicalString(request.httpMethod, ScriptPath(request, replaceIn), timestamp)
  {
    SigningInput(ToUpper(request.httpMethod), ResolvedUrl(request, replaceIn), timestamp)
  }

  /** With `+`-free fields, splitting the signed input on `+` gives back verb, URL and timestamp. */
  lemma SignedInputSplit(request: Request, timestamp: string, replaceIn: string -> string)
    requires FieldSeparator !in request.httpMethod && FieldSeparator !in timestamp
    requires FieldSeparator !in ResolvedUrl(request, replaceIn)
    ensures Split(SignedInput(request, timestamp, replaceIn), FieldSeparator)
         == [ToUpper(request.httpMethod), ResolvedUrl(request, replaceIn), timestamp]
  {
    CaseMappingKeepsSeparator(request.httpMethod);
    SigningInputSplit(ToUpper(request.httpMethod), ResolvedUrl(request, replaceIn), timestamp);
  }

  /**
   The whole script: `timestamp` stands for `new Date().toISOString()` and
   `sign` for CryptoJS's HMAC-SHA256 followed by base64. Two headers are
   appended; nothing already in the list is touched.
   */
  function PreRequest(env: Environment, request: Request, timestamp: string,
                      sign: Signer, replaceIn: string -> string): (r: Request)
    ensures r.httpMethod == request.httpMethod && r.pathSegments == request.pathSegments
    ensures r.variables == request.variables
    ensures |r.headers| == |request.headers| + 2
    ensures r.headers[..|request.headers|] == request.headers
    ensures r.headers[|request.headers|]
         == Header("Authorization", AuthToken(env.apiToken, sign(env.apiSecret, SignedInput(request, timestamp, replaceIn))))
    ensures r.headers[|request.headers| + 1] == Header("X-Timestamp", timestamp)
  {
    var digest := sign(env.apiSecret, SignedInput(request, timestamp, replaceIn));
    var authToken := AuthToken(env.apiToken, digest);
    request.(headers := request.headers + [Header("Authorization", authToken), Header("X-Timestamp", timestamp)])
  }

  /** How many entries of the list carry the key. */
  function CountHeaders(headers: seq<Header>, key: string): nat
  {
    if |headers| == 0 then 0
    else (if headers[0].key == key then 1 else 0) + CountHeaders(headers[1..], key)
  }

  lemma {:induction false} CountHeadersAppend(a: seq<Header>, b: seq<Header>, key: string)
    ensures CountHeaders(a + b, key) == CountHeaders(a, key) + CountHeaders(b, key)
    decreases |a|
  {
    if |a| == 0 {
      assert a + b == b;
    } else {
      assert (a + b)[1..] == a[1..] + b;
      CountHeadersAppend(a[1..], b, key);
    }
  }

  /**
   Unlike the C# client, the script never replaces: every run adds one more
   X-Timestamp entry and one more Authorization entry.
   */
  lemma PreRequestAddsOneOfEach(env: Environment, request: Request, timestamp: string,
                                sign: Signer, replaceIn: string -> string)
    ensures var r := PreRequest(env, request, timestamp, sign, replaceIn);
      && CountHeaders(r.headers, "X-Timestamp") == CountHeaders(request.headers, "X-Timestamp") + 1
      && CountHeaders(r.headers, "Authorization") == CountHeaders(request.headers, "Authorization") + 1
  {
    var r := PreRequest(env, request, timestamp, sign, replaceIn);
    var added := [Header("Authorization", r.headers[|request.headers|].value), Header("X-Timestamp", timestamp)];
    assert r.headers == request.headers + added;
    var last := [Header("X-Timestamp", timestamp)];
    assert last[1..] == [] && added[1..] == last;
    assert "X-Timestamp" != "Authorization" by {
      assert |"X-Timestamp"| != |"Authorization"|;
    }
    assert CountHeaders(last, "X-Timestamp") == 1 && CountHeaders(last, "Authorization") == 0;
    assert CountHeaders(added, "X-Timestamp") == 1 && CountHeaders(added, "Authorization") == 1;
    CountHeadersAppend(request.headers, added, "X-Timestamp");
    CountHeadersAppend(request.headers, added, "Authorization");
  }

  /** Variables are applied left to right: the list is a left fold of single replacements. */
  lemma {:induction false} SubstituteVariablesAppend(path: string, xs: seq<Variable>, ys: seq<Variable>)
    ensures SubstituteVariables(path, xs + ys) == SubstituteVariables(SubstituteVariables(path, xs), ys)
    decreases |xs|
  {
    if |xs| == 0 {
      assert xs + ys == ys;
    } else {
      assert (xs + ys)[0] == xs[0];
      assert (xs + ys)[1..] == xs[1..] + ys;
      SubstituteVariablesAppend(ReplaceFirst(path, Placeholder(xs[0].key), xs[0].value), xs[1..], ys);
    }
  }

  /** The last variable in the list acts on the path the earlier ones left. */
  lemma SubstituteVariablesLast(path: string, variables: seq<Variable>, v: Variable)
    ensures SubstituteVariables(path, variables + [v])
         == ReplaceFirst(SubstituteVariables(path, variables), Placeholder(v.key), v.value)
  {
    SubstituteVariablesAppend(path, variables, [v]);
  }

  /** Substitution keeps case-insensitive equality: letters of the replacement only change case. */
  lemma {:induction false} SubstitutionIgnoresCase(r1: string, r2: string, matched: string, before: string, after: string)
    requires ToLower(r1) == ToLower(r2)
    ensures ToLower(Substitution(r1, matched, before, after)) == ToLower(Substitution(r2, matched, before, after))
    decreases |r1|
  {
    if |r1| > 0 {
      assert LowerChar(r1[0]) == LowerChar(r2[0]) by {
        assert ToLower(r1)[0] == ToLower(r2)[0];
      }
      LowerCharFixes(r1[0]);
      LowerCharFixes(r2[0]);
      assert ToLower(r1[1..]) == ToLower(r2[1..]) by {
        assert ToLower(r1[1..]) == ToLower(r1)[1..];
        assert ToLower(r2[1..]) == ToLower(r2)[1..];
      }
      if r1[0] == '$' && |r1| >= 2 && IsPatternChar(r1[1]) {
        assert r2[0] == '$';
        assert LowerChar(r1[1]) == LowerChar(r2[1]) by {
          assert ToLower(r1)[1] == ToLower(r2)[1];
        }
        LowerCharFixes(r1[1]);
        LowerCharFixes(r2[1]);
        assert r1[1] == r2[1];
        assert ToLower(r1[2..]) == ToLower(r2[2..]) by {
          assert ToLower(r1[2..]) == ToLower(r1)[2..];
          assert ToLower(r2[2..]) == ToLower(r2)[2..];
        }
        SubstitutionIgnoresCase(r1[2..], r2[2..], matched, before, after);
        var rest1 := Substitution(r1[2..], matched, before, after);
        var rest2 := Substitution(r2[2..], matched, before, after);
        var e :=
          if r1[1] == '$' then "$"
          else if r1[1] == '&' then matched
          else if r1[1] == '`' then before
          else after;
        ToLowerAppend(e, rest1);
        ToLowerAppend(e, rest2);
      } else {
        assert !(r2[0] == '$' && |r2| >= 2 && IsPatternChar(r2[1])) by {
          if r2[0] == '$' && |r2| >= 2 {
            assert LowerChar(r1[1]) == LowerChar(r2[1]) by {
              assert ToLower(r1)[1] == ToLower(r2)[1];
            }
            LowerCharFixes(r1[1]);
            LowerCharFixes(r2[1]);
          }
        }
        SubstitutionIgnoresCase(r1[1..], r2[1..], matched, before, after);
        ToLowerAppend([r1[0]], Substitution(r1[1..], matched, before, after));
        ToLowerAppend([r2[0]], Substitution(r2[1..], matched, before, after));
      }
    }
  }

  /** Replacement values that lower-case alike give replaced strings that lower-case alike. */
  lemma ReplaceFirstKeepsLowerEqual(s: string, pattern: string, v1: string, v2: string)
    requires ToLower(v1) == ToLower(v2)
    ensures ToLower(ReplaceFirst(s, pattern, v1)) == ToLower(ReplaceFirst(s, pattern, v2))
  {
    match IndexOf(s, pattern)
    case None =>
    case Some(i) => ReplaceAtKeepsLowerEqual(s, pattern, v1, v2, i);
  }

  lemma ReplaceAtKeepsLowerEqual(s: string, pattern: string, v1: string, v2: string, i: nat)
    requires ToLower(v1) == ToLower(v2)
    requires IndexOf(s, pattern) == Some(i)
    ensures ToLower(ReplaceFirst(s, pattern, v1)) == ToLower(ReplaceFirst(s, pattern, v2))
  {
    var before, after := s[..i], s[i + |pattern|..];
    SubstitutionIgnoresCase(v1, v2, pattern, before, after);
    ToLowerSplice(before, Substitution(v1, pattern, before, after), Substitution(v2, pattern, before, after), after);
  }

  /**
   Lower-casing happens after substitution, so the value's own letters are
   folded too: values that differ only in case give the same lower-cased path.
   */
  lemma ReplaceFirstFoldsValue(s: string, pattern: string, v1: string, v2: string)
    requires EqualIgnoringCase(v1, v2)
    ensures ToLower(ReplaceFirst(s, pattern, v1)) == ToLower(ReplaceFirst(s, pattern, v2))
  {
    EqualIgnoringCaseIffLower(v1, v2);
    ReplaceFirstKeepsLowerEqual(s, pattern, v1, v2);
  }

  /** With a `$`-free value, the first match alone is replaced by the value, verbatim. */
  lemma ReplaceFirstLiteral(s: string, pattern: string, value: string, i: nat)
    requires IsFirstOccurrence(s, pattern, i)
    requires '$' !in value
    ensures ReplaceFirst(s, pattern, value) == s[..i] + value + s[i + |pattern|..]
  {
  }

  /** In `/:idx/:id` the first match of `:id` is the start of `:idx`. */
  lemma IdMatchesInsideIdx(first: string)
    requires '$' !in first
    ensures ReplaceFirst("/:idx/:id", ":id", first) == "/" + first + "x/:id"
  {
    var path := "/:idx/:id";
    assert OccursAt(path, ":id", 1) by { assert path[1..4] == ":id"; }
    assert !OccursAt(path, ":id", 0) by { assert path[0..3][0] != ':'; }
    ReplaceFirstLiteral(path, ":id", first, 1);
    assert path[..1] == "/" && path[4..] == "x/:id";
  }

  /** Once `:idx` lost its `:id`, no `:idx` is left to replace. */
  lemma IdxGone(first: string, second: string)
    requires ':' !in first
    ensures ReplaceFirst("/" + first + "x/:id", ":idx", second) == "/" + first + "x/:id"
  {
    var once := "/" + first + "x/:id";
    var n := |first|;
    assert once[0] == '/' && once[n + 1] == 'x' && once[n + 2] == '/' && once[n + 3] == ':';
    assert once[n + 4] == 'i' && once[n + 5] == 'd';
    forall j | 0 <= j <= |once|
      ensures !OccursAt(once, ":idx", j)
    {
      if j + 4 <= |once| {
        if 1 <= j <= n {
          assert once[j] == first[j - 1];
        }
        assert once[j..j + 4][0] == once[j];
      }
    }
  }

  /**
   `:id` replaced first also eats the start of `:idx`, which is then left
   unreplaced, whatever the two values are.
   */
  lemma ShorterKeyFirst(first: string, second: string)
    requires '$' !in first && ':' !in first
    ensures SubstituteVariables("/:idx/:id", [Variable("id", first), Variable("idx", second)])
         == "/" + first + "x/:id"
  {
    var path, once := "/:idx/:id", "/" + first + "x/:id";
    IdMatchesInsideIdx(first);
    IdxGone(first, second);
    var vars := [Variable("id", first), Variable("idx", second)];
    var rest := [Variable("idx", second)];
    assert vars[1..] == rest && rest[1..] == [];
    assert Placeholder("id") == ":id" && Placeholder("idx") == ":idx";
    assert SubstituteVariables(path, vars) == SubstituteVariables(once, rest);
    assert SubstituteVariables(once, rest) == SubstituteVariables(once, []);
  }

  /** In `/:idx/:id` the first match of `:idx` is the placeholder itself. */
  lemma IdxMatchesFirst(second: string)
    requires '$' !in second
    ensures ReplaceFirst("/:idx/:id", ":idx", second) == "/" + second + "/:id"
  {
    var path := "/:idx/:id";
    assert OccursAt(path, ":idx", 1) by { assert path[1..5] == ":idx"; }
    assert !OccursAt(path, ":idx", 0) by { assert path[0..4][0] != ':'; }
    ReplaceFirstLiteral(path, ":idx", second, 1);
    assert path[..1] == "/" && path[5..] == "/:id";
  }

  /** After `:idx` is gone, the first match of `:id` is its own placeholder. */
  lemma IdMatchesItself(first: string, second: string)
    requires '$' !in first && ':' !in second
    ensures ReplaceFirst("/" + second + "/:id", ":id", first) == "/" + second + "/" + first
  {
    var once := "/" + second + "/:id";
    var n := |second|;
    assert once[0] == '/' && once[n + 1] == '/';
    assert OccursAt(once, ":id", n + 2) by { assert once[n + 2..n + 5] == ":id"; }
    forall j | 0 <= j < n + 2
      ensures !OccursAt(once, ":id", j)
    {
      if 1 <= j <= n {
        assert once[j] == second[j - 1];
      }
      assert once[j..j + 3][0] == once[j];
    }
    ReplaceFirstLiteral(once, ":id", first, n + 2);
    assert once[..n + 2] == "/" + second + "/" && once[n + 5..] == "";
  }

  /** `:idx` replaced first leaves `:id` intact for the second variable. */
  lemma LongerKeyFirst(first: string, second: string)
    requires '$' !in first && '$' !in second && ':' !in second
    ensures SubstituteVariables("/:idx/:id", [Variable("idx", second), Variable("id", first)])
         == "/" + second + "/" + first
  {
    var path, once := "/:idx/:id", "/" + second + "/:id";
    IdxMatchesFirst(second);
    IdMatchesItself(first, second);
    var vars := [Variable("idx", second), Variable("id", first)];
    var rest := [Variable("id", first)];
    assert vars[1..] == rest && rest[1..] == [];
    assert Placeholder("id") == ":id" && Placeholder("idx") == ":idx";
    assert SubstituteVariables(path, vars) == SubstituteVariables(once, rest);
    assert SubstituteVariables(once, rest) == SubstituteVariables("/" + second + "/" + first, []);
  }

  /**
   The substitution depends on the order of the variables when one key is a
   prefix of another: `:id` also matches the start of `:idx`. For values
   without `:` or `$`, one order leaves a placeholder behind and the other
   does not.
   */
  lemma SubstitutionOrderMatters(first: string, second: string)
    requires '$' !in first && '$' !in second && ':' !in first && ':' !in second
    ensures SubstituteVariables("/:idx/:id", [Variable("id", first), Variable("idx", second)])
         != SubstituteVariables("/:idx/:id", [Variable("idx", second), Variable("id", first)])
  {
    ShorterKeyFirst(first, second);
    LongerKeyFirst(first, second);
    ColonLeftBehind(first, second);
  }

  /** Only the first string keeps a `:`. */
  lemma ColonLeftBehind(first: string, second: string)
    requires ':' !in first && ':' !in second
    ensures "/" + first + "x/:id" != "/" + second + "/" + first
  {
    var shorter, longer := "/" + first + "x/:id", "/" + second + "/" + first;
    assert shorter[|first| + 3] == ':';
    assert ':' !in longer;
  }

  /** The placeholder `:a` of `/:a/:id` replaced by a `$`-free value. */
  lemma PlaceholderAReplaced(value: string)
    requires '$' !in value
    ensures ReplaceFirst("/:a/:id", ":a", value) == "/" + value + "/:id"
  {
    var path := "/:a/:id";
    assert OccursAt(path, ":a", 1) by { assert path[1..3] == ":a"; }
    assert !OccursAt(path, ":a", 0) by { assert path[0..2][0] != ':'; }
    ReplaceFirstLiteral(path, ":a", value, 1);
    assert path[..1] == "/" && path[3..] == "/:id";
  }

  /** The ways of writing `:id` in any letter case: a colon, then `i` and `d` in either case. */
  lemma SpellingOfId(value: string)
    requires EqualIgnoringCase(value, ":id")
    ensures |value| == 3 && value[0] == ':' && value[1] != ':' && value[2] != ':' && '$' !in value
  {
    assert CharsMatch(value[0], ':') && CharsMatch(value[1], 'i') && CharsMatch(value[2], 'd');
  }

  /** After `:a` became another spelling of `:id`, the first match of `:id` is the real placeholder. */
  lemma OtherSpellingReplaced(value: string, id: string)
    requires EqualIgnoringCase(value, ":id") && value != ":id"
    requires '$' !in id
    ensures ReplaceFirst("/" + value + "/:id", ":id", id) == "/" + value + "/" + id
  {
    SpellingOfId(value);
    var once := "/" + value + "/:id";
    assert once[0] == '/' && once[2] == value[1] && once[3] == value[2] && once[4] == '/';
    assert OccursAt(once, ":id", 5) by { assert once[5..8] == ":id"; }
    forall j | 0 <= j < 5
      ensures !OccursAt(once, ":id", j)
    {
      if j == 1 {
        assert once[1..4] == value;
      } else {
        assert once[j..j + 3][0] != ':';
      }
    }
    ReplaceFirstLiteral(once, ":id", id, 5);
    assert once[..5] == "/" + value + "/" && once[8..] == "";
  }

  /** `:a` replaced by `:id` itself. */
  lemma PlaceholderASetToId()
    ensures ReplaceFirst("/:a/:id", ":a", ":id") == "/:id/:id"
  {
    PlaceholderAReplaced(":id");
    assert "/" + ":id" + "/:id" == "/:id/:id";
  }

  /** After `:a` became `:id` itself, the first match of `:id` is the substituted value. */
  lemma SameSpellingReplaced(id: string)
    requires '$' !in id
    ensures ReplaceFirst("/:id/:id", ":id", id) == "/" + id + "/:id"
  {
    var once := "/:id/:id";
    assert OccursAt(once, ":id", 1) by { assert once[1..4] == ":id"; }
    assert !OccursAt(once, ":id", 0) by { assert once[0..3][0] != ':'; }
    ReplaceFirstLiteral(once, ":id", id, 1);
    assert once[..1] == "/" && once[4..] == "/:id";
  }

  /** With `:a` set to another spelling of `:id`, the variable `id` fills the real placeholder. */
  lemma UpperCaseValueFirst(value: string, id: string)
    requires EqualIgnoringCase(value, ":id") && value != ":id"
    requires '$' !in id
    ensures SubstituteVariables("/:a/:id", [Variable("a", value), Variable("id", id)]) == "/" + value + "/" + id
  {
    SpellingOfId(value);
    var path, once := "/:a/:id", "/" + value + "/:id";
    var vars := [Variable("a", value), Variable("id", id)];
    var rest := [Variable("id", id)];
    assert vars[1..] == rest && rest[1..] == [];
    assert Placeholder("a") == ":a" && Placeholder("id") == ":id";
    PlaceholderAReplaced(value);
    OtherSpellingReplaced(value, id);
    assert SubstituteVariables(path, vars) == SubstituteVariables(once, rest);
    assert SubstituteVariables(once, rest) == SubstituteVariables("/" + value + "/" + id, []);
  }

  /** With `:a` set to `:id` itself, the variable `id` fills the value `:a` left and `:id` stays. */
  lemma LowerCaseValueFirst(id: string)
    requires '$' !in id
    ensures SubstituteVariables("/:a/:id", [Variable("a", ":id"), Variable("id", id)]) == "/" + id + "/:id"
  {
    var path, once := "/:a/:id", "/:id/:id";
    var vars := [Variable("a", ":id"), Variable("id", id)];
    var rest := [Variable("id", id)];
    assert vars[1..] == rest && rest[1..] == [];
    assert Placeholder("a") == ":a" && Placeholder("id") == ":id";
    PlaceholderASetToId();
    SameSpellingReplaced(id);
    assert SubstituteVariables(path, vars) == SubstituteVariables(once, rest);
    assert SubstituteVariables(once, rest) == SubstituteVariables("/" + id + "/:id", []);
  }

  /**
   Folding the value's case holds for one replacement only: over a list of
   variables, an earlier value that differs only in case decides what a
   later placeholder matches, and the lower-cased paths then differ.
   */
  lemma FoldDoesNotCarryOver(value: string, id: string)
    requires EqualIgnoringCase(value, ":id") && value != ":id"
    requires '$' !in id && |id| > 0 && id[0] != ':'
    ensures ToLower(SubstituteVariables("/:a/:id", [Variable("a", value), Variable("id", id)]))
         != ToLower(SubstituteVariables("/:a/:id", [Variable("a", ":id"), Variable("id", id)]))
  {
    var upper := SubstituteVariables("/:a/:id", [Variable("a", value), Variable("id", id)]);
    var lower := SubstituteVariables("/:a/:id", [Variable("a", ":id"), Variable("id", id)]);
    assert |upper| > 1 && upper[1] == ':' by {
      UpperCaseValueFirst(value, id);
      SpellingOfId(value);
      SecondCharacter("/", value, "/" + id);
    }
    assert |lower| > 1 && lower[1] == id[0] by {
      LowerCaseValueFirst(id);
      SecondCharacter("/", id, "/:id");
    }
    SecondCharacterDecides(upper, lower);
  }

  /** The second character of `"/" + middle + rest` is the first of `middle`. */
  lemma SecondCharacter(slash: string, middle: string, rest: string)
    requires |slash| == 1 && |middle| > 0
    ensures |slash + middle + rest| > 1 && (slash + middle + rest)[1] == middle[0]
  {
  }

  /** Strings whose second characters lower-case differently lower-case differently. */
  lemma SecondCharacterDecides(a: string, b: string)
    requires |a| > 1 && |b| > 1 && LowerChar(a[1]) != LowerChar(b[1])
    ensures ToLower(a) != ToLower(b)
  {
    assert ToLower(a)[1] != ToLower(b)[1];
  }
}
