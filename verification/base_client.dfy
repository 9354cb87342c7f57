/**
 The C# client's request signing (`BaseClient.AddHeaders` and
 `BaseClient.CalculateDigest`): it formats the current UTC time, signs the
 canonical string, sets `Authorization` to the client's scheme marker with the
 parameter `apiToken:digest`, and sets `X-Timestamp` to the signed timestamp,
 replacing any earlier value.
 */
module BaseClient {
  import opened Options
  import opened Ascii
  import opened Text
  import opened Timestamps
  import opened Signing

  /** The credentials a client is constructed with. */
  datatype ClientConfig = ClientConfig(
    baseUrl: string,
    apiServiceMarker: string,
    apiToken: string,
    apiSecret: string)

  /** Why `AddHeaders` throws instead of setting the headers. */
  datatype AuthError =
    | EmptyScheme    // the scheme marker is empty (ArgumentException)
    | InvalidScheme  // the scheme marker is not an HTTP token (FormatException)

  /**
   The client's default request headers. HTTP header names compare without
   regard to case, so each entry is filed under its name lower-cased; a name
   may carry several values.
   */
  type HeaderMap = map<string, seq<string>>

  const AuthorizationName: string := "Authorization"
  const TimestampName: string := "X-Timestamp"

  /** The character between the API token and the digest. */
  const TokenDigestSeparator: char := ':'

  function HeaderKey(name: string): string
  {
    ToLower(name)
  }

  /**
   Every entry is filed under its lower-cased name, so a header name in any
   spelling has at most one entry. The collection the client writes to keeps
   this by construction.
   */
  predicate WellFormed(headers: HeaderMap)
  {
    forall k | k in headers :: k == HeaderKey(k)
  }

  predicate Contains(headers: HeaderMap, name: string)
  {
    HeaderKey(name) in headers
  }

  /** Drops every value filed under `name`. */
  function Remove(headers: HeaderMap, name: string): (r: HeaderMap)
    ensures !Contains(r, name)
    ensures forall k | k in headers && k != HeaderKey(name) :: k in r && r[k] == headers[k]
    ensures r.Keys <= headers.Keys
    ensures WellFormed(headers) ==> WellFormed(r)
  {
    headers - {HeaderKey(name)}
  }

  /** Appends `value` to the values filed under `name`. */
  function Add(headers: HeaderMap, name: string, value: string): (r: HeaderMap)
    ensures Contains(r, name)
    ensures Contains(headers, name) ==> r[HeaderKey(name)] == headers[HeaderKey(name)] + [value]
    ensures !Contains(headers, name) ==> r[HeaderKey(name)] == [value]
    ensures forall k | k in headers && k != HeaderKey(name) :: k in r && r[k] == headers[k]
    ensures r.Keys == headers.Keys + {HeaderKey(name)}
    ensures WellFormed(headers) ==> WellFormed(r)
  {
    ToLowerIdempotent(name);
    var key := HeaderKey(name);
    if key in headers then headers[key := headers[key] + [value]]
    else headers[key := [value]]
  }

  /** An HTTP token character (RFC 7230 section 3.2.6). */
  predicate IsTokenChar(c: char)
  {
    || 'a' <= c <= 'z' || 'A' <= c <= 'Z' || '0' <= c <= '9'
    || c in "!#$%&'*+-.^_`|~"
  }

  predicate IsToken(s: string)
  {
    |s| > 0 && forall i :: 0 <= i < |s| ==> IsTokenChar(s[i])
  }

  /** A base64 alphabet character, padding included (RFC 4648 section 4). */
  predicate IsBase64Char(c: char)
  {
    'a' <= c <= 'z' || 'A' <= c <= 'Z' || '0' <= c <= '9' || c == '+' || c == '/' || c == '='
  }

  /** `AuthenticationHeaderValue(scheme, parameter)`. */
  datatype AuthenticationHeaderValue = AuthenticationHeaderValue(scheme: string, parameter: string)
  {
    /** The header's text: the scheme, then a space and the parameter when there is one. */
    function Render(): (r: string)
      ensures |parameter| > 0 ==> |r| == |scheme| + 1 + |parameter|
      ensures |parameter| > 0 ==> r[..|scheme|] == scheme && r[|scheme|] == ' ' && r[|scheme| + 1..] == parameter
      ensures |parameter| == 0 ==> r == scheme
    {
      if |parameter| == 0 then scheme else scheme + " " + parameter
    }
  }

  /** The constructor, which accepts only a token as the scheme. */
  function NewAuthenticationHeaderValue(scheme: string, parameter: string): (r: Result<AuthenticationHeaderValue, AuthError>)
    ensures r.Ok? <==> IsToken(scheme)
    ensures r.Ok? ==> r.value.scheme == scheme && r.value.parameter == parameter
    ensures r == Err(EmptyScheme) <==> |scheme| == 0
  {
    if |scheme| == 0 then Err(EmptyScheme)
    else if !IsToken(scheme) then Err(InvalidScheme)
    else Ok(AuthenticationHeaderValue(scheme, parameter))
  }

  /** The parameter of the Authorization header: the API token, a colon, the digest. */
  function AuthParameter(apiToken: string, digest: string): (r: string)
    ensures |r| == |apiToken| + |digest| + 1
    ensures r[..|apiToken|] == apiToken && r[|apiToken|] == TokenDigestSeparator
    ensures r[|apiToken| + 1..] == digest
  {
    apiToken + [TokenDigestSeparator] + digest
  }

  /** The three parts a receiver reads off an Authorization value. */
  datatype AuthorizationParts = AuthorizationParts(scheme: string, apiToken: string, digest: string)

  /**
   Reads an Authorization value: the scheme runs to the first space, the
   digest starts after the last colon, the API token lies between.
   */
  function ParseAuthorization(value: string): (r: Option<AuthorizationParts>)
    ensures r.Some? ==> ' ' !in r.value.scheme && TokenDigestSeparator !in r.value.digest
  {
    match FirstIndexOfChar(value, ' ')
    case None => None
    case Some(i) =>
      var parameter := value[i + 1..];
      match LastIndexOfChar(parameter, TokenDigestSeparator)
      case None => None
      case Some(j) => Some(AuthorizationParts(value[..i], parameter[..j], parameter[j + 1..]))
  }

  /** Whatever the reader accepts is exactly the value the client would have sent for those parts. */
  lemma ParseAuthorizationSound(value: string)
    requires ParseAuthorization(value).Some?
    ensures var p := ParseAuthorization(value).value;
      AuthenticationHeaderValue(p.scheme, AuthParameter(p.apiToken, p.digest)).Render() == value
  {
    var i := FirstIndexOfChar(value, ' ').value;
    var parameter := value[i + 1..];
    var j := LastIndexOfChar(parameter, TokenDigestSeparator).value;
    var p := ParseAuthorization(value).value;
    assert p.scheme == value[..i] && p.apiToken == parameter[..j] && p.digest == parameter[j + 1..];
    var auth := AuthParameter(p.apiToken, p.digest);
    assert auth == parameter by {
      CutAt(parameter, j);
    }
    assert AuthenticationHeaderValue(p.scheme, auth).Render() == p.scheme + " " + auth;
    CutAt(value, i);
  }

  /**
   A token scheme and a base64 digest survive the trip: the Authorization
   value the client sends splits back into marker, API token and digest, even
   when the API token itself holds colons or spaces.
   */
  lemma AuthorizationRoundTrip(marker: string, apiToken: string, digest: string)
    requires IsToken(marker)
    requires forall i :: 0 <= i < |digest| ==> IsBase64Char(digest[i])
    ensures ParseAuthorization(AuthenticationHeaderValue(marker, AuthParameter(apiToken, digest)).Render())
         == Some(AuthorizationParts(marker, apiToken, digest))
  {
    var parameter := AuthParameter(apiToken, digest);
    assert TokenDigestSeparator !in digest by {
      forall k | 0 <= k < |digest|
        ensures digest[k] != TokenDigestSeparator
      {
        assert IsBase64Char(digest[k]);
      }
    }
    assert ' ' !in marker by {
      forall k | 0 <= k < |marker|
        ensures marker[k] != ' '
      {
        assert IsTokenChar(marker[k]);
      }
    }
    assert parameter == apiToken + [TokenDigestSeparator] + digest;
    LastIndexOfCharBefore(apiToken, TokenDigestSeparator, digest);
    var value := marker + [' '] + parameter;
    assert AuthenticationHeaderValue(marker, parameter).Render() == value;
    FirstIndexOfCharAfter(marker, ' ', parameter);
    assert value[..|marker|] == marker && value[|marker| + 1..] == parameter;
    assert parameter[..|apiToken|] == apiToken && parameter[|apiToken| + 1..] == digest;
  }

  /**
   The X-Timestamp step of `AddHeaders`: when the header is present its
   values are removed and the timestamp added again, otherwise it is added.
   Either way the header then holds the timestamp alone.
   */
  function SetTimestamp(headers: HeaderMap, timestamp: string): (r: HeaderMap)
    ensures r.Keys == headers.Keys + {HeaderKey(TimestampName)}
    ensures r[HeaderKey(TimestampName)] == [timestamp]
    ensures forall k | k in headers && k != HeaderKey(TimestampName) :: r[k] == headers[k]
    ensures WellFormed(headers) ==> WellFormed(r)
  {
    if Contains(headers, TimestampName) then
      Add(Remove(headers, TimestampName), TimestampName, timestamp)
    else
      Add(headers, TimestampName, timestamp)
  }

  /** The headers after `AddHeaders` has set both entries. */
  function SignedHeaders(headers: HeaderMap, authorization: string, timestamp: string): (r: HeaderMap)
    ensures r.Keys == headers.Keys + {HeaderKey(AuthorizationName), HeaderKey(TimestampName)}
    ensures r[HeaderKey(AuthorizationName)] == [authorization]
    ensures r[HeaderKey(TimestampName)] == [timestamp]
    ensures forall k | k in headers && k != HeaderKey(AuthorizationName) && k != HeaderKey(TimestampName)
      :: r[k] == headers[k]
    ensures WellFormed(headers) ==> WellFormed(r)
  {
    ToLowerIdempotent(AuthorizationName);
    assert HeaderKey(AuthorizationName) != HeaderKey(TimestampName) by {
      assert |HeaderKey(AuthorizationName)| != |HeaderKey(TimestampName)|;
    }
    SetTimestamp(headers[HeaderKey(AuthorizationName) := [authorization]], timestamp)
  }

  /** Setting both entries again to the same values changes nothing. */
  lemma SignedHeadersIdempotent(headers: HeaderMap, authorization: string, timestamp: string)
    ensures var once := SignedHeaders(headers, authorization, timestamp);
      SignedHeaders(once, authorization, timestamp) == once
  {
  }

  /**
   The Authorization value the client sends for a digest: the scheme marker,
   a space and the parameter, which is what the header value renders to
   whenever its constructor accepts the marker.
   */
  function AuthorizationValue(config: ClientConfig, digest: string): (r: string)
    ensures |r| == |config.apiServiceMarker| + |config.apiToken| + |digest| + 2
    ensures r[..|config.apiServiceMarker|] == config.apiServiceMarker
    ensures r[|config.apiServiceMarker|] == ' '
    ensures r[|config.apiServiceMarker| + 1..] == AuthParameter(config.apiToken, digest)
    ensures IsToken(config.apiServiceMarker) ==>
      r == NewAuthenticationHeaderValue(config.apiServiceMarker, AuthParameter(config.apiToken, digest)).value.Render()
  {
    config.apiServiceMarker + " " + AuthParameter(config.apiToken, digest)
  }

  /** The formatted timestamp holds no `+`: only digits and the pattern's `-`, `T`, `:` and `Z`. */
  lemma TimestampHasNoSeparator(now: DateTime)
    requires now.Valid()
    ensures FieldSeparator !in Format(now)
  {
  }

  /**
   The client's plain text names one request. For methods without `+`, as
   GET, POST, PUT and DELETE are, two plain texts are equal exactly when the
   methods and the absolute paths agree up to case and the instants agree to
   the second, whatever the paths hold.
   */
  lemma PlainTextInjective(m1: string, p1: string, now1: DateTime, m2: string, p2: string, now2: DateTime)
    requires now1.Valid() && now2.Valid()
    requires FieldSeparator !in m1 && FieldSeparator !in m2
    ensures CanonicalString(m1, p1, Format(now1)) == CanonicalString(m2, p2, Format(now2))
        <==> EqualIgnoringCase(m1, m2) && EqualIgnoringCase(p1, p2) && now1.WholeSeconds() == now2.WholeSeconds()
  {
    TimestampHasNoSeparator(now1);
    TimestampHasNoSeparator(now2);
    CanonicalStringInjective(m1, p1, Format(now1), m2, p2, Format(now2));
    FormatInjective(now1, now2);
  }

  /**
   `AddHeaders` for a request with the given method and resolved absolute
   path at the instant `now`. The Authorization value is set outright and
   X-Timestamp is set or replaced. The constructor of the Authorization value
   throws before any header changes, so an error leaves the headers as they were.
   */
  function AddHeaders(config: ClientConfig, sign: Signer, headers: HeaderMap,
                      absolutePath: string, httpMethod: string, now: DateTime): (r: Result<HeaderMap, AuthError>)
    requires now.Valid()
    requires WellFormed(headers)
    ensures r.Ok? <==> IsToken(config.apiServiceMarker)
    ensures r.Ok? ==> WellFormed(r.value)
    ensures r.Ok? ==> r.value.Keys == headers.Keys + {HeaderKey(AuthorizationName), HeaderKey(TimestampName)}
    ensures r.Ok? ==> r.value[HeaderKey(TimestampName)] == [Format(now)]
    ensures r.Ok? ==> (r.value[HeaderKey(AuthorizationName)]
      == [AuthorizationValue(config, CalculateDigest(sign, config.apiSecret, httpMethod, absolutePath, Format(now)))])
    ensures r.Ok? ==> forall k | k in headers && k != HeaderKey(AuthorizationName) && k != HeaderKey(TimestampName)
      :: r.value[k] == headers[k]
  {
    var timestamp := Format(now);
    var digest := CalculateDigest(sign, config.apiSecret, httpMethod, absolutePath, timestamp);
    var authHeader := AuthParameter(config.apiToken, digest);
    match NewAuthenticationHeaderValue(config.apiServiceMarker, authHeader)
    case Err(e) => Err(e)
    case Ok(authorization) =>
      Ok(SignedHeaders(headers, authorization.Render(), timestamp))
  }

  /** Calling `AddHeaders` again at the same instant changes nothing: X-Timestamp is never duplicated. */
  lemma AddHeadersIdempotent(config: ClientConfig, sign: Signer, headers: HeaderMap,
                             absolutePath: string, httpMethod: string, now: DateTime)
    requires now.Valid()
    requires WellFormed(headers)
    requires IsToken(config.apiServiceMarker)
    ensures var once := AddHeaders(config, sign, headers, absolutePath, httpMethod, now).value;
      AddHeaders(config, sign, once, absolutePath, httpMethod, now) == Ok(once)
  {
    var timestamp := Format(now);
    var digest := CalculateDigest(sign, config.apiSecret, httpMethod, absolutePath, timestamp);
    var authorization := AuthenticationHeaderValue(config.apiServiceMarker, AuthParameter(config.apiToken, digest)).Render();
    SignedHeadersIdempotent(headers, authorization, timestamp);
  }

  /**
   However often the client signs, at whatever instants, the headers end up
   holding one X-Timestamp value: the one signed last.
   */
  lemma AddHeadersTwiceKeepsOneTimestamp(config: ClientConfig, sign: Signer, headers: HeaderMap,
                                         absolutePath: string, httpMethod: string,
                                         first: DateTime, second: DateTime)
    requires first.Valid() && second.Valid()
    requires WellFormed(headers)
    requires IsToken(config.apiServiceMarker)
    ensures var once := AddHeaders(config, sign, headers, absolutePath, httpMethod, first).value;
      AddHeaders(config, sign, once, absolutePath, httpMethod, second).value[HeaderKey(TimestampName)]
        == [Format(second)]
  {
  }
}
