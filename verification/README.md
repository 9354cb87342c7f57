# Request signing of the urgent-rest clients, modelled in Dafny

The repository ships two clients of one REST service: a C# `BaseClient`
class and a Postman pre-request script. Both sign every request the same
way:

- they build the plain text `METHOD+path+timestamp`, with the method
  upper-cased and the path lower-cased;
- they take its HMAC-SHA256 under the shared API secret and write the MAC in
  base64;
- they send `Authorization: <marker> <apiToken>:<digest>` and
  `X-Timestamp: <timestamp>`.

This project models both signers. It proves what gets signed and what gets
sent, and that the two clients agree.

Modules, one file each:

- `Options` (`options.dfy`): `Option` and `Result`.
- `Ascii` (`ascii.dfy`): ASCII-only upper- and lower-casing, and a
  character-wise definition of case-insensitive equality.
- `Text` (`text.dfy`): leftmost-match search, first and last index of a
  character, `Join` and `Split`.
- `Timestamps` (`timestamps.dfy`): the C# timestamp pattern
  `yyyy-MM-ddTHH:mm:ssZ` on a UTC `DateTime`, plus a parser for the same
  pattern.
- `Signing` (`signing.dfy`): the three-field `+` join both clients sign,
  the C# `CalculateDigest`, and the signer as the parameter `sign`.
- `BaseClient` (`base_client.dfy`): the C# `AddHeaders`. It covers the
  header collection, `AuthenticationHeaderValue` and X-Timestamp
  set-or-replace.
- `PostmanScript` (`postman_script.dfy`): the Postman script. It covers the
  initial path, the `reduce` of `String.prototype.replace` over the path
  variables, lower-casing, the signed input, the auth token and the appended
  headers.
- `Interop` (`interop.dfy`): the C# client and the script side by side,
  plus the vector hard-coded in the Go example.

The HMAC-SHA256-then-base64 step is a library call. It enters the model as
a parameter `sign: (secret, message) -> digest` with nothing known about it,
so every statement about digests holds for any signer. The clock is also a
parameter: `now: DateTime` for C# and the timestamp string for the script.
So is Postman's `pm.variables.replaceIn`.

Where the code and the design intent differ, the model follows the code:

- Path-variable substitution depends on the order of the variables. The
  script replaces only the first match of `":" + key`, and `:id` also
  matches the start of `:idx`, so variables sharing a key prefix give
  different paths in different orders. `PostmanScript.SubstitutionOrderMatters`
  exhibits this.
- Lower-casing after substitution makes one replacement blind to the case
  of its value, but not a chain of them. A value spelt like a later
  placeholder is matched by that later variable only in the matching case
  (`PostmanScript.FoldDoesNotCarryOver`).
- The `+` join escapes nothing, yet a `+` in the path is harmless: the
  first `+` ends the method and the last starts the timestamp. So for
  methods and timestamps without `+` the join is unambiguous, whatever the
  paths hold (`Signing.CanonicalStringInjective`). A collision needs a `+`
  in the method or the timestamp (`Signing.CanonicalStringAmbiguous`). The
  C# client never produces one: its methods are GET, POST, PUT and DELETE
  (dotNetCore.BaseClient.cs:44, 53, 64, 75) and its timestamps hold no `+`
  (`BaseClient.PlainTextInjective`).
- The whole path is lower-cased, including the substituted values
  (`PostmanScript.ReplaceFirstFoldsValue`).
- The C# client replaces X-Timestamp. The script appends a new
  Authorization and X-Timestamp entry on every run
  (`PostmanScript.PreRequestAddsOneOfEach`).

## Model

| member | source | states |
|---|---|---|
| Ascii.ToUpper | dotNetCore.BaseClient.cs:141 | Upper-casing keeps the length, leaves no ASCII lower-case letter, and every character still matches its original ignoring case. |
| Ascii.ToLower | dotNetCore.BaseClient.cs:142 | Lower-casing keeps the length, leaves no ASCII upper-case letter, and every character still matches its original ignoring case. |
| Ascii.EqualIgnoringCaseIffLower | dotNetCore.BaseClient.cs:142 | Two strings are equal letter-for-letter up to case exactly when their lower-cased forms are equal. This is the sense in which path case does not matter. |
| Ascii.EqualIgnoringCaseIffUpper | dotNetCore.BaseClient.cs:141 | Two strings are equal up to case exactly when their upper-cased forms are equal. This is the sense in which method case does not matter. |
| Text.IndexOf | Postman.Auth.PreRequestScript.js:18 | The search `replace` relies on returns the leftmost index where the pattern occurs, or nothing when it occurs nowhere. |
| Text.Join | Postman.Auth.PreRequestScript.js:16 | The joined text is free of the separator exactly when there is at most one field and no field holds the separator. |
| Text.SplitJoin | Postman.Auth.PreRequestScript.js:16 | Joining separator-free fields with a separator and splitting on it gives back the fields. |
| Timestamps.Format | dotNetCore.BaseClient.cs:120 | A valid UTC date-time formats to 20 characters. `-` sits at 4 and 7, `T` at 10, `:` at 13 and 16, `Z` at 19, and digits are everywhere else. |
| Timestamps.ParseFormat | dotNetCore.BaseClient.cs:120 | The zero-padded fields of a formatted timestamp parse back to year, month, day, hour, minute and second. Only the sub-second part is lost. |
| Timestamps.FormatParse | dotNetCore.BaseClient.cs:120 | Every string of the pattern that names a real date-time is the formatting of what it parses to, so the format is onto its pattern. |
| Timestamps.FormatInjective | dotNetCore.BaseClient.cs:120 | Two date-times give the same timestamp exactly when they agree to the second. |
| Signing.SigningInput | Postman.Auth.PreRequestScript.js:21 | The signed text holds verb, path and timestamp in that order, each followed by one `+` except the last. It equals the `+` join of the three. |
| Signing.CanonicalString | dotNetCore.BaseClient.cs:141-144 | The C# plain text is the upper-cased method, `+`, the lower-cased absolute path, `+`, and the timestamp unchanged, each at its exact offset. |
| Signing.SigningInputSplit | Postman.Auth.PreRequestScript.js:21 | If verb, path and timestamp hold no `+`, splitting the signed text on `+` recovers the three fields. |
| Signing.CalculateDigest | dotNetCore.BaseClient.cs:139-154 | The C# digest is the signer applied to the API secret and the `+` join of the upper-cased method, the lower-cased absolute path and the timestamp. |
| Signing.CanonicalStringSplit | dotNetCore.BaseClient.cs:144 | For `+`-free method, path and timestamp, splitting the C# plain text on `+` gives upper(method), lower(path) and the timestamp. |
| Signing.CanonicalStringIgnoresCase | dotNetCore.BaseClient.cs:141-144 | Methods that differ only in case (`get`/`GET`) give the same plain text, and so do paths that differ only in case. |
| Signing.CanonicalStringFieldLengths | dotNetCore.BaseClient.cs:144 | For `+`-free methods and timestamps, equal plain texts have methods, paths and timestamps of equal lengths, whatever the paths hold. |
| Signing.CanonicalStringInjective | dotNetCore.BaseClient.cs:141-144 | For `+`-free methods and timestamps, and any paths, the plain texts are equal exactly when the methods and paths are equal up to case and the timestamps are identical. |
| Signing.CanonicalStringAmbiguous | dotNetCore.BaseClient.cs:144 | A `+` in the timestamp can stand in for a separator: `GET`, `/a+b`, `c` and `GET`, `/a`, `b+c` sign the same text. |
| Signing.DigestDeterministic | dotNetCore.BaseClient.cs:146-153 | For any signer, requests with the same secret and the same plain text get the same digest. |
| Signing.DigestIgnoresCase | dotNetCore.BaseClient.cs:139-153 | Paths or methods that differ only in letter case get the same digest under any signer. |
| BaseClient.Remove | dotNetCore.BaseClient.cs:130 | Removing a header name drops all its values and leaves every other header as it was. A collection filed under lower-cased names stays so. |
| BaseClient.Add | dotNetCore.BaseClient.cs:131 | Adding a value appends it to the name's values, or creates the name with that one value, and leaves every other header as it was. A collection filed under lower-cased names stays so. |
| BaseClient.NewAuthenticationHeaderValue | dotNetCore.BaseClient.cs:126 | The header value is built exactly when the scheme marker is an HTTP token. An empty marker is a distinct error. |
| BaseClient.AuthParameter | dotNetCore.BaseClient.cs:124 | The Authorization parameter is the API token, one `:`, then the digest, at those offsets. |
| BaseClient.AuthorizationValue | dotNetCore.BaseClient.cs:124-126 | The Authorization value is the marker, one space, then the parameter `apiToken:digest`, at those offsets. For a token marker it is what the built header value renders. |
| BaseClient.AuthorizationRoundTrip | dotNetCore.BaseClient.cs:124-126 | A token marker and a base64 digest survive the trip: the Authorization value splits back into marker, API token and digest. It splits on the first space and the last `:`, so an API token holding `:` still round-trips. |
| BaseClient.ParseAuthorizationSound | dotNetCore.BaseClient.cs:124-126 | Whatever a receiver reads from a value as marker, token and digest renders back to that exact value. |
| BaseClient.SetTimestamp | dotNetCore.BaseClient.cs:128-136 | X-Timestamp ends with the new timestamp as its only value, whether or not it was present before. Every other header is unchanged, and names stay filed lower-cased. |
| BaseClient.SignedHeaders | dotNetCore.BaseClient.cs:126-136 | After both assignments, Authorization and X-Timestamp each hold exactly the one new value. No other header changes, and no header disappears. |
| BaseClient.SignedHeadersIdempotent | dotNetCore.BaseClient.cs:126-136 | Setting the same Authorization and X-Timestamp again leaves the headers unchanged, so X-Timestamp is never duplicated. |
| BaseClient.TimestampHasNoSeparator | dotNetCore.BaseClient.cs:120 | A formatted timestamp never holds `+`. |
| BaseClient.PlainTextInjective | dotNetCore.BaseClient.cs:120-144 | For `+`-free methods, two C# plain texts are equal exactly when the methods and absolute paths agree up to case and the instants agree to the second, whatever the paths hold. |
| BaseClient.AddHeaders | dotNetCore.BaseClient.cs:116-137 | Signing fails exactly when the marker is not a token, and then no header changes. Otherwise X-Timestamp holds one value, the formatted time that was signed. Authorization holds `marker + " " + apiToken + ":" + sign(secret, plain text)`. All other headers are unchanged, and names stay filed lower-cased. |
| BaseClient.AddHeadersIdempotent | dotNetCore.BaseClient.cs:116-137 | Calling `AddHeaders` again at the same instant on the headers it produced changes nothing. |
| BaseClient.AddHeadersTwiceKeepsOneTimestamp | dotNetCore.BaseClient.cs:120-136 | After two calls at any two instants, X-Timestamp holds exactly one value, the one formatted by the later call. |
| PostmanScript.InitialPath | Postman.Auth.PreRequestScript.js:16 | The initial path is non-empty and starts with `/`. |
| PostmanScript.InitialPathSegments | Postman.Auth.PreRequestScript.js:16 | After its leading `/`, the initial path splits on `/` back into the URL's segments when none of them holds `/`. |
| PostmanScript.Substitution | Postman.Auth.PreRequestScript.js:18 | A replacement value without `$` is inserted verbatim. |
| PostmanScript.SubstitutionPatterns | Postman.Auth.PreRequestScript.js:18 | Inside otherwise `$`-free text, `$$` becomes `$`, `$&` the matched placeholder, `` $` `` the path before the match and `$'` the path after it. |
| PostmanScript.SubstitutionLiteralDollar | Postman.Auth.PreRequestScript.js:18 | A `$` followed by any other character, such as the `$` of `$1`, or a `$` at the end of the value, is copied as it stands. |
| PostmanScript.ReplaceFirst | Postman.Auth.PreRequestScript.js:18 | When the placeholder occurs nowhere, the path is returned unchanged and nothing fails. Otherwise only the leftmost match is replaced, and text before and after it is kept. |
| PostmanScript.ReplaceFirstLiteral | Postman.Auth.PreRequestScript.js:18 | With a `$`-free value, the result is the text before the first match, the value, then the text after it. Later matches stay in place. |
| PostmanScript.SubstituteVariables | Postman.Auth.PreRequestScript.js:18 | A path that holds none of the variables' placeholders comes back unchanged. |
| PostmanScript.SubstituteVariablesAppend | Postman.Auth.PreRequestScript.js:18 | Substituting a list split into two parts is substituting the first part, then the second: the variables fold from left to right. |
| PostmanScript.SubstituteVariablesLast | Postman.Auth.PreRequestScript.js:18 | The last variable of the list replaces its placeholder in the path the earlier variables produced. |
| PostmanScript.SubstitutionIgnoresCase | Postman.Auth.PreRequestScript.js:18-19 | Replacement values that lower-case alike expand to texts that lower-case alike. |
| PostmanScript.ReplaceFirstKeepsLowerEqual | Postman.Auth.PreRequestScript.js:18-19 | Replacing with values that lower-case alike gives paths that lower-case alike. |
| PostmanScript.ReplaceFirstFoldsValue | Postman.Auth.PreRequestScript.js:18-19 | Lower-casing comes after substitution. So in one replacement, values that differ only in case produce the same lower-cased path. |
| PostmanScript.UpperCaseValueFirst | Postman.Auth.PreRequestScript.js:18 | A value spelt like `:id` in another case, put in for `:a` of `/:a/:id`, is not matched by the later `:id`, which replaces the real placeholder. |
| PostmanScript.LowerCaseValueFirst | Postman.Auth.PreRequestScript.js:18 | The value `:id` put in for `:a` of `/:a/:id` is itself matched by the later `:id`, and the real placeholder is left behind. |
| PostmanScript.FoldDoesNotCarryOver | Postman.Auth.PreRequestScript.js:18-19 | Over several variables, values that differ only in case can give different lower-cased paths: an earlier value spelt like a later placeholder changes which text the later variable replaces. |
| PostmanScript.ShorterKeyFirst | Postman.Auth.PreRequestScript.js:18 | With `id` before `idx`, `/:idx/:id` becomes `/` + the id value + `x/:id` for any `$`- and `:`-free id value. The `:id` match eats the start of `:idx`. |
| PostmanScript.LongerKeyFirst | Postman.Auth.PreRequestScript.js:18 | With `idx` before `id`, `/:idx/:id` becomes `/` + the idx value + `/` + the id value, for `$`-free values and a `:`-free idx value. |
| PostmanScript.SubstitutionOrderMatters | Postman.Auth.PreRequestScript.js:18 | For any values free of `$` and `:`, the variables `id` and `idx` in two orders give two different paths. |
| PostmanScript.ResolvedUrl | Postman.Auth.PreRequestScript.js:19 | The signed URL has the substituted and expanded path's length, holds no upper-case ASCII letter, and matches that path letter for letter up to case. |
| PostmanScript.SignedInput | Postman.Auth.PreRequestScript.js:15-21 | The script's input is the C# plain text of the request's method, the substituted and expanded path, and the timestamp. |
| PostmanScript.AuthToken | Postman.Auth.PreRequestScript.js:24 | The auth token is `TCN`, a space, the API token, `:`, and the digest, each at its offset. |
| PostmanScript.SignedInputSplit | Postman.Auth.PreRequestScript.js:21 | With `+`-free method, URL and timestamp, splitting the script's input on `+` gives the upper-cased verb, the resolved URL and the timestamp. |
| PostmanScript.PreRequest | Postman.Auth.PreRequestScript.js:14-34 | The script keeps method, path and variables. It keeps the existing headers as a prefix and appends exactly Authorization (the auth token over the signed input) and then X-Timestamp (the timestamp). |
| PostmanScript.PreRequestAddsOneOfEach | Postman.Auth.PreRequestScript.js:26-34 | Each run adds one more X-Timestamp entry and one more Authorization entry and removes none, unlike the C# replace. |
| Interop.SameSignedText | Postman.Auth.PreRequestScript.js:15-21 | When the script's resolved path equals the C# absolute path up to case, the methods agree up to case and the timestamp strings are the same, the script's input equals the C# plain text. |
| Interop.DigestMarkerIsToken | Postman.Auth.PreRequestScript.js:7 | The script's marker `TCN` is a valid HTTP token, so the C# client accepts it as a scheme. |
| Interop.AuthTokenIsRenderedValue | Postman.Auth.PreRequestScript.js:24 | The script's auth token is the C# Authorization value for the marker `TCN` and the same API token and digest. |
| Interop.SameHeaders | dotNetCore.BaseClient.cs:116-137 | A C# client with the script's marker, token and secret succeeds on the same request and timestamp string. It sends the same Authorization and X-Timestamp values that the script appends. |
| Interop.ScriptAuthTokenRoundTrip | Postman.Auth.PreRequestScript.js:24 | For a base64 digest, the script's auth token splits back into `TCN`, the API token and the digest. |
| Interop.GoExampleTimestamp | Go.go:16 | The instant 2021-03-10 14:23:23 UTC formats to the Go vector's timestamp `2021-03-10T14:23:23Z`. |
| Interop.GoExampleVector | Go.go:16 | The Go example's `+`-joined vector equals the C# plain text for method `get` and path `/REST/sites/WorkingHours/urgent%20si`. |

## Left out

- HTTP transport and response mapping are I/O and library calls:
  `GetAsync`, `PostAsync`, `PutAsync`, `DeleteAsync`, `ParseResponse` with
  JSON (de)serialization, and `HttpClient` construction and `Dispose`
  (dotNetCore.BaseClient.cs:26-114, 156-159).
- HMAC-SHA256 and base64 are not modelled. `HMACSHA256`,
  `Convert.ToBase64String` and CryptoJS are library primitives, so the
  signer is an arbitrary function parameter. UTF-8 encoding of secret and
  message is part of that parameter.
- Clocks are inputs. `DateTime.UtcNow` is the `now` argument and
  `new Date().toISOString()` is the script's timestamp argument. The
  script's ISO string carries milliseconds, so the two clients agree only
  when given the same timestamp string, which `Interop.SameHeaders` assumes.
- URI resolution is not modelled. `new Uri(new Uri(baseUrl), methodUrl).AbsolutePath`
  follows section 5.2 of RFC 3986 and does percent-encoding inside a
  library. The resolved absolute path is an input.
- `pm.variables.replaceIn` (the `{{var}}` expansion) is an external API. It
  is the function parameter `replaceIn`.
- Timestamps.Format: the pattern's `:` is the culture's time separator in
  .NET. The model assumes the invariant culture's `:` and the Gregorian
  calendar.
- Ascii.ToUpper: case mapping covers ASCII letters only. C#'s `ToUpper` and
  `ToLower` follow the current culture. The model assumes a culture that maps
  ASCII letters as the invariant culture does. Under a culture such as
  Turkish, where `I` lower-cases to dotless `ı`, the C# client signs a
  different path, and `Interop.SameSignedText` and `Interop.SameHeaders` no
  longer hold.
- Ascii.ToLower: the same ASCII-only restriction as `Ascii.ToUpper`.
- PostmanScript.Substitution: a variable's value is a string. JavaScript's
  conversion of non-string or undefined values is not modelled, and neither
  is an undefined environment variable.
- BaseClient.AddHeaders: `HttpHeaders.Add` would reject a value holding a
  newline. The formatted timestamp never holds one, so that check is not
  modelled. The same goes for the Authorization parameter: .NET may reject
  an `apiToken` holding CR or LF, and the model accepts every `apiToken`.
- BaseClient.NewAuthenticationHeaderValue: only the scheme is validated (as
  an HTTP token). The parameter's own checks in .NET are not modelled.
- BaseClient.WellFormed: .NET compares header names ignoring case. The model
  files every entry under its lower-cased name, requires that of the
  collection it is given, and proves that every operation keeps it.
- Concurrent calls sharing one `DefaultRequestHeaders` can race. That is a
  concurrency concern and is not modelled.
- The server-side verifier and its freshness window are not part of this
  code and are not modelled.
- Go.go is a demo `main` that calls libraries and prints. Only its
  hard-coded vector is used, as a concrete check of the `+` join.
