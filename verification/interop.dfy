/**
 The two clients against each other: given the same resolved path, the same
 method and the same timestamp string, the Postman script and the C# client
 sign the same text and send the same Authorization value.
 */
module Interop {
  import opened Options
  import opened Ascii
  import opened Text
  import opened Timestamps
  import opened Signing
  import BaseClient
  import PostmanScript

  /**
   When the script's path and the C# client's absolute path agree up to
   letter case, and so do the methods, both sign the same string.
   */
  lemma SameSignedText(request: PostmanScript.Request, replaceIn: string -> string,
                       httpMethod: string, absolutePath: string, timestamp: string)
    requires EqualIgnoringCase(request.httpMethod, httpMethod)
    requires EqualIgnoringCase(PostmanScript.ScriptPath(request, replaceIn), absolutePath)
    ensures PostmanScript.SignedInput(request, timestamp, replaceIn) == CanonicalString(httpMethod, absolutePath, timestamp)
  {
    EqualIgnoringCaseIffUpper(request.httpMethod, httpMethod);
    EqualIgnoringCaseIffLower(PostmanScript.ScriptPath(request, replaceIn), absolutePath);
  }

  /** The scheme marker the script hard-codes is a valid HTTP token. */
  lemma DigestMarkerIsToken()
    ensures BaseClient.IsToken(PostmanScript.DigestMarker)
  {
    var m := PostmanScript.DigestMarker;
    assert m[0] == 'T' && m[1] == 'C' && m[2] == 'N';
  }

  /** The script's token is what the C# client renders for the same marker, API token and digest. */
  lemma AuthTokenIsRenderedValue(apiToken: string, digest: string)
    ensures PostmanScript.AuthToken(apiToken, digest)
         == BaseClient.AuthenticationHeaderValue(PostmanScript.DigestMarker, BaseClient.AuthParameter(apiToken, digest)).Render()
    ensures PostmanScript.AuthToken(apiToken, digest)
         == BaseClient.AuthorizationValue(BaseClient.ClientConfig("", PostmanScript.DigestMarker, apiToken, ""), digest)
  {
    var parameter := BaseClient.AuthParameter(apiToken, digest);
    assert |parameter| > 0;
    assert PostmanScript.AuthToken(apiToken, digest) == PostmanScript.DigestMarker + " " + parameter;
  }

  /**
   A C# client configured with the script's marker, token and secret, run
   on the same request at an instant whose formatted form is the script's
   timestamp, sends the very Authorization value the script appends, and the
   same X-Timestamp value.
   */
  lemma SameHeaders(config: BaseClient.ClientConfig, env: PostmanScript.Environment,
                    request: PostmanScript.Request, replaceIn: string -> string, sign: Signer,
                    headers: BaseClient.HeaderMap, httpMethod: string, absolutePath: string, now: DateTime)
    requires now.Valid()
    requires BaseClient.WellFormed(headers)
    requires config.apiServiceMarker == PostmanScript.DigestMarker
    requires config.apiToken == env.apiToken && config.apiSecret == env.apiSecret
    requires EqualIgnoringCase(request.httpMethod, httpMethod)
    requires EqualIgnoringCase(PostmanScript.ScriptPath(request, replaceIn), absolutePath)
    ensures var sent := BaseClient.AddHeaders(config, sign, headers, absolutePath, httpMethod, now);
      var script := PostmanScript.PreRequest(env, request, Format(now), sign, replaceIn).headers;
      && sent.Ok?
      && sent.value[BaseClient.HeaderKey(BaseClient.AuthorizationName)] == [script[|request.headers|].value]
      && sent.value[BaseClient.HeaderKey(BaseClient.TimestampName)] == [script[|request.headers| + 1].value]
  {
    var timestamp := Format(now);
    DigestMarkerIsToken();
    SameSignedText(request, replaceIn, httpMethod, absolutePath, timestamp);
    var digest := sign(env.apiSecret, CanonicalString(httpMethod, absolutePath, timestamp));
    assert digest == CalculateDigest(sign, config.apiSecret, httpMethod, absolutePath, timestamp);
    assert digest == sign(env.apiSecret, PostmanScript.SignedInput(request, timestamp, replaceIn));
    AuthTokenIsRenderedValue(env.apiToken, digest);
    assert BaseClient.AuthorizationValue(config, digest) == PostmanScript.AuthToken(env.apiToken, digest);
  }

  /**
   The script's Authorization value reads back into its marker, API token
   and digest whenever the digest is base64 text.
   */
  lemma ScriptAuthTokenRoundTrip(apiToken: string, digest: string)
    requires forall i :: 0 <= i < |digest| ==> BaseClient.IsBase64Char(digest[i])
    ensures BaseClient.ParseAuthorization(PostmanScript.AuthToken(apiToken, digest))
         == Some(BaseClient.AuthorizationParts(PostmanScript.DigestMarker, apiToken, digest))
  {
    DigestMarkerIsToken();
    BaseClient.AuthorizationRoundTrip(PostmanScript.DigestMarker, apiToken, digest);
    AuthTokenIsRenderedValue(apiToken, digest);
  }

  /** The zero-padded year of the Go example's instant. */
  lemma GoExampleYear()
    ensures PadDigits(2021, 4) == "2021"
  {
    assert PadDigits(2, 1) == "2";
    assert PadDigits(20, 2) == "20";
    assert PadDigits(202, 3) == "202";
  }

  /** The zero-padded month and day of the Go example's instant. */
  lemma GoExampleDate()
    ensures PadDigits(3, 2) == "03" && PadDigits(10, 2) == "10"
  {
    assert PadDigits(3, 2) == "03" by { assert PadDigits(0, 1) == "0"; }
    assert PadDigits(10, 2) == "10" by { assert PadDigits(1, 1) == "1"; }
  }

  /** The zero-padded hour and minute of the Go example's instant. */
  lemma GoExampleTime()
    ensures PadDigits(14, 2) == "14" && PadDigits(23, 2) == "23"
  {
    assert PadDigits(14, 2) == "14" by { assert PadDigits(1, 1) == "1"; }
    assert PadDigits(23, 2) == "23" by { assert PadDigits(2, 1) == "2"; }
  }

  /** The instant of the Go example's vector formats to the vector's timestamp. */
  lemma GoExampleTimestamp()
    ensures Format(DateTime(2021, 3, 10, 14, 23, 23, 0)) == "2021-03-10T14:23:23Z"
  {
    GoExampleYear();
    GoExampleDate();
    GoExampleTime();
    assert Format(DateTime(2021, 3, 10, 14, 23, 23, 0)) == Layout("2021", "03", "10", "14", "23", "23");
  }

  /** The Go example's `+`-joined vector is a canonical string of the C# client's form. */
  lemma GoExampleVector()
    ensures Join(["GET", "/rest/sites/workinghours/urgent%20si", "2021-03-10T14:23:23Z"], FieldSeparator)
         == CanonicalString("get", "/REST/sites/WorkingHours/urgent%20si", "2021-03-10T14:23:23Z")
  {
    assert ToUpper("get") == "GET";
    GoExamplePath();
  }

  /** The Go example's path, lower-cased. */
  lemma GoExamplePath()
    ensures ToLower("/REST/sites/WorkingHours/urgent%20si") == "/rest/sites/workinghours/urgent%20si"
  {
  }
}
