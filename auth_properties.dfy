/**
  What the handler of func/index.js guarantees, stated over its verdict
  `Outcome(req, store)` (which the `Handler` method is proved to compute) and
  over `Inspect(req)`, the state reached just before the store lookup.
 */
module AuthProperties {
  import opened Wrappers
  import opened JsString
  import Base64
  import opened BasicAuth

  // ----- the early returns -----

  /** No `authorization` header: 401 before any lookup. */
  lemma MissingAuthorizationDenied(req: Request, store: string -> StoreReply)
    requires "authorization" !in req.headers
    ensures Inspect(req) == Rejected(NoAuthorizationHeader)
    ensures Outcome(req, store) == Deny(UnauthorizedResponse())
  {
  }

  /** No non-empty second space-separated token (an empty header value
      included): 401 before any lookup. */
  lemma MissingTokenDenied(req: Request, store: string -> StoreReply)
    requires "authorization" in req.headers
    requires |Split(req.headers["authorization"], ' ')| < 2 || Split(req.headers["authorization"], ' ')[1] == ""
    ensures Inspect(req) == Rejected(NoCredentialToken)
    ensures Outcome(req, store) == Deny(UnauthorizedResponse())
  {
  }

  /** A token on which `atob` throws: 401 before any lookup. */
  lemma UndecodableTokenDenied(req: Request, store: string -> StoreReply)
    requires "authorization" in req.headers
    requires |Split(req.headers["authorization"], ' ')| >= 2
    requires Split(req.headers["authorization"], ' ')[1] != ""
    requires Base64.Atob(Split(req.headers["authorization"], ' ')[1]).None?
    ensures Inspect(req) == Rejected(UndecodableToken)
    ensures Outcome(req, store) == Deny(UnauthorizedResponse())
  {
  }

  /** Decoded text with no ':' or with more than one ':': 401 before any
      lookup. A password that holds a ':' is therefore always refused, where
      section 2 of RFC 7617 would split at the first colon only. */
  lemma NotOneColonDenied(req: Request, store: string -> StoreReply, decoded: string)
    requires "authorization" in req.headers
    requires |Split(req.headers["authorization"], ' ')| >= 2
    requires Split(req.headers["authorization"], ' ')[1] != ""
    requires Base64.Atob(Split(req.headers["authorization"], ' ')[1]) == Some(decoded)
    requires Occurrences(decoded, ':') != 1
    ensures Inspect(req) == Rejected(NotTwoFields)
    ensures Outcome(req, store) == Deny(UnauthorizedResponse())
  {
    SplitCount(decoded, ':');
  }

  /** An environment, app or username outside `[A-Za-z0-9\-_.@]+`: 401
      before any lookup. */
  lemma InvalidPartDenied(req: Request, store: string -> StoreReply, creds: Credentials)
    requires "host" in req.headers && "authorization" in req.headers
    requires ParseAuthorization(req.headers["authorization"]) == Ok(creds)
    requires !IsValidPart(HostLabels(req.headers["host"]).environment)
      || !IsValidPart(HostLabels(req.headers["host"]).app)
      || !IsValidPart(creds.username)
    ensures Inspect(req) == Rejected(InvalidPart)
    ensures Outcome(req, store) == Deny(UnauthorizedResponse())
  {
  }

  /** Whenever a guard rejects, the verdict is the 401 response whatever the
      store holds: the store plays no part (and Handler reads no key). */
  lemma RejectionIgnoresStore(req: Request, store1: string -> StoreReply, store2: string -> StoreReply)
    requires Inspect(req).Rejected?
    ensures Outcome(req, store1) == Outcome(req, store2) == Deny(UnauthorizedResponse())
  {
  }

  /** Credentials that parse, sent without a host header: line 60 reads
      `headers.host.value` outside any `try`, so the function throws. */
  lemma MissingHostThrows(req: Request, store: string -> StoreReply)
    requires "authorization" in req.headers && "host" !in req.headers
    requires ParseAuthorization(req.headers["authorization"]).Ok?
    ensures Inspect(req) == HostMissing
    ensures Outcome(req, store) == Uncaught
  {
  }

  /** A request without a host header is never let in: it gets the 401 or
      throws, whatever the store holds. */
  lemma MissingHostNeverAllowed(req: Request, store: string -> StoreReply)
    requires "host" !in req.headers
    ensures Outcome(req, store) == Deny(UnauthorizedResponse()) || Outcome(req, store) == Uncaught
  {
  }

  /** The verdict depends on the store only through the one key of the
      lookup, and not at all when the handler stops before it. */
  lemma StoreLocality(req: Request, store1: string -> StoreReply, store2: string -> StoreReply)
    requires !Inspect(req).Lookup? || store1(Inspect(req).key) == store2(Inspect(req).key)
    ensures Outcome(req, store1) == Outcome(req, store2)
  {
  }

  // ----- the lookup and the comparison -----

  /** The request passes exactly when every guard passed, the store gave a
      non-empty string and timingSafeEqual matched it; it then passes unchanged. */
  lemma AllowIff(req: Request, store: string -> StoreReply)
    ensures Outcome(req, store).Allow? <==>
      (Inspect(req).Lookup?
       && store(Inspect(req).key).Value?
       && store(Inspect(req).key).text != ""
       && PaddedEqual(Inspect(req).password, store(Inspect(req).key).text))
    ensures Outcome(req, store).Allow? ==> Outcome(req, store).request == req
  {
  }

  /** `null`, the empty string and a thrown lookup all give 401. */
  lemma StoreMissDenied(req: Request, store: string -> StoreReply)
    requires Inspect(req).Lookup?
    requires store(Inspect(req).key) in {Null, Thrown, Value("")}
    ensures Outcome(req, store) == Deny(UnauthorizedResponse())
  {
  }

  /** Every denial is the same response: status 401, the Basic challenge for
      realm "Secure Area", text/html and the fixed body. Nothing in it depends
      on the request, on which step failed, or on what the store holds. */
  lemma DenialIsFixed(req: Request, store: string -> StoreReply)
    ensures Outcome(req, store).Deny? ==>
      var r := Outcome(req, store).response;
      && r.statusCode == 401
      && r.statusDescription == "Unauthorized"
      && r.headers == map["www-authenticate" := "Basic realm=\"Secure Area\"", "content-type" := "text/html"]
      && r.body == "Unauthorized: Access is denied."
  {
  }

  /** A password that reached the lookup holds no ':'. */
  lemma LookupPasswordHasNoColon(req: Request)
    requires Inspect(req).Lookup?
    ensures ':' !in Inspect(req).password
  {
  }

  /** A stored secret with a ':' in it never matches a password without one. */
  lemma ColonSecretNeverMatches(password: string, secret: string)
    requires ':' !in password && ':' in secret
    ensures !PaddedEqual(password, secret)
  {
    var i :| 0 <= i < |secret| && secret[i] == ':';
    assert CodeAt(secret, i) == ':' as int;
    if i < |password| {
      assert password[i] != ':';
    }
  }

  /** So the users whose stored secret holds a ':' can never be let in. */
  lemma ColonSecretNeverAllowed(req: Request, store: string -> StoreReply)
    requires Outcome(req, store).Allow?
    ensures Inspect(req).Lookup? && ':' !in store(Inspect(req).key).text
  {
    AllowIff(req, store);
    LookupPasswordHasNoColon(req);
    var s := store(Inspect(req).key).text;
    if ':' in s {
      ColonSecretNeverMatches(Inspect(req).password, s);
    }
  }

  // ----- the host name -----

  /** For a host `environment.app` or `environment.app.<domain>` the two
      labels are the environment and the app. */
  lemma HostLabelsOfName(environment: string, app: string, suffix: string)
    requires '.' !in environment && '.' !in app
    requires suffix == [] || suffix[0] == '.'
    ensures HostLabels(environment + "." + app + suffix) == RoutingContext(environment, app)
  {
    var host := environment + "." + app + suffix;
    assert host == environment + ['.'] + (app + suffix);
    SplitAfterField(environment, app + suffix, '.');
    if suffix == [] {
      assert app + suffix == app;
      SplitOneField(app, '.');
    } else {
      assert app + suffix == app + ['.'] + suffix[1..];
      SplitAfterField(app, suffix[1..], '.');
    }
  }

  /** A host without a '.' has no second label, and `isValidPart(undefined)`
      tests the string "undefined", which passes: the key becomes
      `<host>/undefined/<username>`. */
  lemma HostWithoutDot(host: string)
    requires '.' !in host
    ensures HostLabels(host) == RoutingContext(host, "undefined")
    ensures IsValidPart("undefined")
  {
    SplitOneField(host, '.');
    IsValidPartIff("undefined");
  }

  // ----- end to end -----

  /** The base64 text of a non-empty binary string is non-empty and holds no space. */
  lemma EncodedToken(plain: string)
    requires Base64.IsLatin1(plain) && plain != ""
    ensures var token := Base64.Encode(Base64.Latin1Bytes(plain)); token != "" && ' ' !in token
  {
    var bytes := Base64.Latin1Bytes(plain);
    var token := Base64.Encode(bytes);
    Base64.EncodeHasNoWhitespace(bytes);
    assert forall i :: 0 <= i < |token| ==> !Base64.IsAsciiWhitespace(token[i]);
    assert |Base64.EncodeSextets(bytes)| >= 2;
  }

  /** `<scheme> base64(username:password)` parses back to the pair, for any
      scheme word without a space: the scheme itself is never checked. */
  lemma ParseEncodedCredentials(scheme: string, username: string, password: string)
    requires ' ' !in scheme && ':' !in username && ':' !in password
    requires Base64.IsLatin1(username + ":" + password)
    ensures ParseAuthorization(scheme + " " + Base64.Encode(Base64.Latin1Bytes(username + ":" + password)))
      == Ok(Credentials(username, password))
  {
    var plain := username + ":" + password;
    var token := Base64.Encode(Base64.Latin1Bytes(plain));
    EncodedToken(plain);
    assert scheme + " " + token == scheme + [' '] + token;
    SplitAfterField(scheme, token, ' ');
    SplitOneField(token, ' ');
    Base64.AtobOfEncoded(plain);
    assert plain == username + [':'] + password;
    SplitAfterField(username, password, ':');
    SplitOneField(password, ':');
  }

  /** The converse of the contract of ParseAuthorization: any header whose
      second space-separated token `atob` decodes to `username:password`, with
      no ':' in either, is accepted with those credentials. This covers every
      token the forgiving decode takes, not only canonical encodings. */
  lemma ParseAuthorizationComplete(authorization: string, username: string, password: string)
    requires ':' !in username && ':' !in password
    requires |Split(authorization, ' ')| >= 2
    requires Base64.Atob(Split(authorization, ' ')[1]) == Some(username + ":" + password)
    ensures ParseAuthorization(authorization) == Ok(Credentials(username, password))
  {
    var decoded := username + ":" + password;
    assert decoded == username + [':'] + password;
    SplitAfterField(username, password, ':');
    SplitOneField(password, ':');
  }

  /** Credentials that parse, a host whose two labels and the username pass
      isValidPart: the handler reaches the lookup of `environment/app/username`
      with the password as decoded. */
  lemma GuardsPassed(req: Request, creds: Credentials)
    requires "authorization" in req.headers && "host" in req.headers
    requires ParseAuthorization(req.headers["authorization"]) == Ok(creds)
    requires IsValidPart(HostLabels(req.headers["host"]).environment)
    requires IsValidPart(HostLabels(req.headers["host"]).app)
    requires IsValidPart(creds.username)
    ensures Inspect(req) == Lookup(
      LookupKey(HostLabels(req.headers["host"]).environment, HostLabels(req.headers["host"]).app, creds.username),
      creds.password)
  {
  }

  /** Credentials sent as `<scheme> base64(username:password)` reach the
      lookup intact: the key is `environment/app/username` and the password
      is compared as sent. When the store holds that password (non-empty)
      under the key, the request passes. */
  lemma ValidCredentialsAllowed(
    req: Request, store: string -> StoreReply, scheme: string,
    environment: string, app: string, suffix: string, username: string, password: string)
    requires "host" in req.headers && "authorization" in req.headers
    requires IsValidPart(environment) && IsValidPart(app) && IsValidPart(username)
    requires '.' !in environment && '.' !in app
    requires suffix == [] || suffix[0] == '.'
    requires req.headers["host"] == environment + "." + app + suffix
    requires ' ' !in scheme && ':' !in password
    requires Base64.IsLatin1(username + ":" + password)
    requires req.headers["authorization"]
      == scheme + " " + Base64.Encode(Base64.Latin1Bytes(username + ":" + password))
    ensures Inspect(req) == Lookup(LookupKey(environment, app, username), password)
    ensures store(LookupKey(environment, app, username)) == Value(password) && password != "" ==>
      Outcome(req, store) == Allow(req)
  {
    ValidPartSeparators(username);
    ParseEncodedCredentials(scheme, username, password);
    HostLabelsOfName(environment, app, suffix);
    assert Inspect(req) == Lookup(LookupKey(environment, app, username), password);
    PaddedEqualReflexiveAndStrict(password, password, 0);
  }

}
