/**
  The Basic-Auth gate of func/index.js: a CloudFront viewer-request function
  that forwards the request unchanged, answers with one fixed 401 response,
  or (credentials parsed but no host header) throws. The edge key/value store
  is a `Store` whose contents map a key to what `kvsHandle.get` resolves to,
  or to the fact that it threw.
 */
module BasicAuth {
  import opened Wrappers
  import opened JsString
  import Base64

  /** A viewer request; header names are lower-cased, as CloudFront delivers them.
      The handler reads only the headers: `httpMethod` and `uri` stand for the
      rest of the request, which it forwards untouched. */
  datatype Request = Request(httpMethod: string, uri: string, headers: map<string, string>)

  datatype Response = Response(
    statusCode: int,
    statusDescription: string,
    headers: map<string, string>,
    body: string)

  /** What the function does: return the original request (forwarded to the
      origin), return a response sent back to the viewer, or throw (the
      unguarded read of the host header when there is none). */
  datatype Verdict = Allow(request: Request) | Deny(response: Response) | Uncaught

  /** What `kvsHandle.get(key, { format: "string" })` produced: a string, `null`, or an exception. */
  datatype StoreReply = Value(text: string) | Null | Thrown

  /** The early returns before the store lookup, in the order the handler meets them. */
  datatype Rejection =
    | NoAuthorizationHeader   // no `authorization` header
    | NoCredentialToken       // no non-empty second space-separated token
    | UndecodableToken        // `atob` throws
    | NotTwoFields            // the decoded text does not split on ':' into two fields
    | InvalidPart             // environment, app or username fails isValidPart

  datatype Credentials = Credentials(username: string, password: string)

  /** The environment and app labels taken from the host name. */
  datatype RoutingContext = RoutingContext(environment: string, app: string)

  /** Where evaluation stands when the store would be read: rejected, thrown
      at the host header, or ready to look up `key` and compare against `password`. */
  datatype Inspection = Rejected(reason: Rejection) | HostMissing | Lookup(key: string, password: string)

  /** generateUnauthorizedResponse(): the one response every denial returns. */
  function UnauthorizedResponse(): Response {
    Response(
      401,
      "Unauthorized",
      map["www-authenticate" := "Basic realm=\"Secure Area\"", "content-type" := "text/html"],
      "Unauthorized: Access is denied.")
  }

  // ----- isValidPart -----

  /** The character class `[a-zA-Z0-9\-_.@]`. */
  predicate IsPartChar(c: char) {
    ('a' <= c <= 'z') || ('A' <= c <= 'Z') || ('0' <= c <= '9')
    || c == '-' || c == '_' || c == '.' || c == '@'
  }

  /** `/^[a-zA-Z0-9\-_.@]+$/.test(part)`: the `+` matches one class
      character and then either the end of the input or a further match. */
  predicate IsValidPart(part: string)
    decreases |part|
  {
    |part| >= 1 && IsPartChar(part[0]) && (|part| == 1 || IsValidPart(part[1..]))
  }

  /** isValidPart accepts exactly the non-empty strings over the class. */
  lemma {:induction false} IsValidPartIff(part: string)
    ensures IsValidPart(part) <==> (part != [] && forall i :: 0 <= i < |part| ==> IsPartChar(part[i]))
    decreases |part|
  {
    if |part| > 1 {
      IsValidPartIff(part[1..]);
      if forall i :: 0 <= i < |part| ==> IsPartChar(part[i]) {
        assert forall i :: 0 <= i < |part| - 1 ==> IsPartChar(part[1..][i]);
      }
      if IsValidPart(part) {
        forall i | 0 <= i < |part| ensures IsPartChar(part[i]) {
          if i > 0 {
            assert part[i] == part[1..][i - 1];
          }
        }
      }
    }
  }

  /** A valid part holds none of the key separator '/', the credential
      separator ':' or a space. */
  lemma ValidPartSeparators(part: string)
    requires IsValidPart(part)
    ensures '/' !in part && ':' !in part && ' ' !in part
  {
    IsValidPartIff(part);
  }

  // ----- timingSafeEqual -----

  /** Math.max on lengths. */
  function Max(x: int, y: int): int {
    if x < y then y else x
  }

  /** What timingSafeEqual decides: the codes agree at every position below
      the longer length, a position past the end counting as code 0. */
  predicate PaddedEqual(a: string, b: string) {
    forall i :: 0 <= i < Max(|a|, |b|) ==> CodeAt(a, i) == CodeAt(b, i)
  }

  /** `x ^ y` on non-negative integers, bit by bit from the lowest. */
  function BitXor(x: nat, y: nat): nat
    decreases x + y
  {
    if x == 0 && y == 0 then 0 else 2 * BitXor(x / 2, y / 2) + (x + y) % 2
  }

  /** `x | y` on non-negative integers, bit by bit from the lowest. */
  function BitOr(x: nat, y: nat): nat
    decreases x + y
  {
    if x == 0 && y == 0 then 0
    else 2 * BitOr(x / 2, y / 2) + (if x % 2 == 1 || y % 2 == 1 then 1 else 0)
  }

  /** `x ^ y` is zero exactly when the operands are equal. */
  lemma {:induction false} BitXorZero(x: nat, y: nat)
    ensures BitXor(x, y) == 0 <==> x == y
    decreases x + y
  {
    if x != 0 || y != 0 {
      BitXorZero(x / 2, y / 2);
    }
  }

  /** `x | y` is zero exactly when both operands are zero. */
  lemma {:induction false} BitOrZero(x: nat, y: nat)
    ensures BitOr(x, y) == 0 <==> x == 0 && y == 0
    decreases x + y
  {
    if x != 0 || y != 0 {
      BitOrZero(x / 2, y / 2);
    }
  }

  function Pow2(k: nat): nat {
    if k == 0 then 1 else 2 * Pow2(k - 1)
  }

  lemma Pow2Of21()
    ensures Pow2(21) == 0x20_0000
  {
    assert Pow2(3) == 8;
    assert Pow2(6) == 64;
    assert Pow2(9) == 512;
    assert Pow2(12) == 4096;
    assert Pow2(15) == 0x8000;
    assert Pow2(18) == 0x4_0000;
  }

  /** `|` of two `k`-bit values is a `k`-bit value. */
  lemma {:induction false} BitOrBelow(x: nat, y: nat, k: nat)
    requires x < Pow2(k) && y < Pow2(k)
    ensures BitOr(x, y) < Pow2(k)
    decreases k
  {
    if k > 0 && (x != 0 || y != 0) {
      BitOrBelow(x / 2, y / 2, k - 1);
    }
  }

  /** `^` of two `k`-bit values is a `k`-bit value. */
  lemma {:induction false} BitXorBelow(x: nat, y: nat, k: nat)
    requires x < Pow2(k) && y < Pow2(k)
    ensures BitXor(x, y) < Pow2(k)
    decreases k
  {
    if k > 0 && (x != 0 || y != 0) {
      BitXorBelow(x / 2, y / 2, k - 1);
    }
  }

  /** timingSafeEqual(a, b): ORs the XOR of the codes at every position below
      the longer length into an accumulator, with no exit on a mismatch.
      `iterations` counts the loop's rounds. */
  method TimingSafeEqual(a: string, b: string) returns (equal: bool, ghost iterations: nat)
    ensures equal == PaddedEqual(a, b)
    ensures iterations == Max(|a|, |b|)
    ensures |a| == |b| ==> (equal <==> a == b)
  {
    var length := Max(|a|, |b|);
    Pow2Of21();
    var result: nat := 0;
    iterations := 0;
    var i := 0;
    while i < length
      invariant 0 <= i <= length
      invariant iterations == i
      invariant result == 0 <==> forall j :: 0 <= j < i ==> CodeAt(a, j) == CodeAt(b, j)
      invariant result < Pow2(21)
    {
      var diff := BitXor(CodeAt(a, i), CodeAt(b, i));
      BitXorZero(CodeAt(a, i), CodeAt(b, i));
      BitXorBelow(CodeAt(a, i), CodeAt(b, i), 21);
      BitOrZero(result, diff);
      BitOrBelow(result, diff, 21);
      result := BitOr(result, diff);
      i := i + 1;
      iterations := iterations + 1;
    }
    equal := result == 0;
    if |a| == |b| {
      PaddedEqualSameLength(a, b);
    }
  }

  /** `n` NUL characters. */
  function Nuls(n: nat): (s: string)
    ensures |s| == n
    ensures forall i :: 0 <= i < n ==> s[i] == '\0'
  {
    seq(n, _ => '\0')
  }

  /** `s` without its trailing NUL characters. */
  function TrimNuls(s: string): string
    decreases |s|
  {
    if s != [] && s[|s| - 1] == '\0' then TrimNuls(s[..|s| - 1]) else s
  }

  lemma {:induction false} TrimNulsPadded(s: string, n: nat)
    ensures TrimNuls(s + Nuls(n)) == TrimNuls(s)
    decreases n
  {
    if n > 0 {
      var t := s + Nuls(n);
      assert t[..|t| - 1] == s + Nuls(n - 1);
      TrimNulsPadded(s, n - 1);
    } else {
      assert s + Nuls(0) == s;
    }
  }

  lemma {:induction false} TrimNulsPrefix(s: string)
    ensures |TrimNuls(s)| <= |s|
    ensures s == TrimNuls(s) + Nuls(|s| - |TrimNuls(s)|)
    decreases |s|
  {
    if s != [] && s[|s| - 1] == '\0' {
      var p := s[..|s| - 1];
      TrimNulsPrefix(p);
      assert s == p + ['\0'];
      assert Nuls(|p| - |TrimNuls(p)|) + ['\0'] == Nuls(|s| - |TrimNuls(s)|);
    } else {
      assert s + Nuls(0) == s;
    }
  }

  /** Padding both strings with NULs to the longer length gives the same string. */
  lemma PaddedEqualAsPadding(a: string, b: string)
    ensures PaddedEqual(a, b) <==> a + Nuls(Max(|a|, |b|) - |a|) == b + Nuls(Max(|a|, |b|) - |b|)
  {
    var n := Max(|a|, |b|);
    var pa, pb := a + Nuls(n - |a|), b + Nuls(n - |b|);
    assert forall i :: 0 <= i < n ==> pa[i] as int == CodeAt(a, i) && pb[i] as int == CodeAt(b, i);
    if PaddedEqual(a, b) {
      assert forall i :: 0 <= i < n ==> pa[i] == pb[i];
    }
  }

  /** timingSafeEqual is string equality once trailing NULs are ignored. */
  lemma PaddedEqualIff(a: string, b: string)
    ensures PaddedEqual(a, b) <==> TrimNuls(a) == TrimNuls(b)
  {
    var n := Max(|a|, |b|);
    PaddedEqualAsPadding(a, b);
    TrimNulsPadded(a, n - |a|);
    TrimNulsPadded(b, n - |b|);
    if TrimNuls(a) == TrimNuls(b) {
      var t := TrimNuls(a);
      TrimNulsPrefix(a);
      TrimNulsPrefix(b);
      assert a + Nuls(n - |a|) == t + Nuls(n - |t|) by {
        assert Nuls(|a| - |t|) + Nuls(n - |a|) == Nuls(n - |t|);
      }
      assert b + Nuls(n - |b|) == t + Nuls(n - |t|) by {
        assert Nuls(|b| - |t|) + Nuls(n - |b|) == Nuls(n - |t|);
      }
    }
  }

  /** On strings of one length timingSafeEqual is plain equality. */
  lemma PaddedEqualSameLength(a: string, b: string)
    requires |a| == |b|
    ensures PaddedEqual(a, b) <==> a == b
  {
    if PaddedEqual(a, b) {
      assert forall i :: 0 <= i < |a| ==> a[i] as int == CodeAt(a, i) == CodeAt(b, i) == b[i] as int;
    }
  }

  /** A string matches itself, and one position where the codes differ is a
      mismatch. */
  lemma PaddedEqualReflexiveAndStrict(a: string, b: string, i: nat)
    ensures PaddedEqual(a, a)
    ensures i < Max(|a|, |b|) && CodeAt(a, i) != CodeAt(b, i) ==> !PaddedEqual(a, b)
  {
  }

  /** The NUL quirk: a string matches itself with NULs appended, so an empty
      password matches a stored secret made only of NULs. */
  lemma PaddedEqualTrailingNuls(s: string, n: nat)
    ensures PaddedEqual(s, s + Nuls(n))
    ensures PaddedEqual("", Nuls(n))
    ensures n > 0 ==> s != s + Nuls(n)
  {
    PaddedEqualIff(s, s + Nuls(n));
    TrimNulsPadded(s, n);
    PaddedEqualIff("", Nuls(n));
    TrimNulsPadded("", n);
    assert "" + Nuls(n) == Nuls(n);
  }

  // ----- the key template -----

  /** `${environment}/${app}/${username}` */
  function LookupKey(environment: string, app: string, username: string): string {
    environment + "/" + app + "/" + username
  }

  /** Splitting a key on '/' gives back its three parts when none holds a '/'. */
  lemma LookupKeyFields(environment: string, app: string, username: string)
    requires '/' !in environment && '/' !in app && '/' !in username
    ensures Split(LookupKey(environment, app, username), '/') == [environment, app, username]
  {
    var fields := [environment, app, username];
    assert Join(fields, '/') == LookupKey(environment, app, username) by {
      assert Join(fields[2..], '/') == username;
      assert fields[1..][1..] == fields[2..];
    }
    SplitJoin(fields, '/');
  }

  /** Distinct valid (environment, app, username) triples give distinct keys. */
  lemma LookupKeyInjective(e1: string, a1: string, u1: string, e2: string, a2: string, u2: string)
    requires IsValidPart(e1) && IsValidPart(a1) && IsValidPart(u1)
    requires IsValidPart(e2) && IsValidPart(a2) && IsValidPart(u2)
    requires LookupKey(e1, a1, u1) == LookupKey(e2, a2, u2)
    ensures e1 == e2 && a1 == a2 && u1 == u2
  {
    ValidPartSeparators(e1); ValidPartSeparators(a1); ValidPartSeparators(u1);
    ValidPartSeparators(e2); ValidPartSeparators(a2); ValidPartSeparators(u2);
    LookupKeyFields(e1, a1, u1);
    LookupKeyFields(e2, a2, u2);
  }

  // ----- the guards of handler -----

  /** The second space-separated token of the header value, base64-decoded
      and split on ':' into exactly a username and a password. */
  function ParseAuthorization(authorization: string): (r: Result<Credentials, Rejection>)
    ensures r.Ok? ==> ':' !in r.value.username && ':' !in r.value.password
    ensures r.Ok? ==>
      |Split(authorization, ' ')| >= 2
      && Base64.Atob(Split(authorization, ' ')[1]) == Some(r.value.username + ":" + r.value.password)
  {
    var tokens := Split(authorization, ' ');
    if |tokens| < 2 || tokens[1] == "" then Err(NoCredentialToken)
    else match Base64.Atob(tokens[1])
      case None => Err(UndecodableToken)
      case Some(decoded) =>
        var fields := Split(decoded, ':');
        if |fields| != 2 then Err(NotTwoFields)
        else
          assert decoded == fields[0] + ":" + fields[1] by {
            JoinSplit(decoded, ':');
          }
          Ok(Credentials(fields[0], fields[1]))
  }

  /** `String(labels[i])` for the labels of a split: a missing label is
      `undefined`, which `RegExp.prototype.test` reads as "undefined". */
  function LabelOrUndefined(labels: seq<string>, i: nat): string {
    if i < |labels| then labels[i] else "undefined"
  }

  /** The first two '.'-separated labels of the host name. */
  function HostLabels(host: string): (ctx: RoutingContext)
    ensures '.' !in ctx.environment && '.' !in ctx.app
  {
    var labels := Split(host, '.');
    RoutingContext(LabelOrUndefined(labels, 0), LabelOrUndefined(labels, 1))
  }

  /** Lines 36 to 72 of the handler: every early return, the exception of
      line 60 when there is no host header, or the lookup key and the supplied
      password. A key is three valid parts joined by '/'. */
  function Inspect(req: Request): (r: Inspection)
    ensures r.Lookup? ==>
      |Split(r.key, '/')| == 3
      && forall i :: 0 <= i < 3 ==> IsValidPart(Split(r.key, '/')[i])
  {
    if "authorization" !in req.headers then Rejected(NoAuthorizationHeader)
    else match ParseAuthorization(req.headers["authorization"])
      case Err(reason) => Rejected(reason)
      case Ok(creds) =>
        if "host" !in req.headers then HostMissing
        else
          var ctx := HostLabels(req.headers["host"]);
          if !IsValidPart(ctx.environment) || !IsValidPart(ctx.app) || !IsValidPart(creds.username) then
            Rejected(InvalidPart)
          else
            ValidPartSeparators(ctx.environment);
            ValidPartSeparators(ctx.app);
            ValidPartSeparators(creds.username);
            LookupKeyFields(ctx.environment, ctx.app, creds.username);
            Lookup(LookupKey(ctx.environment, ctx.app, creds.username), creds.password)
  }

  /** Lines 78 to 86: the request passes only on a truthy stored string that
      timingSafeEqual matches; `null`, "" and a thrown lookup all deny. */
  predicate Accepts(reply: StoreReply, password: string) {
    reply.Value? && reply.text != "" && PaddedEqual(password, reply.text)
  }

  /** The verdict of the handler for a request and a store. */
  function Outcome(req: Request, store: string -> StoreReply): Verdict {
    match Inspect(req)
    case Rejected(_) => Deny(UnauthorizedResponse())
    case HostMissing => Uncaught
    case Lookup(key, password) =>
      if Accepts(store(key), password) then Allow(req) else Deny(UnauthorizedResponse())
  }

  /** The edge key/value store: what every key holds, and the keys read so far. */
  class Store {
    const contents: string -> StoreReply
    ghost var lookups: seq<string>

    constructor(contents: string -> StoreReply)
      ensures this.contents == contents && lookups == []
    {
      this.contents := contents;
      lookups := [];
    }

    /** `kvsHandle.get(key, { format: "string" })`, recorded in `lookups`. */
    method Get(key: string) returns (reply: StoreReply)
      modifies this
      ensures reply == contents(key)
      ensures lookups == old(lookups) + [key]
    {
      reply := contents(key);
      lookups := lookups + [key];
    }
  }

  /** handler(event), guard by guard. The store is read through `Get` alone,
      so `lookups` grows by the one key of the lookup, or by nothing when the
      handler returned or threw first. */
  method Handler(req: Request, store: Store) returns (v: Verdict)
    modifies store
    ensures v == Outcome(req, store.contents)
    ensures store.lookups == old(store.lookups) + (if Inspect(req).Lookup? then [Inspect(req).key] else [])
  {
    var headers := req.headers;
    if "authorization" !in headers {
      return Deny(UnauthorizedResponse());
    }
    var tokens := Split(headers["authorization"], ' ');
    if |tokens| < 2 || tokens[1] == "" {
      return Deny(UnauthorizedResponse());
    }
    var decoded := Base64.Atob(tokens[1]);
    if decoded.None? {
      return Deny(UnauthorizedResponse());
    }
    var decodedAuth := Split(decoded.value, ':');
    if |decodedAuth| != 2 {
      return Deny(UnauthorizedResponse());
    }
    var username, password := decodedAuth[0], decodedAuth[1];
    if "host" !in headers {
      return Uncaught;
    }
    var hostnameParts := Split(headers["host"], '.');
    var environment := LabelOrUndefined(hostnameParts, 0);
    var app := LabelOrUndefined(hostnameParts, 1);
    if !IsValidPart(environment) || !IsValidPart(app) || !IsValidPart(username) {
      return Deny(UnauthorizedResponse());
    }
    var key := LookupKey(environment, app, username);
    var reply := store.Get(key);
    if !reply.Value? || reply.text == "" {
      return Deny(UnauthorizedResponse());
    }
    var equal, _ := TimingSafeEqual(password, reply.text);
    if !equal {
      return Deny(UnauthorizedResponse());
    }
    return Allow(req);
  }

}
