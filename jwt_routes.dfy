/**
 * The routes of the Flask/Keycloak app: `/public`, `/protected` and
 * `/health`, each a function from the request's `Authorization` header (and
 * the oracles standing for the identity provider and `jwt.decode`) to the
 * response and the number of certificate requests made while answering.
 */
module JwtRoutes {
  import opened Wrappers
  import opened Text
  import opened Http
  import opened KeycloakKeys
  import opened TokenVerification

  const BearerPrefix := "Bearer "

  predicate SpaceFree(s: string) {
    forall i :: 0 <= i < |s| ==> s[i] != ' '
  }

  /** Where the first space of `s` is, or `|s|` when there is none. */
  function FirstSpace(s: string): (i: nat)
    ensures i <= |s| && SpaceFree(s[..i])
    ensures i < |s| ==> s[i] == ' '
  {
    if s == [] || s[0] == ' ' then 0
    else
      var j := FirstSpace(s[1..]);
      assert s[..j + 1] == [s[0]] + s[1..][..j];
      1 + j
  }

  /** The two properties of `FirstSpace` single out one index. */
  lemma FirstSpaceUnique(s: string, i: nat)
    requires i <= |s| && SpaceFree(s[..i])
    requires i < |s| ==> s[i] == ' '
    ensures FirstSpace(s) == i
  {
    var r := FirstSpace(s);
    assert forall k :: 0 <= k < i ==> s[..i][k] == s[k];
    assert forall k :: 0 <= k < r ==> s[..r][k] == s[k];
  }

  /** `str.split(" ")`: the pieces between single spaces, empty pieces included. */
  function Split(s: string): (parts: seq<string>)
    ensures |parts| >= 1
    decreases |s|
  {
    var i := FirstSpace(s);
    if i == |s| then [s] else [s[..i]] + Split(s[i + 1..])
  }

  /** `" ".join(parts)` */
  function Join(parts: seq<string>): string
    requires |parts| >= 1
  {
    if |parts| == 1 then parts[0] else parts[0] + " " + Join(parts[1..])
  }

  lemma JoinCons(p: string, rest: seq<string>)
    requires |rest| >= 1
    ensures Join([p] + rest) == p + " " + Join(rest)
  {
    assert ([p] + rest)[1..] == rest;
  }

  /** Splitting loses nothing: joining the pieces again gives the header back, and no piece holds a space. */
  lemma {:induction false} JoinSplit(s: string)
    ensures Join(Split(s)) == s
    ensures forall k :: 0 <= k < |Split(s)| ==> SpaceFree(Split(s)[k])
    decreases |s|
  {
    var i := FirstSpace(s);
    if i == |s| {
      assert s[..i] == s;
    } else {
      var rest := Split(s[i + 1..]);
      JoinSplit(s[i + 1..]);
      JoinCons(s[..i], rest);
      assert s == s[..i] + " " + s[i + 1..];
      forall k | 0 <= k < |Split(s)| ensures SpaceFree(Split(s)[k]) {
        if k > 0 { assert Split(s)[k] == rest[k - 1]; }
      }
    }
  }

  /** Conversely, space-free pieces joined by single spaces split back into the same pieces. */
  lemma {:induction false} SplitJoin(parts: seq<string>)
    requires |parts| >= 1
    requires forall k :: 0 <= k < |parts| ==> SpaceFree(parts[k])
    ensures Split(Join(parts)) == parts
  {
    var w := parts[0];
    if |parts| == 1 {
      assert w[..|w|] == w;
      FirstSpaceUnique(w, |w|);
    } else {
      var s := Join(parts);
      assert s == w + " " + Join(parts[1..]);
      assert s[..|w|] == w;
      FirstSpaceUnique(s, |w|);
      assert s[|w| + 1..] == Join(parts[1..]);
      SplitJoin(parts[1..]);
      assert parts == [w] + parts[1..];
    }
  }

  /** `auth_header` is present, non-empty and starts with exactly "Bearer ". */
  predicate HasBearer(header: Option<string>) {
    header.Some? && StartsWith(header.value, BearerPrefix)
  }

  /** `auth_header.split(" ")[1]` */
  function BearerToken(header: string): (token: string)
    requires StartsWith(header, BearerPrefix)
    // the token is the text after "Bearer " up to the next space, or to the end
    ensures StartsWith(header[|BearerPrefix|..], token) && SpaceFree(token)
    ensures |token| == |header| - |BearerPrefix| || header[|BearerPrefix| + |token|] == ' '
  {
    var rest := header[|BearerPrefix|..];
    assert header[..6] == "Bearer" && header[6] == ' ';
    FirstSpaceUnique(header, 6);
    assert Split(header)[1] == Split(rest)[0];
    assert rest[..|rest|] == rest;
    Split(header)[1]
  }

  /** The token is the first word after "Bearer ", whether or not more words follow. */
  lemma BearerTokenFirstWord(w: string, r: string)
    requires SpaceFree(w)
    ensures BearerToken(BearerPrefix + w) == w
    ensures BearerToken(BearerPrefix + w + " " + r) == w
  {
    assert (BearerPrefix + w)[|BearerPrefix|..] == w;
    assert w[..|w|] == w;
    var h := BearerPrefix + w + " " + r;
    var rest := w + " " + r;
    assert h[|BearerPrefix|..] == rest;
    assert h[..6] == "Bearer" && h[6] == ' ';
    FirstSpaceUnique(h, 6);
    assert rest[..|w|] == w;
    FirstSpaceUnique(rest, |w|);
    assert BearerToken(h) == Split(rest)[0];
  }

  /** `"Bearer "` carries the empty token, and only the first word after it is taken. */
  lemma BearerTokenExamples()
    ensures BearerToken("Bearer ") == ""
    ensures BearerToken("Bearer a b") == "a"
  {
    BearerTokenFirstWord("", "");
    assert BearerPrefix + "" == "Bearer ";
    BearerTokenFirstWord("a", "b");
    assert BearerPrefix + "a" + " " + "b" == "Bearer a b";
  }

  datatype Route = PublicRoute | ProtectedRoute | HealthRoute

  /** A response and the number of certificate requests sent while producing it. */
  datatype Handled<V> = Handled(response: Response<V>, attempts: nat)

  function MissingToken<V>(): Response<V> { JsonError("Missing token", 401) }

  function InvalidToken<V>(): Response<V> { JsonError("Invalid token", 401) }

  function Granted<V>(claims: map<string, V>): Response<V> {
    Response(Json(map["message" := Str("Protected route access granted"), "claims" := Obj(claims)]), 200)
  }

  /** `public()` */
  function Public<V>(): Response<V> {
    Response(Json(map["message" := Str("Public route - no authentication needed.")]), 200)
  }

  /** `protected()` */
  function Protected<K, V>(header: Option<string>, net: seq<Attempt<K>>, decode: DecodeCall<K> -> Decoded<V>): (h: Handled<V>)
    requires MaxAttempts <= |net|
    // no bearer header: "Missing token", and neither the identity provider nor the decoder is consulted
    ensures !HasBearer(header) ==> h == Handled(MissingToken(), 0)
    // otherwise one full key fetch is made
    ensures HasBearer(header) ==> h.attempts == KeyFetch(net).attempts
    // access is granted exactly when the fetch did not raise and the decode returned a non-empty claim set
    ensures h.response.status == 200 <==>
      HasBearer(header) && !KeyFetch(net).result.Propagated? &&
      var d := decode(DecodeCallFor(BearerToken(header.value), net));
      d.Decoded? && d.claims != map[]
    // and then the response carries exactly those claims
    ensures h.response.status == 200 ==>
      h.response == Granted(decode(DecodeCallFor(BearerToken(header.value), net)).claims)
    // an exception from the key fetch becomes the server error page
    ensures HasBearer(header) && KeyFetch(net).result.Propagated? ==> h.response == InternalServerError()
    // a falsy verdict, `None` or an empty claim set, is "Invalid token"
    ensures HasBearer(header) && !KeyFetch(net).result.Propagated? ==>
      var d := decode(DecodeCallFor(BearerToken(header.value), net));
      (!d.Decoded? || d.claims == map[]) ==> h.response == InvalidToken()
    // every refusal is one of three fixed responses
    ensures h.response.status != 200 ==>
      h.response == MissingToken() || h.response == InvalidToken() || h.response == InternalServerError()
  {
    if header.None? || header.value == "" || !StartsWith(header.value, BearerPrefix) then
      Handled(MissingToken(), 0)
    else
      var token := BearerToken(header.value);
      var v := VerifyToken(token, net, decode);
      var response :=
        match v.verdict
        case Crashed => InternalServerError()
        case NoClaims => InvalidToken()
        case Claims(claims) => if claims == map[] then InvalidToken() else Granted(claims);
      Handled(response, v.fetch.attempts)
  }

  /** The route table: `@app.route('/public')`, `@app.route('/protected')`, `@app.route('/health')`. */
  function Serve<K, V>(route: Route, header: Option<string>, net: seq<Attempt<K>>, decode: DecodeCall<K> -> Decoded<V>): (h: Handled<V>)
    requires MaxAttempts <= |net|
    // only `/protected` contacts the identity provider, and only it can refuse
    ensures route != ProtectedRoute ==> h.attempts == 0 && h.response.status == 200
    // and it answers 200 only to a bearer header
    ensures route == ProtectedRoute && h.response.status == 200 ==> HasBearer(header)
  {
    match route
    case PublicRoute => Handled(Public(), 0)
    case ProtectedRoute => Protected(header, net, decode)
    case HealthRoute => Handled(Health(), 0)
  }

  /**
   * `/public` and `/health` succeed whatever the header, the identity
   * provider and the decoder do, and send no certificate request.
   */
  lemma UnauthenticatedRoutesIndependent<K, V>(route: Route,
      h1: Option<string>, n1: seq<Attempt<K>>, d1: DecodeCall<K> -> Decoded<V>,
      h2: Option<string>, n2: seq<Attempt<K>>, d2: DecodeCall<K> -> Decoded<V>)
    requires route != ProtectedRoute
    requires MaxAttempts <= |n1| && MaxAttempts <= |n2|
    ensures Serve(route, h1, n1, d1) == Serve(route, h2, n2, d2)
    ensures Serve(route, h1, n1, d1).attempts == 0
    ensures Serve(route, h1, n1, d1).response.status == 200
  {
  }
}
