/**
 * `verify_token` of the Flask/Keycloak app: fetch the signing key afresh,
 * decode the token with it, and reduce every decode outcome to "the claims"
 * or "nothing".
 *
 * `jose.jwt.decode` is an oracle `decode` from the call it receives to a
 * tagged outcome; signature, audience and expiry checking happen inside it.
 */
module TokenVerification {
  import opened Wrappers
  import opened KeycloakKeys

  const ClientId := "flask-client"
  const Algorithms := ["RS256"]

  /** The arguments of `jwt.decode(token, public_key_data, algorithms=..., audience=...)`. */
  datatype DecodeCall<K> = DecodeCall(token: string, key: Option<K>, algorithms: seq<string>, audience: string)

  /** How `jwt.decode` ended. */
  datatype Decoded<V> =
    | Decoded(claims: map<string, V>)   // returned the claim set
    | ExpiredSignature                  // raised ExpiredSignatureError
    | JwtFailure                        // raised any other JWTError
    | OtherFailure                      // raised any other exception

  /** What `verify_token` gives its caller. */
  datatype Verdict<V> =
    | Claims(claims: map<string, V>)    // the decoded claims
    | NoClaims                          // `None`
    | Crashed                           // the exception from `get_public_key` escaped

  /** The verdict, and the key fetch that preceded it. */
  datatype Verification<K, V> = Verification(fetch: Fetch<K>, verdict: Verdict<V>)

  /** `public_key_data`: the fetched key, or `None`. */
  function KeyData<K>(r: KeyResult<K>): Option<K> {
    if r.Key? then Some(r.key) else None
  }

  /** The decode call a verification of `token` makes after fetching over `net`. */
  function DecodeCallFor<K>(token: string, net: seq<Attempt<K>>): DecodeCall<K>
    requires MaxAttempts <= |net|
  {
    DecodeCall(token, KeyData(KeyFetch(net).result), Algorithms, ClientId)
  }

  /** `verify_token(token)` */
  function VerifyToken<K, V>(token: string, net: seq<Attempt<K>>, decode: DecodeCall<K> -> Decoded<V>): (v: Verification<K, V>)
    requires MaxAttempts <= |net|
    // one fresh key fetch per verification, whatever the token
    ensures v.fetch == KeyFetch(net)
    // an exception from the fetch is the only one that escapes
    ensures v.verdict.Crashed? <==> KeyFetch(net).result.Propagated?
    // claims are released exactly when the full decode succeeds, and they are the decoded ones
    ensures v.verdict.Claims? <==> !KeyFetch(net).result.Propagated? && decode(DecodeCallFor(token, net)).Decoded?
    ensures v.verdict.Claims? ==> v.verdict.claims == decode(DecodeCallFor(token, net)).claims
  {
    var fetch := KeyFetch(net);
    if fetch.result.Propagated? then Verification(fetch, Crashed)
    else
      var verdict :=
        match decode(DecodeCall(token, KeyData(fetch.result), Algorithms, ClientId))
        case Decoded(claims) => Claims(claims)
        case ExpiredSignature => NoClaims
        case JwtFailure => NoClaims
        case OtherFailure => NoClaims;
      Verification(fetch, verdict)
  }

  /**
   * Expired, JWT and other failures all collapse to `None`, and which one
   * happened cannot be told from the verdict.
   */
  lemma FailuresCollapse<K, V>(token: string, net: seq<Attempt<K>>, decode: DecodeCall<K> -> Decoded<V>)
    requires MaxAttempts <= |net|
    requires !KeyFetch(net).result.Propagated?
    requires !decode(DecodeCallFor(token, net)).Decoded?
    ensures VerifyToken(token, net, decode).verdict == NoClaims
  {
  }
}
