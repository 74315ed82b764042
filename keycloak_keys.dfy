/**
 * `get_public_key` of the Flask/Keycloak app: fetch the realm's certificate
 * set with up to ten attempts and a fixed five-second sleep after every
 * attempt that did not produce a key.
 *
 * The network is an oracle: `net[i]` is what the i-th request produced.
 * Sleeping is counted, not performed.
 */
module KeycloakKeys {
  import opened Wrappers

  /** `range(10)` */
  const MaxAttempts: nat := 10
  /** `time.sleep(5)`, in seconds */
  const RetryDelay: nat := 5

  /** What one `requests.get(url, timeout=5)` attempt produced. */
  datatype Attempt<K> =
    | RequestException              // caught, logged, retried
    | NotOk                         // `response.ok` is false
    | Certs(keys: Option<seq<K>>)   // ok response; its `keys` member, if there is one
    | OtherException                // any other error (say, a body that is not a JSON object); not caught

  datatype KeyResult<K> =
    | Key(key: K)       // `return keys[0]`
    | NoKey             // `return None` after the last attempt
    | Propagated        // an uncaught exception left the function

  /** The result together with how many requests were sent and how many sleeps happened. */
  datatype Fetch<K> = Fetch(result: KeyResult<K>, attempts: nat, sleeps: nat)

  /** An attempt that ends the loop with a key: ok, and `keys` present and non-empty. */
  predicate Usable<K>(a: Attempt<K>) {
    a.Certs? && a.keys.Some? && |a.keys.value| > 0
  }

  /** An attempt after which the loop sleeps and goes on. */
  predicate Failed<K>(a: Attempt<K>) {
    !Usable(a) && !a.OtherException?
  }

  /** Seconds spent sleeping. */
  function Waited<K>(f: Fetch<K>): nat {
    f.sleeps * RetryDelay
  }

  /**
   * What `get_public_key` promises of one call, stated without recursion: the
   * attempts before the last one all failed, the last attempt decides the
   * result, and a sleep follows every failed attempt (the tenth included).
   */
  ghost predicate FetchSpec<K>(net: seq<Attempt<K>>, f: Fetch<K>)
    requires MaxAttempts <= |net|
  {
    && 1 <= f.attempts <= MaxAttempts
    && (forall j :: 0 <= j < f.attempts - 1 ==> Failed(net[j]))
    && var last := net[f.attempts - 1];
       match f.result
       case Key(k) => Usable(last) && k == last.keys.value[0] && f.sleeps == f.attempts - 1
       case Propagated => last.OtherException? && f.sleeps == f.attempts - 1
       case NoKey => f.attempts == MaxAttempts && Failed(last) && f.sleeps == MaxAttempts
  }

  /** The fetch loop as a function, from attempt index `attempt` on. */
  function FetchFrom<K>(net: seq<Attempt<K>>, attempt: nat): Fetch<K>
    requires attempt <= MaxAttempts <= |net|
    decreases MaxAttempts - attempt
  {
    if attempt == MaxAttempts then Fetch(NoKey, MaxAttempts, MaxAttempts)
    else if Usable(net[attempt]) then Fetch(Key(net[attempt].keys.value[0]), attempt + 1, attempt)
    else if net[attempt].OtherException? then Fetch(Propagated, attempt + 1, attempt)
    else FetchFrom(net, attempt + 1)
  }

  /** One whole call of `get_public_key`, for use by functions and lemmas. */
  function KeyFetch<K>(net: seq<Attempt<K>>): (f: Fetch<K>)
    requires MaxAttempts <= |net|
    // between one and ten requests, and at most fifty seconds of sleeping
    ensures 1 <= f.attempts <= MaxAttempts
    ensures Waited(f) <= 50
    ensures f.result.NoKey? <==> f.sleeps == MaxAttempts
  {
    FetchFromMeetsSpec(net, 0);
    FetchFrom(net, 0)
  }

  lemma {:induction false} FetchFromMeetsSpec<K>(net: seq<Attempt<K>>, attempt: nat)
    requires attempt <= MaxAttempts <= |net|
    requires forall j :: 0 <= j < attempt ==> Failed(net[j])
    ensures FetchSpec(net, FetchFrom(net, attempt))
    decreases MaxAttempts - attempt
  {
    if attempt < MaxAttempts && Failed(net[attempt]) {
      FetchFromMeetsSpec(net, attempt + 1);
    }
  }

  /** The functional model satisfies the specification. */
  lemma KeyFetchMeetsSpec<K>(net: seq<Attempt<K>>)
    requires MaxAttempts <= |net|
    ensures FetchSpec(net, KeyFetch(net))
  {
    FetchFromMeetsSpec(net, 0);
  }

  /** The specification leaves no freedom: it determines the result, the attempt count and the sleep count. */
  lemma FetchSpecUnique<K>(net: seq<Attempt<K>>, f: Fetch<K>, g: Fetch<K>)
    requires MaxAttempts <= |net|
    requires FetchSpec(net, f) && FetchSpec(net, g)
    ensures f == g
  {
  }

  /** The first usable response is the one whose first key is returned, with no further request. */
  lemma FirstUsableChosen<K>(net: seq<Attempt<K>>, i: nat)
    requires MaxAttempts <= |net|
    requires i < MaxAttempts && Usable(net[i])
    requires forall j :: 0 <= j < i ==> Failed(net[j])
    ensures KeyFetch(net) == Fetch(Key(net[i].keys.value[0]), i + 1, i)
  {
    KeyFetchMeetsSpec(net);
    FetchSpecUnique(net, KeyFetch(net), Fetch(Key(net[i].keys.value[0]), i + 1, i));
  }

  /** Ten failed attempts give no key, ten sleeps, fifty seconds of waiting. */
  lemma AllFailedExhausts<K>(net: seq<Attempt<K>>)
    requires MaxAttempts <= |net|
    requires forall j :: 0 <= j < MaxAttempts ==> Failed(net[j])
    ensures KeyFetch(net) == Fetch(NoKey, MaxAttempts, MaxAttempts)
    ensures Waited(KeyFetch(net)) == 50
  {
    KeyFetchMeetsSpec(net);
    FetchSpecUnique(net, KeyFetch(net), Fetch(NoKey, MaxAttempts, MaxAttempts));
  }

  /** A fetch the loop reaches from attempt `attempt` is the whole call's, and meets the specification; used where the loop returns early. */
  lemma AgreesWithKeyFetch<K>(net: seq<Attempt<K>>, attempt: nat, f: Fetch<K>)
    requires attempt < MaxAttempts <= |net|
    requires FetchFrom(net, attempt) == FetchFrom(net, 0)
    requires f == FetchFrom(net, attempt)
    ensures FetchSpec(net, f) && f == KeyFetch(net)
  {
    KeyFetchMeetsSpec(net);
  }

  /** `get_public_key()` */
  method GetPublicKey<K>(net: seq<Attempt<K>>) returns (f: Fetch<K>)
    requires MaxAttempts <= |net|
    ensures FetchSpec(net, f)
    ensures f == KeyFetch(net)
  {
    var sleeps := 0;
    for attempt := 0 to MaxAttempts
      invariant sleeps == attempt
      invariant forall j :: 0 <= j < attempt ==> Failed(net[j])
      invariant FetchFrom(net, attempt) == FetchFrom(net, 0)
    {
      var outcome := net[attempt];
      if outcome.OtherException? {
        f := Fetch(Propagated, attempt + 1, sleeps);
        AgreesWithKeyFetch(net, attempt, f);
        return;
      }
      if outcome.Certs? {
        var keys := outcome.keys;
        if keys.Some? && |keys.value| > 0 {
          f := Fetch(Key(keys.value[0]), attempt + 1, sleeps);
          AgreesWithKeyFetch(net, attempt, f);
          return;
        }
      }
      // a RequestException, a non-ok response or a missing or empty key list
      sleeps := sleeps + 1;
    }
    f := Fetch(NoKey, MaxAttempts, sleeps);
    KeyFetchMeetsSpec(net);
  }
}
