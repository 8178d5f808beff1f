/**
 * What the binary's entry point wires together: the key list read from the
 * environment, the Host-header strip, the upstream target, the retry policy,
 * and one request driven through credential injection, feedback and retry.
 */
module Startup {
  import opened Wrappers
  import opened Headers
  import opened Uris
  import opened Requests
  import opened Auth
  import opened Retry
  import RenameHeader

  /** The header callers may put their own credential in; it is renamed onto Authorization. */
  const X_BALENA_AUTHORIZATION: HeaderName := "x-balena-authorization"

  /** `https://api.balena-cloud.com/v6`, the fixed upstream. */
  const UPSTREAM: Uri := Uri("https", "api.balena-cloud.com", "/v6", None)

  /** `str::split(sep)`: the pieces between separators, empty pieces included. */
  function Split(s: string, sep: char): (parts: seq<string>)
    ensures |parts| >= 1
    ensures forall i :: 0 <= i < |parts| ==> sep !in parts[i]
    decreases |s|
  {
    match SplitOnce(s, sep)
    case None => [s]
    case Some(halves) => [halves.0] + Split(halves.1, sep)
  }

  function Join(parts: seq<string>, sep: char): string
    requires |parts| >= 1
  {
    if |parts| == 1 then parts[0] else parts[0] + [sep] + Join(parts[1..], sep)
  }

  /** Splitting the key list loses nothing: joining the keys back gives the configured text. */
  lemma {:induction false} SplitJoin(s: string, sep: char)
    ensures Join(Split(s, sep), sep) == s
    decreases |s|
  {
    match SplitOnce(s, sep)
    case None =>
    case Some(halves) =>
      SplitJoin(halves.1, sep);
      assert Split(s, sep)[1..] == Split(halves.1, sep);
  }

  /** Joining keys that contain no separator and splitting again gives the keys back. */
  lemma {:induction false} JoinSplit(parts: seq<string>, sep: char)
    requires |parts| >= 1 && forall i :: 0 <= i < |parts| ==> sep !in parts[i]
    ensures Split(Join(parts, sep), sep) == parts
    decreases |parts|
  {
    if |parts| > 1 {
      SplitOnceAt(parts[0], sep, Join(parts[1..], sep));
      JoinSplit(parts[1..], sep);
    } else {
      assert sep !in parts[0];
    }
  }

  /** The pool built at start-up from the comma-separated key list; an empty list still yields one (empty) key. */
  method KeysFromEnv(value: string) returns (pool: KeyPool)
    ensures fresh(pool) && pool.Valid() && pool.cursor == 0
    ensures pool.keys == Split(value, ',')
    ensures value == "" ==> pool.keys == [""]
  {
    assert SplitOnce("", ',') == None;
    pool := new KeyPool(Split(value, ','));
  }

  /** `without_host_header`: drops every Host value and leaves the rest of the request alone. */
  method WithoutHostHeader(req: Request)
    modifies req`headers
    ensures req.headers == Without(old(req.headers), HOST)
  {
    var _ := req.RemoveHeader(HOST);
  }

  /** `WithBackoff::new(3, ExponentialBackoff::default())`. */
  function DefaultPolicy(): (p: WithBackoff)
    ensures p.attempts == 3 && p.backoff == DefaultExponential()
    ensures HasHeadroom(p)
  {
    WithBackoff(3, DefaultExponential())
  }

  /** With the default policy a success ends the loop at once, and four failures in a row end it after four attempts. */
  lemma DefaultPolicyAttempts(results: seq<AttemptResult>, raw: Duration)
    requires |results| >= 4
    ensures IsSuccess(results[0]) ==> TotalAttempts(DefaultPolicy(), results, raw) == 1
    ensures (forall i :: 0 <= i < 4 ==> !IsSuccess(results[i])) ==> TotalAttempts(DefaultPolicy(), results, raw) == 4
  {
    if IsSuccess(results[0]) {
      StopsAtFirstSuccessOrBudget(DefaultPolicy(), results, 0, raw);
    }
    if forall i :: 0 <= i < 4 ==> !IsSuccess(results[i]) {
      StopsAtFirstSuccessOrBudget(DefaultPolicy(), results, 3, raw);
    }
  }

  /**
   * A caller that sends `X-Balena-Authorization: Bearer <key>` has that key
   * used: after the rename it is what `extract_api_key` reads, so the
   * middleware stamps nothing from the pool.
   */
  lemma {:induction false} CallerKeySurvivesRename(hs: HeaderMap, k: Key)
    requires Get(hs, X_BALENA_AUTHORIZATION) == Some(Bearer(k)) && IsVisibleText(k)
    ensures ExtractApiKey(RenameHeader.Renamed(hs, X_BALENA_AUTHORIZATION, AUTHORIZATION)) == Some(k)
  {
    assert RenameHeader.Renamed(hs, X_BALENA_AUTHORIZATION, AUTHORIZATION)
      == Inserted(Without(hs, X_BALENA_AUTHORIZATION), AUTHORIZATION, Bearer(k));
    ExtractInjectedKey(Without(hs, X_BALENA_AUTHORIZATION), k);
  }

  /** A retry's clone carries no readable key, so the middleware stamps the pool's current key on it. */
  lemma CloneIsRestamped(hs: HeaderMap)
    ensures ExtractApiKey(Without(hs, AUTHORIZATION)) == None
  {
  }

  /**
   * One attempt of a retried request: clone the stored request, stamp a
   * credential, and report the attempt's result to the pool. Returns the key
   * the attempt carried.
   */
  method Attempt(auth: Authorize, stored: Request, result: AttemptResult) returns (used: Option<Key>)
    requires auth.keys.Valid()
    requires forall i :: 0 <= i < |auth.keys.keys| ==> IsValidHeaderValue(Bearer(auth.keys.keys[i]))
    modifies auth.keys
    ensures auth.keys.Valid()
    ensures used == old(auth.keys.ActiveKey())
    ensures auth.keys.State() == AfterFeedback(old(auth.keys.State()), used, result)
  {
    var req := CloneRequest(stored);
    CloneIsRestamped(stored.headers);
    var fut := auth.Call(req);
    used := fut.curKey;
    var _ := fut.Poll(result);
  }

  /**
   * Keys K1, K2, K3 and answers 429, 401, 200. The 429 rotates to K2; the 401
   * evicts K2 and leaves the cursor at 1, so the third attempt carries K3.
   */
  method RotationThenEviction() returns (used: seq<Option<Key>>, remaining: seq<Key>, stopped: bool)
    ensures used == [Some("K1"), Some("K2"), Some("K3")]
    ensures remaining == ["K1", "K3"]
    ensures stopped
  {
    var pool := new KeyPool(["K1", "K2", "K3"]);
    var auth := new Authorize(pool);
    var stored := new Request(UPSTREAM, "GET", [], []);
    assert Bearer("K1") == "Bearer K1" && Bearer("K2") == "Bearer K2" && Bearer("K3") == "Bearer K3";

    var first := Attempt(auth, stored, Response(TOO_MANY_REQUESTS));
    var retry1 := DefaultPolicy().Retry(Response(TOO_MANY_REQUESTS), 0);
    assert pool.State() == Pool(["K1", "K2", "K3"], 1);

    var second := Attempt(auth, stored, Response(UNAUTHORIZED));
    var retry2 := retry1.value.0.Retry(Response(UNAUTHORIZED), 0);
    assert pool.State() == Pool(["K1", "K3"], 1);

    var third := Attempt(auth, stored, Response(200));
    var retry3 := retry2.value.0.Retry(Response(200), 0);

    used := [first, second, third];
    remaining := pool.keys;
    stopped := retry3.None?;
  }
}
