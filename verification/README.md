# Resilient forwarding proxy: credential pool, retry policy and request rewriting

This project models the request-rewriting and resilience core of a small HTTP
proxy that forwards every inbound request to one fixed upstream API. Each
forwarded attempt carries a credential from a shared pool. Responses feed back
into that pool while the credential the attempt used is still the active one:
a 401 evicts it, and a 429 rotates to the next one. Feedback for a credential
that is no longer active changes nothing. A retry policy with exponential backoff replays the
request, and every replay drops the Authorization header so that the current
credential is stamped again.

The modules follow the source files:

- `auth.dfy` (`src/auth.rs`). `Pool` is the `(keys, cursor)` value behind
  the lock, and the `After…` functions say what each pool operation does to
  it. `KeyPool` is the shared object whose methods update that value in
  place. `ResponseFuture.Poll` is the status feedback, `Authorize.Call` the
  credential stamping, and `ExtractApiKey` the Authorization parser.
- `retry.dfy` (`src/retry.rs`). The two backoff strategies are one closed
  datatype, and `WithBackoff.Retry` is the retry decision. `CloneRequest` is
  the header-copying loop. `TotalAttempts` is the retry loop that drives the
  policy.
- `rename_header.dfy` (`src/rename_header.rs`): the move from one header
  name to another.
- `forward_request.dfy` (`src/forward_request.rs`): the upstream target
  string and the replacement of the request's URI.
- `startup.dfy` (`src/main.rs`): the key-list split, the Host-header strip,
  the default retry policy and one request taken through all of the above.
- `headers.dfy`, `uri.dfy`, `request.dfy`, `wrappers.dfy`: the header map,
  the URIs, the request and the status codes that the services act on.

The model is sequential: one owner holds the pool. Futures become plain
calls. The result an attempt's future yields is a parameter. A sleep becomes
the delay value it would wait.

`remove_active_key` resets the cursor only when it has fallen off the end of
the list; otherwise the key that followed the evicted one becomes active. So
with keys K1, K2, K3 and the responses 429, 401, 200, the 429 moves the
cursor to 1 (K2), the 401 removes K2 and leaves `[K1, K3]` with the cursor
still at 1, and the third attempt carries K3, not K1
(`Startup.RotationThenEviction`).

## Model

| member | source | states |
|---|---|---|
| `Headers.Get` | src/auth.rs:128 | `HeaderMap::get` yields nothing exactly when the name has no values, and otherwise the first value in iteration order |
| `Headers.Without` | src/rename_header.rs:67 | after `HeaderMap::remove` the name has no values left. Every other name keeps its values, no other header is lost or added, and a map without the name is unchanged |
| `Headers.Inserted` | src/rename_header.rs:69 | after `HeaderMap::insert` the name holds exactly the inserted value, every other name keeps its values, and a name that was absent is appended at the end |
| `Headers.ToStr` | src/auth.rs:129 | `HeaderValue::to_str` succeeds exactly when every character is a tab or visible ASCII, and then returns the value unchanged, which is also a valid header value |
| `Headers.SplitOnce` | src/auth.rs:129 | `splitn(2, c)` yields two parts exactly when `c` occurs; the parts rebuild the text around the first `c`, and the first part holds no `c` |
| `Headers.SplitOnceAt` | src/auth.rs:129-134 | the split point is always the first occurrence of the separator |
| `Requests.Request.RemoveHeader` | src/rename_header.rs:67 | the request loses every value of the name, the first of them is returned, and the other fields are not touched |
| `Requests.Request.InsertHeader` | src/auth.rs:159 | the request's headers become the map with the value inserted; the other fields are not touched |
| `Uris.Display` | src/forward_request.rs:59-60 | a well-formed target prints as visible ASCII without a fragment marker; an origin-form target prints starting with its path |
| `Uris.ParseUri` | src/forward_request.rs:62 | `Uri::from_str` accepts only text of at most 65534 characters, and whatever it accepts is a well-formed target |
| `Uris.DisplayRoundTrip` | src/forward_request.rs:59-62 | parsing a well-formed URI's printed form, when it is within the length limit, gives back the same scheme, authority, path and query |
| `Auth.KeyPool.ActiveKey` | src/auth.rs:30-34 | on a valid pool the active key is absent exactly when the pool is empty, and otherwise it is the key under the cursor |
| `Auth.Pool.Active` | src/auth.rs:30-34 | in a valid pool the active key is absent exactly when the pool is empty, and otherwise it is the key under the cursor |
| `Auth.AfterRemove` | src/auth.rs:36-49 | an empty pool gives back nothing and stays as it is. Otherwise exactly the key under the cursor is returned and taken out, and the others keep their order. The cursor stays, so the successor becomes active, unless the removed key was last; then the cursor wraps to 0. The pool stays valid |
| `Auth.AfterShift` | src/auth.rs:51-59 | with two keys or more the cursor moves to the next key or wraps to 0 from the last one. With fewer keys nothing changes. The keys never change and the pool stays valid |
| `Auth.AfterShiftIfEqual` | src/auth.rs:61-65 | a snapshot that is present and equals the active key shifts the pool exactly as `AfterShift`. Any other snapshot, `None` included, leaves it unchanged, and the keys never change |
| `Auth.AfterRemoveIfEqual` | src/auth.rs:67-71 | a snapshot that is present and equals the active key removes exactly as `AfterRemove`, so the pool loses one key. Any other snapshot, `None` included, leaves it unchanged |
| `Auth.AfterFeedback` | src/auth.rs:95-113 | when the attempt's key is still the active one, a 401 removes it as `AfterRemove` and a 429 shifts as `AfterShift`. Any other status, a transport error, a stale key or an empty pool leaves the pool unchanged |
| `Auth.UnauthorizedEvictsUsedKey` | src/auth.rs:99-104 | a 401 for the active key removes exactly that key, once, and leaves the other keys in their order. The key that followed it becomes active, or the first key when it was last, or none when it was the only one |
| `Auth.RateLimitedRoundsCycle` | src/auth.rs:51-65 | as many consecutive 429s as there are keys, each reported for the then-active key, bring the pool back to its starting state |
| `Auth.StaleFeedbackIsDropped` | src/auth.rs:61-71 | with distinct keys, once a 429 has rotated away from key A, any later 401 or 429 reported for A leaves the pool unchanged; a duplicate 429 does not rotate twice |
| `Auth.LastKeyEviction` | src/auth.rs:36-49 | a one-key pool that answers 401 becomes empty with no active key, and no later response changes it |
| `Auth.ExtractApiKey` | src/auth.rs:127-135 | a key is found exactly when an Authorization value is present, reads as text and contains a space. The key is everything after the first space, and the word before it is not checked |
| `Auth.ExtractInjectedKey` | src/auth.rs:154-159 | a key made only of tabs and visible ASCII, stamped as `Bearer <key>`, is read back as exactly that key, spaces included |
| `Auth.KeyPool.constructor` | src/auth.rs:24-28 | a new pool holds the given keys with the cursor at 0, so the first key is active |
| `Auth.KeyPool.RemoveActiveKey` | src/auth.rs:36-49 | the pool's new state and return value are those of `AfterRemove`, and the invariant is kept |
| `Auth.KeyPool.ShiftActiveKey` | src/auth.rs:51-59 | the pool's new state is that of `AfterShift`, and the invariant is kept |
| `Auth.KeyPool.ShiftActiveKeyIfEqual` | src/auth.rs:61-65 | the pool's new state is that of `AfterShiftIfEqual` |
| `Auth.KeyPool.RemoveActiveKeyIfEqual` | src/auth.rs:67-71 | the pool's new state is that of `AfterRemoveIfEqual` |
| `Auth.ResponseFuture.Poll` | src/auth.rs:95-113 | the attempt's result is passed on unchanged, and the pool's new state is that of `AfterFeedback` for the key the attempt carried |
| `Auth.Authorize.Call` | src/auth.rs:152-165 | a readable caller key leaves the request untouched and becomes the snapshot. Otherwise the active key, if any, replaces every Authorization value with `Bearer <key>` and becomes the snapshot. The pool is not changed, and the snapshot is the key the request now carries |
| `Retry.SaturatingPow2Threshold` | src/retry.rs:75 | `2_u32.saturating_pow(n)` is exactly `2^n` below 32 and `u32::MAX` from 32 on |
| `Retry.CheckedMul` | src/retry.rs:75 | `Duration::checked_mul` gives the product exactly when it stays below 2^64 seconds, and nothing otherwise |
| `Retry.Backoff.Base` | src/retry.rs:65-78 | the base delay is `min * 2^iterations` (saturating) capped at `max`. The overflow fallback never changes that result. It never exceeds `max`, and it is at least `min` when `min <= max` |
| `Retry.BaseDoubles` | src/retry.rs:75 | below 32 iterations the multiplier is exactly `2^iterations` |
| `Retry.BaseMonotone` | src/retry.rs:65-78 | the base delay never decreases as the iterations grow |
| `Retry.Backoff.Jitter` | src/retry.rs:82-97 | a zero ratio adds nothing. Otherwise the drawn amount is added, clamped so that base plus jitter never exceeds `max` |
| `Retry.Backoff.Next` | src/retry.rs:31-126 | `LinearBackoff::next` (lines 31-38) stays the same and always waits its fixed timeout. `ExponentialBackoff::next` (lines 115-126) keeps min, max and ratio and adds one iteration (wrapping at `u32::MAX`). It waits between the base delay and `max`: exactly the base without jitter, otherwise base plus the drawn amount capped at `max` |
| `Retry.DoublingExample` | src/retry.rs:115-126 | with min 1s, max 8s and no jitter, five successive delays are 1, 2, 4, 8 and 8 seconds |
| `Retry.DefaultExponential` | src/retry.rs:100-110 | the default backoff has min 1s, max 60s and ratio 2.0, starts at iteration 0, and its first base delay is one second |
| `Retry.NewExponential` | src/retry.rs:56-63 | a new exponential backoff has the given bounds and ratio and starts at iteration 0 with base `min(min, max)` |
| `Retry.WithBackoff.Retry` | src/retry.rs:147-170 | it stops exactly when the response is a 2xx or no attempts are left. Otherwise the next policy has one attempt fewer and the advanced backoff, and the delay is the one that backoff waits |
| `Retry.TotalAttempts` | src/retry.rs:147-170 | a run never makes more attempts than there are results, and it makes at least one when there is a result |
| `Retry.AttemptsBounded` | src/retry.rs:158-169 | however the attempts end, at most `attempts + 1` are made: one first attempt plus the budget |
| `Retry.StopsAtFirstSuccessOrBudget` | src/retry.rs:152-169 | with the first success at position k, or k failures that use up the whole budget, exactly `min(k, attempts) + 1` attempts are made |
| `Retry.RetryKeepsHeadroom` | src/retry.rs:120-121 | while iterations plus remaining attempts fit in a u32, every granted retry keeps that so and adds exactly one iteration, so the counter never wraps |
| `Retry.CopyWithoutAuthorization` | src/retry.rs:176-180 | the copied headers are exactly the original entries minus every Authorization entry, in their original order |
| `Retry.CloneRequest` | src/retry.rs:172-184 | the clone is a new request with the same URI, method and body. Its headers are the original's in iteration order with every Authorization entry dropped |
| `RenameHeader.Renamed` | src/rename_header.rs:66-72 | without a `from` header nothing changes. Otherwise `to` holds exactly the first `from` value, no `from` value remains unless `from == to`, and every other name keeps its values |
| `RenameHeader.RenameIdempotent` | src/rename_header.rs:67-70 | for any two names, equal ones included, renaming a second time changes nothing further |
| `RenameHeader.RenameHeader.Call` | src/rename_header.rs:66-72 | the request's headers become `Renamed` of the old ones; nothing else changes |
| `ForwardRequest.ForwardTarget` | src/forward_request.rs:58-61 | the target is the printed base plus the inbound path, followed by `?` and the query when there is one. The inbound scheme and authority do not appear |
| `ForwardRequest.ForwardedUri` | src/forward_request.rs:58-62 | for a well-formed base without a query and a target within the length limit, the target parses to the base's scheme and authority, the base path followed by the inbound path, and the inbound query |
| `ForwardRequest.ForwardRequest.Call` | src/forward_request.rs:57-65 | only the URI is replaced, by the parsed target (the base's scheme and authority, the joined path, the inbound query, when within the length limit); method, headers and body are untouched |
| `Startup.Split` | src/main.rs:65 | splitting the key list gives at least one piece, and no piece contains the separator |
| `Startup.SplitJoin` | src/main.rs:65 | joining the pieces back with the separator gives the configured text |
| `Startup.JoinSplit` | src/main.rs:65 | keys that contain no comma survive a join followed by a split |
| `Startup.KeysFromEnv` | src/main.rs:65 | the pool holds the comma-separated pieces with the first one active. An empty setting gives a pool of one empty key, not an empty pool |
| `Startup.WithoutHostHeader` | src/main.rs:37-40 | every Host value is dropped and nothing else changes |
| `Startup.DefaultPolicy` | src/main.rs:66 | the configured policy allows 3 retries over the default backoff, with room for every iteration in a u32 |
| `Startup.DefaultPolicyAttempts` | src/main.rs:66 | with the configured policy, a first success ends the run after one attempt and four failures end it after four |
| `Startup.CallerKeySurvivesRename` | src/main.rs:77-80 | a caller's `X-Balena-Authorization: Bearer <key>`, with a key of tabs and visible ASCII, is renamed onto Authorization, where `extract_api_key` reads exactly that key |
| `Startup.CloneIsRestamped` | src/retry.rs:176-180 | a cloned request carries no readable key, so the middleware stamps the pool's current key on the retry |
| `Startup.Attempt` | src/auth.rs:152-165 | one retry attempt carries the key that was active when it started, and leaves the pool as the feedback for its result prescribes |
| `Startup.RotationThenEviction` | src/auth.rs:36-59 | with keys K1, K2, K3 and responses 429, 401, 200 the attempts carry K1, K2 and K3. K1 and K3 remain, and the policy stops |

## Left out

- The `RwLock` and sharing across tasks. One sequential owner holds the pool. The `*_if_equal` operations take two separate locks in the source, one to compare and one to act, so they are not atomic there; the model makes no atomicity claim.
- `Auth.KeyPool.RemoveActiveKey`: it requires the pool invariant, which the source never checks. Every pool the constructor builds satisfies it, and every method keeps it.
- The warning logs written when a key is removed or shifted.
- Futures, `poll_ready`, the `Layer` constructors and the inner service call. The result an attempt yields is a parameter of `Poll`, and the sleep in `next` is returned as the delay.
- The floating-point jitter draw (`next_f64` and the `f64` products) and the random source. The raw jitter is an arbitrary duration input. The ratio is a real that is only compared with `0.0`, so NaN is not modelled.
- The debug assertions in `base` (`min <= max`, `max > 0`). A release build computes through them, so the model does too. The lower bound `min <= base` is proved only when `min <= max`.
- `Retry.Backoff.Next`: the iteration counter wraps at `u32::MAX` as in a release build; a debug build would panic there instead.
- `LinearBackoff::new` has no modelled behaviour beyond building the `Linear` value.
- `src/read_request_body.rs` is not part of this model. The body arrives already buffered as a byte sequence, and a clone copies it.
- `Retry.CloneRequest`: the request's HTTP version and extensions are not modelled, so their loss in the clone is not shown. The model returns a request rather than an `Option`, because the builder's `expect` cannot fail on headers copied from a valid request.
- Header map layout. `HeaderMap::remove` moves the last entry into the freed slot, which changes the iteration order of other names. The model keeps their order, and its contracts are stated per name. Header-name validity and case normalisation are not modelled: names are taken as already normalised.
- `Auth.ExtractInjectedKey`: the read-back is promised only for keys of tabs and visible ASCII. `HeaderValue::from_str` also accepts bytes from 0x80 up, so a key such as `é` is stamped, but `to_str` rejects it and `extract_api_key` finds nothing. `Authorize.Call` still records the stamped key as the snapshot in that case.
- `Auth.Authorize.Call`: the `unwrap` on `HeaderValue::from_str` becomes the precondition `StampIsValid`.
- URI parsing follows a simplified grammar: absolute form or origin form, visible-ASCII characters, no fragment. The crate's full character tables, authority-form and `*` targets are not modelled. The length limit of 65534 bytes is kept (`Uris.MAX_URI_LEN`); since only visible ASCII is accepted, characters and bytes agree.
- `ForwardRequest.ForwardRequest.Call`: the `expect` on the parsed target becomes a precondition. A target that does not parse, including an inbound path long enough to push it past 65534 bytes, makes the source panic; the model excludes such requests instead.
- In `main.rs`: tracing setup, the environment lookup (and its panic when unset), the request-ID layers, the ordering of the layers, and binding and serving.
