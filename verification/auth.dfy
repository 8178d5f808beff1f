/**
 * The credential pool, the middleware that stamps a credential on each
 * attempt, and the response feedback that evicts or rotates credentials.
 *
 * `Pool` is the value the lock guards, `(keys, cursor)`; the `After…`
 * functions say what each pool operation does to it. `KeyPool` is the shared
 * object whose methods update that value in place. The lock is not modelled:
 * the pool has one sequential owner.
 */
module Auth {
  import opened Wrappers
  import opened Headers
  import opened Requests

  type Key = string

  datatype Pool = Pool(keys: seq<Key>, cursor: nat)
  {
    /** Either empty with the cursor at 0, or the cursor points at a key. */
    predicate Valid()
    {
      (keys == [] && cursor == 0) || cursor < |keys|
    }

    /** `active_key`: the key under the cursor, if there is one. */
    function Active(): (k: Option<Key>)
      ensures Valid() ==> (k.None? <==> keys == [])
      ensures k.Some? ==> cursor < |keys| && k.value == keys[cursor]
    {
      if cursor < |keys| then Some(keys[cursor]) else None
    }
  }

  /** `remove_active_key`: the new pool and the key taken out of it. */
  function AfterRemove(p: Pool): (r: (Pool, Option<Key>))
    requires p.Valid()
    ensures r.0.Valid()
    ensures p.keys == [] ==> r == (p, None)
    ensures p.keys != [] ==>
      && r.1 == Some(p.keys[p.cursor])
      && r.0.keys == p.keys[..p.cursor] + p.keys[p.cursor + 1..]
      && (p.cursor + 1 < |p.keys| ==> r.0.cursor == p.cursor && r.0.Active() == Some(p.keys[p.cursor + 1]))
      && (p.cursor + 1 == |p.keys| ==> r.0.cursor == 0)
  {
    if p.keys == [] then (p, None)
    else
      var keys := p.keys[..p.cursor] + p.keys[p.cursor + 1..];
      (Pool(keys, if p.cursor >= |keys| then 0 else p.cursor), Some(p.keys[p.cursor]))
  }

  /** `shift_active_key`: with two keys or more the cursor moves on by one, wrapping round. */
  function AfterShift(p: Pool): (r: Pool)
    requires p.Valid()
    ensures r.Valid() && r.keys == p.keys
    ensures |p.keys| <= 1 ==> r == p
    ensures |p.keys| > 1 && p.cursor + 1 < |p.keys| ==> r.cursor == p.cursor + 1
    ensures |p.keys| > 1 && p.cursor + 1 == |p.keys| ==> r.cursor == 0
  {
    if |p.keys| > 1 then Pool(p.keys, (p.cursor + 1) % |p.keys|) else p
  }

  /** `shift_active_key_if_equal`. */
  function AfterShiftIfEqual(p: Pool, key: Option<Key>): (r: Pool)
    requires p.Valid()
    ensures r.Valid() && r.keys == p.keys
    ensures r != p ==> key.Some? && key == p.Active()
    ensures key.Some? && key == p.Active() ==> r == AfterShift(p)
    ensures key.None? ==> r == p
  {
    if p.Active() == key then AfterShift(p) else p
  }

  /** `remove_active_key_if_equal`. */
  function AfterRemoveIfEqual(p: Pool, key: Option<Key>): (r: Pool)
    requires p.Valid()
    ensures r.Valid()
    ensures r != p ==> key.Some? && key == p.Active() && |r.keys| == |p.keys| - 1
    ensures key.Some? && key == p.Active() ==> r == AfterRemove(p).0
    ensures key.None? ==> r == p
  {
    if p.Active() == key then AfterRemove(p).0 else p
  }

  /** What `ResponseFuture::poll` does to the pool once the attempt that used `cur` has finished. */
  function AfterFeedback(p: Pool, cur: Option<Key>, result: AttemptResult): (r: Pool)
    requires p.Valid()
    ensures r.Valid()
    ensures result != Response(UNAUTHORIZED) && result != Response(TOO_MANY_REQUESTS) ==> r == p
    ensures cur != p.Active() ==> r == p
    ensures p.keys == [] ==> r == p
    ensures cur.Some? && cur == p.Active() && result == Response(UNAUTHORIZED) ==> r == AfterRemove(p).0
    ensures cur.Some? && cur == p.Active() && result == Response(TOO_MANY_REQUESTS) ==> r == AfterShift(p)
    ensures result == Response(TOO_MANY_REQUESTS) ==> r.keys == p.keys
  {
    match result
    case TransportError => p
    case Response(status) =>
      if status == UNAUTHORIZED then AfterRemoveIfEqual(p, cur)
      else if status == TOO_MANY_REQUESTS then AfterShiftIfEqual(p, cur)
      else p
  }

  /**
   * A 401 for the active key takes exactly that key out; every other key
   * stays, in order, and the key that followed it becomes active (the first
   * key, when the evicted one was last).
   */
  lemma UnauthorizedEvictsUsedKey(p: Pool, k: Key)
    requires p.Valid() && p.Active() == Some(k)
    ensures var r := AfterFeedback(p, Some(k), Response(UNAUTHORIZED));
      && multiset(r.keys) + multiset{k} == multiset(p.keys)
      && r.keys == p.keys[..p.cursor] + p.keys[p.cursor + 1..]
      && (p.cursor + 1 < |p.keys| ==> r.Active() == Some(p.keys[p.cursor + 1]))
      && (p.cursor + 1 == |p.keys| && |p.keys| > 1 ==> r.Active() == Some(p.keys[0]))
      && (|p.keys| == 1 ==> r.Active() == None)
  {
    assert p.keys == p.keys[..p.cursor] + [k] + p.keys[p.cursor + 1..];
  }

  /** `n` rate-limited responses in a row, each for the key that was active at the time. */
  function RateLimitedRounds(p: Pool, n: nat): (r: Pool)
    requires p.Valid()
    ensures r.Valid() && r.keys == p.keys
    decreases n
  {
    if n == 0 then p
    else RateLimitedRounds(AfterFeedback(p, p.Active(), Response(TOO_MANY_REQUESTS)), n - 1)
  }

  lemma {:induction false} RateLimitedRoundsAdvance(p: Pool, k: nat)
    requires p.Valid() && p.cursor + k < |p.keys|
    ensures RateLimitedRounds(p, k) == Pool(p.keys, p.cursor + k)
    decreases k
  {
    if k > 0 {
      var q := AfterFeedback(p, p.Active(), Response(TOO_MANY_REQUESTS));
      assert q == Pool(p.keys, p.cursor + 1);
      RateLimitedRoundsAdvance(q, k - 1);
    }
  }

  lemma {:induction false} RateLimitedRoundsCompose(p: Pool, a: nat, b: nat)
    requires p.Valid()
    ensures RateLimitedRounds(p, a + b) == RateLimitedRounds(RateLimitedRounds(p, a), b)
    decreases a
  {
    if a > 0 {
      var q := AfterFeedback(p, p.Active(), Response(TOO_MANY_REQUESTS));
      RateLimitedRoundsCompose(q, a - 1, b);
    }
  }

  /** As many rate-limited rounds as there are keys bring the cursor back where it started. */
  lemma RateLimitedRoundsCycle(p: Pool)
    requires p.Valid()
    ensures RateLimitedRounds(p, |p.keys|) == p
  {
    var len := |p.keys|;
    if len == 1 {
      assert AfterFeedback(p, p.Active(), Response(TOO_MANY_REQUESTS)) == p;
    } else if len > 1 {
      var c := p.cursor;
      RateLimitedRoundsCompose(p, len - 1 - c, c + 1);
      RateLimitedRoundsAdvance(p, len - 1 - c);
      var last := Pool(p.keys, len - 1);
      var first := Pool(p.keys, 0);
      assert AfterFeedback(last, last.Active(), Response(TOO_MANY_REQUESTS)) == first;
      RateLimitedRoundsAdvance(first, c);
    }
  }

  /**
   * Compare-and-act: once one request's 429 has rotated away from `a`, a
   * late 401 or 429 reported for `a` leaves the pool alone.
   */
  lemma StaleFeedbackIsDropped(p: Pool, a: Key, late: AttemptResult)
    requires p.Valid() && p.Active() == Some(a) && |p.keys| > 1
    requires forall i, j :: 0 <= i < j < |p.keys| ==> p.keys[i] != p.keys[j]
    ensures var q := AfterFeedback(p, Some(a), Response(TOO_MANY_REQUESTS));
      && q.Active() != Some(a)
      && AfterFeedback(q, Some(a), late) == q
  {
  }

  /** A pool of one key that answers 401 is empty from then on, whatever comes back later. */
  lemma LastKeyEviction(k: Key, cur: Option<Key>, later: AttemptResult)
    ensures var empty := AfterFeedback(Pool([k], 0), Some(k), Response(UNAUTHORIZED));
      && empty == Pool([], 0)
      && empty.Active() == None
      && AfterFeedback(empty, cur, later) == empty
  {
  }

  /**
   * `Authorize::extract_api_key`: the text after the first space of the
   * first Authorization value, when that value reads as text. The scheme word
   * before the space is not checked.
   */
  function ExtractApiKey(hs: HeaderMap): (r: Option<Key>)
    ensures r.Some? <==>
      && Get(hs, AUTHORIZATION).Some?
      && ToStr(Get(hs, AUTHORIZATION).value).Some?
      && ' ' in Get(hs, AUTHORIZATION).value
    ensures r.Some? ==>
      var v := Get(hs, AUTHORIZATION).value;
      var n := |v| - |r.value| - 1;
      && 0 <= n && v[n] == ' ' && ' ' !in v[..n] && v[n + 1..] == r.value
  {
    match Get(hs, AUTHORIZATION)
    case None => None
    case Some(v) =>
      match ToStr(v)
      case None => None
      case Some(s) =>
        match SplitOnce(s, ' ')
        case None => None
        case Some(parts) =>
          assert s[|parts.0|] == ' ' && s[..|parts.0|] == parts.0 && s[|parts.0| + 1..] == parts.1;
          Some(parts.1)
  }

  function Bearer(k: Key): HeaderValue
  {
    "Bearer " + k
  }

  predicate IsVisibleText(k: Key)
  {
    forall i :: 0 <= i < |k| ==> IsVisibleAscii(k[i])
  }

  /** A stamped key made of tabs and visible ASCII reads back as text. */
  lemma BearerIsText(k: Key)
    requires IsVisibleText(k)
    ensures ToStr(Bearer(k)) == Some(Bearer(k))
  {
  }

  /** A key stamped as `Bearer <key>` is what `extract_api_key` reads back, spaces in the key included. */
  lemma {:induction false} ExtractInjectedKey(hs: HeaderMap, k: Key)
    requires IsVisibleText(k)
    ensures ExtractApiKey(Inserted(hs, AUTHORIZATION, Bearer(k))) == Some(k)
  {
    assert Get(Inserted(hs, AUTHORIZATION, Bearer(k)), AUTHORIZATION) == Some(Bearer(k));
    BearerIsText(k);
    assert Bearer(k) == "Bearer" + [' '] + k;
    SplitOnceAt("Bearer", ' ', k);
  }

  /** The pool shared by every middleware instance: the guarded `(keys, cursor)` pair. */
  class KeyPool {
    var keys: seq<Key>
    var cursor: nat

    ghost predicate Valid()
      reads this
    {
      State().Valid()
    }

    function State(): Pool
      reads this
    {
      Pool(keys, cursor)
    }

    /** `KeyPool::new` (and `From<Vec<&str>>`): the first key is active. */
    constructor (keys: seq<Key>)
      ensures Valid() && this.keys == keys && cursor == 0
      ensures State().Active() == if keys == [] then None else Some(keys[0])
    {
      this.keys := keys;
      this.cursor := 0;
    }

    /** `active_key`: the key under the cursor, if there is one. */
    function ActiveKey(): (k: Option<Key>)
      reads this
      ensures Valid() ==> (k.None? <==> keys == [])
      ensures k.Some? ==> cursor < |keys| && k.value == keys[cursor]
    {
      State().Active()
    }

    method RemoveActiveKey() returns (removed: Option<Key>)
      requires Valid()
      modifies this
      ensures Valid()
      ensures (State(), removed) == AfterRemove(old(State()))
    {
      if |keys| == 0 {
        removed := None;
      } else {
        var key := keys[cursor];
        keys := keys[..cursor] + keys[cursor + 1..];
        if cursor >= |keys| {
          cursor := 0;
        }
        removed := Some(key);
      }
    }

    method ShiftActiveKey()
      requires Valid()
      modifies this
      ensures Valid()
      ensures State() == AfterShift(old(State()))
    {
      var len := |keys|;
      if len > 1 {
        cursor := (cursor + 1) % len;
      }
    }

    method ShiftActiveKeyIfEqual(key: Option<Key>)
      requires Valid()
      modifies this
      ensures Valid()
      ensures State() == AfterShiftIfEqual(old(State()), key)
    {
      if ActiveKey() == key {
        ShiftActiveKey();
      }
    }

    method RemoveActiveKeyIfEqual(key: Option<Key>)
      requires Valid()
      modifies this
      ensures Valid()
      ensures State() == AfterRemoveIfEqual(old(State()), key)
    {
      if ActiveKey() == key {
        var _ := RemoveActiveKey();
      }
    }
  }

  /** The in-flight attempt: the pool and the key this attempt was sent with. */
  class ResponseFuture {
    const keys: KeyPool
    const curKey: Option<Key>

    constructor (keys: KeyPool, curKey: Option<Key>)
      ensures this.keys == keys && this.curKey == curKey
    {
      this.keys := keys;
      this.curKey := curKey;
    }

    /** `poll` once the inner future has resolved: report to the pool, then pass the result on unchanged. */
    method Poll(result: AttemptResult) returns (r: AttemptResult)
      requires keys.Valid()
      modifies keys
      ensures keys.Valid()
      ensures r == result
      ensures keys.State() == AfterFeedback(old(keys.State()), curKey, result)
    {
      if result.Response? {
        if result.status == UNAUTHORIZED {
          keys.RemoveActiveKeyIfEqual(curKey);
        } else if result.status == TOO_MANY_REQUESTS {
          keys.ShiftActiveKeyIfEqual(curKey);
        }
      }
      r := result;
    }
  }

  /** The middleware that adds a credential when the request carries none it can read. */
  class Authorize {
    const keys: KeyPool

    constructor (keys: KeyPool)
      ensures this.keys == keys
    {
      this.keys := keys;
    }

    /** The `unwrap` on the header value: a key that is stamped must make a valid header value. */
    static predicate StampIsValid(hs: HeaderMap, p: Pool)
    {
      ExtractApiKey(hs).None? && p.Active().Some? ==> IsValidHeaderValue(Bearer(p.Active().value))
    }

    method Call(req: Request) returns (fut: ResponseFuture)
      requires keys.Valid()
      requires StampIsValid(req.headers, keys.State())
      modifies req`headers
      ensures fresh(fut) && fut.keys == keys
      ensures ExtractApiKey(old(req.headers)).Some? ==>
        req.headers == old(req.headers) && fut.curKey == ExtractApiKey(old(req.headers))
      ensures ExtractApiKey(old(req.headers)).None? ==>
        && fut.curKey == keys.ActiveKey()
        && req.headers == match keys.ActiveKey()
             case None => old(req.headers)
             case Some(k) => Inserted(old(req.headers), AUTHORIZATION, Bearer(k))
      ensures fut.curKey.Some? && IsVisibleText(fut.curKey.value) ==> ExtractApiKey(req.headers) == fut.curKey
    {
      var apiKey := ExtractApiKey(req.headers);
      if apiKey.None? {
        apiKey := keys.ActiveKey();
        if apiKey.Some? {
          req.InsertHeader(AUTHORIZATION, Bearer(apiKey.value));
          if IsVisibleText(apiKey.value) {
            ExtractInjectedKey(old(req.headers), apiKey.value);
          }
        }
      }
      fut := new ResponseFuture(keys, apiKey);
    }
  }
}
