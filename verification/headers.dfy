/**
 * The header map of an HTTP request, seen as the sequence of (name, value)
 * pairs it yields when iterated. Names are the crate's normalised
 * (lower-case) names. A header value is a string whose characters stand for
 * its bytes; a character above 0x7f stands for the bytes of its UTF-8
 * encoding, all of which are above 0x7f too.
 *
 * The observation every contract is stated in is `Values(hs, n)`: the values
 * held under name `n`, in iteration order.
 */
module Headers {
  import opened Wrappers

  type HeaderName = string
  type HeaderValue = string

  datatype Header = Header(name: HeaderName, value: HeaderValue)

  type HeaderMap = seq<Header>

  const AUTHORIZATION: HeaderName := "authorization"
  const HOST: HeaderName := "host"

  /** The values stored under `name`, in iteration order. */
  function Values(hs: HeaderMap, name: HeaderName): seq<HeaderValue>
  {
    if hs == [] then []
    else (if hs[0].name == name then [hs[0].value] else []) + Values(hs[1..], name)
  }

  /** `HeaderMap::get`: the first value stored under `name`. */
  function Get(hs: HeaderMap, name: HeaderName): (v: Option<HeaderValue>)
    ensures v.None? <==> Values(hs, name) == []
    ensures v.Some? ==> v.value == Values(hs, name)[0]
  {
    if hs == [] then None
    else if hs[0].name == name then Some(hs[0].value)
    else Get(hs[1..], name)
  }

  /** `HeaderMap::remove` (the map left behind): every value under `name` is gone. */
  function Without(hs: HeaderMap, name: HeaderName): (r: HeaderMap)
    ensures Values(r, name) == []
    ensures forall n :: n != name ==> Values(r, n) == Values(hs, n)
    ensures forall h :: h in r <==> h in hs && h.name != name
    ensures Values(hs, name) == [] ==> r == hs
  {
    if hs == [] then []
    else if hs[0].name == name then Without(hs[1..], name)
    else [hs[0]] + Without(hs[1..], name)
  }

  /** Removing `name` also removes an entry for it appended at the end. */
  lemma {:induction false} WithoutDropsAppended(hs: HeaderMap, name: HeaderName, v: HeaderValue)
    ensures Without(hs + [Header(name, v)], name) == Without(hs, name)
  {
    if hs != [] {
      assert (hs + [Header(name, v)])[1..] == hs[1..] + [Header(name, v)];
      WithoutDropsAppended(hs[1..], name, v);
    }
  }

  /**
   * `HeaderMap::insert`: afterwards `name` holds exactly `v`. An existing
   * entry keeps its place (its first value is replaced, the rest dropped);
   * a new entry goes at the end.
   */
  function Inserted(hs: HeaderMap, name: HeaderName, v: HeaderValue): (r: HeaderMap)
    ensures Values(r, name) == [v]
    ensures forall n :: n != name ==> Values(r, n) == Values(hs, n)
    ensures Get(hs, name).None? ==> r == hs + [Header(name, v)]
  {
    if hs == [] then [Header(name, v)]
    else if hs[0].name == name then [Header(name, v)] + Without(hs[1..], name)
    else [hs[0]] + Inserted(hs[1..], name, v)
  }

  /** Tab or a visible ASCII character: what `HeaderValue::to_str` accepts. */
  predicate IsVisibleAscii(c: char)
  {
    c == '\t' || (' ' <= c <= '~')
  }

  /** Tab, or any byte from the space up except DEL: what `HeaderValue::from_str` accepts. */
  predicate IsHeaderValueChar(c: char)
  {
    c == '\t' || (' ' <= c && c != '\U{7F}')
  }

  predicate IsValidHeaderValue(v: string)
  {
    forall i :: 0 <= i < |v| ==> IsHeaderValueChar(v[i])
  }

  /** `HeaderValue::to_str`: the value as text, when every byte is visible ASCII. */
  function ToStr(v: HeaderValue): (r: Option<string>)
    ensures r.Some? <==> forall i :: 0 <= i < |v| ==> IsVisibleAscii(v[i])
    ensures r.Some? ==> r.value == v && IsValidHeaderValue(v)
  {
    if forall i :: 0 <= i < |v| ==> IsVisibleAscii(v[i]) then Some(v) else None
  }

  /**
   * `str::splitn(2, c)` seen through its length: `None` when `c` does not
   * occur (one part), otherwise the text before and after the first `c`.
   */
  function SplitOnce(s: string, c: char): (r: Option<(string, string)>)
    ensures r.None? <==> c !in s
    ensures r.Some? ==> s == r.value.0 + [c] + r.value.1 && c !in r.value.0
  {
    if s == [] then None
    else if s[0] == c then Some(([], s[1..]))
    else match SplitOnce(s[1..], c)
      case None => None
      case Some(parts) => Some(([s[0]] + parts.0, parts.1))
  }

  /** The split point is unique: the first occurrence of `c`. */
  lemma {:induction false} SplitOnceAt(a: string, c: char, b: string)
    requires c !in a
    ensures SplitOnce(a + [c] + b, c) == Some((a, b))
  {
    if a == [] {
      assert a + [c] + b == [c] + b;
    } else {
      assert (a + [c] + b)[1..] == a[1..] + [c] + b;
      SplitOnceAt(a[1..], c, b);
      assert [a[0]] + a[1..] == a;
    }
  }
}
