/**
 * Request targets. A `Uri` is either absolute (`scheme://authority/path?query`)
 * or in origin form (`/path?query`, scheme and authority empty). `Display`
 * prints it the way the http crate's `Display` does; `ParseUri` reads a
 * simplified version of the crate's grammar back, and the two round-trip on
 * every well-formed target.
 */
module Uris {
  import opened Wrappers

  datatype Uri = Uri(scheme: string, authority: string, path: string, query: Option<string>)

  predicate IsSchemeChar(c: char)
  {
    ('a' <= c <= 'z') || ('A' <= c <= 'Z') || ('0' <= c <= '9') || c == '+' || c == '-' || c == '.'
  }

  /** Visible ASCII except the fragment marker. */
  predicate IsQueryChar(c: char)
  {
    '!' <= c <= '~' && c != '#'
  }

  predicate IsPathChar(c: char)
  {
    IsQueryChar(c) && c != '?'
  }

  predicate IsAuthorityChar(c: char)
  {
    IsPathChar(c) && c != '/'
  }

  predicate IsPath(p: string)
  {
    |p| > 0 && p[0] == '/' && forall i :: 0 <= i < |p| ==> IsPathChar(p[i])
  }

  predicate IsQuery(q: string)
  {
    forall i :: 0 <= i < |q| ==> IsQueryChar(q[i])
  }

  predicate WellFormed(u: Uri)
  {
    && IsPath(u.path)
    && (u.query.Some? ==> IsQuery(u.query.value))
    && (u.scheme == [] <==> u.authority == [])
    && (forall i :: 0 <= i < |u.scheme| ==> IsSchemeChar(u.scheme[i]))
    && (forall i :: 0 <= i < |u.authority| ==> IsAuthorityChar(u.authority[i]))
  }

  function QuerySuffix(q: Option<string>): string
  {
    match q
    case None => ""
    case Some(s) => "?" + s
  }

  /** The longest target `Uri::from_str` accepts, in bytes (`u16::MAX - 1`). */
  const MAX_URI_LEN: nat := 65534

  /**
   * The printed form of a target. A well-formed target prints as visible
   * ASCII with no fragment marker, and origin form prints from its path.
   */
  function Display(u: Uri): (s: string)
    ensures WellFormed(u) ==> IsQuery(s)
    ensures u.scheme == [] ==> |u.path| <= |s| && s[..|u.path|] == u.path
  {
    (if u.scheme == [] then "" else u.scheme + "://" + u.authority) + u.path + QuerySuffix(u.query)
  }

  /** Length of the longest prefix of `s` whose characters all satisfy `p`. */
  function PrefixLen(s: string, p: char -> bool): (n: nat)
    ensures n <= |s|
    ensures forall i :: 0 <= i < n ==> p(s[i])
    ensures n < |s| ==> !p(s[n])
  {
    if s == [] || !p(s[0]) then 0 else 1 + PrefixLen(s[1..], p)
  }

  /** `s` = path, optionally followed by `?` and a query. */
  function ParsePathAndQuery(s: string): (r: Option<(string, Option<string>)>)
    ensures r.Some? && |s| > 0 && s[0] == '/' ==> IsPath(r.value.0)
    ensures r.Some? && r.value.1.Some? ==> IsQuery(r.value.1.value)
  {
    var k := PrefixLen(s, IsPathChar);
    if k == |s| then Some((s, None))
    else if s[k] == '?' && IsQuery(s[k + 1..]) then Some((s[..k], Some(s[k + 1..])))
    else None
  }

  /**
   * `Uri::from_str`, on the simplified grammar; `None` is the parse error.
   * Whatever it accepts is a well-formed target no longer than the limit.
   */
  function ParseUri(s: string): (r: Option<Uri>)
    ensures r.Some? ==> |s| <= MAX_URI_LEN && WellFormed(r.value)
  {
    if |s| > MAX_URI_LEN then None
    else if |s| > 0 && s[0] == '/' then
      match ParsePathAndQuery(s)
      case None => None
      case Some(pq) => Some(Uri("", "", pq.0, pq.1))
    else
      var i := PrefixLen(s, IsSchemeChar);
      if i == 0 || |s| < i + 3 || s[i..i + 3] != "://" then None
      else ParseAfterScheme(s[..i], s[i + 3..])
  }

  /** The authority and the optional path and query that follow `scheme://`. */
  function ParseAfterScheme(scheme: string, rest: string): (r: Option<Uri>)
    ensures r.Some? ==> r.value.scheme == scheme && r.value.authority != []
    ensures r.Some? ==> forall i :: 0 <= i < |r.value.authority| ==> IsAuthorityChar(r.value.authority[i])
    ensures r.Some? ==> IsPath(r.value.path) && (r.value.query.Some? ==> IsQuery(r.value.query.value))
  {
    var j := PrefixLen(rest, IsAuthorityChar);
    if j == 0 then None
    else if j == |rest| then Some(Uri(scheme, rest, "/", None))
    else if rest[j] == '?' || rest[j] == '/' then
      var pq := if rest[j] == '/' then rest[j..] else "/" + rest[j..];
      match ParsePathAndQuery(pq)
      case None => None
      case Some(parsed) => Some(Uri(scheme, rest[..j], parsed.0, parsed.1))
    else None
  }

  lemma PathAndQueryRoundTrip(p: string, q: Option<string>)
    requires IsPath(p) && (q.Some? ==> IsQuery(q.value))
    ensures ParsePathAndQuery(p + QuerySuffix(q)) == Some((p, q))
  {
    if q.Some? {
      var s := p + ("?" + q.value);
      assert p + QuerySuffix(q) == s;
      PrefixLenStops(p, "?" + q.value, IsPathChar);
      assert s[..|p|] == p;
      assert s[|p| + 1..] == q.value;
    } else {
      assert p + QuerySuffix(q) == p;
    }
  }

  /** The prefix scan stops exactly where the characters stop satisfying `p`. */
  lemma PrefixLenStops(a: string, b: string, p: char -> bool)
    requires forall i :: 0 <= i < |a| ==> p(a[i])
    requires b != [] && !p(b[0])
    ensures PrefixLen(a + b, p) == |a|
  {
    var n := PrefixLen(a + b, p);
    assert (a + b)[|a|] == b[0];
  }

  /** A non-empty run of scheme characters followed by `://` is read as the scheme. */
  lemma SchemeIsSplitOff(scheme: string, rest: string)
    requires scheme != [] && forall i :: 0 <= i < |scheme| ==> IsSchemeChar(scheme[i])
    requires |scheme| + 3 + |rest| <= MAX_URI_LEN
    ensures ParseUri(scheme + ("://" + rest)) == ParseAfterScheme(scheme, rest)
  {
    var s := scheme + ("://" + rest);
    var n := |scheme|;
    assert s[0] == scheme[0];
    PrefixLenStops(scheme, "://" + rest, IsSchemeChar);
    assert s[..n] == scheme;
    assert s[n..n + 3] == "://";
    assert s[n + 3..] == rest;
  }

  lemma AfterSchemeRoundTrip(u: Uri)
    requires WellFormed(u) && u.scheme != []
    ensures ParseAfterScheme(u.scheme, u.authority + (u.path + QuerySuffix(u.query))) == Some(u)
  {
    var tail := u.path + QuerySuffix(u.query);
    var rest := u.authority + tail;
    PathAndQueryRoundTrip(u.path, u.query);
    PrefixLenStops(u.authority, tail, IsAuthorityChar);
    assert rest[..|u.authority|] == u.authority;
    assert rest[|u.authority|..] == tail;
  }

  lemma OriginRoundTrip(u: Uri)
    requires WellFormed(u) && u.scheme == []
    requires |Display(u)| <= MAX_URI_LEN
    ensures ParseUri(Display(u)) == Some(u)
  {
    var s := u.path + QuerySuffix(u.query);
    assert Display(u) == s;
    assert s[0] == u.path[0];
    PathAndQueryRoundTrip(u.path, u.query);
  }

  lemma AbsoluteRoundTrip(u: Uri)
    requires WellFormed(u) && u.scheme != []
    requires |Display(u)| <= MAX_URI_LEN
    ensures ParseUri(Display(u)) == Some(u)
  {
    var rest := u.authority + (u.path + QuerySuffix(u.query));
    assert Display(u) == u.scheme + ("://" + rest);
    SchemeIsSplitOff(u.scheme, rest);
    AfterSchemeRoundTrip(u);
  }

  /** Parsing what `Display` printed gives back the same target. */
  lemma DisplayRoundTrip(u: Uri)
    requires WellFormed(u)
    requires |Display(u)| <= MAX_URI_LEN
    ensures ParseUri(Display(u)) == Some(u)
  {
    if u.scheme == [] {
      OriginRoundTrip(u);
    } else {
      AbsoluteRoundTrip(u);
    }
  }
}
