/** The middleware that points every request at the one upstream. */
module ForwardRequest {
  import opened Wrappers
  import opened Uris
  import opened Requests

  /**
   * The `format!` that builds the upstream target: the printed base, then
   * the inbound path, then `?` and the inbound query when there is one. The
   * inbound scheme and authority play no part.
   */
  function ForwardTarget(base: Uri, inbound: Uri): (s: string)
    ensures inbound.query.None? ==> s == Display(base) + inbound.path
    ensures inbound.query.Some? ==> s == Display(base) + inbound.path + "?" + inbound.query.value
  {
    Display(base) + inbound.path + QuerySuffix(inbound.query)
  }

  /** Two paths joined end to end form a path. */
  lemma JoinedPathIsPath(a: string, b: string)
    requires IsPath(a) && IsPath(b)
    ensures IsPath(a + b)
  {
  }

  /**
   * For a well-formed base without a query the target parses, and reads as
   * the base's scheme and authority, the base path followed by the inbound
   * path, and the inbound query.
   */
  lemma ForwardedUri(base: Uri, inbound: Uri)
    requires WellFormed(base) && base.query.None? && WellFormed(inbound)
    requires |ForwardTarget(base, inbound)| <= MAX_URI_LEN
    ensures ParseUri(ForwardTarget(base, inbound))
      == Some(Uri(base.scheme, base.authority, base.path + inbound.path, inbound.query))
  {
    var u := Uri(base.scheme, base.authority, base.path + inbound.path, inbound.query);
    JoinedPathIsPath(base.path, inbound.path);
    assert ForwardTarget(base, inbound) == Display(u);
    DisplayRoundTrip(u);
  }

  class ForwardRequest {
    const uri: Uri

    constructor (uri: Uri)
      ensures this.uri == uri
    {
      this.uri := uri;
    }

    /** `call`: replace the request's target and nothing else; the `expect` demands that it parse. */
    method Call(req: Request)
      requires ParseUri(ForwardTarget(uri, req.uri)).Some?
      modifies req`uri
      ensures req.uri == ParseUri(ForwardTarget(uri, old(req.uri))).value
      ensures (&& WellFormed(uri) && uri.query.None? && WellFormed(old(req.uri))
               && |ForwardTarget(uri, old(req.uri))| <= MAX_URI_LEN) ==>
        req.uri == Uri(uri.scheme, uri.authority, uri.path + old(req.uri).path, old(req.uri).query)
      ensures req.verb == old(req.verb) && req.headers == old(req.headers) && req.body == old(req.body)
    {
      var forwardUri := ForwardTarget(uri, req.uri);
      if WellFormed(uri) && uri.query.None? && WellFormed(req.uri) && |forwardUri| <= MAX_URI_LEN {
        ForwardedUri(uri, req.uri);
      }
      req.uri := ParseUri(forwardUri).value;
    }
  }
}
