/** The middleware that moves a header's value to another name before forwarding. */
module RenameHeader {
  import opened Wrappers
  import opened Headers
  import opened Requests

  /**
   * The header map `RenameHeader::call` leaves behind: `from` is gone, its
   * first value now sits alone under `to`, and every other name keeps its
   * values. Without a `from` header nothing changes.
   */
  function Renamed(hs: HeaderMap, from: HeaderName, to: HeaderName): (r: HeaderMap)
    ensures Get(hs, from).None? ==> r == hs
    ensures Get(hs, from).Some? ==> Values(r, to) == [Get(hs, from).value]
    ensures from != to ==> Values(r, from) == []
    ensures forall n :: n != from && n != to ==> Values(r, n) == Values(hs, n)
  {
    match Get(hs, from)
    case None => hs
    case Some(v) => Inserted(Without(hs, from), to, v)
  }

  /** Renaming twice is the same as renaming once, for any two names, equal ones included. */
  lemma RenameIdempotent(hs: HeaderMap, from: HeaderName, to: HeaderName)
    ensures Renamed(Renamed(hs, from, to), from, to) == Renamed(hs, from, to)
  {
    if from == to && Get(hs, from).Some? {
      WithoutDropsAppended(Without(hs, from), from, Get(hs, from).value);
    }
  }

  class RenameHeader {
    const from: HeaderName
    const to: HeaderName

    constructor (from: HeaderName, to: HeaderName)
      ensures this.from == from && this.to == to
    {
      this.from := from;
      this.to := to;
    }

    /** `call`: remove every `from` value, then insert the first of them under `to`. */
    method Call(req: Request)
      modifies req`headers
      ensures req.headers == Renamed(old(req.headers), from, to)
    {
      var value := req.RemoveHeader(from);
      if value.Some? {
        req.InsertHeader(to, value.value);
      }
    }
  }
}
