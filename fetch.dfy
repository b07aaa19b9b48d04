/**
  Fetching the search page (`get_page_soup`): one GET request whose failures
  all become a "service unavailable" error.  The site is an object that
  answers each request and keeps a log of the URLs requested from it.
 */
module Fetch {
  import opened Wrappers
  import opened Extraction

  /** What one GET request of a page ended in. */
  datatype Transport =
    /** The request raised (connection error, timeout, ...); `response` is
        the status of the response the exception carries, if any. */
    | RequestFailed(response: Option<int>)
    /** A response arrived with this status; `page` is its parsed body. */
    | Answered(status: int, page: Document)

  /** The remote site, seen through `requests.get`: `answer` says how each
      URL's request ends, and `calls` logs the URLs requested so far. */
  class Site {
    const answer: string -> Transport
    ghost var calls: seq<string>

    constructor (answer: string -> Transport)
      ensures this.answer == answer && calls == []
    {
      this.answer := answer;
      calls := [];
    }

    /** One GET request of `url`. */
    method Get(url: string) returns (t: Transport)
      modifies this
      ensures calls == old(calls) + [url]
      ensures t == answer(url)
    {
      calls := calls + [url];
      t := answer(url);
    }
  }

  /** The statuses for which `raise_for_status` raises: client and server errors. */
  predicate RaisesForStatus(status: int) {
    400 <= status < 600
  }

  const ServiceUnavailable := 503

  /** The `HTTPException` raised when the site cannot be read: its status and
      the upstream status its message reports, when there was a response. */
  datatype AccessError = AccessError(status: int, upstream: Option<int>)

  /** The parsed page of a successful fetch, or the 503 error it is turned into. */
  function GetPageSoup(t: Transport): (r: Result<Document, AccessError>)
    ensures r.Success? <==> t.Answered? && !RaisesForStatus(t.status)
    ensures r.Success? ==> r.value == t.page
    ensures r.Failure? ==> r.error.status == ServiceUnavailable
    ensures r.Failure? ==>
      r.error.upstream == if t.Answered? then Some(t.status) else t.response
  {
    match t
    case RequestFailed(response) => Failure(AccessError(ServiceUnavailable, response))
    case Answered(status, page) =>
      if RaisesForStatus(status) then Failure(AccessError(ServiceUnavailable, Some(status)))
      else Success(page)
  }
}
