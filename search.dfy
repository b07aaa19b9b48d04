/**
  The `/api/search` handler: reject an empty query, fetch the search page
  once, collect the records of its result cards, and answer with them or
  with "nothing found".
 */
module SearchApi {
  import opened Wrappers
  import opened Whitespace
  import opened Extraction
  import opened Fetch

  const BaseUrl := "https://hdrezka.ag"
  const SearchPath := "/search/?do=search&subaction=search&q="

  /** The search page URL for an already percent-encoded query. */
  function SearchUrl(encoded: string): (url: string)
    ensures |url| == |BaseUrl + SearchPath| + |encoded|
    ensures url[..|BaseUrl + SearchPath|] == BaseUrl + SearchPath
    ensures url[|BaseUrl + SearchPath|..] == encoded
  {
    BaseUrl + SearchPath + encoded
  }

  const BadRequest := 400
  const NotFound := 404

  /** Why a request was refused; the messages themselves are not modelled. */
  datatype Detail =
    | EmptyQuery
    | SiteAccess(upstream: Option<int>)   // the site could not be read; its status, if it answered
    | NothingFound

  /** An `HTTPException`: a status code and its detail. */
  datatype HttpError = HttpError(status: int, detail: Detail)

  /** What the handler answers: the result list, or an `HTTPException`. */
  datatype Response = Found(results: seq<SearchResult>) | Raised(error: HttpError)

  /** The answer to query `q` when fetching its search page ends in `t`. */
  function Outcome(q: string, t: Transport): Response {
    if q == [] then Raised(HttpError(BadRequest, EmptyQuery))
    else match GetPageSoup(t)
      case Failure(e) => Raised(HttpError(e.status, SiteAccess(e.upstream)))
      case Success(page) =>
        var results := Extract(page);
        if results == [] then Raised(HttpError(NotFound, NothingFound)) else Found(results)
  }

  /** The handler.  `quote` is the percent-encoding of the query; `site` is
      the remote site, which it asks for the search page. */
  method SearchContent(q: string, quote: string -> string, site: Site)
    returns (response: Response)
    modifies site
    ensures site.calls == old(site.calls) + if q == [] then [] else [SearchUrl(quote(q))]
    ensures response == Outcome(q, site.answer(SearchUrl(quote(q))))
  {
    if q == [] {
      response := Raised(HttpError(BadRequest, EmptyQuery));
      return;
    }
    var searchUrl := SearchUrl(quote(q));
    var fetched := site.Get(searchUrl);
    var soup := GetPageSoup(fetched);
    if soup.Failure? {
      response := Raised(HttpError(soup.error.status, SiteAccess(soup.error.upstream)));
      return;
    }
    var items := soup.value;
    var results: seq<SearchResult> := [];
    for i := 0 to |items|
      invariant results == Extract(items[..i])
    {
      var item := items[i];
      if item.link.Some? && item.img.Some? {
        var link, img := item.link.value, item.img.value;
        results := results + [SearchResult(
          title := img.alt,
          description := Normalize(link.text),
          posterUrl := img.src,
          detailsUrl := link.href)];
      }
      assert items[..i + 1][..i] == items[..i];
    }
    assert items[..|items|] == items;
    if results == [] {
      response := Raised(HttpError(NotFound, NothingFound));
    } else {
      response := Found(results);
    }
  }

  // ---------------------------------------------------------------------
  // Properties of the handler's answer.

  /** An empty query is refused with 400, whatever the site would answer. */
  lemma EmptyQueryRejected(t: Transport)
    ensures Outcome([], t) == Raised(HttpError(BadRequest, EmptyQuery))
  {
  }

  /** A request that raised, or an error status from the site, gives 503,
      reporting the site's status when there was a response. */
  lemma FetchFailureUnavailable(q: string, t: Transport)
    requires q != []
    requires t.RequestFailed? || RaisesForStatus(t.status)
    ensures Outcome(q, t).Raised?
    ensures Outcome(q, t).error.status == ServiceUnavailable
    ensures Outcome(q, t).error.detail ==
      SiteAccess(if t.Answered? then Some(t.status) else t.response)
  {
  }

  /** The handler answers with records exactly when the query is non-empty,
      the fetch succeeded and some card is complete; the records are then
      those of the page's complete cards, at most one per card. */
  lemma FoundIff(q: string, t: Transport)
    ensures Outcome(q, t).Found? <==>
      && q != [] && t.Answered? && !RaisesForStatus(t.status)
      && exists i :: 0 <= i < |t.page| && Complete(t.page[i])
    ensures Outcome(q, t).Found? ==>
      Outcome(q, t).results == Extract(t.page) && 0 < |Outcome(q, t).results| <= |t.page|
  {
    if t.Answered? {
      ExtractEmptyIff(t.page);
      ExtractBound(t.page);
    }
  }

  /** A page whose cards are all incomplete gives 404. */
  lemma NoCompleteCardNotFound(q: string, status: int, page: Document)
    requires q != [] && !RaisesForStatus(status)
    requires forall i :: 0 <= i < |page| ==> !Complete(page[i])
    ensures Outcome(q, Answered(status, page)) == Raised(HttpError(NotFound, NothingFound))
  {
    ExtractEmptyIff(page);
  }

  /** Every error answer is 400, 404 or 503, and it is 400 exactly for an
      empty query. */
  lemma ErrorStatuses(q: string, t: Transport)
    ensures Outcome(q, t).Raised? ==>
      Outcome(q, t).error.status in {BadRequest, NotFound, ServiceUnavailable}
    ensures Outcome(q, t).Raised? && Outcome(q, t).error.status == BadRequest <==> q == []
  {
  }

  /** Different encoded queries give different search URLs. */
  lemma SearchUrlInjective(e1: string, e2: string)
    requires SearchUrl(e1) == SearchUrl(e2)
    ensures e1 == e2
  {
  }
}
