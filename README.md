# rezka-parser-api search handler, modelled in Dafny

This project models the `/api/search` route of the unofficial HDRezka API
(`api/index.py`). The route checks that the query is non-empty, builds the
site's search URL and fetches the page once. It collects a record for every
result card that has both an item link and an image, normalises the link text
into the description, and answers with the records or with an HTTP error.

Modules:

- `Wrappers` (wrappers.dfy): `Option` and `Result`.
- `Whitespace` (whitespace.dfy): the description expression
  `" ".join(text.split())`. `IsSpace` is Python's `str.isspace` set, `Words`
  is `str.split()` with no separator, `Join` is `" ".join`, and `Normalize`
  composes the two.
- `Extraction` (extraction.dfy): the parsed page is a sequence of cards
  (`Container`). Each card holds an optional `Link` (`href`, text) and an
  optional `Img` (`alt`, `src`). `Extract` is the filter-map the handler's
  loop computes. `CompleteIndices` independently lists the positions of the
  cards that yield records.
- `Fetch` (fetch.dfy): `get_page_soup`. The site is a `Site` object. Its
  `Get` method stands for `requests.get`: it returns how the request ended
  (`Transport`) and appends the URL to a ghost log of requests. A request
  either raised, possibly carrying a response status, or it answered with a
  status and a parsed page. `GetPageSoup` maps every failure to a 503
  `AccessError`.
- `SearchApi` (search.dfy): `search_content` as the method `SearchContent`.
  It has the same guard, the same single request, the same loop that appends
  to `results`, and the same 404 for an empty list. `Outcome` is the function
  the method is proved against. The percent-encoding (`quote`) is a
  parameter. The handler's own error tags (`EmptyQuery`, `NothingFound`) and
  statuses (400, 404) live here.

An absent attribute (`.get("href")` returning `None`) stays absent in the
record (`Option`), as the JSON `null` the route would return. A card counts as
present when `find` returned a tag: a BeautifulSoup tag is always truthy, so
`if link_tag and img_tag` tests only that both were found.

## Model

| member | source | states |
|---|---|---|
| `Whitespace.IsSpace` | api/index.py:95 | the whitespace characters on which `split()` breaks: Python's `str.isspace` set (ASCII `\t` to `\r`, `\x1c` to `\x1f`, the space, and the Unicode spaces and separators); its consequences are carried by `WordsOfInterleave` and `Normalize` |
| `Whitespace.Words` | api/index.py:95 | every piece that `split()` yields is non-empty and free of whitespace |
| `Whitespace.WordsOfInterleave` | api/index.py:95 | however a text is laid out as words separated by non-empty whitespace runs (with optional whitespace at both ends), `split()` yields exactly those words, so the pieces are the maximal whitespace-free runs |
| `Whitespace.Gaps` | api/index.py:95 | every text is laid out as its `split()` words with whitespace runs around them, non-empty between words; with `WordsOfInterleave` this pins `split()` down on every text |
| `Whitespace.Join` | api/index.py:95 | `" ".join`; its contract is carried by `WordsOfJoin` (split undoes it) and `JoinNormalized` (its result is normalised) |
| `Whitespace.WordLength` | api/index.py:95 | a word of `split()` ends at the first whitespace character or at the end of the text |
| `Whitespace.Normalize` | api/index.py:95 | the description has no leading or trailing blank, no two blanks in a row and no whitespace other than the space, and splitting it gives the same words as splitting the link text |
| `Whitespace.WordsOfJoin` | api/index.py:95 | splitting `" ".join(ws)` gives back `ws` for any list of words |
| `Whitespace.JoinNormalized` | api/index.py:95 | joining words with single spaces gives a normalised string that starts with a non-whitespace character |
| `Whitespace.JoinWordsOfNormalized` | api/index.py:95 | a normalised string is the join of its own words |
| `Whitespace.NormalizeIdempotent` | api/index.py:95 | normalising a description again changes nothing |
| `Whitespace.NormalizeUnique` | api/index.py:95 | the normalised description is the only normalised string with the link text's words |
| `Whitespace.NormalizeFixedPoints` | api/index.py:95 | a text is left unchanged exactly when it is already normalised |
| `Whitespace.ConcatWords` | api/index.py:95 | the words of a text, run together, are its non-whitespace characters in order |
| `Whitespace.NonSpaceOfJoin` | api/index.py:95 | joining words with spaces adds no non-whitespace character |
| `Whitespace.NormalizeKeepsText` | api/index.py:95 | the description keeps every non-whitespace character of the link text, in order, and adds none |
| `Whitespace.NormalizeExample` | api/index.py:95 | `"  Foo\n  Bar  "` becomes `"Foo Bar"`, obtained from `WordsOfInterleave` with the gaps `"  "`, `"\n  "`, `"  "` |
| `Extraction.Complete` | api/index.py:91 | a card yields a record exactly when both `find` calls returned a tag (a found tag is always truthy); `ExtractOne` and `ExtractEmptyIff` state its effect on the records |
| `Extraction.RecordOf` | api/index.py:92-102 | the record of one complete card; its fields are stated by `ExtractIsCompleteCards` (title and poster from the image's `alt` and `src`, details URL from the link's `href`, description the normalised link text) and `ExtractOne` |
| `Extraction.Extract` | api/index.py:82-102 | the list the handler's loop builds; `SearchApi.SearchContent` is proved to compute it, and `ExtractIsCompleteCards`, `ExtractOne`, `ExtractAppend`, `ExtractBound`, `ExtractAllComplete` and `ExtractEmptyIff` state what it contains |
| `Extraction.CompleteIndices` | api/index.py:86-91 | lists, in increasing order, exactly the positions of the cards with both a link and an image |
| `Extraction.ExtractOne` | api/index.py:91-102 | a card yields one record when it has both a link and an image and none otherwise, so no partial record is produced |
| `Extraction.ExtractAppend` | api/index.py:86-102 | the records of consecutive card lists are the records of each list, concatenated in order |
| `Extraction.ExtractIsCompleteCards` | api/index.py:82-102 | there is one record per complete card, in document order; the k-th record's title and poster come from that card's image `alt` and `src`, its details URL from the link's `href`, and its description is the normalised link text |
| `Extraction.ExtractBound` | api/index.py:82-102 | there are never more records than cards |
| `Extraction.ExtractAllComplete` | api/index.py:82-102 | when every card has a link and an image there is exactly one record per card |
| `Extraction.ExtractEmptyIff` | api/index.py:82-102 | no record comes out exactly when no card has both a link and an image |
| `Extraction.ExtractSkipsImageOnlyCard` | api/index.py:86-102 | a complete card followed by a card with only an image gives one record, built from the first card |
| `Fetch.Site.Get` | api/index.py:40-41 | one request of a URL: it is logged once, and its outcome is the site's answer for that URL |
| `Fetch.RaisesForStatus` | api/index.py:42 | `raise_for_status` raises exactly for statuses 400 to 599; `GetPageSoup` fails exactly for those statuses and for a request that raised |
| `Fetch.GetPageSoup` | api/index.py:37-55 | the page is passed on unchanged exactly when the request answered with a status that `raise_for_status` accepts; otherwise the error is 503, and it reports the upstream status whenever there is a response: the answered status, or the status the raised exception carries |
| `SearchApi.SearchUrl` | api/index.py:76-78 | the search URL is the fixed site template followed verbatim by the encoded query |
| `SearchApi.Outcome` | api/index.py:67-108 | the handler's answer as a function of the query and of how the one request ended; its contract is carried by `EmptyQueryRejected`, `FetchFailureUnavailable`, `FoundIff`, `NoCompleteCardNotFound` and `ErrorStatuses` |
| `SearchApi.SearchContent` | api/index.py:67-108 | an empty query sends no request to the site; any other query sends exactly one, for its search URL; the answer is `Outcome` of the site's answer to that request |
| `SearchApi.EmptyQueryRejected` | api/index.py:71-73 | an empty query is answered with 400 whatever the site would return |
| `SearchApi.FetchFailureUnavailable` | api/index.py:37-55 | a request that raised, or an error status from the site, makes the handler answer 503, reporting the site's status when there was a response |
| `SearchApi.FoundIff` | api/index.py:80-108 | the handler answers with records exactly when the query is non-empty, the fetch succeeded and some card is complete; the records are then exactly the extraction of the page, non-empty and at most one per card |
| `SearchApi.NoCompleteCardNotFound` | api/index.py:104-106 | a fetched page without a complete card gives 404 |
| `SearchApi.ErrorStatuses` | api/index.py:71-106 | every error answer is 400, 404 or 503, and it is 400 exactly when the query is empty |
| `SearchApi.SearchUrlInjective` | api/index.py:76-78 | different encoded queries lead to different search URLs |

## Left out

- The GET request itself is not modelled: the header set (api/index.py:18-33), the 10-second timeout and the UTF-8 override are network I/O through `requests`. The site answers each URL by a fixed function (`Site.answer`), so a site whose answers change between requests is not modelled; the handler sends at most one request, so this does not restrict it.
- The status rule in `Fetch.RaisesForStatus` is the `requests` library's rule that `raise_for_status` raises for statuses 400 to 599 only. That rule is not in api/index.py, so a status of 600 or above is passed on as a success, as the library does.
- HTML parsing with BeautifulSoup/lxml and the `find_all`/`find` selectors (api/index.py:46, 83-89) are not modelled. They are foreign library calls, so the parsed page is given as the sequence of cards with their first link and first image, and a link's visible text is taken as given.
- `urllib.parse.quote` (api/index.py:76) is a library call. It is a parameter of `SearchContent`, and nothing is proved about the encoding itself.
- The FastAPI application, its routing, the root redirect (api/index.py:9-14, 59-63) and the exact wording of the error messages are not modelled. The messages become `Detail` tags: which error it was, and the upstream status when one is reported.
- The request URL that the message of a failed fetch quotes is not modelled. Only the reported status is.
- A request without a `q` parameter is refused by FastAPI's parameter validation before the handler runs. That framework behaviour is not modelled; the model starts from a given query string.
- The `/api/details` route is not modelled, because the file leaves it as a placeholder (api/index.py:110).
- An unexpected exception during extraction, which FastAPI would turn into 500, is not modelled: nothing in the modelled steps raises one.
