/**
  The extraction step of the search handler: the result cards of the search
  page, each with an optional item link and an optional image, are mapped to
  result records.  A card yields a record only when it has both; the record's
  fields come from the card's own image and link.
 */
module Extraction {
  import opened Wrappers
  import opened Whitespace

  /** The item link of a card: its `href` attribute (absent when the tag has
      none) and its visible text. */
  datatype Link = Link(href: Option<string>, text: string)

  /** The first image of a card: its `alt` and `src` attributes. */
  datatype Img = Img(alt: Option<string>, src: Option<string>)

  /** One result card of the page, with the link and image found inside it. */
  datatype Container = Container(link: Option<Link>, img: Option<Img>)

  /** The result cards of a search page, in document order. */
  type Document = seq<Container>

  /** One search result as the handler returns it; absent attributes become null. */
  datatype SearchResult = SearchResult(
    title: Option<string>,
    description: string,
    posterUrl: Option<string>,
    detailsUrl: Option<string>)

  /** A card from which a record is built: both its link and its image were found. */
  predicate Complete(c: Container) {
    c.link.Some? && c.img.Some?
  }

  /** The record built from a complete card. */
  function RecordOf(c: Container): SearchResult
    requires Complete(c)
  {
    SearchResult(
      title := c.img.value.alt,
      description := Normalize(c.link.value.text),
      posterUrl := c.img.value.src,
      detailsUrl := c.link.value.href)
  }

  /** The records the handler collects from a list of cards, in order. */
  function Extract(cs: Document): seq<SearchResult> {
    if cs == [] then []
    else
      var last := cs[|cs| - 1];
      Extract(cs[..|cs| - 1]) + (if Complete(last) then [RecordOf(last)] else [])
  }

  /** The positions of the complete cards, in increasing order: an independent
      description of which cards yield records. */
  function CompleteIndices(cs: Document): (idx: seq<nat>)
    ensures forall k :: 0 <= k < |idx| ==> idx[k] < |cs| && Complete(cs[idx[k]])
    ensures forall i :: 0 <= i < |cs| && Complete(cs[i]) ==> i in idx
    ensures forall k, l :: 0 <= k < l < |idx| ==> idx[k] < idx[l]
  {
    if cs == [] then []
    else
      var n := |cs| - 1;
      var prefix := cs[..n];
      assert forall i :: 0 <= i < n ==> prefix[i] == cs[i];
      CompleteIndices(prefix) + (if Complete(cs[n]) then [n] else [])
  }

  // ---------------------------------------------------------------------
  // Properties of the extraction.

  /** A card contributes one record when it is complete and none otherwise. */
  lemma ExtractOne(c: Container)
    ensures |Extract([c])| == (if Complete(c) then 1 else 0)
    ensures Complete(c) ==> Extract([c]) == [RecordOf(c)]
  {
  }

  /** Extraction of a concatenation is the concatenation of the extractions:
      each card is handled on its own, in order. */
  lemma {:induction false} ExtractAppend(a: Document, b: Document)
    ensures Extract(a + b) == Extract(a) + Extract(b)
    decreases |b|
  {
    if b == [] {
      assert a + b == a;
    } else {
      var n := |b| - 1;
      assert (a + b)[..|a + b| - 1] == a + b[..n];
      assert (a + b)[|a + b| - 1] == b[n];
      ExtractAppend(a, b[..n]);
    }
  }

  /** The records are the complete cards' records, one for one and in order,
      and each record's fields come from its own card. */
  lemma {:induction false} ExtractIsCompleteCards(cs: Document)
    ensures |Extract(cs)| == |CompleteIndices(cs)|
    ensures forall k :: 0 <= k < |Extract(cs)| ==>
      var c := cs[CompleteIndices(cs)[k]];
      && c.link.Some? && c.img.Some?
      && Extract(cs)[k].title == c.img.value.alt
      && Extract(cs)[k].posterUrl == c.img.value.src
      && Extract(cs)[k].detailsUrl == c.link.value.href
      && Extract(cs)[k].description == Normalize(c.link.value.text)
  {
    if cs != [] {
      var n := |cs| - 1;
      var prefix := cs[..n];
      ExtractIsCompleteCards(prefix);
      assert forall i :: 0 <= i < n ==> prefix[i] == cs[i];
    }
  }

  /** There are never more records than cards. */
  lemma {:induction false} ExtractBound(cs: Document)
    ensures |Extract(cs)| <= |cs|
  {
    if cs != [] {
      ExtractBound(cs[..|cs| - 1]);
    }
  }

  /** When every card is complete there is one record per card. */
  lemma {:induction false} ExtractAllComplete(cs: Document)
    requires forall i :: 0 <= i < |cs| ==> Complete(cs[i])
    ensures |Extract(cs)| == |cs|
  {
    if cs != [] {
      ExtractAllComplete(cs[..|cs| - 1]);
    }
  }

  /** No record comes out exactly when no card is complete. */
  lemma {:induction false} ExtractEmptyIff(cs: Document)
    ensures Extract(cs) == [] <==> forall i :: 0 <= i < |cs| ==> !Complete(cs[i])
  {
    if cs != [] {
      var n := |cs| - 1;
      ExtractEmptyIff(cs[..n]);
      assert forall i :: 0 <= i < n ==> cs[..n][i] == cs[i];
    }
  }

  /** Two cards, the first complete and the second with an image only, give
      one record, built from the first. */
  lemma ExtractSkipsImageOnlyCard(first: Container, second: Container)
    requires Complete(first)
    requires second.link.None? && second.img.Some?
    ensures Extract([first, second]) == [RecordOf(first)]
  {
    ExtractAppend([first], [second]);
    ExtractOne(first);
    ExtractOne(second);
    assert [first, second] == [first] + [second];
  }
}
