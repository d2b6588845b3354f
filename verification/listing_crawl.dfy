/** The data flow of the search script's pagination loop: result items in,
    listings through the store, page counters out. The browser is replaced
    by the item data it would return and by the answers `click_next_page`
    would give. */
module ListingCrawl {
  import opened Basics
  import opened Links
  import opened ListingStore

  /** The `h3 a` link of a result card: its text and its `href` attribute. */
  datatype NameLink = NameLink(text: string, href: Option<string>)

  /** A result card: its name link, if any, and the texts of the `span`
      elements of its rating box, if it has one. */
  datatype Card = Card(nameLink: Option<NameLink>, ratingSpans: Option<seq<string>>)

  /** A result item: readable, or one whose element lookups raise (the loop
      catches that and moves on). */
  datatype Item = Readable(card: Card) | Unreadable

  /** One results page: the items the card selector finds and the items the
      fallback list selector finds. */
  datatype Page = Page(cards: seq<Item>, listItems: seq<Item>)

  /** The fallback selector is used only when the card selector finds nothing. */
  function SelectItems(p: Page): (items: seq<Item>)
    ensures |p.cards| > 0 ==> items == p.cards
    ensures |p.cards| == 0 ==> items == p.listItems
    ensures |items| == 0 <==> |p.cards| == 0 && |p.listItems| == 0
  {
    if |p.cards| > 0 then p.cards else p.listItems
  }

  /** Rating is the first span and review count the second, each `"N/A"`
      when the rating box is missing or has too few spans. */
  function RatingAndReviews(spans: Option<seq<string>>): (r: (string, string))
    ensures spans.Some? && |spans.value| >= 1 ==> r.0 == spans.value[0]
    ensures spans.None? || |spans.value| == 0 ==> r.0 == NotAvailable
    ensures spans.Some? && |spans.value| >= 2 ==> r.1 == spans.value[1]
    ensures spans.None? || |spans.value| < 2 ==> r.1 == NotAvailable
  {
    match spans
    case None => (NotAvailable, NotAvailable)
    case Some(ss) =>
      (if |ss| >= 1 then ss[0] else NotAvailable, if |ss| >= 2 then ss[1] else NotAvailable)
  }

  /** The listing an item yields: none for an unreadable item or a card
      without a name link, otherwise its name, cleaned link, rating and
      review count. */
  function ExtractListing(codec: UrlCodec, item: Item): (r: Option<Listing>)
    ensures r.Some? <==> item.Readable? && item.card.nameLink.Some?
    ensures r.Some? ==>
      && r.value.name == item.card.nameLink.value.text
      && r.value.url == CleanUrl(codec, item.card.nameLink.value.href)
      && (r.value.rating, r.value.reviews) == RatingAndReviews(item.card.ratingSpans)
  {
    match item
    case Unreadable => None
    case Readable(card) =>
      match card.nameLink
      case None => None
      case Some(link) =>
        var (rating, reviews) := RatingAndReviews(card.ratingSpans);
        Some(Listing(link.text, rating, reviews, CleanUrl(codec, link.href)))
  }

  /** The listings a page offers to the store, in page order. */
  function PageListings(codec: UrlCodec, items: seq<Item>): (ls: seq<Listing>)
    ensures |ls| <= |items|
    ensures Faithful(codec) ==> forall i :: 0 <= i < |ls| ==> ls[i].url != ""
    decreases |items|
  {
    if |items| == 0 then []
    else
      var rest := PageListings(codec, items[1..]);
      match ExtractListing(codec, items[0])
      case Some(l) =>
        CleanUrlNonEmptyIfFaithful(codec, items[0].card.nameLink.value.href);
        [l] + rest
      case None => rest
  }

  /** The listings of a split item list are the listings of its parts:
      items are extracted independently of one another. */
  lemma {:induction false} PageListingsConcat(codec: UrlCodec, a: seq<Item>, b: seq<Item>)
    ensures PageListings(codec, a + b) == PageListings(codec, a) + PageListings(codec, b)
    decreases |a|
  {
    if |a| == 0 {
      assert a + b == b;
    } else {
      assert (a + b)[1..] == a[1..] + b;
      PageListingsConcat(codec, a[1..], b);
    }
  }

  /** A card with a name link but no rating box is neither dropped nor
      disturbs its neighbours: it contributes exactly one listing, with
      rating and review count `"N/A"`. */
  lemma MissingRatingBoxKeepsItem(codec: UrlCodec, before: seq<Item>, text: string, href: Option<string>, after: seq<Item>)
    ensures PageListings(codec, before + [Readable(Card(Some(NameLink(text, href)), None))] + after)
            == PageListings(codec, before)
               + [Listing(text, NotAvailable, NotAvailable, CleanUrl(codec, href))]
               + PageListings(codec, after)
  {
    var item := Readable(Card(Some(NameLink(text, href)), None));
    PageListingsConcat(codec, before + [item], after);
    PageListingsConcat(codec, before, [item]);
    assert [item][1..] == [];
  }

  lemma CleanUrlNonEmptyIfFaithful(codec: UrlCodec, raw: Option<string>)
    ensures Faithful(codec) ==> CleanUrl(codec, raw) != ""
  {
    if Faithful(codec) {
      CleanUrlNonEmpty(codec, raw);
    }
  }

  /** The item loop of one page: every item with a name link is offered to
      the store and counted; `newCount` counts those the store accepted. */
  method ProcessPage(codec: UrlCodec, s: Store, items: seq<Item>) returns (s': Store, count: nat, newCount: nat)
    ensures count == |PageListings(codec, items)|
    ensures newCount == |Accepted(s, PageListings(codec, items))|
    ensures newCount <= count <= |items|
    ensures s' == SaveAll(s, PageListings(codec, items))
  {
    s' := s;
    count := 0;
    newCount := 0;
    var i := 0;
    while i < |items|
      invariant 0 <= i <= |items|
      invariant SaveAll(s', PageListings(codec, items[i..])) == SaveAll(s, PageListings(codec, items))
      invariant count + |PageListings(codec, items[i..])| == |PageListings(codec, items)|
      invariant newCount + |Accepted(s', PageListings(codec, items[i..]))| == |Accepted(s, PageListings(codec, items))|
      invariant newCount <= count
    {
      assert items[i..][1..] == items[i + 1..];
      var listing := ExtractListing(codec, items[i]);
      if listing.Some? {
        var saved;
        s', saved := SaveCsv(s', listing.value).0, SaveCsv(s', listing.value).1;
        count := count + 1;
        if saved {
          newCount := newCount + 1;
        }
      }
      i := i + 1;
    }
    assert items[i..] == [];
  }

  /** The listings a run of pages offers to the store, page by page. */
  function CrawlListings(codec: UrlCodec, pages: seq<Page>): (ls: seq<Listing>)
    ensures Faithful(codec) ==> forall i :: 0 <= i < |ls| ==> ls[i].url != ""
    decreases |pages|
  {
    if |pages| == 0 then []
    else CrawlListings(codec, pages[..|pages| - 1]) + PageListings(codec, SelectItems(pages[|pages| - 1]))
  }

  /** The pagination loop. `hasNext[k]` is what `click_next_page` answers
      after page `k`; the pages are what the site shows. The loop stops right
      after the first page for which no next-page control is found, and
      otherwise runs through every page given. */
  method Crawl(codec: UrlCodec, s: Store, pages: seq<Page>, hasNext: seq<bool>)
    returns (s': Store, pagesDone: nat, finished: bool)
    requires |hasNext| == |pages|
    ensures finished <==> false in hasNext
    ensures finished ==> 1 <= pagesDone <= |pages| && !hasNext[pagesDone - 1]
    ensures finished ==> forall j :: 0 <= j < pagesDone - 1 ==> hasNext[j]
    ensures !finished ==> pagesDone == |pages|
    ensures s' == SaveAll(s, CrawlListings(codec, pages[..pagesDone]))
  {
    s' := s;
    pagesDone := 0;
    finished := false;
    while pagesDone < |pages| && !finished
      invariant 0 <= pagesDone <= |pages|
      invariant finished ==> pagesDone >= 1 && !hasNext[pagesDone - 1]
      invariant forall j :: 0 <= j < pagesDone && !(finished && j == pagesDone - 1) ==> hasNext[j]
      invariant s' == SaveAll(s, CrawlListings(codec, pages[..pagesDone]))
    {
      var items := SelectItems(pages[pagesDone]);
      var count, newCount;
      SaveAllConcat(s, CrawlListings(codec, pages[..pagesDone]), PageListings(codec, items));
      s', count, newCount := ProcessPage(codec, s', items);
      assert pages[..pagesDone + 1][..pagesDone] == pages[..pagesDone];
      finished := !hasNext[pagesDone];
      pagesDone := pagesDone + 1;
    }
  }

  /** From a consistent store, and with the real URL routines, a whole crawl
      keeps the seen set equal to the URLs in the listing file. */
  lemma CrawlPreservesConsistency(codec: UrlCodec, s: Store, pages: seq<Page>)
    requires Faithful(codec) && Consistent(s)
    ensures Consistent(SaveAll(s, CrawlListings(codec, pages)))
  {
    SessionPreservesConsistency(s, CrawlListings(codec, pages));
  }

  /** With the real URL routines, a crawl resumed from a consistent file
      without duplicate URLs leaves a file without duplicate URLs. */
  lemma CrawlKeepsUrlRowsDistinct(codec: UrlCodec, s: Store, pages: seq<Page>)
    requires Faithful(codec) && Consistent(s) && DistinctUrlRows(s.file)
    ensures DistinctUrlRows(SaveAll(s, CrawlListings(codec, pages)).file)
  {
    SessionKeepsUrlRowsDistinct(s, CrawlListings(codec, pages));
  }
}
