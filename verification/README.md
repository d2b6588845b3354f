# Yelp scraper core in Dafny

A model of the sequential logic of a two-stage restaurant scraper. The browser is left out.

- **Search crawler** (`yelp.search.py`). It walks the paginated search results and extracts each card: name, link, rating and review count. It cleans the link and appends the listing to a CSV file. A URL that was already saved is skipped. The file together with an in-memory set of seen URLs forms the *listing store*.
- **Detail crawler** (`ylp.crawler.py`). It reads the listing file into a work queue and visits each business. It extracts the phone number and website, and appends one row per business to a second CSV file. That append has no duplicate check.

The model is functional:

- A file is `Option<seq<Row>>`: `None` when the file is absent, otherwise its rows, header first.
- The listing store is the file plus the seen set.
- Every operation is a pure function or a method over immutable values.
- Whatever the browser would return becomes plain input data: result items with optional fields, `click_next_page`'s answers, and the outcome of each detail visit.
- Query parsing and percent-decoding are a parameter, `Links.UrlCodec`.

Modules, leaves first:

- `Basics`: `Option`, `Lookup` (an element was missing, was found, or its lookup raised) and the `"N/A"` sentinel.
- `Text`: `startswith` and substring containment.
- `Links`: both link normalisers.
- `Csv`: `DictReader` field access and the shared append path.
- `ListingStore`: `load_existing_urls` and the de-duplicating `save_csv`.
- `ListingCrawl`: card extraction, the item loop and pagination.
- `DetailCrawl`: queue, field defaults, the non-deduplicating `save_csv` and the drain.
- `Pipeline`: the detail queue read back from a listing file.

The main invariant is `ListingStore.Consistent`. It says the seen set equals the set of non-empty `URL` fields in the file. Loading establishes it, and every save with a non-empty URL preserves it. With the real URL routines, every cleaned link is non-empty. So a whole crawl keeps the invariant, and the rows one session appends never share a URL.

Three behaviours of the scripts worth noting:

- The detail crawler's `save_csv` only "Appends data to CSV" (`ylp.crawler.py:40`). It has no duplicate check, so it writes every row it extracts.
- `clean_website_link` does not add the site origin to a relative link.
- A missing name in the detail queue (a short row) is written as an empty field, not `"N/A"`.

## Model

| member | source | states |
|---|---|---|
| Links.CleanUrl | YELP.SCRAPER/yelp.search.py:25-44 | Blank link gives "N/A". An ad link with a `redirect_url` parameter gives its unquoted first value. Otherwise, when there is no marker, no parameter or a parse exception: a link starting with "/" gets "https://www.yelp.com" in front, and any other link is returned unchanged |
| Links.CleanUrlNonEmpty | YELP.SCRAPER/yelp.search.py:25-44 | When parse_qs drops blank values and unquote keeps non-empty strings non-empty, the cleaned link is never empty. It can therefore always serve as a de-duplication key |
| Links.CleanUrlIdempotent | YELP.SCRAPER/yelp.search.py:25-44 | For links without an ad marker, cleaning twice equals cleaning once, including the sentinel and absolutised relative links |
| Links.AbsolutisedIsClean | YELP.SCRAPER/yelp.search.py:41-42 | Prefixing the origin to a relative link yields a link that a second cleaning leaves alone, because no ad marker appears across the join |
| Links.CleanWebsiteLink | YELP.SCRAPER/ylp.crawler.py:26-37 | Blank link gives "N/A". A "biz_redir" link with a `url` parameter gives its unquoted first value. In every other case, including a parse exception, the raw link is returned |
| Links.NormalisersAgreeOnPlainLinks | YELP.SCRAPER/ylp.crawler.py:26-37 | On non-empty links with neither marker, both normalisers return the link unchanged, except that a relative link gets the origin from clean_url only |
| Text.ContainsIffOccurs | YELP.SCRAPER/yelp.search.py:30 | The scan used for Python's `in` on strings is true exactly when the pattern occurs at some index |
| Csv.LastIndexOf | YELP.SCRAPER/yelp.search.py:51-53 | Locates the header column DictReader reads a key from: the last column with that name, or none exactly when the name is absent |
| Csv.Append | YELP.SCRAPER/yelp.search.py:69-79 | The file exists afterwards and ends with the row. An absent file becomes header plus row. An existing file keeps all its rows and gains exactly one |
| Csv.AppendAllShape | YELP.SCRAPER/ylp.crawler.py:48-51 | Repeated appends leave the file untouched when there is nothing to write. Otherwise they add exactly the rows, in order, after the existing rows or after a fresh header |
| ListingStore.LoadExistingUrls | YELP.SCRAPER/yelp.search.py:46-57 | Returns exactly the set of non-empty URL fields of the data rows, the empty set for a missing file, and never the empty string |
| ListingStore.SaveCsv | YELP.SCRAPER/yelp.search.py:59-84 | Returns true exactly when the URL was unseen. The URL is in the seen set afterwards. A duplicate leaves the file alone; a new URL appends its row |
| ListingStore.SaveIsIdempotent | YELP.SCRAPER/yelp.search.py:62-66 | Saving the same listing again reports a duplicate and changes neither the file nor the seen set |
| ListingStore.SaveNewAppendsOneRow | YELP.SCRAPER/yelp.search.py:69-84 | A new URL returns true and adds its URL to the seen set. The header is written only if the file was absent, exactly one row is appended, and no other row changes |
| ListingStore.UrlsOfAppend | YELP.SCRAPER/yelp.search.py:75-79 | Appending a listing with a non-empty URL to a well-headed file adds exactly that URL to the file's URL set and keeps the header well formed |
| ListingStore.SavePreservesConsistency | YELP.SCRAPER/yelp.search.py:59-84 | If the seen set equals the file's non-empty URLs before a save with a non-empty URL, it still does afterwards |
| ListingStore.Reload | YELP.SCRAPER/yelp.search.py:46-57 | Loading the file of a consistent store gives back exactly its seen set, which is what lets a crawl resume across runs |
| ListingStore.SessionAppendsDistinct | YELP.SCRAPER/yelp.search.py:59-84 | Over a session, the seen set grows by the URLs offered. The file gains exactly the accepted listings' rows, in order. Accepted URLs are pairwise distinct and were not seen before |
| ListingStore.SessionPreservesConsistency | YELP.SCRAPER/yelp.search.py:156-238 | From a consistent store, any sequence of saves with non-empty URLs keeps the seen set equal to the file's URLs |
| ListingStore.SaveKeepsUrlRowsDistinct | YELP.SCRAPER/yelp.search.py:59-84 | From a consistent store whose file has no two data rows with the same non-empty URL, a save with a non-empty URL keeps that so, whichever run wrote the existing rows |
| ListingStore.SessionKeepsUrlRowsDistinct | YELP.SCRAPER/yelp.search.py:155-238 | A session resumed from such a file, with non-empty URLs, leaves no two data rows with the same non-empty URL |
| ListingStore.SaveAllConcat | YELP.SCRAPER/yelp.search.py:189-249 | Running saves page after page is the same as one session over the concatenated listings |
| ListingCrawl.SelectItems | YELP.SCRAPER/yelp.search.py:202-204 | The fallback list selector is used only when the card selector finds nothing. No items means both found nothing |
| ListingCrawl.RatingAndReviews | YELP.SCRAPER/yelp.search.py:220-230 | Rating is the first span if there is one and reviews the second if there are two. Otherwise each is "N/A", including when the rating box is absent |
| ListingCrawl.ExtractListing | YELP.SCRAPER/yelp.search.py:209-230 | An item yields a listing exactly when it is readable and has a name link. The listing carries the link text, the cleaned href and the span defaults |
| ListingCrawl.PageListingsConcat | YELP.SCRAPER/yelp.search.py:209-242 | Items are extracted independently: the listings of a split item list are the listings of its parts |
| ListingCrawl.MissingRatingBoxKeepsItem | YELP.SCRAPER/yelp.search.py:220-236 | A card with a name link but no rating box still yields exactly one listing, with rating and reviews "N/A", and its neighbours' listings are unchanged |
| ListingCrawl.PageListings | YELP.SCRAPER/yelp.search.py:209-242 | A page offers at most one listing per item. With the real URL routines every offered URL is non-empty |
| ListingCrawl.ProcessPage | YELP.SCRAPER/yelp.search.py:206-244 | `count` is the number of items with a name link and `newCount` the number the store accepted, with newCount <= count <= items. The store ends as the session over the page's listings |
| ListingCrawl.Crawl | YELP.SCRAPER/yelp.search.py:187-251 | The loop ends after the first page for which click_next_page answers false, having processed every earlier page. Without such an answer it runs through all pages. The store is the session over all processed pages |
| ListingCrawl.CrawlPreservesConsistency | YELP.SCRAPER/yelp.search.py:155-249 | With the real URL routines, a crawl from a consistent store keeps the seen set equal to the file's URLs |
| ListingCrawl.CrawlKeepsUrlRowsDistinct | YELP.SCRAPER/yelp.search.py:155-249 | With the real URL routines, a crawl resumed from a consistent file without duplicate URLs leaves a file without duplicate URLs |
| DetailCrawl.SaveDetail | YELP.SCRAPER/ylp.crawler.py:39-52 | Always appends the row, with no duplicate check. The header ["Name","Phone","Website","Yelp URL"] comes first only when the file was absent |
| DetailCrawl.SaveDetailKeepsDuplicates | YELP.SCRAPER/ylp.crawler.py:39-52 | Saving the same row twice leaves two copies at the end of the file |
| DetailCrawl.Phone | YELP.SCRAPER/ylp.crawler.py:81-88 | The phone is the next element's text when the label and that element are both found, and "N/A" otherwise, including when a lookup raises |
| DetailCrawl.Website | YELP.SCRAPER/ylp.crawler.py:90-101 | The website is clean_website_link of the anchor's href when label, container and anchor are all found, and "N/A" otherwise |
| DetailCrawl.QueueFrom | YELP.SCRAPER/ylp.crawler.py:127-129 | Every queued entry has a non-empty URL containing "http", and there is at most one entry per row |
| DetailCrawl.QueueFromConcat | YELP.SCRAPER/ylp.crawler.py:127-129 | The queue is built row by row in file order: the queue of concatenated rows is the concatenation of the queues |
| DetailCrawl.QueueFromComplete | YELP.SCRAPER/ylp.crawler.py:127-129 | Every eligible row is queued, and every queued entry comes from an eligible row |
| DetailCrawl.LoadQueue | YELP.SCRAPER/ylp.crawler.py:122-132 | A missing input file stops the run, and only then. The uncaught KeyError arises exactly when the header lacks "Name" and at least one row is eligible. Otherwise the queue is the eligible data rows in order |
| DetailCrawl.FailedFieldsStillSaved | YELP.SCRAPER/ylp.crawler.py:82-101 | A loaded page whose phone and website lookups both raise is still saved, as [name, "N/A", "N/A", url], and the following entries are unaffected |
| DetailCrawl.DetailRow | YELP.SCRAPER/ylp.crawler.py:137-138 | The saved row has four fields: the queued name (empty when None), the extracted phone, the extracted website, and the queued URL |
| DetailCrawl.SavedRows | YELP.SCRAPER/ylp.crawler.py:135-148 | A drain writes at most one row per queue entry |
| DetailCrawl.SavedRowsConcat | YELP.SCRAPER/ylp.crawler.py:135-148 | Entries are handled independently, so a failure on one entry changes no other entry's row |
| DetailCrawl.AllLoadedAllSaved | YELP.SCRAPER/ylp.crawler.py:135-148 | When every visit succeeds, each entry is saved exactly once, in queue order |
| DetailCrawl.Drain | YELP.SCRAPER/ylp.crawler.py:134-148 | Each entry is processed once, in order, and failures skip only their own save. The file is unchanged when nothing was saved, and otherwise gains exactly the saved rows |
| Pipeline.QueueOfListings | YELP.SCRAPER/ylp.crawler.py:123-129 | Every queue entry read back from listing rows is one listing's name and URL |
| Pipeline.DistinctListingsDistinctQueue | YELP.SCRAPER/ylp.crawler.py:123-129 | Listings with distinct URLs produce a queue with distinct URLs |
| Pipeline.FreshSessionQueueIsDistinct | YELP.SCRAPER/yelp.search.py:59-84 | A listing file written from scratch by one search session never raises the Name KeyError when loaded as a queue, and its queue has pairwise distinct URLs |

## Left out

- Browser automation is not modelled: connection, `human_mouse_move`, `clean_input_via_js`, and the scrolling, hovering and clicking in `click_next_page` and `process_url_human_mode`. `click_next_page` is a sequence of booleans. Element lookups are input data.
- The captcha and block checks, with their blocking `input()` pauses, are left out. They are operator interaction and change no stored data.
- `time.sleep`, `random.*` and `print` are left out. They affect timing and console output only.
- `ylp.launcher.py` is not part of this model. It only starts a browser process and creates a directory.
- The internals of `urlparse`, `parse_qs` and `unquote` are not modelled. They appear as the `UrlCodec` parameter. `unquote` is treated as total, since it does not raise on `str`.
- CSV quoting, escaping and UTF-8 encoding are not modelled. A file is the row sequence the csv reader would return, and a written row is read back as written.
- An existing file whose last line lacks a line terminator is not modelled. Appending to such a file would merge the new row into that line.
- The outer `try/except` of the search script and the early returns on connection failure are not modelled. They only report and stop.
- I/O errors while writing a file are not modelled. So is a `print` that raises after a write. Saves always succeed in the model.
- Exceptions inside a result item are modelled only as an `Unreadable` item, which is skipped before saving.
- ListingStore.SavePreservesConsistency: requires that the file is absent or that its header's last "URL" column is the fourth. An existing but empty file does not qualify. `save_csv` writes no header there, so the first saved row becomes the header and its URL is not reloaded next run.
- ListingCrawl.Crawl: the page sequence is a finite window of what the site shows. When every answer in the window is true, the model stops at the window's end, while the script would keep going.
- The search crawler's page counter `page_num` is the `pagesDone` result of `Crawl`. The per-page progress messages are not modelled.
