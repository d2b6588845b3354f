/** The listing crawler's de-duplicating store: the listing file plus the
    in-memory set of URLs already scraped (`load_existing_urls` and
    `save_csv` of the search script). */
module ListingStore {
  import opened Basics
  import opened Csv

  /** One search result as written to the listing file. */
  datatype Listing = Listing(name: string, rating: string, reviews: string, url: string)

  const ListingHeader: Row := ["Name", "Rating", "Reviews", "URL"]

  /** The listing laid out in header order. */
  function ToRow(l: Listing): Row {
    [l.name, l.rating, l.reviews, l.url]
  }

  /** The URL a data row contributes to the seen set: its `URL` field when
      that is present and non-empty (`if row.get("URL")`). */
  function UrlField(header: Row, row: Row): Option<string> {
    match Get(header, row, "URL")
    case Some(u) => if u != "" then Some(u) else None
    case None => None
  }

  /** The non-empty URL fields of the data rows of a listing file. */
  function UrlsOf(file: CsvFile): set<string> {
    match file
    case None => {}
    case Some(rows) =>
      set i | 1 <= i < |rows| && UrlField(rows[0], rows[i]).Some? :: UrlField(rows[0], rows[i]).value
  }

  /** `load_existing_urls`: read every data row and collect its URL; a
      missing file yields the empty set. */
  method LoadExistingUrls(file: CsvFile) returns (seen: set<string>)
    ensures seen == UrlsOf(file)
    ensures file.None? ==> seen == {}
    ensures "" !in seen
  {
    seen := {};
    if file.None? {
      return;
    }
    var rows := file.value;
    if |rows| == 0 {
      return;
    }
    var header := rows[0];
    var i := 1;
    while i < |rows|
      invariant 1 <= i <= |rows|
      invariant seen == set k | 1 <= k < i && UrlField(header, rows[k]).Some? :: UrlField(header, rows[k]).value
    {
      var url := UrlField(header, rows[i]);
      if url.Some? {
        seen := seen + {url.value};
      }
      i := i + 1;
    }
  }

  /** The listing file together with the URLs the session treats as saved. */
  datatype Store = Store(file: CsvFile, seen: set<string>)

  /** `save_csv` of the search script: a URL already seen is skipped and
      reported as not saved; otherwise the row is appended (after a header if
      the file was absent) and its URL remembered. */
  function SaveCsv(s: Store, l: Listing): (r: (Store, bool))
    ensures r.1 <==> l.url !in s.seen
    ensures r.0.seen == s.seen + {l.url}
    ensures !r.1 ==> r.0.file == s.file
    ensures r.1 ==> r.0.file == Append(s.file, ListingHeader, ToRow(l))
  {
    if l.url in s.seen then (s, false)
    else (Store(Append(s.file, ListingHeader, ToRow(l)), s.seen + {l.url}), true)
  }

  /** Saving the same listing twice in a row writes it once: the second call
      reports a duplicate and changes nothing. */
  lemma SaveIsIdempotent(s: Store, l: Listing)
    ensures var s1 := SaveCsv(s, l).0; SaveCsv(s1, l) == (s1, false)
  {
  }

  /** A new listing adds exactly one row at the end of the file, preceded by
      the header only when the file did not exist, and leaves every earlier
      row as it was. */
  lemma SaveNewAppendsOneRow(s: Store, l: Listing)
    requires l.url !in s.seen
    ensures var (s1, saved) := SaveCsv(s, l);
      && saved
      && s1.seen == s.seen + {l.url}
      && s1.file.Some?
      && (s.file.None? ==> s1.file.value == [ListingHeader, ToRow(l)])
      && (s.file.Some? ==> s1.file.value == s.file.value + [ToRow(l)])
  {
    var f := SaveCsv(s, l).0.file.value;
    if s.file.Some? {
      assert f == f[..|s.file.value|] + [f[|f| - 1]];
    }
  }

  /** A file whose header puts the `URL` column (its last occurrence) fourth,
      where `save_csv` writes the URL; an absent file qualifies because the
      first save writes that header. */
  predicate HeaderOk(file: CsvFile) {
    file.None? || (|file.value| > 0 && LastIndexOf(file.value[0], "URL") == Some(3))
  }

  /** The store's invariant: the seen set is exactly the set of non-empty URL
      fields in the file. */
  predicate Consistent(s: Store) {
    HeaderOk(s.file) && s.seen == UrlsOf(s.file)
  }

  /** Where `DictReader` finds the name and the URL under the header
      `save_csv` writes. */
  lemma ListingHeaderColumns()
    ensures LastIndexOf(ListingHeader, "URL") == Some(3)
    ensures LastIndexOf(ListingHeader, "Name") == Some(0)
  {
  }

  /** Appending a listing with a non-empty URL to a well-formed file adds
      exactly that URL to the file's URLs. */
  lemma UrlsOfAppend(file: CsvFile, l: Listing)
    requires HeaderOk(file) && l.url != ""
    ensures HeaderOk(Append(file, ListingHeader, ToRow(l)))
    ensures UrlsOf(Append(file, ListingHeader, ToRow(l))) == UrlsOf(file) + {l.url}
  {
    ListingHeaderColumns();
    var rows := Append(file, ListingHeader, ToRow(l)).value;
    var n := |rows| - 1;
    assert rows[0] == Lines(file, ListingHeader)[0];
    assert UrlField(rows[0], rows[n]) == Some(l.url);
    var before := Lines(file, ListingHeader);
    forall i | 1 <= i < n
      ensures UrlField(rows[0], rows[i]) == UrlField(before[0], before[i])
    {
    }
    assert l.url in UrlsOf(Append(file, ListingHeader, ToRow(l)));
  }

  /** `save_csv` keeps the store consistent whenever the URL it is given is
      non-empty. */
  lemma SavePreservesConsistency(s: Store, l: Listing)
    requires Consistent(s) && l.url != ""
    ensures Consistent(SaveCsv(s, l).0)
  {
    if l.url !in s.seen {
      UrlsOfAppend(s.file, l);
    }
  }

  /** Reloading a file the store wrote: a consistent store loads back exactly
      its seen set. Together with SavePreservesConsistency this is the
      resumability of a crawl across runs. */
  method Reload(s: Store) returns (seen: set<string>)
    requires Consistent(s)
    ensures seen == s.seen
  {
    seen := LoadExistingUrls(s.file);
  }

  /** One crawl session's saves, in order. */
  function SaveAll(s: Store, ls: seq<Listing>): Store
    decreases |ls|
  {
    if |ls| == 0 then s else SaveAll(SaveCsv(s, ls[0]).0, ls[1..])
  }

  /** The listings a session actually writes, in order. */
  function Accepted(s: Store, ls: seq<Listing>): seq<Listing>
    decreases |ls|
  {
    if |ls| == 0 then []
    else
      var (s1, saved) := SaveCsv(s, ls[0]);
      (if saved then [ls[0]] else []) + Accepted(s1, ls[1..])
  }

  /** Listings laid out as rows, in order. */
  function RowsOf(ls: seq<Listing>): (rows: seq<Row>)
    ensures |rows| == |ls|
    decreases |ls|
  {
    if |ls| == 0 then [] else [ToRow(ls[0])] + RowsOf(ls[1..])
  }

  /** The URLs of a sequence of listings. */
  function Urls(ls: seq<Listing>): set<string> {
    set i | 0 <= i < |ls| :: ls[i].url
  }

  /** A session remembers every URL it was given, writes exactly the
      accepted listings after the existing rows, and the accepted listings
      have pairwise distinct URLs, none of which was seen before the session. */
  lemma {:induction false} SessionAppendsDistinct(s: Store, ls: seq<Listing>)
    ensures SaveAll(s, ls).seen == s.seen + Urls(ls)
    ensures SaveAll(s, ls).file == AppendAll(s.file, ListingHeader, RowsOf(Accepted(s, ls)))
    ensures forall i :: 0 <= i < |Accepted(s, ls)| ==> Accepted(s, ls)[i].url !in s.seen && Accepted(s, ls)[i].url in Urls(ls)
    ensures forall i, j :: 0 <= i < j < |Accepted(s, ls)| ==> Accepted(s, ls)[i].url != Accepted(s, ls)[j].url
    decreases |ls|
  {
    if |ls| > 0 {
      var (s1, saved) := SaveCsv(s, ls[0]);
      SessionAppendsDistinct(s1, ls[1..]);
      var rest := Accepted(s1, ls[1..]);
      assert Urls(ls) == {ls[0].url} + Urls(ls[1..]) by {
        forall u | u in Urls(ls) ensures u in {ls[0].url} + Urls(ls[1..]) {
          var i :| 0 <= i < |ls| && ls[i].url == u;
          if i > 0 { assert ls[1..][i - 1].url == u; }
        }
      }
      var acc := Accepted(s, ls);
      if saved {
        assert acc == [ls[0]] + rest;
        assert acc[1..] == rest;
      } else {
        assert acc == rest;
      }
    }
  }

  /** Over a whole session from a consistent store and with non-empty URLs,
      the store stays consistent: the seen set still equals the URLs in the
      file. */
  lemma {:induction false} SessionPreservesConsistency(s: Store, ls: seq<Listing>)
    requires Consistent(s)
    requires forall i :: 0 <= i < |ls| ==> ls[i].url != ""
    ensures Consistent(SaveAll(s, ls))
    decreases |ls|
  {
    if |ls| > 0 {
      SavePreservesConsistency(s, ls[0]);
      SessionPreservesConsistency(SaveCsv(s, ls[0]).0, ls[1..]);
    }
  }

  /** Two sessions back to back are one session over both inputs. */
  lemma {:induction false} SaveAllConcat(s: Store, a: seq<Listing>, b: seq<Listing>)
    ensures SaveAll(s, a + b) == SaveAll(SaveAll(s, a), b)
    decreases |a|
  {
    if |a| > 0 {
      assert (a + b)[1..] == a[1..] + b;
      SaveAllConcat(SaveCsv(s, a[0]).0, a[1..], b);
    } else {
      assert a + b == b;
    }
  }

  /** No two data rows of the file carry the same non-empty URL: what
      "saves a row only if URL is unique" promises of the file itself. */
  ghost predicate DistinctUrlRows(file: CsvFile) {
    file.None? ||
    forall i, j :: 1 <= i < j < |file.value| && UrlField(file.value[0], file.value[i]).Some?
      ==> UrlField(file.value[0], file.value[i]) != UrlField(file.value[0], file.value[j])
  }

  /** From a consistent store, `save_csv` never creates a second row with a
      URL the file already holds, whatever run wrote the existing rows. */
  lemma SaveKeepsUrlRowsDistinct(s: Store, l: Listing)
    requires Consistent(s) && DistinctUrlRows(s.file) && l.url != ""
    ensures DistinctUrlRows(SaveCsv(s, l).0.file)
  {
    if l.url !in s.seen {
      ListingHeaderColumns();
      var before := Lines(s.file, ListingHeader);
      var rows := Append(s.file, ListingHeader, ToRow(l)).value;
      var n := |rows| - 1;
      assert rows[0] == before[0];
      assert UrlField(rows[0], rows[n]) == Some(l.url);
      forall i | 1 <= i < n
        ensures rows[i] == before[i]
        ensures UrlField(rows[0], rows[i]) != Some(l.url)
      {
        if UrlField(before[0], before[i]).Some? {
          assert UrlField(before[0], before[i]).value in UrlsOf(s.file);
        }
      }
    }
  }

  /** Over a whole session from a consistent store, the non-empty URLs of
      the file's data rows stay pairwise distinct. */
  lemma {:induction false} SessionKeepsUrlRowsDistinct(s: Store, ls: seq<Listing>)
    requires Consistent(s) && DistinctUrlRows(s.file)
    requires forall i :: 0 <= i < |ls| ==> ls[i].url != ""
    ensures DistinctUrlRows(SaveAll(s, ls).file)
    decreases |ls|
  {
    if |ls| > 0 {
      SaveKeepsUrlRowsDistinct(s, ls[0]);
      SavePreservesConsistency(s, ls[0]);
      SessionKeepsUrlRowsDistinct(SaveCsv(s, ls[0]).0, ls[1..]);
    }
  }
}
