/** The detail crawler: the work queue read from the listing file, the
    phone and website defaults of one detail page, the unconditional append
    to the detail file, and the queue drain that skips failed entries. The
    browser is replaced by the element lookups it would answer. */
module DetailCrawl {
  import opened Basics
  import opened Text
  import opened Links
  import opened Csv

  const DetailHeader: Row := ["Name", "Phone", "Website", "Yelp URL"]

  /** `save_csv` of the detail crawler: the row is always appended (after a
      header if the file was absent); there is no duplicate check. */
  function SaveDetail(file: CsvFile, row: Row): (r: CsvFile)
    ensures r.Some?
    ensures file.None? ==> r.value == [DetailHeader, row]
    ensures file.Some? ==> r.value == file.value + [row]
  {
    var r := Append(file, DetailHeader, row);
    assert file.Some? ==> r.value == r.value[..|file.value|] + [row];
    r
  }

  /** Saving the same row twice stores it twice: unlike the listing store,
      the detail file is not de-duplicated. */
  lemma SaveDetailKeepsDuplicates(file: CsvFile, row: Row)
    ensures var rows := SaveDetail(SaveDetail(file, row), row).value;
      |rows| == |Lines(file, DetailHeader)| + 2 && rows[|rows| - 2] == row && rows[|rows| - 1] == row
  {
  }

  /** The contact part of a detail page as the driver answers it. `phone`:
      the "Phone number" label, then the text of the element after it.
      `website`: the "Business website" label, then the element after it,
      then the anchor in that element with its `href` attribute. */
  datatype DetailPage = DetailPage(
    phone: Lookup<Lookup<string>>,
    website: Lookup<Lookup<Lookup<Option<string>>>>)

  /** The phone number, `"N/A"` unless both the label and the element after
      it are found (an exception anywhere leaves the default). */
  function Phone(probe: Lookup<Lookup<string>>): (phone: string)
    ensures probe.Found? && probe.v.Found? ==> phone == probe.v.v
    ensures !(probe.Found? && probe.v.Found?) ==> phone == NotAvailable
  {
    match probe
    case Found(Found(text)) => text
    case _ => NotAvailable
  }

  /** The website, `"N/A"` unless the label, the element after it and the
      anchor are all found, in which case the anchor's cleaned `href`. */
  function Website(codec: UrlCodec, probe: Lookup<Lookup<Lookup<Option<string>>>>): (website: string)
    ensures probe.Found? && probe.v.Found? && probe.v.v.Found?
            ==> website == CleanWebsiteLink(codec, probe.v.v.v)
    ensures !(probe.Found? && probe.v.Found? && probe.v.v.Found?) ==> website == NotAvailable
  {
    match probe
    case Found(Found(Found(href))) => CleanWebsiteLink(codec, href)
    case _ => NotAvailable
  }

  /** A queue entry: the listing's name (None when its row is too short to
      reach the `Name` column) and its Yelp URL. */
  datatype Entry = Entry(name: Option<string>, url: string)

  /** A row of the listing file goes to the queue when its `URL` field is
      present, non-empty and contains `"http"`. */
  predicate Eligible(header: Row, row: Row) {
    match Get(header, row, "URL")
    case Some(u) => u != "" && Contains(u, "http")
    case None => false
  }

  function EntryOf(header: Row, row: Row): Entry
    requires Eligible(header, row)
  {
    Entry(Get(header, row, "Name"), Get(header, row, "URL").value)
  }

  /** The eligible data rows as queue entries, in file order. */
  function QueueFrom(header: Row, rows: seq<Row>): (q: seq<Entry>)
    ensures |q| <= |rows|
    ensures forall i :: 0 <= i < |q| ==> q[i].url != "" && Contains(q[i].url, "http")
    decreases |rows|
  {
    if |rows| == 0 then []
    else (if Eligible(header, rows[0]) then [EntryOf(header, rows[0])] else []) + QueueFrom(header, rows[1..])
  }

  /** The queue is built row by row: splitting the rows splits the queue. */
  lemma {:induction false} QueueFromConcat(header: Row, a: seq<Row>, b: seq<Row>)
    ensures QueueFrom(header, a + b) == QueueFrom(header, a) + QueueFrom(header, b)
    decreases |a|
  {
    if |a| == 0 {
      assert a + b == b;
    } else {
      assert (a + b)[1..] == a[1..] + b;
      QueueFromConcat(header, a[1..], b);
    }
  }

  /** Every eligible row is queued, and only eligible rows are. */
  lemma {:induction false} QueueFromComplete(header: Row, rows: seq<Row>)
    ensures forall i :: 0 <= i < |rows| && Eligible(header, rows[i]) ==> EntryOf(header, rows[i]) in QueueFrom(header, rows)
    ensures forall e :: e in QueueFrom(header, rows) ==>
              exists i :: 0 <= i < |rows| && Eligible(header, rows[i]) && e == EntryOf(header, rows[i])
    decreases |rows|
  {
    if |rows| > 0 {
      QueueFromComplete(header, rows[1..]);
      forall i | 1 <= i < |rows| && Eligible(header, rows[i])
        ensures EntryOf(header, rows[i]) in QueueFrom(header, rows)
      {
        assert rows[1..][i - 1] == rows[i];
      }
      forall e | e in QueueFrom(header, rows)
        ensures exists i :: 0 <= i < |rows| && Eligible(header, rows[i]) && e == EntryOf(header, rows[i])
      {
        if e !in QueueFrom(header, rows[1..]) {
          assert Eligible(header, rows[0]) && e == EntryOf(header, rows[0]);
        } else {
          var k :| 0 <= k < |rows[1..]| && Eligible(header, rows[1..][k]) && e == EntryOf(header, rows[1..][k]);
          assert rows[1..][k] == rows[k + 1];
        }
      }
    }
  }

  /** How loading the work queue ends: the input file is missing (the
      crawler reports it and returns), a queued row has no `Name` key (the
      KeyError is not caught), or the queue. */
  datatype QueueLoad = InputMissing | NameKeyError | Queue(entries: seq<Entry>)

  /** Reading the listing file into the work queue. */
  function LoadQueue(file: CsvFile): (r: QueueLoad)
    ensures r.InputMissing? <==> file.None?
    ensures r.NameKeyError? ==> |file.value| > 0 && "Name" !in file.value[0]
    ensures (file.Some? && |file.value| > 0 && "Name" !in file.value[0]
             && |QueueFrom(file.value[0], file.value[1..])| > 0) ==> r.NameKeyError?
    ensures r.Queue? && |file.value| > 0 ==> r.entries == QueueFrom(file.value[0], file.value[1..])
    ensures r.Queue? && |file.value| == 0 ==> r.entries == []
  {
    match file
    case None => InputMissing
    case Some(rows) =>
      if |rows| == 0 then Queue([])
      else
        var q := QueueFrom(rows[0], rows[1..]);
        if |q| > 0 && "Name" !in rows[0] then NameKeyError else Queue(q)
  }

  /** What visiting one entry gives: a page to read, or an exception on the
      way (navigation, the block check, the hours button). */
  datatype Visit = Failed | Loaded(page: DetailPage)

  /** The detail row for an entry whose page loaded. A missing name is
      written as the empty field, as the csv writer does with None. */
  function DetailRow(codec: UrlCodec, e: Entry, page: DetailPage): (row: Row)
    ensures |row| == 4 && row[0] == e.name.GetOr("") && row[3] == e.url
    ensures row[1] == Phone(page.phone) && row[2] == Website(codec, page.website)
  {
    [e.name.GetOr(""), Phone(page.phone), Website(codec, page.website), e.url]
  }

  /** The rows a drain writes: one per entry whose visit succeeded, in queue
      order. */
  function SavedRows(codec: UrlCodec, queue: seq<Entry>, visits: seq<Visit>): (rows: seq<Row>)
    requires |visits| == |queue|
    ensures |rows| <= |queue|
    decreases |queue|
  {
    if |queue| == 0 then []
    else
      (match visits[0]
       case Loaded(page) => [DetailRow(codec, queue[0], page)]
       case Failed => [])
      + SavedRows(codec, queue[1..], visits[1..])
  }

  /** Entries are handled independently: the rows of a split queue are the
      rows of its parts, so a failure on one entry affects no other. */
  lemma {:induction false} SavedRowsConcat(codec: UrlCodec, q1: seq<Entry>, v1: seq<Visit>, q2: seq<Entry>, v2: seq<Visit>)
    requires |v1| == |q1| && |v2| == |q2|
    ensures SavedRows(codec, q1 + q2, v1 + v2) == SavedRows(codec, q1, v1) + SavedRows(codec, q2, v2)
    decreases |q1|
  {
    if |q1| == 0 {
      assert q1 + q2 == q2 && v1 + v2 == v2;
    } else {
      assert (q1 + q2)[1..] == q1[1..] + q2;
      assert (v1 + v2)[1..] == v1[1..] + v2;
      SavedRowsConcat(codec, q1[1..], v1[1..], q2, v2);
    }
  }

  /** When every visit succeeds, every entry is saved exactly once, in
      queue order. */
  lemma {:induction false} AllLoadedAllSaved(codec: UrlCodec, queue: seq<Entry>, visits: seq<Visit>)
    requires |visits| == |queue|
    requires forall i :: 0 <= i < |visits| ==> visits[i].Loaded?
    ensures |SavedRows(codec, queue, visits)| == |queue|
    ensures forall i :: 0 <= i < |queue| ==>
              SavedRows(codec, queue, visits)[i] == DetailRow(codec, queue[i], visits[i].page)
    decreases |queue|
  {
    if |queue| > 0 {
      AllLoadedAllSaved(codec, queue[1..], visits[1..]);
    }
  }

  /** The queue drain: each entry is visited once, in order; a failed visit
      skips that entry's save and the loop goes on. */
  method Drain(codec: UrlCodec, out: CsvFile, queue: seq<Entry>, visits: seq<Visit>)
    returns (out': CsvFile, saved: nat)
    requires |visits| == |queue|
    ensures saved == |SavedRows(codec, queue, visits)| <= |queue|
    ensures out' == AppendAll(out, DetailHeader, SavedRows(codec, queue, visits))
    ensures saved == 0 ==> out' == out
    ensures saved > 0 ==> out' == Some(Lines(out, DetailHeader) + SavedRows(codec, queue, visits))
  {
    out' := out;
    saved := 0;
    var i := 0;
    while i < |queue|
      invariant 0 <= i <= |queue|
      invariant AppendAll(out', DetailHeader, SavedRows(codec, queue[i..], visits[i..]))
                == AppendAll(out, DetailHeader, SavedRows(codec, queue, visits))
      invariant saved + |SavedRows(codec, queue[i..], visits[i..])| == |SavedRows(codec, queue, visits)|
    {
      assert queue[i..][1..] == queue[i + 1..];
      assert visits[i..][1..] == visits[i + 1..];
      if visits[i].Loaded? {
        var row := DetailRow(codec, queue[i], visits[i].page);
        var rows := SavedRows(codec, queue[i..], visits[i..]);
        assert rows[0] == row && rows[1..] == SavedRows(codec, queue[i + 1..], visits[i + 1..]);
        assert SaveDetail(out', row) == Append(out', DetailHeader, row);
        out' := SaveDetail(out', row);
        saved := saved + 1;
      } else {
        assert SavedRows(codec, queue[i..], visits[i..]) == SavedRows(codec, queue[i + 1..], visits[i + 1..]);
      }
      i := i + 1;
    }
    AppendAllShape(out, DetailHeader, SavedRows(codec, queue, visits));
  }

  /** A loaded page whose phone and website lookups both raise is still
      saved, with both fields defaulted: the field extractions catch their
      own exceptions, so only a failed visit skips an entry's save. */
  lemma FailedFieldsStillSaved(codec: UrlCodec, e: Entry, q2: seq<Entry>, v2: seq<Visit>)
    requires |v2| == |q2|
    ensures SavedRows(codec, [e] + q2, [Loaded(DetailPage(Raises, Raises))] + v2)
            == [[e.name.GetOr(""), NotAvailable, NotAvailable, e.url]] + SavedRows(codec, q2, v2)
  {
    assert ([e] + q2)[1..] == q2;
    assert ([Loaded(DetailPage(Raises, Raises))] + v2)[1..] == v2;
  }
}
