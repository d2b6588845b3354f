/** The two scripts as pipeline stages: the detail crawler's queue is read
    from the listing file the search crawler wrote. */
module Pipeline {
  import opened Basics
  import opened Csv
  import opened ListingStore
  import opened DetailCrawl

  lemma {:induction false} RowsOfIndex(ls: seq<Listing>, i: nat)
    requires i < |ls|
    ensures RowsOf(ls)[i] == ToRow(ls[i])
    decreases i
  {
    if i > 0 {
      RowsOfIndex(ls[1..], i - 1);
    }
  }

  /** Every queue entry read back from listing rows names one of the
      listings, with its name and URL. */
  lemma QueueOfListings(ls: seq<Listing>)
    ensures forall e :: e in QueueFrom(ListingHeader, RowsOf(ls)) ==>
              exists k :: 0 <= k < |ls| && e == Entry(Some(ls[k].name), ls[k].url)
  {
    ListingHeaderColumns();
    QueueFromComplete(ListingHeader, RowsOf(ls));
    forall e | e in QueueFrom(ListingHeader, RowsOf(ls))
      ensures exists k :: 0 <= k < |ls| && e == Entry(Some(ls[k].name), ls[k].url)
    {
      var k :| 0 <= k < |RowsOf(ls)| && Eligible(ListingHeader, RowsOf(ls)[k])
               && e == EntryOf(ListingHeader, RowsOf(ls)[k]);
      RowsOfIndex(ls, k);
    }
  }

  /** No two queue entries share a Yelp URL. */
  predicate DistinctUrls(q: seq<Entry>) {
    forall i, j :: 0 <= i < j < |q| ==> q[i].url != q[j].url
  }

  /** Queue entries read from listings with pairwise distinct URLs also have
      pairwise distinct URLs. */
  lemma {:induction false} DistinctListingsDistinctQueue(ls: seq<Listing>)
    requires forall i, j :: 0 <= i < j < |ls| ==> ls[i].url != ls[j].url
    ensures DistinctUrls(QueueFrom(ListingHeader, RowsOf(ls)))
    decreases |ls|
  {
    if |ls| > 0 {
      var rest := QueueFrom(ListingHeader, RowsOf(ls[1..]));
      DistinctListingsDistinctQueue(ls[1..]);
      QueueOfListings(ls[1..]);
      assert RowsOf(ls)[1..] == RowsOf(ls[1..]);
      var q := QueueFrom(ListingHeader, RowsOf(ls));
      if Eligible(ListingHeader, RowsOf(ls)[0]) {
        ListingHeaderColumns();
        assert q == [EntryOf(ListingHeader, RowsOf(ls)[0])] + rest;
        assert q[0].url == ls[0].url;
        forall j | 1 <= j < |q|
          ensures q[0].url != q[j].url
        {
          assert q[j] in rest;
          var k :| 0 <= k < |ls[1..]| && q[j] == Entry(Some(ls[1..][k].name), ls[1..][k].url);
          assert ls[1..][k] == ls[k + 1];
        }
        forall i, j | 1 <= i < j < |q|
          ensures q[i].url != q[j].url
        {
          assert q[i] == rest[i - 1] && q[j] == rest[j - 1];
          assert 0 <= i - 1 < j - 1 < |rest|;
          assert rest[i - 1].url != rest[j - 1].url;
        }
      } else {
        assert q == rest;
      }
    }
  }

  /** A listing file written from scratch by one search session loads as a
      work queue whose entries have pairwise distinct Yelp URLs: the detail
      crawler visits each business at most once. */
  lemma FreshSessionQueueIsDistinct(ls: seq<Listing>)
    ensures var f := SaveAll(Store(None, {}), ls).file;
      && !LoadQueue(f).NameKeyError?
      && (LoadQueue(f).Queue? ==> DistinctUrls(LoadQueue(f).entries))
  {
    var s := Store(None, {});
    var acc := Accepted(s, ls);
    SessionAppendsDistinct(s, ls);
    AppendAllShape(None, ListingHeader, RowsOf(acc));
    if |acc| > 0 {
      var rows := [ListingHeader] + RowsOf(acc);
      assert SaveAll(s, ls).file == Some(rows);
      assert rows[0] == ListingHeader && rows[1..] == RowsOf(acc);
      assert "Name" in ListingHeader;
      assert LoadQueue(Some(rows)) == Queue(QueueFrom(ListingHeader, RowsOf(acc)));
      DistinctListingsDistinctQueue(acc);
    }
  }
}
