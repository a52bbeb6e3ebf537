/** What the parts of a full-market ranking mean: a row, a universe, the reply that stands for a page, a complete run of
    pages, and a run that breaks off. */
module MarketRankingPages {
  import opened Exchanges
  import opened MarketRankings
  import opened Paging
  import opened Wrappers

  // ---- Rows and universes --------------------------------------------------------------------------------

  /** A row is read exactly if all its fields are there, its time is not zero, and a volume ratio is not negative; it is
      read as it stands. */
  lemma RowsAreReadAsTheyStand(rows: seq<Row>, kind: Kind, quotes: seq<Quote>)
    ensures Reads(rows, kind, quotes)
            <==> && |rows| == |quotes|
                 && forall i | 0 <= i < |rows| ::
                      && rows[i].instrument == Some(quotes[i].instrument) && rows[i].name == Some(quotes[i].name)
                      && rows[i].value == Some(quotes[i].value) && rows[i].epoch == Some(quotes[i].epoch)
                      && quotes[i].epoch > 0 && (kind == VolumeRatio ==> quotes[i].value >= 0.0)
  {
    hide ReadRow;
    forall i | 0 <= i < |rows| && i < |quotes|
      ensures ReadRow(rows[i], kind) == Some(quotes[i])
              <==> && rows[i].instrument == Some(quotes[i].instrument) && rows[i].name == Some(quotes[i].name)
                   && rows[i].value == Some(quotes[i].value) && rows[i].epoch == Some(quotes[i].epoch)
                   && quotes[i].epoch > 0 && (kind == VolumeRatio ==> quotes[i].value >= 0.0)
    {
      RowIsRead(rows[i], kind, quotes[i]);
    }
  }

  lemma RowIsRead(row: Row, kind: Kind, quote: Quote)
    ensures ReadRow(row, kind) == Some(quote)
            <==> && row.instrument == Some(quote.instrument) && row.name == Some(quote.name)
                 && row.value == Some(quote.value) && row.epoch == Some(quote.epoch)
                 && quote.epoch > 0 && (kind == VolumeRatio ==> quote.value >= 0.0)
  {
  }

  predicate Lists(quotes: seq<Quote>, exchange: Exchange) {
    exists q | q in quotes :: q.instrument.exchange == exchange
  }

  /** A universe lists no instrument twice, in descending order of the values, all at one time, and some on every
      exchange there is. */
  lemma UniversesMean(quotes: seq<Quote>)
    ensures Universe(quotes)
            <==> && (forall i, j | 0 <= i < j < |quotes| ::
                       && quotes[i].instrument != quotes[j].instrument && quotes[i].value >= quotes[j].value
                       && quotes[i].epoch == quotes[j].epoch)
                 && forall exchange: Exchange :: Lists(quotes, exchange)
  {
    hide Lists, ListedOn;
    forall exchange: Exchange ensures Lists(quotes, exchange) <==> ListedOn(quotes, exchange) {
      ListingMeans(quotes, exchange);
    }
    if forall exchange: Exchange :: Lists(quotes, exchange) {
      assert Lists(quotes, Shanghai) && Lists(quotes, Shenzhen) && Lists(quotes, Beijing);
    }
    if EveryExchange(quotes) {
      forall exchange: Exchange ensures Lists(quotes, exchange) {
        assert exchange == Shanghai || exchange == Shenzhen || exchange == Beijing;
      }
    }
  }

  lemma ListingMeans(quotes: seq<Quote>, exchange: Exchange)
    ensures Lists(quotes, exchange) <==> ListedOn(quotes, exchange)
  {
  }

  // ---- Pages -----------------------------------------------------------------------------------------------

  /** The reply that stands for a page is the first of three that is not dropped, or the third. */
  lemma DeliveriesMean(server: Server, endpoint: Endpoint, page: nat, reply: Reply)
    ensures Delivered(server, endpoint, page) == reply
            <==> exists attempt: nat :: IsAnswer(server, endpoint, page, attempt, reply)
  {
    var first, second, third := server(endpoint, page, 1), server(endpoint, page, 2), server(endpoint, page, 3);
    assert Delivered(server, endpoint, page) == if !first.Dropped? then first else if !second.Dropped? then second else third by {
      assert AnswerFrom(server, endpoint, page, 3) == third;
    }
    if Delivered(server, endpoint, page) == reply {
      assert IsAnswer(server, endpoint, page, if !first.Dropped? then 1 else if !second.Dropped? then 2 else 3, reply);
    }
    forall attempt: nat | IsAnswer(server, endpoint, page, attempt, reply) ensures Delivered(server, endpoint, page) == reply {
      assert attempt == 1 || attempt == 2 || attempt == 3;
      assert attempt > 1 ==> first.Dropped?;
      assert attempt > 2 ==> second.Dropped?;
    }
  }

  /** Pages with one total from 1 to 20000, each the one that stands for its number. */
  predicate OnePageAfterAnother(server: Server, endpoint: Endpoint, pages: seq<Envelope>) {
    forall i: nat | i < |pages| ::
      Delivered(server, endpoint, i + 1) == Page(pages[i]) && 1 <= pages[i].total <= 20_000 && pages[i].total == pages[0].total
  }

  /** The first `n` pages hold one hundred rows each, and together less than the total. */
  predicate FullBefore(pages: seq<Envelope>, n: nat)
    requires n <= |pages|
  {
    forall i: nat | i < n :: |pages[i].rows| == 100 && 100 * (i + 1) < pages[i].total
  }

  /** Full pages that leave rows to come. */
  predicate FullPages(server: Server, endpoint: Endpoint, pages: seq<Envelope>) {
    OnePageAfterAnother(server, endpoint, pages) && FullBefore(pages, |pages|)
  }

  lemma UnfinishedMeans(server: Server, endpoint: Endpoint, pages: seq<Envelope>)
    ensures Unfinished(server, endpoint, pages) <==> FullPages(server, endpoint, pages)
  {
    hide Delivered;
    if Unfinished(server, endpoint, pages) {
      forall i: nat | i < |pages|
        ensures Delivered(server, endpoint, i + 1) == Page(pages[i]) && 1 <= pages[i].total <= 20_000
        ensures pages[i].total == pages[0].total && |pages[i].rows| == 100 && 100 * (i + 1) < pages[i].total
      {
        assert Received(server, endpoint, pages, i);
      }
    }
    if OnePageAfterAnother(server, endpoint, pages) && FullBefore(pages, |pages|) {
      forall i: nat | i < |pages|
        ensures Received(server, endpoint, pages, i) && |pages[i].rows| == 100 && Consumed(pages[i], i) < pages[i].total
      {
        assert Delivered(server, endpoint, i + 1) == Page(pages[i]);
      }
    }
  }

  /** A complete run of pages: full ones that leave rows to come, and a last one that reaches the total. */
  lemma SnapshotsMean(server: Server, endpoint: Endpoint, pages: seq<Envelope>)
    ensures Snapshot(server, endpoint, pages)
            <==> && pages != [] && OnePageAfterAnother(server, endpoint, pages) && FullBefore(pages, |pages| - 1)
                 && 100 * (|pages| - 1) + |pages[|pages| - 1].rows| >= pages[0].total
  {
    hide Delivered, Unfinished;
    if pages != [] {
      var n: nat := |pages| - 1;
      var init := pages[..n];
      UnfinishedMeans(server, endpoint, init);
      hide OnePageAfterAnother, FullBefore;
      LastPage(server, endpoint, pages);
      FirstPages(pages);
    }
  }

  lemma LastPage(server: Server, endpoint: Endpoint, pages: seq<Envelope>)
    requires pages != []
    ensures OnePageAfterAnother(server, endpoint, pages)
            <==> OnePageAfterAnother(server, endpoint, pages[..|pages| - 1]) && Received(server, endpoint, pages, |pages| - 1)
  {
    hide Delivered;
    var init, last: nat := pages[..|pages| - 1], |pages| - 1;
    assert Delivered(server, endpoint, last + 1) == Delivered(server, endpoint, last + 1);
    if OnePageAfterAnother(server, endpoint, pages) {
      forall i: nat | i < |init|
        ensures Delivered(server, endpoint, i + 1) == Page(init[i]) && 1 <= init[i].total <= 20_000 && init[i].total == init[0].total
      {
        assert Delivered(server, endpoint, i + 1) == Page(pages[i]);
      }
    }
    if OnePageAfterAnother(server, endpoint, init) && Received(server, endpoint, pages, last) {
      forall i: nat | i < |pages|
        ensures Delivered(server, endpoint, i + 1) == Page(pages[i]) && 1 <= pages[i].total <= 20_000
        ensures pages[i].total == pages[0].total
      {
        if i < last {
          assert Delivered(server, endpoint, i + 1) == Page(init[i]);
        }
      }
    }
  }

  lemma FirstPages(pages: seq<Envelope>)
    requires pages != []
    ensures FullBefore(pages, |pages| - 1) <==> FullBefore(pages[..|pages| - 1], |pages| - 1)
  {
    var init := pages[..|pages| - 1];
    assert forall i: nat | i < |init| :: init[i] == pages[i];
  }

  /** All three attempts at the page are dropped. */
  predicate Drops(server: Server, endpoint: Endpoint, page: nat) {
    forall attempt: nat | 1 <= attempt <= 3 :: server(endpoint, page, attempt).Dropped?
  }

  /** An endpoint breaks off exactly if, behind full pages that leave rows to come, it drops the next page. */
  lemma BreakingOffMeans(server: Server, endpoint: Endpoint)
    ensures BreaksOff(server, endpoint)
            <==> exists pages :: FullPages(server, endpoint, pages) && Drops(server, endpoint, |pages| + 1)
  {
    hide Delivered, Unfinished, FullPages, Drops;
    forall pages ensures Unfinished(server, endpoint, pages) <==> FullPages(server, endpoint, pages) {
      UnfinishedMeans(server, endpoint, pages);
    }
    forall page: nat ensures Delivered(server, endpoint, page).Dropped? <==> Drops(server, endpoint, page) {
      AllDropped(server, endpoint, page);
    }
  }

  lemma AllDropped(server: Server, endpoint: Endpoint, page: nat)
    ensures Delivered(server, endpoint, page).Dropped? <==> Drops(server, endpoint, page)
  {
    hide Delivered;
    var reply := Delivered(server, endpoint, page);
    DeliveriesMean(server, endpoint, page, reply);
    var attempt: nat :| IsAnswer(server, endpoint, page, attempt, reply);
  }

  /** The collected pages hold a universe exactly if they agree on a total from 1 to 20000, hold at most one hundred rows
      each and that many together, and these read as the universe. */
  lemma HoldingMeans(pages: seq<Envelope>, kind: Kind, quotes: seq<Quote>)
    ensures Holds(pages, kind, quotes)
            <==> && Reads(Rows(pages), kind, quotes) && Universe(quotes) && |quotes| <= 20_000
                 && forall p | p in pages :: p.total == |quotes| && |p.rows| <= 100
  {
    hide ReadRow, Rows, Universe;
    if Universe(quotes) {
      UniverseIsNotEmpty(quotes);
      NoRows();
    }
    if pages != [] {
      assert pages[0] in pages;
    }
  }

  /** The rows of pages are those of each page in turn. */
  lemma RowsOfPages(pages: seq<Envelope>, next: Envelope)
    ensures Rows([]) == [] && Rows(pages + [next]) == Rows(pages) + next.rows
  {
    RowsOfAppend(pages, next);
  }
}
