/** What the parts of the fixings mean: the catalog, a complete run of pages, a readable row and its fixings. */
module FxFixingPages {
  import opened FxFixings
  import opened Paging
  import opened TextLaws
  import opened Texts
  import opened Wrappers

  // ---- Headings --------------------------------------------------------------------------------------------

  /** The 25 headings, in their order; only the yen is quoted by the hundred. */
  lemma CatalogIsAudited()
    ensures Catalog()
            == ["USD/CNY", "EUR/CNY", "100JPY/CNY", "HKD/CNY", "GBP/CNY", "AUD/CNY", "NZD/CNY", "SGD/CNY", "CHF/CNY",
                "CAD/CNY", "CNY/MOP", "CNY/MYR", "CNY/RUB", "CNY/ZAR", "CNY/KRW", "CNY/AED", "CNY/SAR", "CNY/HUF",
                "CNY/PLN", "CNY/DKK", "CNY/SEK", "CNY/NOK", "CNY/TRY", "CNY/MXN", "CNY/THB"]
  {
    QuotedHeadings();
    QuotingHeadings();
  }

  lemma QuotedHeadings()
    ensures seq(|QUOTED_IN_CNY|, i requires 0 <= i < |QUOTED_IN_CNY| => Heading(Pair(QUOTED_IN_CNY[i], "CNY")))
            == ["USD/CNY", "EUR/CNY", "100JPY/CNY", "HKD/CNY", "GBP/CNY", "AUD/CNY", "NZD/CNY", "SGD/CNY", "CHF/CNY",
                "CAD/CNY"]
  {
    hide Heading;
    QuotedHeading("JPY", "100JPY/CNY");
    QuotedHeading("USD", "USD/CNY");
    QuotedHeading("EUR", "EUR/CNY");
    QuotedHeading("HKD", "HKD/CNY");
    QuotedHeading("GBP", "GBP/CNY");
    QuotedHeading("AUD", "AUD/CNY");
    QuotedHeading("NZD", "NZD/CNY");
    QuotedHeading("SGD", "SGD/CNY");
    QuotedHeading("CHF", "CHF/CNY");
    QuotedHeading("CAD", "CAD/CNY");
  }

  lemma QuotedHeading(base: string, heading: string)
    requires |base| == 3 && heading == (if base == "JPY" then "100" else "") + base + "/CNY"
    ensures Heading(Pair(base, "CNY")) == heading
  {
    assert "/CNY" == "/" + "CNY";
  }

  lemma QuotingHeadings()
    ensures seq(|QUOTING_CNY|, i requires 0 <= i < |QUOTING_CNY| => Heading(Pair("CNY", QUOTING_CNY[i])))
            == ["CNY/MOP", "CNY/MYR", "CNY/RUB", "CNY/ZAR", "CNY/KRW", "CNY/AED", "CNY/SAR", "CNY/HUF",
                "CNY/PLN", "CNY/DKK", "CNY/SEK", "CNY/NOK", "CNY/TRY", "CNY/MXN", "CNY/THB"]
  {
    hide Heading;
    QuotingHeading("MOP", "CNY/MOP");
    QuotingHeading("MYR", "CNY/MYR");
    QuotingHeading("RUB", "CNY/RUB");
    QuotingHeading("ZAR", "CNY/ZAR");
    QuotingHeading("KRW", "CNY/KRW");
    QuotingHeading("AED", "CNY/AED");
    QuotingHeading("SAR", "CNY/SAR");
    QuotingHeading("HUF", "CNY/HUF");
    QuotingHeading("PLN", "CNY/PLN");
    QuotingHeading("DKK", "CNY/DKK");
    QuotingHeading("SEK", "CNY/SEK");
    QuotingHeading("NOK", "CNY/NOK");
    QuotingHeading("TRY", "CNY/TRY");
    QuotingHeading("MXN", "CNY/MXN");
    QuotingHeading("THB", "CNY/THB");
  }

  lemma QuotingHeading(quote: string, heading: string)
    requires heading == "CNY/" + quote
    ensures Heading(Pair("CNY", quote)) == heading
  {
    assert "CNY/" + quote == "CNY" + "/" + quote;
  }

  /** The fields between commas of joined parts are the parts again. */
  lemma {:induction false} JoinedPartsSplit(parts: seq<string>)
    requires parts != [] && forall p | p in parts :: ',' !in p
    ensures Split(Joined(parts), ',') == parts
  {
    var n := |parts| - 1;
    if n == 0 {
      SplitWithout(parts[0], ',');
    } else {
      JoinedPartsSplit(parts[..n]);
      SplitMore(Joined(parts[..n]), parts[n]);
      assert parts == parts[..n] + [parts[n]];
    }
  }

  lemma {:induction false} SplitMore(before: string, last: string)
    requires ',' !in last
    ensures Split(before + "," + last, ',') == Split(before, ',') + [last]
  {
    var whole := before + "," + last;
    if before == [] {
      assert whole[1..] == last;
      SplitWithout(last, ',');
    } else {
      assert whole[1..] == before[1..] + "," + last;
      SplitMore(before[1..], last);
    }
  }

  // ---- Pages -------------------------------------------------------------------------------------------------

  /** The page is the one with this number of a result of `n` pages and `total` rows, and carries what was asked for. */
  predicate Carries(page: Page, number: nat, n: nat, total: nat, request: Request) {
    && AllSpace(page.message) && page.start == request.start && page.end == request.end
    && page.number == number && page.pageTotal == n && 1 <= page.pageSize <= 50 && page.total == total
    && page.searchList == Headings(request.pairs) && page.currency == Joined(Headings(request.pairs))
    && page.head == Catalog()
    && forall r | r in page.records :: |r.values| == |request.pairs|
  }

  /** Pages are complete exactly if they are the pages, at most twenty, of a result of as many rows as they hold, at least
      one and at most a thousand. */
  lemma CompleteMeans(pages: seq<Page>, request: Request)
    ensures Complete(pages, request)
            <==> && 1 <= |pages| <= 20 && 1 <= |Rows(pages)| <= 1_000
                 && forall i: nat | i < |pages| :: Carries(pages[i], i + 1, |pages|, |Rows(pages)|, request)
  {
    hide Catalog, Headings, Joined, Trim, Rows, AllSpace, MetadataFits, Carries;
    if Complete(pages, request) {
      assert PageFits(pages, 0, request);
      TotalIsPositive(pages[0], 0, request);
      forall i: nat | i < |pages| ensures Carries(pages[i], i + 1, |pages|, |Rows(pages)|, request) {
        assert PageFits(pages, i, request);
        PagesCarry(pages[i], i, |pages|, |Rows(pages)|, request);
      }
    }
    if && 1 <= |pages| <= 20 && 1 <= |Rows(pages)| <= 1_000
       && forall i: nat | i < |pages| :: Carries(pages[i], i + 1, |pages|, |Rows(pages)|, request) {
      PagesCarry(pages[0], 0, |pages|, |Rows(pages)|, request);
      assert Carries(pages[0], 0 + 1, |pages|, |Rows(pages)|, request);
      forall i: nat | i < |pages| ensures PageFits(pages, i, request) {
        assert Carries(pages[i], i + 1, |pages|, |Rows(pages)|, request);
        PagesCarry(pages[i], i, |pages|, |Rows(pages)|, request);
      }
    }
  }

  lemma TotalIsPositive(page: Page, index: nat, request: Request)
    requires MetadataFits(page, index, request)
    ensures page.total > 0
  {
    hide Catalog, Headings, Joined, Trim;
  }

  lemma PagesCarry(page: Page, index: nat, n: nat, total: nat, request: Request)
    requires 1 <= n <= 20 && total > 0
    ensures Carries(page, index + 1, n, total, request)
            <==> && MetadataFits(page, index, request) && WidthsFit(page.records, |request.pairs|)
                 && page.total == total && page.pageTotal == n
  {
    hide Catalog, Headings, Joined, Trim, AllSpace;
    NothingButSpace(page.message);
  }

  lemma NothingButSpace(s: string)
    ensures Trim(s) == "" <==> AllSpace(s)
  {
    hide IsSpace, Trim;
    TrimMeans(s);
    if AllSpace(s) {
      assert s == [] + [] + s;
      assert AllSpace([]) && IsCore([], s);
      CoreIsUnique(Trim(s), [], s);
    }
    if Trim(s) == [] {
      var a, b :| s == a + Trim(s) + b && AllSpace(a) && AllSpace(b);
      assert s == a + b;
    }
  }

  lemma RowsOfPages(pages: seq<Page>, next: Page)
    ensures Rows([]) == [] && Rows(pages + [next]) == Rows(pages) + next.records
  {
    GatherAppend(PageRows, pages, next);
  }

  /** The loop asks for page after page, each declaring from one to twenty, until one is not before the number it
      declares. */
  lemma FetchingMeans(server: Server, pages: seq<Page>)
    ensures Fetched(server, pages)
            <==> && 1 <= |pages| <= 20 && pages[|pages| - 1].pageTotal <= |pages|
                 && forall i: nat | i < |pages| ::
                      && server(i + 1) == Some(pages[i]) && 1 <= pages[i].pageTotal <= 20
                      && (i + 1 < |pages| ==> i + 1 < pages[i].pageTotal)
  {
    if pages != [] {
      var init, last: nat := pages[..|pages| - 1], |pages| - 1;
      if Fetched(server, pages) {
        forall i: nat | i < |pages|
          ensures server(i + 1) == Some(pages[i]) && 1 <= pages[i].pageTotal <= 20
          ensures i + 1 < |pages| ==> i + 1 < pages[i].pageTotal
        {
          assert i < last ==> Answers(server, i + 1, init[i]);
        }
      }
      if forall i: nat | i < |pages| ::
           && server(i + 1) == Some(pages[i]) && 1 <= pages[i].pageTotal <= 20
           && (i + 1 < |pages| ==> i + 1 < pages[i].pageTotal) {
        forall i: nat | i < |init| ensures Answers(server, i + 1, init[i]) && i + 1 < init[i].pageTotal {
          assert server(i + 1) == Some(pages[i]);
        }
        assert server(last + 1) == Some(pages[last]);
      }
    }
  }

  // ---- Rows --------------------------------------------------------------------------------------------------

  /** The row gives this value for the pair on this date. */
  predicate Gives(row: Row, request: Request, pair: Pair, date: string, value: real) {
    && row.date == Some(date) && |row.values| == |request.pairs|
    && exists p :: 0 <= p < |request.pairs| && request.pairs[p] == pair && row.values[p] == Some(value)
  }

  /** Rows are readable exactly if each has a date from the start to the end of the request and a positive value for each
      pair, and no date comes twice. */
  lemma ReadableMeans(rows: seq<Row>, request: Request)
    ensures Readable(rows, request)
            <==> && (forall r | r in rows ::
                       && r.date.Some? && AtMost(request.start, r.date.value) && AtMost(r.date.value, request.end)
                       && |r.values| == |request.pairs|
                       && forall v | v in r.values :: v.Some? && v.value > 0.0)
                 && forall i, j | 0 <= i < j < |rows| :: rows[i].date != rows[j].date
  {
    hide Before;
  }

  /** A fixing is what some row gives for its pair on its date, for a hundred units if its base is the yen and for one
      otherwise. */
  lemma FixingsAreGiven(rows: seq<Row>, request: Request, f: Fixing)
    requires forall r | r in rows :: RowReads(r, request)
    ensures f in Fixings(rows, request)
            <==> && (exists r | r in rows :: Gives(r, request, f.pair, f.date, f.value))
                 && f.quotationBase == if f.pair.base == "JPY" then 100 else 1
  {
    hide Fixings, Before;
    if f in Fixings(rows, request) {
      var r, p: nat :| r in rows && p < |request.pairs| && f == FixingOf(r, request, p);
      assert Gives(r, request, f.pair, f.date, f.value);
    }
    if f.quotationBase == if f.pair.base == "JPY" then 100 else 1 {
      forall r | r in rows && Gives(r, request, f.pair, f.date, f.value) ensures f in Fixings(rows, request) {
        var p: nat :| p < |request.pairs| && request.pairs[p] == f.pair && r.values[p] == Some(f.value);
        assert RowReads(r, request) && f == FixingOf(r, request, p);
      }
    }
  }
}
