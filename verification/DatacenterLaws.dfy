/** What the parts of the datacenter readers mean: an answer, a page count, a reading and a whole report. */
module DatacenterLaws {
  import opened Datacenter
  import opened Paging
  import opened Wrappers

  /** A request that fails is unavailable; code 9201 answers an empty page; a result answers its rows and totals if rows
      and page count are there; anything else breaks the protocol. */
  lemma AnswersMean(server: Server, page: nat, answer: Page)
    ensures Answer(server, page) == Ok(answer)
            <==> || (server(page) == Some(Failure("9201")) && answer == Page([], 0, Some(0)))
                 || server(page) == Some(Success(Some(answer.rows), Some(answer.pages), answer.count))
    ensures Answer(server, page) == Err(Unavailable) <==> server(page) == None
    ensures Answer(server, page).Err? ==> Answer(server, page).error in {Unavailable, Protocol}
  {
  }

  /** The page count is the least number of pages of five hundred rows that hold them all. */
  lemma PageCountsAreLeast(count: nat, n: nat)
    ensures count <= 500 * PagesFor(count)
    ensures count <= 500 * n ==> PagesFor(count) <= n
  {
  }

  lemma RowsOfPages(pages: seq<Page>, next: Page)
    ensures Rows([]) == [] && Rows(pages + [next]) == Rows(pages) + next.rows
  {
    GatherAppend(PageRows, pages, next);
  }

  /** Every page is answered, and each but the last declares more pages to come. */
  predicate OnePageAfterAnother(server: Server, pages: seq<Page>) {
    forall i: nat | i < |pages| ::
      Answer(server, i + 1) == Ok(pages[i]) && (i + 1 < |pages| ==> i + 1 < pages[i].pages)
  }

  /** A reading is a run of answers: before its last page the limit is not filled and more pages are declared; with it the
      limit is filled or no more are. */
  lemma ReadingsMean(server: Server, limit: nat, pages: seq<Page>)
    ensures Reading(server, limit, pages)
            <==> && 0 < |pages| <= 4_294_967_295 && OnePageAfterAnother(server, pages)
                 && |Rows(pages[..|pages| - 1])| < limit
                 && (|Rows(pages)| >= limit || pages[|pages| - 1].pages <= |pages|)
  {
    hide Answer, Rows;
    if pages != [] {
      var init, last: nat := pages[..|pages| - 1], |pages| - 1;
      if Reading(server, limit, pages) {
        forall i: nat | i < |pages|
          ensures Answer(server, i + 1) == Ok(pages[i]) && (i + 1 < |pages| ==> i + 1 < pages[i].pages)
        {
          if i < last {
            assert Answer(server, i + 1) == Ok(init[i]);
          }
        }
      }
      if OnePageAfterAnother(server, pages) {
        forall i: nat | i < |init| ensures Answer(server, i + 1) == Ok(init[i]) && i + 1 < init[i].pages {
          assert Answer(server, i + 1) == Ok(pages[i]);
        }
        assert Answer(server, last + 1) == Ok(pages[last]);
      }
    }
  }

  /** A page of a report of `count` rows in `n` pages: it declares both, and is not empty. */
  predicate Declares(page: Page, n: nat, count: nat) {
    page.pages == n && page.count == Some(count) && page.rows != []
  }

  /** What may be returned whole: one page that declares no rows, or at most twenty pages, none empty, that all declare
      their number and that of their rows, which is at most the maximum and takes that many pages of five hundred. */
  lemma SoundRunsMean(server: Server, maxRecords: nat, pages: seq<Page>)
    ensures Sound(server, maxRecords, pages)
            <==> || (pages == [Page([], 0, Some(0))] && Answer(server, 1) == Ok(Page([], 0, Some(0))))
                 || (&& 1 <= |pages| <= 20 && |Rows(pages)| <= maxRecords
                     && 500 * (|pages| - 1) < |Rows(pages)| <= 500 * |pages|
                     && forall i: nat | i < |pages| ::
                          Answer(server, i + 1) == Ok(pages[i]) && Declares(pages[i], |pages|, |Rows(pages)|))
  {
    hide Answer, Rows;
    var count := |Rows(pages)|;
    assert 500 * (|pages| - 1) < count <= 500 * |pages| && count > 0 <==> |pages| == PagesFor(count) && count > 0;
    if |pages| == PagesFor(count) {
      forall i: nat | i < |pages|
        ensures ExactPage(server, pages, i, count)
                <==> Answer(server, i + 1) == Ok(pages[i]) && Declares(pages[i], |pages|, count)
      {
      }
      EachExact(server, pages, count);
    }
    if pages != [] {
      RowsOfPages(pages[..|pages| - 1], pages[|pages| - 1]);
      assert pages == pages[..|pages| - 1] + [pages[|pages| - 1]];
    }
  }

  lemma EachExact(server: Server, pages: seq<Page>, count: nat)
    requires |pages| == PagesFor(count)
    ensures (forall i: nat | i < |pages| :: ExactPage(server, pages, i, count))
            <==> forall i: nat | i < |pages| ::
                   Answer(server, i + 1) == Ok(pages[i]) && Declares(pages[i], |pages|, count)
  {
    hide Answer;
    if forall i: nat | i < |pages| :: ExactPage(server, pages, i, count) {
      forall i: nat | i < |pages| ensures Answer(server, i + 1) == Ok(pages[i]) && Declares(pages[i], |pages|, count) {
        assert ExactPage(server, pages, i, count);
      }
    }
    if forall i: nat | i < |pages| :: Answer(server, i + 1) == Ok(pages[i]) && Declares(pages[i], |pages|, count) {
      forall i: nat | i < |pages| ensures ExactPage(server, pages, i, count) {
        assert Answer(server, i + 1) == Ok(pages[i]);
      }
    }
  }
}
