/** The datacenter page readers: the first rows of a report, and a whole report with its totals checked. */
module Datacenter {
  import opened Paging
  import opened Wrappers

  const PAGE_SIZE := 500
  const MAX_EXACT_PAGES := 20
  const MAX_ROWS := 10_000
  const MAX_U32 := 0xFFFF_FFFF

  type Row = string

  /** A decoded page: its rows and the totals it declares. */
  datatype Page = Page(rows: seq<Row>, pages: nat, count: Option<nat>)

  /** A response body: not JSON, a failure with its code, or a result whose fields may be absent. */
  datatype Body =
    | Unparsable
    | Failure(code: string)
    | Success(rows: Option<seq<Row>>, pages: Option<nat>, count: Option<nat>)

  datatype Error = InvalidRequest | Unavailable | Protocol

  /** Any server: page numbers, counted from one, to bodies; `None` when the request itself fails. */
  type Server = nat -> Option<Body>

  const NO_DATA := "9201"

  function DecodePage(body: Body): Result<Page, Error> {
    match body
    case Unparsable => Err(Protocol)
    case Failure(code) => if code == NO_DATA then Ok(Page([], 0, Some(0))) else Err(Protocol)
    case Success(Some(rows), Some(pages), count) => Ok(Page(rows, pages, count))
    case Success(_, _, _) => Err(Protocol)
  }

  function Answer(server: Server, page: nat): Result<Page, Error> {
    match server(page)
    case None => Err(Unavailable)
    case Some(body) => DecodePage(body)
  }

  function PageRows(page: Page): seq<Row> {
    page.rows
  }

  function Rows(pages: seq<Page>): seq<Row> {
    Gather(PageRows, pages)
  }

  function PagesFor(count: nat): nat {
    (count + PAGE_SIZE - 1) / PAGE_SIZE
  }

  // ---- The first rows ------------------------------------------------------------------------------------

  /** Pages after each of which the reader asks for another. */
  predicate GoesOn(server: Server, limit: nat, pages: seq<Page>) {
    && (forall i: nat | i < |pages| :: Answer(server, i + 1) == Ok(pages[i]) && i + 1 < pages[i].pages)
    && |Rows(pages)| < limit
  }

  /** A complete reading: the last page is the first that is the report's last or fills the limit. */
  predicate Reading(server: Server, limit: nat, pages: seq<Page>) {
    && 0 < |pages| <= MAX_U32
    && GoesOn(server, limit, pages[..|pages| - 1])
    && Answer(server, |pages|) == Ok(pages[|pages| - 1])
    && (|pages| >= pages[|pages| - 1].pages || |Rows(pages)| >= limit)
  }

  /** A reading begins with whatever pages the reader goes on from. */
  lemma ReadingsBegin(server: Server, limit: nat, pages: seq<Page>, reading: seq<Page>)
    requires GoesOn(server, limit, pages) && Reading(server, limit, reading)
    ensures |pages| < |reading| && pages == reading[..|pages|]
  {
    hide Answer, Gather;
    var n := |reading|;
    forall i: nat | i < |pages| && i < n ensures pages[i] == reading[i] {
      assert Answer(server, i + 1) == Ok(pages[i]);
      assert i < n - 1 ==> Answer(server, i + 1) == Ok(reading[..n - 1][i]);
    }
    if n <= |pages| {
      assert reading == pages[..n];
      GatherGrows(PageRows, pages, n);
    }
  }

  lemma ReadingIsUnique(server: Server, limit: nat, a: seq<Page>, b: seq<Page>)
    requires Reading(server, limit, a) && Reading(server, limit, b)
    ensures a == b
  {
    hide Answer, Rows, GoesOn;
    ReadingsBegin(server, limit, a[..|a| - 1], b);
    ReadingsBegin(server, limit, b[..|b| - 1], a);
    assert a == a[..|a| - 1] + [a[|a| - 1]] && b == b[..|b| - 1] + [b[|b| - 1]];
  }

  lemma GoingOn(server: Server, limit: nat, pages: seq<Page>, next: Page)
    requires GoesOn(server, limit, pages) && Answer(server, |pages| + 1) == Ok(next) && |pages| < MAX_U32
    ensures Rows(pages + [next]) == Rows(pages) + next.rows
    ensures |pages| + 1 < next.pages && |Rows(pages)| + |next.rows| < limit ==> GoesOn(server, limit, pages + [next])
    ensures |pages| + 1 >= next.pages || |Rows(pages)| + |next.rows| >= limit ==> Reading(server, limit, pages + [next])
  {
    hide Answer, Gather;
    GatherAppend(PageRows, pages, next);
    assert (pages + [next])[..|pages|] == pages;
  }

  method FetchRows(server: Server, limit: nat) returns (r: Result<seq<Row>, Error>, ghost pages: seq<Page>)
    ensures r == Err(InvalidRequest) <==> limit == 0 || limit > 10_000
    ensures r.Ok? ==> Reading(server, limit, pages) && r.value == Cut(Rows(pages), limit)
    ensures r.Err? && r.error != InvalidRequest ==> forall reading :: !Reading(server, limit, reading)
  {
    hide GoesOn, Reading, Rows;
    pages := [];
    if limit == 0 || limit > MAX_ROWS {
      return Err(InvalidRequest), [];
    }
    var output: seq<Row>, page: nat := [], 1;
    NothingRead(server, limit);
    while |output| < limit
      invariant GoesOn(server, limit, pages) && output == Rows(pages) && page == |pages| + 1 <= MAX_U32
      invariant |output| < limit
      decreases MAX_U32 - page
    {
      forall reading | Reading(server, limit, reading) ensures |pages| < |reading| && pages == reading[..|pages|] {
        ReadingsBegin(server, limit, pages, reading);
      }
      ReadingsAnswer(server, limit, page);
      var decoded := Answer(server, page);
      if decoded.Err? {
        return Err(decoded.error), [];
      }
      GoingOn(server, limit, pages, decoded.value);
      output := output + decoded.value.rows;
      pages := pages + [decoded.value];
      if page >= decoded.value.pages || |output| >= limit {
        break;
      }
      if page == MAX_U32 {
        TooManyPages(server, limit, pages);
        return Err(Protocol), [];
      }
      page := page + 1;
    }
    r := Ok(if |output| > limit then output[..limit] else output);
  }

  lemma NothingRead(server: Server, limit: nat)
    requires limit > 0
    ensures GoesOn(server, limit, []) && Rows([]) == []
  {
  }

  lemma ReadingsAnswer(server: Server, limit: nat, page: nat)
    requires page > 0
    ensures forall reading | Reading(server, limit, reading) && page <= |reading| :: Answer(server, page).Ok?
    ensures Answer(server, page).Err? ==> Answer(server, page).error != InvalidRequest
  {
    hide Rows;
    forall reading | Reading(server, limit, reading) && page <= |reading| ensures Answer(server, page).Ok? {
      var i: nat := page - 1;
      assert i < |reading| - 1 ==> Answer(server, i + 1) == Ok(reading[..|reading| - 1][i]);
    }
  }

  lemma TooManyPages(server: Server, limit: nat, pages: seq<Page>)
    requires GoesOn(server, limit, pages) && |pages| >= MAX_U32
    ensures forall reading :: !Reading(server, limit, reading)
  {
    hide GoesOn, Rows;
    forall reading | Reading(server, limit, reading) ensures false {
      ReadingsBegin(server, limit, pages, reading);
    }
  }

  // ---- A whole report --------------------------------------------------------------------------------------

  predicate Empty(page: Page) {
    page == Page([], 0, Some(0))
  }

  /** Page `i`, counted from zero, of a report of `count` rows: nothing is declared differently, no page is empty. */
  predicate ExactPage(server: Server, pages: seq<Page>, i: nat, count: nat)
    requires i < |pages|
  {
    && Answer(server, i + 1) == Ok(pages[i])
    && pages[i].pages == PagesFor(count) && pages[i].count == Some(count) && pages[i].rows != []
  }

  /** The pages of a report whose declared totals are stable, in range and met exactly. */
  predicate Exact(server: Server, maxRecords: nat, pages: seq<Page>) {
    var count := |Rows(pages)|;
    && 0 < count <= maxRecords && |pages| == PagesFor(count) <= MAX_EXACT_PAGES
    && forall i: nat | i < |pages| :: ExactPage(server, pages, i, count)
  }

  /** The pages read so far, all of a report that declares `count` rows. */
  predicate Partial(server: Server, count: nat, pages: seq<Page>) {
    |pages| <= PagesFor(count) && forall i: nat | i < |pages| :: ExactPage(server, pages, i, count)
  }

  /** What the reader may return the rows of: the one empty page of an empty report, or an exact run. */
  predicate Sound(server: Server, maxRecords: nat, pages: seq<Page>) {
    || (|pages| == 1 && Answer(server, 1) == Ok(pages[0]) && Empty(pages[0]))
    || Exact(server, maxRecords, pages)
  }

  /** What every sound run, if there is one, says about the page after those read. */
  predicate Acceptable(next: Page, maxRecords: nat, pages: seq<Page>, count: nat) {
    || (pages == [] && Empty(next))
    || (&& next.count.Some? && 0 < next.count.value <= maxRecords
        && next.pages == PagesFor(next.count.value) <= MAX_EXACT_PAGES && next.rows != []
        && (pages != [] ==> next.count.value == count))
  }

  lemma SoundRunsBegin(server: Server, maxRecords: nat, count: nat, pages: seq<Page>, sound: seq<Page>)
    requires Partial(server, count, pages) && Sound(server, maxRecords, sound)
    requires pages != [] ==> |pages| < PagesFor(count)
    ensures |pages| < |sound| && pages == sound[..|pages|]
    ensures Answer(server, |pages| + 1) == Ok(sound[|pages|]) && Acceptable(sound[|pages|], maxRecords, pages, count)
    ensures Empty(sound[|pages|]) ==> sound == [sound[0]]
    ensures !Empty(sound[|pages|]) ==> Exact(server, maxRecords, sound) && sound[|pages|].count == Some(|Rows(sound)|)
  {
    hide Answer, Rows, PagesFor;
    if pages != [] {
      assert ExactPage(server, pages, 0, count);
    }
    if Exact(server, maxRecords, sound) {
      var total := |Rows(sound)|;
      SomePages(server, maxRecords, sound);
      assert ExactPage(server, sound, 0, total);
      forall i: nat | i < |pages| && i < |sound| ensures pages[i] == sound[i] {
        assert ExactPage(server, pages, i, count) && ExactPage(server, sound, i, total);
      }
      var n: nat := |pages|;
      assert n < |sound|;
      assert ExactPage(server, sound, n, total);
    }
  }

  lemma SomePages(server: Server, maxRecords: nat, exact: seq<Page>)
    requires Exact(server, maxRecords, exact)
    ensures exact != []
  {
    hide ExactPage;
  }

  /** Nothing the reader returns is sound once the next page is not acceptable. */
  lemma Unacceptable(server: Server, maxRecords: nat, count: nat, pages: seq<Page>)
    requires Partial(server, count, pages) && (pages != [] ==> |pages| < PagesFor(count))
    requires var next := Answer(server, |pages| + 1); next.Ok? ==> !Acceptable(next.value, maxRecords, pages, count)
    ensures forall sound :: !Sound(server, maxRecords, sound)
  {
    hide Answer, Partial, Sound, Acceptable, PagesFor;
    forall sound | Sound(server, maxRecords, sound) ensures false {
      SoundRunsBegin(server, maxRecords, count, pages, sound);
    }
  }

  lemma NextExact(server: Server, maxRecords: nat, count: nat, pages: seq<Page>, next: Page)
    requires Partial(server, count, pages) && (pages != [] ==> |pages| < PagesFor(count))
    requires Answer(server, |pages| + 1) == Ok(next) && Acceptable(next, maxRecords, pages, count) && !Empty(next)
    ensures var total := next.count.value;
            && Rows(pages + [next]) == Rows(pages) + next.rows
            && Partial(server, total, pages + [next])
            && (|pages| + 1 == next.pages && |Rows(pages + [next])| == total ==> Sound(server, maxRecords, pages + [next]))
            && (|pages| + 1 == next.pages && |Rows(pages + [next])| != total ==>
                  forall sound :: !Sound(server, maxRecords, sound))
  {
    hide Answer, Gather;
    var total, more := next.count.value, pages + [next];
    GatherAppend(PageRows, pages, next);
    assert PagesFor(total) > 0;
    forall i: nat | i < |more| ensures ExactPage(server, more, i, total) {
      if i < |pages| {
        assert ExactPage(server, pages, i, count);
      }
    }
    forall sound | Sound(server, maxRecords, sound) && |more| == next.pages ensures |Rows(more)| == total {
      SoundRunsBegin(server, maxRecords, count, pages, sound);
      assert sound == sound[..|pages|] + [next];
    }
  }

  /** Reads a report to its end, in at most twenty requests, the failing one included. */
  method FetchAllRows(server: Server, maxRecords: nat)
    returns (r: Result<seq<Row>, Error>, ghost pages: seq<Page>, ghost requests: nat)
    ensures r == Err(InvalidRequest) <==> maxRecords == 0 || maxRecords > 10_000
    ensures r.Ok? ==> Sound(server, maxRecords, pages) && r.value == Rows(pages)
    ensures r.Err? && r.error != InvalidRequest ==> forall sound :: !Sound(server, maxRecords, sound)
    ensures requests <= 20
    ensures requests == |pages| + if r.Err? && r.error != InvalidRequest then 1 else 0
  {
    hide Partial, Sound, Rows, Answer;
    pages, requests := [], 0;
    if maxRecords == 0 || maxRecords > MAX_ROWS {
      return Err(InvalidRequest), [], 0;
    }
    var output: seq<Row>, expectedPages: Option<nat>, expectedCount: Option<nat> := [], None, None;
    ghost var count: nat := 0;
    NothingFetched(server);
    for page := 1 to MAX_EXACT_PAGES + 1
      invariant page == |pages| + 1 == requests + 1 && output == Rows(pages) && Partial(server, count, pages)
      invariant pages == [] ==> expectedPages == None && expectedCount == None
      invariant pages != [] ==> expectedCount == Some(count) && 0 < count <= maxRecords
      invariant pages != [] ==> expectedPages == Some(PagesFor(count)) && |pages| < PagesFor(count) <= MAX_EXACT_PAGES
    {
      var decoded := Answer(server, page);
      requests := requests + 1;
      if decoded.Err? {
        Unacceptable(server, maxRecords, count, pages);
        FailureKinds(server, page);
        return Err(decoded.error), pages, requests;
      }
      var next := decoded.value;
      if next.pages == 0 && next.rows == [] && next.count == Some(0) {
        if page == 1 {
          EmptyReport(server, maxRecords, next);
          return Ok([]), [next], requests;
        }
        Unacceptable(server, maxRecords, count, pages);
        return Err(Protocol), pages, requests;
      }
      if !Acceptable(next, maxRecords, pages, count) {
        Unacceptable(server, maxRecords, count, pages);
      } else {
        NextExact(server, maxRecords, count, pages, next);
      }
      if next.count.None? {
        return Err(Protocol), pages, requests;
      }
      if page == 1 {
        if next.pages == 0 || next.pages > MAX_EXACT_PAGES || next.count.value > maxRecords {
          return Err(Protocol), pages, requests;
        }
        if next.pages != PagesFor(next.count.value) {
          return Err(Protocol), pages, requests;
        }
        expectedPages, expectedCount := Some(next.pages), Some(next.count.value);
      } else if Some(next.pages) != expectedPages || next.count != expectedCount {
        return Err(Protocol), pages, requests;
      }
      // The page count is set by the first page, so the extraction below cannot fail.
      var total := expectedPages.value;
      if next.rows == [] {
        return Err(Protocol), pages, requests;
      }
      output := output + next.rows;
      if page == total {
        if |output| != expectedCount.value {
          return Err(Protocol), pages, requests;
        }
        return Ok(output), pages + [next], requests;
      }
      count := expectedCount.value;
      pages := pages + [next];
    }
    assert false;
    r := Err(Protocol);
  }

  lemma NothingFetched(server: Server)
    ensures Partial(server, 0, []) && Rows([]) == []
  {
  }

  lemma FailureKinds(server: Server, page: nat)
    ensures Answer(server, page).Err? ==> Answer(server, page).error != InvalidRequest
  {
  }

  lemma EmptyReport(server: Server, maxRecords: nat, page: Page)
    requires Answer(server, 1) == Ok(page) && Empty(page)
    ensures Sound(server, maxRecords, [page]) && Rows([page]) == []
  {
    hide Answer, Exact;
    GatherAppend(PageRows, [], page);
    assert [] + [page] == [page];
  }

  // ---- Honest servers ----------------------------------------------------------------------------------------

  function HonestPage(table: seq<Row>, i: nat): Page {
    Page(Slice(table, 500, i), PagesFor(|table|), Some(|table|))
  }

  /** A server that cuts one table into pages of five hundred rows. */
  ghost predicate Honest(server: Server, table: seq<Row>) {
    if table == [] then Answer(server, 1) == Ok(Page([], 0, Some(0)))
    else forall i: nat | i < PagesFor(|table|) :: Answer(server, i + 1) == Ok(HonestPage(table, i))
  }

  function HonestPages(table: seq<Row>, n: nat): (pages: seq<Page>)
    ensures |pages| == n && forall i | 0 <= i < n :: pages[i] == HonestPage(table, i)
  {
    seq(n, i requires 0 <= i => HonestPage(table, i))
  }

  lemma HonestRows(table: seq<Row>, n: nat)
    ensures Rows(HonestPages(table, n)) == table[..Start(PAGE_SIZE, n, |table|)]
  {
    SlicesGather(PageRows, HonestPages(table, n), table, PAGE_SIZE);
  }

  /** The whole of an honest report within the bound is read, in exactly as many requests as it has pages. */
  lemma HonestReportsAreRead(server: Server, table: seq<Row>, maxRecords: nat, pages: seq<Page>)
    requires Honest(server, table) && |table| <= maxRecords <= 10_000
    ensures exists sound :: Sound(server, maxRecords, sound)
    ensures Sound(server, maxRecords, pages) ==>
              Rows(pages) == table && |pages| == if table == [] then 1 else PagesFor(|table|)
  {
    hide Answer, Rows, Sound;
    var honest := HonestRun(server, table, maxRecords);
    if Sound(server, maxRecords, pages) {
      SoundIsUnique(server, maxRecords, honest, pages);
    }
  }

  lemma HonestRun(server: Server, table: seq<Row>, maxRecords: nat) returns (pages: seq<Page>)
    requires Honest(server, table) && |table| <= maxRecords <= MAX_ROWS
    ensures Sound(server, maxRecords, pages) && Rows(pages) == table
    ensures |pages| == if table == [] then 1 else PagesFor(|table|)
  {
    hide Answer, Rows;
    if table == [] {
      pages := [Page([], 0, Some(0))];
      EmptyReport(server, maxRecords, pages[0]);
    } else {
      var n := PagesFor(|table|);
      pages := HonestPages(table, n);
      HonestRows(table, n);
      assert table[..|table|] == table;
      forall i: nat | i < n ensures ExactPage(server, pages, i, |table|) {
        assert Answer(server, i + 1) == Ok(HonestPage(table, i));
      }
    }
  }

  lemma SoundIsUnique(server: Server, maxRecords: nat, a: seq<Page>, b: seq<Page>)
    requires Sound(server, maxRecords, a) && Sound(server, maxRecords, b)
    ensures a == b
  {
    hide Answer, Rows, Partial;
    NothingFetched(server);
    SoundRunsBegin(server, maxRecords, 0, [], a);
    SoundRunsBegin(server, maxRecords, 0, [], b);
    if !Empty(a[0]) {
      ExactRunsAgree(server, maxRecords, a, b);
    }
  }

  lemma ExactRunsAgree(server: Server, maxRecords: nat, a: seq<Page>, b: seq<Page>)
    requires Exact(server, maxRecords, a) && Exact(server, maxRecords, b)
    ensures a == b
  {
    hide Answer, Rows;
    SomePages(server, maxRecords, a);
    SomePages(server, maxRecords, b);
    assert ExactPage(server, a, 0, |Rows(a)|) && ExactPage(server, b, 0, |Rows(b)|);
    forall i: nat | i < |a| ensures a[i] == b[i] {
      assert ExactPage(server, a, i, |Rows(a)|) && ExactPage(server, b, i, |Rows(b)|);
    }
  }

  /** Of an honest table the bounded reader returns exactly the first `limit` rows, in the least requests. */
  lemma FirstRowsOfAnHonestTable(server: Server, table: seq<Row>, limit: nat, pages: seq<Page>)
    requires Honest(server, table) && 0 < limit <= 10_000
    ensures exists reading :: Reading(server, limit, reading)
    ensures Reading(server, limit, pages) ==>
              && Cut(Rows(pages), limit) == Cut(table, limit)
              && |pages| == if table == [] then 1 else PagesFor(|Cut(table, limit)|)
  {
    hide Answer, Rows, Reading;
    var honest := HonestReading(server, table, limit);
    if Reading(server, limit, pages) {
      ReadingIsUnique(server, limit, honest, pages);
    }
  }

  lemma HonestReading(server: Server, table: seq<Row>, limit: nat) returns (pages: seq<Page>)
    requires Honest(server, table) && 0 < limit <= MAX_ROWS
    ensures Reading(server, limit, pages) && Cut(Rows(pages), limit) == Cut(table, limit)
    ensures |pages| == if table == [] then 1 else PagesFor(|Cut(table, limit)|)
  {
    hide Answer, Rows;
    if table == [] {
      pages := [Page([], 0, Some(0))];
      NothingRead(server, limit);
      EmptyReport(server, limit, pages[0]);
      assert pages[..0] == [];
    } else {
      var n := PagesFor(|Cut(table, limit)|);
      pages := HonestPages(table, n);
      HonestRows(table, n);
      HonestRows(table, n - 1);
      var init := pages[..n - 1];
      assert init == HonestPages(table, n - 1);
      forall i: nat | i < n ensures Answer(server, i + 1) == Ok(pages[i]) {
        assert Answer(server, i + 1) == Ok(HonestPage(table, i));
      }
      assert Answer(server, |pages| - 1 + 1) == Ok(pages[|pages| - 1]);
    }
  }
}
