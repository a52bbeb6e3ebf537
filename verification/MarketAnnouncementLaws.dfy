/** What a completed market-announcement read guarantees, whatever the source answers, and what it
    returns from a source that serves one list faithfully. */
module MarketAnnouncementLaws {
  import opened Wrappers
  import opened Texts
  import opened Validated
  import opened MarketAnnouncements

  // ---- De-duplication by first occurrence ----------------------------------------------------

  /** `x` stands in `rows` before any other row with its id. */
  predicate IsFirst(rows: seq<Row>, x: Row) {
    exists i | 0 <= i < |rows| :: rows[i] == x && !SeenIn(rows[..i], x.id)
  }

  /** Each kept row is the first with its id, and no id is kept twice. */
  lemma {:induction false} FirstOccurrencesAreFirst(rows: seq<Row>)
    ensures DistinctIds(FirstOccurrences(rows))
    ensures forall x | x in FirstOccurrences(rows) :: IsFirst(rows, x) && SeenIn(rows, x.id)
  {
    hide IsFirst, SeenIn, DistinctIds;
    if rows == [] {
      NothingRepeats();
    } else {
      var init, last := rows[..|rows| - 1], rows[|rows| - 1];
      FirstOccurrencesAreFirst(init);
      assert rows == init + [last];
      forall x | x in FirstOccurrences(init) ensures IsFirst(rows, x) && SeenIn(rows, x.id) {
        FirstStaysFirst(init, last, x);
      }
      if !SeenIn(init, last.id) {
        NewIsFirst(init, last);
        NewIsDistinct(init, FirstOccurrences(init), last);
      }
    }
  }

  lemma NothingRepeats()
    ensures DistinctIds([])
  {
  }

  lemma NewIsFirst(rows: seq<Row>, more: Row)
    requires !SeenIn(rows, more.id)
    ensures IsFirst(rows + [more], more) && SeenIn(rows + [more], more.id)
  {
    assert (rows + [more])[..|rows|] == rows && (rows + [more])[|rows|] == more;
  }

  lemma NewIsDistinct(rows: seq<Row>, kept: seq<Row>, more: Row)
    requires DistinctIds(kept) && (forall x | x in kept :: SeenIn(rows, x.id)) && !SeenIn(rows, more.id)
    ensures DistinctIds(kept + [more])
  {
    hide SeenIn;
    assert forall i | 0 <= i < |kept| :: kept[i] in kept;
  }

  lemma FirstStaysFirst(rows: seq<Row>, more: Row, x: Row)
    requires IsFirst(rows, x)
    ensures IsFirst(rows + [more], x) && SeenIn(rows + [more], x.id)
  {
    var i :| 0 <= i < |rows| && rows[i] == x && !SeenIn(rows[..i], x.id);
    assert (rows + [more])[..i] == rows[..i] && (rows + [more])[i] == x;
  }

  /** Every id survives. */
  lemma {:induction false} FirstOccurrencesKeepIds(rows: seq<Row>, i: nat)
    requires i < |rows|
    ensures SeenIn(FirstOccurrences(rows), rows[i].id)
  {
    var init, last := rows[..|rows| - 1], rows[|rows| - 1];
    var kept, all := FirstOccurrences(init), FirstOccurrences(rows);
    if i == |rows| - 1 && !SeenIn(init, last.id) {
      assert all[|kept|].id == last.id;
    } else {
      var k :| 0 <= k < |init| && init[k].id == rows[i].id;
      FirstOccurrencesKeepIds(init, k);
      var m :| 0 <= m < |kept| && kept[m].id == rows[i].id;
      assert all[m].id == rows[i].id;
    }
  }

  lemma {:induction false} FirstOccurrencesKeepOrder(rows: seq<Row>)
    requires NewestFirst(rows)
    ensures NewestFirst(FirstOccurrences(rows))
    ensures forall x | x in FirstOccurrences(rows) :: x in rows
  {
    if rows != [] {
      var init, last := rows[..|rows| - 1], rows[|rows| - 1];
      FirstOccurrencesKeepOrder(init);
      assert forall x | x in init :: AtMost(last.publishedAt, x.publishedAt);
      var kept := FirstOccurrences(init);
      assert forall i | 0 <= i < |kept| :: kept[i] in init;
    }
  }

  lemma {:induction false} FirstOccurrencesOfPrefix(rows: seq<Row>, k: nat)
    requires k <= |rows|
    ensures FirstOccurrences(rows[..k]) <= FirstOccurrences(rows)
  {
    if k < |rows| {
      var init := rows[..|rows| - 1];
      FirstOccurrencesOfPrefix(init, k);
      assert init[..k] == rows[..k];
    } else {
      assert rows[..k] == rows;
    }
  }

  // ---- Laws of every completed read ------------------------------------------------------------

  function RowCounts(pages: seq<PageEvidence>): nat {
    if pages == [] then 0 else RowCounts(pages[..|pages| - 1]) + pages[|pages| - 1].rowCount
  }

  lemma {:induction false} RowCountsAddUp(n: nat, total: nat)
    ensures RowCounts(EvidencePages(n, total)) == Min(total, PAGE_SIZE * n)
  {
    if n > 0 {
      RowCountsAddUp(n - 1, total);
      assert EvidencePages(n, total)[..n - 1] == EvidencePages(n - 1, total);
    }
  }

  /** Every row read is counted once, as unique or as an equivalent duplicate, and the page evidence
      accounts for exactly those rows. */
  lemma RowsAreConserved(server: Server, request: Request, maxPages: nat, n: Positive, total: nat, raw: seq<Row>)
    requires Completes(server, request, maxPages, n, total, raw)
    ensures var c := Receipt(request, n, total, raw).coverage;
            && c.uniqueRows + c.equivalentDuplicateRows == c.inspectedRawRows == |raw| == RowCounts(c.pages)
            && c.returnedRows == Min(c.uniqueRows, request.limit)
            && c.pagesRead == |c.pages| == n <= maxPages
  {
    RowCountsAddUp(n, total);
    FirstOccurrencesLength(raw);
  }

  /** The records are the first occurrences, cut at the limit: distinct ids, newest first. */
  lemma RecordsAreDistinctAndOrdered(server: Server, request: Request, maxPages: nat, n: Positive, total: nat, raw: seq<Row>)
    requires Completes(server, request, maxPages, n, total, raw)
    ensures var records := Receipt(request, n, total, raw).records;
            && records == FirstOccurrences(raw)[..Min(|FirstOccurrences(raw)|, request.limit)]
            && DistinctIds(records) && NewestFirst(records)
            && (forall x | x in records :: IsFirst(raw, x))
            && forall i | 0 <= i < |raw| :: SeenIn(FirstOccurrences(raw), raw[i].id)
  {
    hide FirstOccurrences, PageAgrees, RowsAgree, NoConflicts, Satisfied, Unsatisfied, IsFirst, SeenIn, EvidencePages;
    FirstOccurrencesAreFirst(raw);
    FirstOccurrencesKeepOrder(raw);
    forall i | 0 <= i < |raw| ensures SeenIn(FirstOccurrences(raw), raw[i].id) {
      FirstOccurrencesKeepIds(raw, i);
    }
  }

  /** What every row that passes the row check satisfies: six digits, a known board, a date in the requested range,
      a path with a URL inside the archive, and the required texts not blank. */
  predicate Admissible(row: Row, request: Request) {
    && |row.code| == 6 && AllDigits(row.code) && BoardExchange(row.pageColumn) == Ok(row.exchange)
    && |row.publishedAt| >= 10
    && AtMost(request.start, row.publishedAt[..10]) && AtMost(row.publishedAt[..10], request.end)
    && (row.adjunctUrl.Some? ==> PdfUrl(row.adjunctUrl.value).Ok?)
    && row.id != [] && row.organization != [] && row.title != []
  }

  lemma ValidRowsAreAdmissible(wire: WireRow, request: Request)
    requires ValidateRow(wire, request).Ok?
    ensures Admissible(ValidateRow(wire, request).value, request)
  {
    hide NonBlank, CollapseSpaces, BoardExchange, PdfUrl, Before;
    BlanksAreRefused(wire.id);
    BlanksAreRefused(wire.organization);
    BlanksAreRefused(wire.title);
  }

  lemma BlanksAreRefused(text: Option<string>)
    ensures RequiredText(text).Ok? ==> RequiredText(text).value != []
    ensures OptionalText(text).Some? ==> OptionalText(text).value != []
  {
    hide Trim, CollapseSpaces;
  }

  /** Every record of a completed read is admissible. */
  lemma RecordsMeetTheRequest(server: Server, request: Request, maxPages: nat, n: Positive, total: nat, raw: seq<Row>)
    requires Completes(server, request, maxPages, n, total, raw)
    ensures forall x | x in Receipt(request, n, total, raw).records :: Admissible(x, request)
  {
    hide ValidateRow, Admissible, PageAgrees, NewestFirst, NoConflicts, Satisfied, Unsatisfied, FirstOccurrences;
    FirstOccurrencesKeepOrder(raw);
    forall x | x in Receipt(request, n, total, raw).records ensures Admissible(x, request) {
      assert x in FirstOccurrences(raw);
      var k: nat :| k < |raw| && raw[k] == x;
      assert RowAt(server, request, k) == Some(raw[k]);
      ValidRowsAreAdmissible(WireRows(server(k / PAGE_SIZE + 1).value)[k % PAGE_SIZE], request);
    }
  }

  /** Page `p` holds `count` rows, and they are the rows of `raw` from offset 30 * (p - 1). */
  predicate SuppliesSlice(server: Server, request: Request, p: Positive, count: nat, raw: seq<Row>) {
    && server(p).Ok?
    && |WireRows(server(p).value)| == count
    && PAGE_SIZE * (p - 1) + count <= |raw|
    && forall j: nat | j < count :: ValidateRow(WireRows(server(p).value)[j], request) == Ok(raw[PAGE_SIZE * (p - 1) + j])
  }

  /** Page `p` supplies the rows from offset 30 * (p - 1); all pages but the last hold thirty. */
  lemma PagesTileTheRead(server: Server, request: Request, maxPages: nat, n: Positive, total: nat, raw: seq<Row>, p: Positive)
    requires Completes(server, request, maxPages, n, total, raw) && p <= n
    ensures var pages := Receipt(request, n, total, raw).coverage.pages;
            && |pages| == n
            && pages[p - 1].requestedPage == p && pages[p - 1].sourceTotal == total
            && (p < n ==> pages[p - 1].rowCount == PAGE_SIZE && pages[p - 1].hasMore)
            && SuppliesSlice(server, request, p, pages[p - 1].rowCount, raw)
  {
    hide ValidateRow, NewestFirst, NoConflicts, FirstOccurrences, RowsAgree, SuppliesSlice;
    assert PageAgrees(server, p, total);
    hide PageAgrees;
    if p < n {
      assert !Satisfied(request, n - 1, total, raw[..Min(|raw|, PAGE_SIZE * (n - 1))]);
    }
    SliceOfPage(server, request, n, total, raw, p);
  }

  lemma SliceOfPage(server: Server, request: Request, n: nat, total: nat, raw: seq<Row>, p: Positive)
    requires ReadsCleanly(server, request, n, total, raw) && p <= n
    requires p < n ==> PAGE_SIZE * p <= total
    ensures PAGE_SIZE * (p - 1) <= total ==> SuppliesSlice(server, request, p, Evidence(p, total).rowCount, raw)
  {
    hide ValidateRow, NewestFirst, NoConflicts, RowAt;
    assert PageAgrees(server, p, total);
    var count := Evidence(p, total).rowCount;
    forall j: nat | j < count && PAGE_SIZE * (p - 1) <= total
      ensures ValidateRow(WireRows(server(p).value)[j], request) == Ok(raw[PAGE_SIZE * (p - 1) + j])
    {
      RowOfPage(server, request, p, j);
      var k := PAGE_SIZE * (p - 1) + j;
      assert RowAt(server, request, k) == Some(raw[k]);
    }
  }

  /** Three ways to see that the source is used up always agree. */
  lemma ExhaustionIsConsistent(server: Server, request: Request, maxPages: nat, n: Positive, total: nat, raw: seq<Row>)
    requires Completes(server, request, maxPages, n, total, raw)
    ensures var c := Receipt(request, n, total, raw).coverage;
            && (c.sourceExhausted <==> !c.terminalHasMore)
            && (c.sourceExhausted <==> c.pagesRead == c.expectedRequestPages)
            && c.pagesRead <= c.expectedRequestPages
            && c.terminalHasMore == c.pages[|c.pages| - 1].hasMore
  {
    hide ReadsCleanly, FirstOccurrences;
    assert |raw| == Min(total, PAGE_SIZE * n) by {
      CleanLength(server, request, n, total, raw);
    }
    if n > 1 {
      assert !Satisfied(request, n - 1, total, raw[..Min(|raw|, PAGE_SIZE * (n - 1))]);
    }
  }

  lemma CleanLength(server: Server, request: Request, n: nat, total: nat, raw: seq<Row>)
    requires ReadsCleanly(server, request, n, total, raw)
    ensures |raw| == Min(total, PAGE_SIZE * n)
  {
  }

  /** A batch is free of issues exactly when it holds as many records as the source declares. */
  lemma IssueFreeMeansComplete(server: Server, request: Request, maxPages: nat, n: Positive, total: nat, raw: seq<Row>)
    requires Completes(server, request, maxPages, n, total, raw)
    ensures var r := Receipt(request, n, total, raw);
            r.issues == [] <==> |r.records| == r.coverage.sourceTotal
  {
    FirstOccurrencesLength(raw);
  }

  // ---- A source that serves one list -------------------------------------------------------------

  function PageOf(rows: seq<WireRow>, p: Positive): Page {
    var t := |rows|;
    Page(Some(t), Some(t), Some(t / PAGE_SIZE), Some(PAGE_SIZE * p < t),
         Some(rows[Min(t, PAGE_SIZE * (p - 1))..Min(t, PAGE_SIZE * p)]))
  }

  /** The first page is always there; another one if it holds rows. */
  predicate HasPage(wire: seq<WireRow>, p: nat) {
    p == 1 || (p > 1 && PAGE_SIZE * (p - 1) < |wire|)
  }

  /** The source cuts `wire` into pages, and may answer anything to a request past the last one; its rows are
      valid, newest first and free of conflicts. */
  ghost predicate Serves(server: Server, request: Request, wire: seq<WireRow>, rows: seq<Row>) {
    && |wire| == |rows|
    && (forall p: Positive | HasPage(wire, p) :: server(p) == Ok(PageOf(wire, p)))
    && (forall k | 0 <= k < |wire| :: ValidateRow(wire[k], request) == Ok(rows[k]))
    && NewestFirst(rows) && NoConflicts(rows)
  }

  lemma FaithfulRow(server: Server, request: Request, wire: seq<WireRow>, rows: seq<Row>, k: nat)
    requires Serves(server, request, wire, rows) && k < |rows|
    ensures RowAt(server, request, k) == Some(rows[k])
  {
    hide ValidateRow, NewestFirst, NoConflicts;
    var p: Positive, j := k / PAGE_SIZE + 1, k % PAGE_SIZE;
    assert PAGE_SIZE * (p - 1) + j == k && HasPage(wire, p);
    assert WireRows(server(p).value)[j] == wire[k];
  }

  /** The pages of a faithful source read cleanly, and yield the start of its list. */
  lemma FaithfulRead(server: Server, request: Request, wire: seq<WireRow>, rows: seq<Row>, n: nat)
    requires Serves(server, request, wire, rows) && HasPage(wire, n)
    ensures ReadsCleanly(server, request, n, |rows|, rows[..Min(|rows|, PAGE_SIZE * n)])
  {
    var raw := rows[..Min(|rows|, PAGE_SIZE * n)];
    assert forall p: Positive | p <= n :: PageAgrees(server, p, |rows|) by {
      FaithfulPages(server, request, wire, rows);
      assert forall p: Positive | p <= n :: HasPage(wire, p);
    }
    hide ValidateRow, PageAgrees, RowAt;
    forall k: nat | k < |raw| ensures RowAt(server, request, k) == Some(raw[k]) {
      FaithfulRow(server, request, wire, rows, k);
    }
  }

  lemma FaithfulPages(server: Server, request: Request, wire: seq<WireRow>, rows: seq<Row>)
    requires Serves(server, request, wire, rows)
    ensures forall p: Positive | HasPage(wire, p) :: PageAgrees(server, p, |rows|)
  {
    hide ValidateRow, NewestFirst, NoConflicts;
  }

  /** The first of pages 1..n that satisfies the request. */
  lemma FirstSatisfyingPage(request: Request, n: Positive, rows: seq<Row>) returns (m: Positive)
    requires Satisfied(request, n, |rows|, rows[..Min(|rows|, PAGE_SIZE * n)])
    ensures m <= n && Satisfied(request, m, |rows|, rows[..Min(|rows|, PAGE_SIZE * m)])
    ensures forall i: nat | 1 <= i < m :: !Satisfied(request, i, |rows|, rows[..Min(|rows|, PAGE_SIZE * i)])
  {
    m := 1;
    while !Satisfied(request, m, |rows|, rows[..Min(|rows|, PAGE_SIZE * m)])
      invariant m <= n
      invariant forall i: nat | 1 <= i < m :: !Satisfied(request, i, |rows|, rows[..Min(|rows|, PAGE_SIZE * i)])
      decreases n - m
    {
      m := m + 1;
    }
  }

  /** The first distinct announcements of a list, up to the limit. */
  function FirstDistinct(rows: seq<Row>, request: Request): seq<Row> {
    FirstOccurrences(rows)[..Min(|FirstOccurrences(rows)|, request.limit)]
  }

  /** A faithful source is read exactly when the page bound reaches the end of the list or enough distinct
      announcements, and the records are then the first distinct announcements of the whole list. */
  lemma FaithfulRun(server: Server, request: Request, maxPages: Positive, wire: seq<WireRow>, rows: seq<Row>)
    requires Serves(server, request, wire, rows)
    ensures (exists n, total, raw :: Completes(server, request, maxPages, n, total, raw))
            <==> |rows| <= PAGE_SIZE * maxPages || |FirstOccurrences(rows[..PAGE_SIZE * maxPages])| >= request.limit
    ensures forall n: Positive, total, raw | Completes(server, request, maxPages, n, total, raw) ::
              && total == |rows|
              && Receipt(request, n, total, raw).records
                 == FirstOccurrences(rows)[..Min(|FirstOccurrences(rows)|, request.limit)]
  {
    hide Serves, Completes, Receipt, FirstOccurrences;
    var reach := Min(|rows|, PAGE_SIZE * maxPages);
    if Satisfied(request, maxPages, |rows|, rows[..reach]) {
      var m := FirstSatisfyingPage(request, maxPages, rows);
      EarlierPagesGoOn(server, request, m, wire, rows);
      FaithfulRead(server, request, wire, rows, m);
      FaithfulCompletion(server, request, maxPages, m, rows);
    }
    forall n: Positive, total, raw | Completes(server, request, maxPages, n, total, raw)
      ensures Satisfied(request, maxPages, |rows|, rows[..reach])
      ensures total == |rows|
      ensures Receipt(request, n, total, raw).records == FirstOccurrences(rows)[..Min(|FirstOccurrences(rows)|, request.limit)]
    {
      FaithfulOutcome(server, request, maxPages, wire, rows, n, total, raw);
    }
    forall n, total, raw | Completes(server, request, maxPages, n, total, raw)
      ensures Satisfied(request, maxPages, |rows|, rows[..reach])
    {
      CompletesOnAPage(server, request, maxPages, n, total, raw);
      var p: Positive := n;
      assert Completes(server, request, maxPages, p, total, raw);
    }
  }

  /** From a faithful source the request succeeds exactly when the page bound reaches the end of the list or enough
      distinct announcements, and the market core accepts the first distinct announcements of the whole list; these
      are then the records. */
  lemma FaithfulSource(server: Server, request: Request, maxPages: Positive, wire: seq<WireRow>, rows: seq<Row>)
    requires Serves(server, request, wire, rows)
    ensures (exists n: Positive, total, raw ::
               Completes(server, request, maxPages, n, total, raw) && AllPublishable(Receipt(request, n, total, raw).records))
            <==> (|rows| <= PAGE_SIZE * maxPages || |FirstOccurrences(rows[..PAGE_SIZE * maxPages])| >= request.limit)
                 && AllPublishable(FirstDistinct(rows, request))
    ensures forall n: Positive, total, raw | Completes(server, request, maxPages, n, total, raw) ::
              total == |rows| && Receipt(request, n, total, raw).records == FirstDistinct(rows, request)
  {
    hide Serves, Completes, Receipt, FirstOccurrences, AllPublishable;
    FaithfulRun(server, request, maxPages, wire, rows);
    forall n, total, raw | Completes(server, request, maxPages, n, total, raw) ensures n >= 1 {
      CompletesOnAPage(server, request, maxPages, n, total, raw);
    }
    if n, total, raw :| Completes(server, request, maxPages, n, total, raw) {
      var p: Positive := n;
      assert Completes(server, request, maxPages, p, total, raw);
    }
  }

  // ---- What the constructors refuse ----------------------------------------------------------------

  /** The detail URL of any announcement is refused for its length only. */
  lemma DetailUrlsFailByLength(row: Row)
    requires |row.publishedAt| >= 10
    ensures var url := SCHEME + DETAIL_HOST + DetailPath(row.code, row.organization, row.id, row.publishedAt[..10]);
            AnnouncementUrl(row) == if |url| <= MAX_URL_CHARS then Some(url) else None
  {
    hide FormEncoded, HttpsUrl, UrlChars, IsSpace;
    var date := row.publishedAt[..10];
    DetailPathIsClean(row.code, row.organization, row.id, date);
    DetailHostIsClean();
    UrlsOnAHost(DETAIL_HOST, DetailPath(row.code, row.organization, row.id, date));
  }

  lemma DetailHostIsClean()
    ensures ValidAuthority(DETAIL_HOST) && UrlChars(DETAIL_HOST)
    ensures forall i | 0 <= i < |DETAIL_HOST| :: DETAIL_HOST[i] !in {'/', '?', '#'}
  {
  }

  lemma DetailPathIsClean(code: string, organization: string, id: string, date: string)
    requires date != []
    ensures var path := DetailPath(code, organization, id, date);
            UrlChars(path) && path != [] && path[0] == '/' && !IsSpace(path[|path| - 1])
  {
    hide FormEncoded, UrlChars, IsSpace;
    LabelsAreClean();
    FormEncodedIsClean(code);
    FormEncodedIsClean(id);
    FormEncodedIsClean(organization);
    FormEncodedIsClean(date);
    var a, b, c, d := "/new/disclosure/detail?stockCode=", "&announcementId=", "&orgId=", "&announcementTime=";
    JoinedUrlChars(a, FormEncoded(code));
    JoinedUrlChars(a + FormEncoded(code), b);
    JoinedUrlChars(a + FormEncoded(code) + b, FormEncoded(id));
    JoinedUrlChars(a + FormEncoded(code) + b + FormEncoded(id), c);
    JoinedUrlChars(a + FormEncoded(code) + b + FormEncoded(id) + c, FormEncoded(organization));
    JoinedUrlChars(a + FormEncoded(code) + b + FormEncoded(id) + c + FormEncoded(organization), d);
    JoinedUrlChars(a + FormEncoded(code) + b + FormEncoded(id) + c + FormEncoded(organization) + d, FormEncoded(date));
    LastUrlChar(DetailPath(code, organization, id, date));
  }

  lemma LabelsAreClean()
    ensures UrlChars("/new/disclosure/detail?stockCode=") && UrlChars("&announcementId=") && UrlChars("&orgId=")
    ensures UrlChars("&announcementTime=")
  {
    PathLabelIsClean();
  }

  lemma PathLabelIsClean()
    ensures UrlChars("/new/disclosure/detail?stockCode=")
  {
  }

  lemma LastUrlChar(s: string)
    requires UrlChars(s) && s != []
    ensures !IsSpace(s[|s| - 1])
  {
    assert UrlChar(s[|s| - 1]);
  }

  lemma CompletesOnAPage(server: Server, request: Request, maxPages: nat, n: nat, total: nat, raw: seq<Row>)
    requires Completes(server, request, maxPages, n, total, raw)
    ensures n >= 1
  {
  }

  /** A page that comes after unsatisfying ones holds rows. */
  lemma EarlierPagesGoOn(server: Server, request: Request, n: Positive, wire: seq<WireRow>, rows: seq<Row>)
    requires Serves(server, request, wire, rows)
    requires n > 1 ==> !Satisfied(request, n - 1, |rows|, rows[..Min(|rows|, PAGE_SIZE * (n - 1))])
    ensures HasPage(wire, n)
  {
    hide ValidateRow, NewestFirst, NoConflicts, FirstOccurrences;
  }

  lemma LastPageIsThere(server: Server, request: Request, maxPages: nat, wire: seq<WireRow>, n: Positive, total: nat, raw: seq<Row>)
    requires Completes(server, request, maxPages, n, total, raw) && total == |wire|
    ensures HasPage(wire, n)
  {
    hide ReadsCleanly, FirstOccurrences;
    if n > 1 {
      assert !Satisfied(request, n - 1, total, raw[..Min(|raw|, PAGE_SIZE * (n - 1))]);
    }
  }

  lemma FaithfulOutcome(server: Server, request: Request, maxPages: Positive, wire: seq<WireRow>, rows: seq<Row>,
                        n: Positive, total: nat, raw: seq<Row>)
    requires Serves(server, request, wire, rows)
    requires Completes(server, request, maxPages, n, total, raw)
    ensures total == |rows| && raw == rows[..Min(|rows|, PAGE_SIZE * n)]
    ensures Satisfied(request, maxPages, |rows|, rows[..Min(|rows|, PAGE_SIZE * maxPages)])
    ensures Receipt(request, n, total, raw).records == FirstOccurrences(rows)[..Min(|FirstOccurrences(rows)|, request.limit)]
  {
    hide Serves, Receipt, FirstOccurrences, Satisfied, Unsatisfied, NewestFirst, NoConflicts, RowsAgree;
    FaithfulPages(server, request, wire, rows);
    FirstPageIsThere(wire);
    assert PageAgrees(server, 1, total) && PageAgrees(server, 1, |rows|);
    SameTotal(server, request, wire, rows, total);
    LastPageIsThere(server, request, maxPages, wire, n, total, raw);
    FaithfulRead(server, request, wire, rows, n);
    SamePrefix(server, request, raw, rows[..Min(|rows|, PAGE_SIZE * n)]);
    assert raw == rows[..Min(|rows|, PAGE_SIZE * n)];
    EnoughIsEnough(request, maxPages, n, rows);
  }

  lemma FirstPageIsThere(wire: seq<WireRow>)
    ensures HasPage(wire, 1)
  {
  }

  lemma SameTotal(server: Server, request: Request, wire: seq<WireRow>, rows: seq<Row>, total: nat)
    requires Serves(server, request, wire, rows) && PageAgrees(server, 1, total) && PageAgrees(server, 1, |rows|)
    ensures total == |rows| == |wire|
  {
    hide ValidateRow, NewestFirst, NoConflicts;
  }

  lemma FaithfulCompletion(server: Server, request: Request, maxPages: nat, m: Positive, rows: seq<Row>)
    requires m <= maxPages
    requires ReadsCleanly(server, request, m, |rows|, rows[..Min(|rows|, PAGE_SIZE * m)])
    requires Satisfied(request, m, |rows|, rows[..Min(|rows|, PAGE_SIZE * m)])
    requires forall i: nat | 1 <= i < m :: !Satisfied(request, i, |rows|, rows[..Min(|rows|, PAGE_SIZE * i)])
    ensures Completes(server, request, maxPages, m, |rows|, rows[..Min(|rows|, PAGE_SIZE * m)])
  {
    hide ReadsCleanly;
    var raw := rows[..Min(|rows|, PAGE_SIZE * m)];
    forall i: nat | 1 <= i < m ensures !Satisfied(request, i, |rows|, raw[..Min(|raw|, PAGE_SIZE * i)]) {
      assert raw[..Min(|raw|, PAGE_SIZE * i)] == rows[..Min(|rows|, PAGE_SIZE * i)];
    }
  }

  /** More pages never undo satisfaction, nor change the records. */
  lemma EnoughIsEnough(request: Request, maxPages: nat, n: Positive, rows: seq<Row>)
    requires n <= maxPages
    requires Satisfied(request, n, |rows|, rows[..Min(|rows|, PAGE_SIZE * n)])
    ensures Satisfied(request, maxPages, |rows|, rows[..Min(|rows|, PAGE_SIZE * maxPages)])
    ensures Receipt(request, n, |rows|, rows[..Min(|rows|, PAGE_SIZE * n)]).records
            == FirstOccurrences(rows)[..Min(|FirstOccurrences(rows)|, request.limit)]
  {
    hide FirstOccurrences;
    var part, more := rows[..Min(|rows|, PAGE_SIZE * n)], rows[..Min(|rows|, PAGE_SIZE * maxPages)];
    FirstOccurrencesOfPrefix(rows, |part|);
    FirstOccurrencesOfPrefix(more, |part|);
    assert more[..|part|] == part;
    if |part| == |rows| {
      assert part == rows;
    }
  }
}
