/** Whole-market announcement discovery: a bounded, de-duplicating read of an untrusted paged
    source, together with the coverage receipt it issues. */
module MarketAnnouncements {
  import opened Exchanges
  import opened Texts
  import opened Validated
  import opened Wrappers

  const PAGE_SIZE: nat := 30

  /** `Core` stands for a refusal by a constructor of the market core. */
  datatype Error = Transport | Schema | Incomplete | Unsupported | Core

  type Positive = n: nat | 0 < n witness 1

  datatype Request = Request(start: string, end: string, limit: Positive)

  /** One row as the provider sends it. `publishedAt` is the announcement time already converted to
      RFC 3339 text: `None` when absent, an error when it is no usable number of milliseconds. */
  datatype WireRow = WireRow(
    id: Option<string>, code: Option<string>, name: Option<string>, organization: Option<string>,
    title: Option<string>, categoryName: Option<string>, category: Option<string>,
    publishedAt: Option<Result<string, Error>>, adjunctUrl: Option<string>, pageColumn: Option<string>)

  datatype Page = Page(
    totalAnnouncement: Option<nat>, totalRecordNum: Option<nat>, totalPages: Option<nat>,
    hasMore: Option<bool>, announcements: Option<seq<WireRow>>)

  datatype Row = Row(
    id: string, code: string, name: Option<string>, organization: string, exchange: Exchange,
    title: string, category: Option<string>, publishedAt: string, adjunctUrl: Option<string>,
    pageColumn: string)

  datatype PageEvidence = PageEvidence(
    requestedPage: nat, sourceTotal: nat, sourceTotalPages: nat, hasMore: bool, rowCount: nat)

  datatype Coverage = Coverage(
    sourceTotal: nat, expectedRequestPages: nat, pagesRead: nat, inspectedRawRows: nat,
    uniqueRows: nat, returnedRows: nat, equivalentDuplicateRows: nat, terminalHasMore: bool,
    sourceExhausted: bool, callerLimitTruncated: bool, verifiedEmpty: bool,
    pages: seq<PageEvidence>)

  datatype Issue = PaginationIncomplete | TruncatedByLimit | IdentityOverlap

  datatype Outcome = Outcome(records: seq<Row>, issues: seq<Issue>, coverage: Coverage)

  /** The source: an arbitrary answer to each page number. */
  type Server = nat -> Result<Page, Error>

  // ---- Checks of one page and one row ------------------------------------------------------

  function DivCeil(n: nat, d: Positive): nat {
    (n + d - 1) / d
  }

  function ValidatePage(page: Page, number: nat, expectedTotal: Option<nat>, consumed: nat):
    Result<(nat, seq<WireRow>), Error>
  {
    if page.totalAnnouncement.None? || page.totalRecordNum.None? then Err(Schema)
    else
      var total := page.totalAnnouncement.value;
      if total != page.totalRecordNum.value then Err(Incomplete)
      else if expectedTotal.Some? && expectedTotal.value != total then Err(Incomplete)
      else if page.totalPages.None? then Err(Schema)
      else if page.totalPages.value != total / PAGE_SIZE then Err(Incomplete)
      else
        var rows := if page.announcements.Some? then page.announcements.value else [];
        if total == 0 then
          if page.hasMore.None? then Err(Schema)
          else if number != 1 || consumed != 0 || page.hasMore.value || rows != [] then Err(Incomplete)
          else Ok((0, rows))
        else if number > DivCeil(total, PAGE_SIZE) || consumed >= total then Err(Incomplete)
        else
          var expectedRows := Min(total - consumed, PAGE_SIZE);
          if |rows| != expectedRows then Err(Incomplete)
          else if page.hasMore.None? then Err(Schema)
          else if page.hasMore.value != (consumed + expectedRows < total) then Err(Incomplete)
          else Ok((total, rows))
  }

  /** All checks of one answer, in the order the read applies them. */
  function CheckPage(answer: Result<Page, Error>, number: nat, expectedTotal: Option<nat>, consumed: nat):
    (r: Result<(nat, seq<WireRow>), Error>)
    ensures r.Ok? ==> answer.Ok? && answer.value.totalPages.Some? && answer.value.hasMore.Some?
  {
    var page :- answer;
    if page.totalPages.None? || page.hasMore.None? then Err(Schema)
    else ValidatePage(page, number, expectedTotal, consumed)
  }

  function RequiredText(value: Option<string>): Result<string, Error> {
    match value
    case None => Err(Schema)
    case Some(text) => match NonBlank(text) case None => Err(Schema) case Some(t) => Ok(t)
  }

  function OptionalText(value: Option<string>): Option<string> {
    match value
    case None => None
    case Some(text) => NonBlank(CollapseSpaces(text))
  }

  function BoardExchange(pageColumn: string): Result<Exchange, Error> {
    if pageColumn in {"SHMB", "SHZB", "SHKCP", "SHKCB"} then Ok(Shanghai)
    else if pageColumn in {"SZMB", "SZZB", "SZCY"} then Ok(Shenzhen)
    else if pageColumn == "BJS" then Ok(Beijing)
    else Err(Unsupported)
  }

  function WithoutLeadingSlashes(s: string): string {
    if s != [] && s[0] == '/' then WithoutLeadingSlashes(s[1..]) else s
  }

  const PDF_HOST := "static.cninfo.com.cn"

  /** The archive's URL of a relative path that stays inside it. */
  function PdfUrl(raw: string): Result<string, Error> {
    var relative := WithoutLeadingSlashes(Trim(raw));
    if relative == [] || Contains(relative, "..") || '\\' in relative || ':' in relative then Err(Schema)
    else
      match HttpsUrl(SCHEME + PDF_HOST + ("/" + relative))
      case None => Err(Core)
      case Some(url) => Ok(url)
  }

  function ValidateRow(row: WireRow, request: Request): Result<Row, Error> {
    var code :- RequiredText(row.code);
    if |code| != 6 || !AllDigits(code) then Err(Schema)
    else
      var pageColumn :- RequiredText(row.pageColumn);
      var exchange :- BoardExchange(pageColumn);
      if row.publishedAt.None? then Err(Schema)
      else
        var publishedAt :- row.publishedAt.value;
        if |publishedAt| < 10 then Err(Schema)
        else if Before(publishedAt[..10], request.start) || Before(request.end, publishedAt[..10]) then Err(Schema)
        else
          var adjunctUrl := match row.adjunctUrl case None => None case Some(u) => NonBlank(u);
          if adjunctUrl.Some? && PdfUrl(adjunctUrl.value).Err? then Err(PdfUrl(adjunctUrl.value).error)
          else
            var id :- RequiredText(row.id);
            var organization :- RequiredText(row.organization);
            var title := OptionalText(row.title);
            if title.None? then Err(Schema)
            else
              var category := if row.categoryName.Some? then row.categoryName else row.category;
              Ok(Row(id, code, OptionalText(row.name), organization, exchange, title.value,
                     OptionalText(category), publishedAt, adjunctUrl, pageColumn))
  }

  const DETAIL_HOST := "www.cninfo.com.cn"

  /** The detail page of an announcement, its parameters form-encoded. */
  function DetailPath(code: string, organization: string, id: string, date: string): string {
    "/new/disclosure/detail?stockCode=" + FormEncoded(code) + "&announcementId=" + FormEncoded(id)
    + "&orgId=" + FormEncoded(organization) + "&announcementTime=" + FormEncoded(date)
  }

  function AnnouncementUrl(row: Row): Option<string> {
    if |row.publishedAt| < 10 then None
    else HttpsUrl(SCHEME + DETAIL_HOST + DetailPath(row.code, row.organization, row.id, row.publishedAt[..10]))
  }

  predicate OptionalTextIsValid(value: Option<string>) {
    var text := OptionalText(value);
    text.None? || NonEmptyText(text.value).Some?
  }

  /** The constructors of the market core accept the record: its texts are printable and bounded, and so are its URLs. */
  predicate Publishable(row: Row) {
    && NonEmptyText(row.id).Some? && OptionalTextIsValid(row.name) && OptionalTextIsValid(row.category)
    && NonEmptyText(row.title).Some? && NonEmptyText(row.publishedAt).Some?
    && AnnouncementUrl(row).Some? && (row.adjunctUrl.Some? ==> PdfUrl(row.adjunctUrl.value).Ok?)
  }

  predicate AllPublishable(rows: seq<Row>) {
    forall x | x in rows :: Publishable(x)
  }

  // ---- What a run should return --------------------------------------------------------------

  predicate SeenIn(rows: seq<Row>, id: string) {
    exists i | 0 <= i < |rows| :: rows[i].id == id
  }

  /** The rows whose id occurs at no earlier position, in order. */
  function FirstOccurrences(rows: seq<Row>): seq<Row> {
    if rows == [] then []
    else
      var init := rows[..|rows| - 1];
      var last := rows[|rows| - 1];
      if SeenIn(init, last.id) then FirstOccurrences(init) else FirstOccurrences(init) + [last]
  }

  predicate NewestFirst(rows: seq<Row>) {
    forall i, j | 0 <= i < j < |rows| :: AtMost(rows[j].publishedAt, rows[i].publishedAt)
  }

  predicate NoConflicts(rows: seq<Row>) {
    forall i, j | 0 <= i < j < |rows| && rows[i].id == rows[j].id :: rows[i] == rows[j]
  }

  predicate DistinctIds(rows: seq<Row>) {
    forall i, j | 0 <= i < j < |rows| :: rows[i].id != rows[j].id
  }

  /** Page `p` of a source that declares `total` rows in pages of thirty. */
  predicate PageAgrees(server: Server, p: nat, total: nat)
    requires p >= 1
  {
    server(p).Ok?
    && var page := server(p).value;
    && page.totalAnnouncement == Some(total) && page.totalRecordNum == Some(total)
    && page.totalPages == Some(total / PAGE_SIZE)
    && page.hasMore == Some(PAGE_SIZE * p < total)
    && |WireRows(page)| == Min(total - Min(total, PAGE_SIZE * (p - 1)), PAGE_SIZE)
  }

  function WireRows(page: Page): seq<WireRow> {
    if page.announcements.Some? then page.announcements.value else []
  }

  /** The row at position `k` of the concatenated pages, if it is there and valid. */
  function RowAt(server: Server, request: Request, k: nat): Option<Row> {
    var answer := server(k / PAGE_SIZE + 1);
    if answer.Ok? && k % PAGE_SIZE < |WireRows(answer.value)| then
      var row := ValidateRow(WireRows(answer.value)[k % PAGE_SIZE], request);
      if row.Ok? then Some(row.value) else None
    else None
  }

  predicate RowsAgree(server: Server, request: Request, raw: seq<Row>) {
    forall k: nat | k < |raw| :: RowAt(server, request, k) == Some(raw[k])
  }

  /** `raw` is what pages 1..n contain, and every check of those pages and rows passes. */
  ghost predicate ReadsCleanly(server: Server, request: Request, n: nat, total: nat, raw: seq<Row>) {
    && (forall p | 1 <= p <= n :: PageAgrees(server, p, total))
    && |raw| == Min(total, PAGE_SIZE * n)
    && RowsAgree(server, request, raw)
    && NewestFirst(raw)
    && NoConflicts(raw)
  }

  /** After `n` clean pages there is nothing left to ask for. */
  predicate Satisfied(request: Request, n: nat, total: nat, raw: seq<Row>) {
    PAGE_SIZE * n >= total || |FirstOccurrences(raw)| >= request.limit
  }

  /** No read of fewer than `n` pages would have satisfied the request. */
  predicate Unsatisfied(request: Request, n: nat, total: nat, raw: seq<Row>) {
    forall m: nat | 1 <= m < n :: !Satisfied(request, m, total, raw[..Min(|raw|, PAGE_SIZE * m)])
  }

  /** A run over pages 1..n ends: all of them are clean, and page `n` is the first that satisfies
      the request. */
  ghost predicate Completes(server: Server, request: Request, maxPages: nat, n: nat, total: nat, raw: seq<Row>) {
    && 1 <= n <= maxPages
    && ReadsCleanly(server, request, n, total, raw)
    && Satisfied(request, n, total, raw)
    && Unsatisfied(request, n, total, raw)
  }

  function Evidence(p: nat, total: nat): PageEvidence
    requires p >= 1
  {
    PageEvidence(p, total, total / PAGE_SIZE, PAGE_SIZE * p < total,
                 Min(total - Min(total, PAGE_SIZE * (p - 1)), PAGE_SIZE))
  }

  function EvidencePages(n: nat, total: nat): seq<PageEvidence> {
    seq(n, i requires 0 <= i => Evidence(i + 1, total))
  }

  /** The outcome a completed read of `raw` owes its caller. */
  function Receipt(request: Request, n: Positive, total: nat, raw: seq<Row>): Outcome {
    var unique := FirstOccurrences(raw);
    var records := unique[..Min(|unique|, request.limit)];
    FirstOccurrencesLength(raw);
    var duplicates := |raw| - |unique|;
    Outcome(
      records,
      (if |raw| != total then [PaginationIncomplete] else [])
      + (if |records| < |unique| then [TruncatedByLimit] else [])
      + (if duplicates > 0 then [IdentityOverlap] else []),
      Coverage(total, if DivCeil(total, PAGE_SIZE) == 0 then 1 else DivCeil(total, PAGE_SIZE), n, |raw|,
               |unique|, |records|, duplicates, PAGE_SIZE * n < total, |raw| == total,
               |records| < |unique|, total == 0, EvidencePages(n, total)))
  }

  lemma {:induction false} FirstOccurrencesLength(rows: seq<Row>)
    ensures |FirstOccurrences(rows)| <= |rows|
  {
    if rows != [] {
      FirstOccurrencesLength(rows[..|rows| - 1]);
    }
  }

  // ---- Why a failed read could not have succeeded ------------------------------------------------

  /** `k` clean pages have been read and more are needed. */
  ghost predicate Underway(server: Server, request: Request, k: nat, known: Option<nat>, raw: seq<Row>) {
    && |raw| == PAGE_SIZE * k
    && (k == 0 <==> known.None?)
    && (known.Some? ==> ReadsCleanly(server, request, k, known.value, raw)
                        && Unsatisfied(request, k + 1, known.value, raw))
  }

  /** Page `number` passes the page checks exactly when it agrees with some total. */
  lemma CheckPageIsExact(server: Server, number: Positive, known: Option<nat>)
    requires number == 1 <==> known.None?
    requires known.Some? ==> PAGE_SIZE * (number - 1) < known.value
    ensures var r := CheckPage(server(number), number, known, PAGE_SIZE * (number - 1));
            && (r.Ok? ==> PageAgrees(server, number, r.value.0) && r.value.1 == WireRows(server(number).value)
                          && (known.Some? ==> r.value.0 == known.value)
                          && |r.value.1| <= PAGE_SIZE
                          && PAGE_SIZE * (number - 1) + |r.value.1| == Min(r.value.0, PAGE_SIZE * number))
            && (r.Err? ==> forall total | PageAgrees(server, number, total) :: known.Some? && known.value != total)
  {
  }

  lemma EvidenceOfPage(server: Server, number: Positive, total: nat)
    requires PageAgrees(server, number, total)
    ensures var page := server(number).value;
            Evidence(number, total)
            == PageEvidence(number, total, page.totalPages.value, page.hasMore.value, |WireRows(page)|)
  {
  }

  lemma RowOfPage(server: Server, request: Request, number: Positive, j: nat)
    requires server(number).Ok? && j < |WireRows(server(number).value)| && j < PAGE_SIZE
    ensures RowAt(server, request, PAGE_SIZE * (number - 1) + j)
            == match ValidateRow(WireRows(server(number).value)[j], request)
               case Ok(row) => Some(row)
               case Err(_) => None
  {
    hide ValidateRow;
    var k := PAGE_SIZE * (number - 1) + j;
    assert k / PAGE_SIZE + 1 == number && k % PAGE_SIZE == j;
  }

  /** Two clean reads agree on every position both reach. */
  lemma SamePrefix(server: Server, request: Request, a: seq<Row>, b: seq<Row>)
    requires |a| <= |b| && RowsAgree(server, request, a) && RowsAgree(server, request, b)
    ensures a == b[..|a|]
  {
    forall k: nat | k < |a| ensures a[k] == b[k] {
      assert Some(a[k]) == RowAt(server, request, k);
    }
  }

  /** A read that stops on fewer pages has not satisfied the request. */
  lemma StopsShort(server: Server, request: Request, number: Positive, known: nat, raw: seq<Row>, n: Positive, all: seq<Row>)
    requires n < number && |raw| == PAGE_SIZE * (number - 1)
    requires ReadsCleanly(server, request, number - 1, known, raw) && Unsatisfied(request, number, known, raw)
    requires ReadsCleanly(server, request, n, known, all)
    ensures !Satisfied(request, n, known, all)
  {
    SamePrefix(server, request, all, raw);
    assert all == raw[..Min(|raw|, PAGE_SIZE * n)];
  }

  /** Any completed read goes on past an unfinished one, through page `number`. */
  lemma Continues(server: Server, request: Request, maxPages: nat, number: Positive, known: Option<nat>, raw: seq<Row>,
                  n: nat, total: nat, all: seq<Row>)
    requires Underway(server, request, number - 1, known, raw)
    requires Completes(server, request, maxPages, n, total, all)
    ensures number <= n <= maxPages && PageAgrees(server, number, total) && raw <= all
    ensures known.Some? ==> total == known.value
  {
    if known.Some? {
      assert PageAgrees(server, 1, total) && PageAgrees(server, 1, known.value);
      if n < number {
        StopsShort(server, request, number, total, raw, n, all);
      }
      SamePrefix(server, request, raw, all);
    }
  }

  lemma TooManyPages(server: Server, request: Request, maxPages: nat, known: Option<nat>, raw: seq<Row>)
    requires Underway(server, request, maxPages, known, raw)
    ensures forall n, total, all :: !Completes(server, request, maxPages, n, total, all)
  {
    forall n, total, all | Completes(server, request, maxPages, n, total, all) ensures false {
      Continues(server, request, maxPages, maxPages + 1, known, raw, n, total, all);
    }
  }

  lemma BadPage(server: Server, request: Request, maxPages: nat, number: Positive, known: Option<nat>, raw: seq<Row>)
    requires Underway(server, request, number - 1, known, raw)
    requires forall total | PageAgrees(server, number, total) :: known.Some? && known.value != total
    ensures forall n, total, all :: !Completes(server, request, maxPages, n, total, all)
  {
    forall n, total, all | Completes(server, request, maxPages, n, total, all) ensures false {
      Continues(server, request, maxPages, number, known, raw, n, total, all);
    }
  }

  /** The next row is invalid, breaks the order or contradicts an earlier row. */
  predicate Stuck(raw: seq<Row>, next: Option<Row>) {
    || next.None?
    || (raw != [] && Before(raw[|raw| - 1].publishedAt, next.value.publishedAt))
    || exists i | 0 <= i < |raw| :: raw[i].id == next.value.id && raw[i] != next.value
  }

  lemma BadRow(server: Server, request: Request, maxPages: nat, number: Positive, known: Option<nat>, before: seq<Row>,
               total: nat, raw: seq<Row>)
    requires Underway(server, request, number - 1, known, before) && PageAgrees(server, number, total)
    requires before <= raw && |raw| < Min(total, PAGE_SIZE * number)
    requires RowsAgree(server, request, raw) && Stuck(raw, RowAt(server, request, |raw|))
    ensures forall n, t, all :: !Completes(server, request, maxPages, n, t, all)
  {
    forall n, t, all | Completes(server, request, maxPages, n, t, all) ensures false {
      Continues(server, request, maxPages, number, known, before, n, t, all);
      SamePrefix(server, request, raw, all);
      CleanNextRow(server, request, raw, all);
    }
  }

  lemma CleanNextRow(server: Server, request: Request, raw: seq<Row>, all: seq<Row>)
    requires RowsAgree(server, request, all) && NewestFirst(all) && NoConflicts(all)
    requires |raw| < |all| && raw == all[..|raw|]
    ensures !Stuck(raw, RowAt(server, request, |raw|))
  {
    assert RowAt(server, request, |raw|) == Some(all[|raw|]);
  }

  lemma NewestFirstExtends(rows: seq<Row>, row: Row)
    requires NewestFirst(rows)
    requires rows != [] ==> AtMost(row.publishedAt, rows[|rows| - 1].publishedAt)
    ensures NewestFirst(rows + [row])
  {
    var all := rows + [row];
    forall i, j | 0 <= i < j < |all| ensures AtMost(all[j].publishedAt, all[i].publishedAt) {
      if j == |rows| && i < j - 1 {
        AtMostIsTransitive(all[j].publishedAt, all[j - 1].publishedAt, all[i].publishedAt);
      }
    }
  }

  // ---- The read itself -------------------------------------------------------------------------

  /** The variables the read carries from row to row. */
  datatype Progress = Progress(
    previous: Option<string>, seen: map<string, Row>, validated: seq<Row>, duplicates: nat)
  {
    /** They hold what they should after inspecting `raw`. */
    ghost predicate Digests(raw: seq<Row>) {
      && validated == FirstOccurrences(raw)
      && duplicates == |raw| - |validated|
      && (forall id :: id in seen <==> SeenIn(raw, id))
      && (forall i | 0 <= i < |raw| :: raw[i].id in seen && seen[raw[i].id] == raw[i])
      && previous == (if raw == [] then None else Some(raw[|raw| - 1].publishedAt))
    }
  }

  /** Inspects the rows of page `number`, adding them to `raw`; on failure `raw` stops before the
      row that no completed read can contain. */
  method InspectRows(ghost server: Server, request: Request, ghost number: Positive, rows: seq<WireRow>,
                     start: Progress, ghost before: seq<Row>)
    returns (failure: Option<Error>, p: Progress, ghost raw: seq<Row>)
    requires server(number).Ok? && rows == WireRows(server(number).value) && |rows| <= PAGE_SIZE
    requires |before| == PAGE_SIZE * (number - 1) && RowsAgree(server, request, before)
    requires NewestFirst(before) && NoConflicts(before) && start.Digests(before)
    ensures before <= raw && RowsAgree(server, request, raw)
    ensures failure.None? ==> |raw| == |before| + |rows| && NewestFirst(raw) && NoConflicts(raw) && p.Digests(raw)
    ensures failure.Some? ==> |raw| < |before| + |rows| && Stuck(raw, RowAt(server, request, |raw|))
  {
    hide ValidateRow, RowAt, WireRows, NewestFirst, NoConflicts, Progress.Digests;
    p := start;
    raw := before;
    failure := None;
    for j := 0 to |rows|
      invariant failure.None? && |raw| == |before| + j && before <= raw
      invariant RowsAgree(server, request, raw)
      invariant NewestFirst(raw) && NoConflicts(raw) && p.Digests(raw)
    {
      RowOfPage(server, request, number, j);
      var row := ValidateRow(rows[j], request);
      if row.Err? {
        return Some(row.error), p, raw;
      }
      failure, p := InspectRow(p, raw, row.value);
      if failure.Some? {
        return;
      }
      raw := raw + [row.value];
    }
  }

  /** What the progress shows of the rows read so far decides about the next one. */
  lemma DigestTells(p: Progress, raw: seq<Row>, row: Row)
    requires NewestFirst(raw) && NoConflicts(raw) && p.Digests(raw)
    ensures Stuck(raw, Some(row))
            <==> (p.previous.Some? && Before(p.previous.value, row.publishedAt))
                 || (row.id in p.seen && p.seen[row.id] != row)
    ensures !Stuck(raw, Some(row)) ==>
              NoConflicts(raw + [row]) && (raw != [] ==> AtMost(row.publishedAt, raw[|raw| - 1].publishedAt))
  {
    hide NewestFirst, Before, FirstOccurrences;
    if row.id in p.seen {
      assert SeenIn(raw, row.id);
    }
  }

  /** Checks one valid row against what was read before it: out of order or conflicting rows fail,
      repeated ones are counted, new ones are kept. */
  method InspectRow(p: Progress, ghost raw: seq<Row>, row: Row) returns (failure: Option<Error>, q: Progress)
    requires NewestFirst(raw) && NoConflicts(raw) && p.Digests(raw)
    ensures failure.Some? <==> Stuck(raw, Some(row))
    ensures failure.None? ==> NewestFirst(raw + [row]) && NoConflicts(raw + [row]) && q.Digests(raw + [row])
  {
    hide NewestFirst, NoConflicts, Stuck, Progress.Digests, Before;
    DigestTells(p, raw, row);
    if p.previous.Some? && Before(p.previous.value, row.publishedAt) {
      return Some(Incomplete), p;
    }
    if row.id in p.seen && p.seen[row.id] != row {
      return Some(Schema), p;
    }
    NewestFirstExtends(raw, row);
    q := Digest(p, raw, row);
    failure := None;
  }

  /** One accepted row: counted as a duplicate when its id is known, kept otherwise. */
  method Digest(p: Progress, ghost raw: seq<Row>, row: Row) returns (q: Progress)
    requires p.Digests(raw)
    requires row.id in p.seen ==> p.seen[row.id] == row
    ensures q.Digests(raw + [row])
  {
    ghost var extended := raw + [row];
    assert extended[..|raw|] == raw;
    assert forall id :: SeenIn(extended, id) <==> SeenIn(raw, id) || id == row.id by {
      assert extended[|raw|] == row;
      forall id | SeenIn(raw, id) ensures SeenIn(extended, id) {
        var i :| 0 <= i < |raw| && raw[i].id == id;
        assert extended[i].id == id;
      }
    }
    if row.id in p.seen {
      q := p.(previous := Some(row.publishedAt), duplicates := p.duplicates + 1);
    } else {
      q := p.(previous := Some(row.publishedAt), seen := p.seen[row.id := row], validated := p.validated + [row]);
    }
  }

  /** Pages 1..n are clean, no fewer would do, and `pages` is the evidence of each. */
  ghost predicate Reached(server: Server, request: Request, n: nat, total: nat, raw: seq<Row>, pages: seq<PageEvidence>) {
    && ReadsCleanly(server, request, n, total, raw)
    && Unsatisfied(request, n, total, raw)
    && pages == EvidencePages(n, total)
  }

  /** The state between two pages: nothing read yet, or pages 1..k read and rows left. */
  ghost predicate Between(server: Server, request: Request, k: nat, known: Option<nat>, raw: seq<Row>, pages: seq<PageEvidence>) {
    && |raw| == PAGE_SIZE * k
    && match known
       case None => k == 0 && pages == []
       case Some(total) => k > 0 && PAGE_SIZE * k < total && Reached(server, request, k, total, raw, pages)
  }

  lemma NothingReadYet(server: Server, request: Request)
    ensures Between(server, request, 0, None, [], []) && Progress(None, map[], [], 0).Digests([])
  {
  }

  lemma GoesOn(server: Server, request: Request, k: nat, known: Option<nat>, raw: seq<Row>, pages: seq<PageEvidence>)
    requires Between(server, request, k, known, raw, pages) && |FirstOccurrences(raw)| < request.limit
    ensures Underway(server, request, k, known, raw)
    ensures RowsAgree(server, request, raw) && NewestFirst(raw) && NoConflicts(raw)
  {
    hide FirstOccurrences, RowAt, ValidateRow, WireRows, EvidencePages;
    assert raw[..|raw|] == raw;
  }

  lemma ReadsOn(server: Server, request: Request, number: Positive, known: Option<nat>, total: nat,
                before: seq<Row>, raw: seq<Row>, pages: seq<PageEvidence>)
    requires Between(server, request, number - 1, known, before, pages)
    requires Underway(server, request, number - 1, known, before)
    requires PageAgrees(server, number, total) && (known.Some? ==> known.value == total)
    requires before <= raw && |raw| == Min(total, PAGE_SIZE * number)
    requires RowsAgree(server, request, raw) && NewestFirst(raw) && NoConflicts(raw)
    ensures Reached(server, request, number, total, raw, pages + [Evidence(number, total)])
  {
    hide RowsAgree, FirstOccurrences, NewestFirst, NoConflicts;
    forall m: nat | 1 <= m < number ensures !Satisfied(request, m, total, raw[..Min(|raw|, PAGE_SIZE * m)]) {
      assert raw[..PAGE_SIZE * m] == before[..PAGE_SIZE * m];
      assert !Satisfied(request, m, total, before[..Min(|before|, PAGE_SIZE * m)]);
    }
    assert pages + [Evidence(number, total)] == EvidencePages(number, total);
  }

  /** The outcome, from the variables of the read. */
  function Assemble(request: Request, total: nat, consumed: nat, pagesRead: nat, p: Progress, pages: seq<PageEvidence>): Outcome
    requires pages != []
  {
    var unique := |p.validated|;
    var returned := Min(unique, request.limit);
    var expectedPages := DivCeil(total, PAGE_SIZE);
    Outcome(
      p.validated[..returned],
      (if consumed != total then [PaginationIncomplete] else [])
      + (if returned < unique then [TruncatedByLimit] else [])
      + (if p.duplicates > 0 then [IdentityOverlap] else []),
      Coverage(total, if expectedPages == 0 then 1 else expectedPages, pagesRead, consumed, unique, returned,
               p.duplicates, pages[|pages| - 1].hasMore, consumed == total, returned < unique, total == 0, pages))
  }

  lemma Finishes(server: Server, request: Request, maxPages: nat, n: Positive, total: nat, raw: seq<Row>,
                 p: Progress, pages: seq<PageEvidence>)
    requires n <= maxPages && Reached(server, request, n, total, raw, pages) && p.Digests(raw)
    requires Satisfied(request, n, total, raw)
    ensures Completes(server, request, maxPages, n, total, raw)
    ensures pages != []
    ensures Assemble(request, total, |raw|, n, p, pages).coverage.pagesRead == n
    ensures Assemble(request, total, |raw|, n, p, pages).coverage.sourceTotal == total
    ensures Assemble(request, total, |raw|, n, p, pages) == Receipt(request, n, total, raw)
  {
    hide RowAt, NewestFirst, NoConflicts, PageAgrees;
  }

  /** One source, one outcome. */
  lemma CompletionIsUnique(server: Server, request: Request, maxPages: nat, n1: Positive, total1: nat, raw1: seq<Row>,
                           n2: Positive, total2: nat, raw2: seq<Row>)
    requires Completes(server, request, maxPages, n1, total1, raw1)
    requires Completes(server, request, maxPages, n2, total2, raw2)
    ensures n1 == n2 && total1 == total2 && raw1 == raw2
  {
    assert PageAgrees(server, 1, total1) && PageAgrees(server, 1, total2);
    if n1 < n2 {
      NoEarlierStop(server, request, n1, raw1, n2, total1, raw2);
    } else if n2 < n1 {
      NoEarlierStop(server, request, n2, raw2, n1, total1, raw1);
    } else {
      SamePrefix(server, request, raw1, raw2);
    }
  }

  lemma NoEarlierStop(server: Server, request: Request, n1: Positive, raw1: seq<Row>, n2: nat, total: nat, raw2: seq<Row>)
    requires n1 < n2
    requires ReadsCleanly(server, request, n1, total, raw1) && ReadsCleanly(server, request, n2, total, raw2)
    requires Unsatisfied(request, n2, total, raw2)
    ensures !Satisfied(request, n1, total, raw1)
  {
    hide NewestFirst, NoConflicts, RowAt, FirstOccurrences;
    SamePrefix(server, request, raw1, raw2);
    assert raw1 == raw2[..Min(|raw2|, PAGE_SIZE * n1)];
  }

  /** Reads pages in order until the request is satisfied; the receipt describes exactly what was
      read, and an error is returned only when no read of the source could have been accepted, or
      when one of the records to return is refused by the constructors of the market core. */
  method MarketAnnouncementsWithCoverage(server: Server, maxPages: nat, request: Request)
    returns (r: Result<Outcome, Error>)
    ensures r.Ok? ==> exists raw ::
      && Completes(server, request, maxPages, r.value.coverage.pagesRead, r.value.coverage.sourceTotal, raw)
      && r.value == Receipt(request, r.value.coverage.pagesRead, r.value.coverage.sourceTotal, raw)
      && AllPublishable(r.value.records)
    ensures r.Err? ==> forall n: Positive, total, raw | Completes(server, request, maxPages, n, total, raw) ::
      !AllPublishable(Receipt(request, n, total, raw).records)
  {
    hide RowAt, ValidateRow, RowsAgree, NewestFirst, NoConflicts, CheckPage, ValidatePage, PageAgrees, Completes,
      WireRows, ReadsCleanly, Unsatisfied, Underway, Reached, Assemble, Receipt, EvidencePages, FirstOccurrences, SeenIn,
      Publishable;
    var expectedTotal: Option<nat> := None;
    var consumed, pagesRead := 0, 0;
    var p := Progress(None, map[], [], 0);
    var pages: seq<PageEvidence> := [];
    ghost var raw: seq<Row> := [];
    NothingReadYet(server, request);

    while |p.validated| < request.limit
      invariant pagesRead <= maxPages && consumed == |raw|
      invariant Between(server, request, pagesRead, expectedTotal, raw, pages)
      invariant p.Digests(raw)
      decreases maxPages - pagesRead
    {
      GoesOn(server, request, pagesRead, expectedTotal, raw, pages);
      var number: Positive := pagesRead + 1;
      if number > maxPages {
        TooManyPages(server, request, maxPages, expectedTotal, raw);
        return Err(Incomplete);
      }
      var answer := server(number);
      var checked := CheckPage(answer, number, expectedTotal, consumed);
      if checked.Err? {
        CheckPageIsExact(server, number, expectedTotal);
        BadPage(server, request, maxPages, number, expectedTotal, raw);
        return Err(checked.error);
      }
      CheckPageIsExact(server, number, expectedTotal);
      var (total, rows) := checked.value;
      var evidence := PageEvidence(number, total, answer.value.totalPages.value, answer.value.hasMore.value, |rows|);
      EvidenceOfPage(server, number, total);
      if total == 0 {
        ReadsOn(server, request, number, expectedTotal, total, raw, raw, pages);
        expectedTotal, pagesRead, pages := Some(total), number, pages + [evidence];
        break;
      }
      consumed := consumed + |rows|;
      ghost var before := raw;
      var failure;
      failure, p, raw := InspectRows(server, request, number, rows, p, raw);
      if failure.Some? {
        BadRow(server, request, maxPages, number, expectedTotal, before, total, raw);
        return Err(failure.value);
      }
      ReadsOn(server, request, number, expectedTotal, total, before, raw, pages);
      expectedTotal, pagesRead, pages := Some(total), number, pages + [evidence];
      if consumed >= total {
        break;
      }
    }

    Finishes(server, request, maxPages, pagesRead, expectedTotal.value, raw, p, pages);
    var outcome := Assemble(request, expectedTotal.value, consumed, pagesRead, p, pages);
    var publishable := MapRecords(outcome.records);
    if !publishable {
      OnlyCompletion(server, request, maxPages, pagesRead, expectedTotal.value, raw);
      return Err(Core);
    }
    r := Ok(outcome);
  }

  /** Maps the records that are returned, up to the first that the market core refuses. */
  method MapRecords(records: seq<Row>) returns (publishable: bool)
    ensures publishable == AllPublishable(records)
  {
    hide Publishable;
    for i := 0 to |records|
      invariant AllPublishable(records[..i])
    {
      assert records[i] in records && records[..i + 1] == records[..i] + [records[i]];
      if !Publishable(records[i]) {
        return false;
      }
    }
    assert records[..|records|] == records;
    publishable := true;
  }

  lemma OnlyCompletion(server: Server, request: Request, maxPages: nat, n: Positive, total: nat, raw: seq<Row>)
    requires Completes(server, request, maxPages, n, total, raw)
    ensures forall n': Positive, total', raw' | Completes(server, request, maxPages, n', total', raw') ::
              n' == n && total' == total && raw' == raw
  {
    hide Completes;
    forall n': Positive, total', raw' | Completes(server, request, maxPages, n', total', raw')
      ensures n' == n && total' == total && raw' == raw
    {
      CompletionIsUnique(server, request, maxPages, n, total, raw, n', total', raw');
    }
  }
}
