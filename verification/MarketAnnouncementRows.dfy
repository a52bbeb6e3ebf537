/** What the row check of the announcement read accepts, and what it takes from a row: each field of the record,
    said of the row as the provider sends it. */
module MarketAnnouncementRows {
  import opened Exchanges
  import opened MarketAnnouncementLaws
  import opened MarketAnnouncements
  import opened TextLaws
  import opened Texts
  import opened Validated
  import opened ValidatedLaws
  import opened Wrappers

  // ---- Fields ---------------------------------------------------------------------------------------------

  /** The field is there, and the text is what white space leaves of it; it is not empty. */
  ghost predicate IsRequired(text: string, field: Option<string>) {
    field.Some? && IsCore(text, field.value) && text != []
  }

  /** The words of the field, one space between any two; nothing if it is absent or has none. */
  predicate IsNormalized(text: Option<string>, field: Option<string>) {
    text == if field.None? || Words(field.value) == [] then None else Some(Spaced(Words(field.value)))
  }

  lemma RequiredMeans(field: Option<string>, text: string)
    ensures RequiredText(field) == Ok(text) <==> IsRequired(text, field)
  {
    hide Trim;
    if field.Some? {
      TrimMeans(field.value);
      if IsCore(text, field.value) {
        CoreIsUnique(text, Trim(field.value), field.value);
      }
    }
  }

  lemma OptionalMeans(field: Option<string>)
    ensures IsNormalized(OptionalText(field), field)
  {
    hide NonBlank, CollapseSpaces, Words, Spaced;
    if field.Some? {
      NormalFormMeans(field.value);
    }
  }

  /** The board names of each exchange. */
  predicate IsBoardOf(exchange: Exchange, name: string) {
    match exchange
    case Shanghai => name == "SHMB" || name == "SHZB" || name == "SHKCP" || name == "SHKCB"
    case Shenzhen => name == "SZMB" || name == "SZZB" || name == "SZCY"
    case Beijing => name == "BJS"
  }

  lemma BoardsMean(name: string, exchange: Exchange)
    ensures BoardExchange(name) == Ok(exchange) <==> IsBoardOf(exchange, name)
  {
  }

  // ---- Paths ----------------------------------------------------------------------------------------------

  predicate AllSlashes(s: string) {
    forall i | 0 <= i < |s| :: s[i] == '/'
  }

  /** The path behind any number of slashes. */
  ghost predicate IsBehindSlashes(path: string, text: string) {
    && (exists slashes :: text == slashes + path && AllSlashes(slashes))
    && (path != [] ==> path[0] != '/')
  }

  lemma {:induction false} SlashesMean(text: string)
    ensures IsBehindSlashes(WithoutLeadingSlashes(text), text)
  {
    var slashes := SlashesCut(text);
  }

  lemma {:induction false} SlashesCut(text: string) returns (slashes: string)
    ensures text == slashes + WithoutLeadingSlashes(text) && AllSlashes(slashes)
    ensures WithoutLeadingSlashes(text) != [] ==> WithoutLeadingSlashes(text)[0] != '/'
  {
    if text != [] && text[0] == '/' {
      var more := SlashesCut(text[1..]);
      slashes := ['/'] + more;
      assert text == ['/'] + text[1..];
    } else {
      slashes := [];
    }
  }

  lemma BehindSlashesIsUnique(a: string, b: string, text: string)
    requires IsBehindSlashes(a, text) && IsBehindSlashes(b, text)
    ensures a == b
  {
    var s :| text == s + a && AllSlashes(s);
    var t :| text == t + b && AllSlashes(t);
    SlashesEnd(s, a, text);
    SlashesEnd(t, b, text);
    assert |s| == |t| && a == text[|s|..] && b == text[|t|..];
  }

  lemma SlashesEnd(slashes: string, path: string, text: string)
    requires text == slashes + path && AllSlashes(slashes)
    requires path != [] ==> path[0] != '/'
    ensures |slashes| <= |text| && (forall i | 0 <= i < |slashes| :: text[i] == '/')
    ensures |slashes| < |text| ==> text[|slashes|] != '/'
  {
  }

  /** A path that stays inside the archive. */
  predicate IsSafePath(path: string) {
    && path != [] && '\\' !in path && ':' !in path
    && forall i: nat | i + 1 < |path| :: path[i] != '.' || path[i + 1] != '.'
  }

  lemma TwoDots(path: string)
    ensures Contains(path, "..") <==> exists i: nat | i + 1 < |path| :: path[i] == '.' && path[i + 1] == '.'
  {
    forall i: nat | i + 1 < |path| ensures StartsAt(path, "..", i) <==> path[i] == '.' && path[i + 1] == '.' {
      assert path[i..i + 2] == [path[i], path[i + 1]];
    }
    if Contains(path, "..") {
      var i: nat :| i <= |path| && StartsAt(path, "..", i);
      assert path[i] == '.' && path[i + 1] == '.';
    }
    if i: nat :| i + 1 < |path| && path[i] == '.' && path[i + 1] == '.' {
      assert StartsAt(path, "..", i);
    }
  }

  /** A field's URL, if it has one: that of the path behind its slashes, on the archive's host. */
  ghost predicate IsArchiveUrl(url: string, field: string) {
    exists text, path ::
      && IsCore(text, field) && IsBehindSlashes(path, text) && IsSafePath(path)
      && url == "https://static.cninfo.com.cn/" + path && |url| <= 4096
      && forall i | 0 <= i < |path| :: IsUrlCharacter(path[i])
  }

  /** Neither white space nor a control character. */
  predicate IsUrlCharacter(c: char) {
    ' ' < c && (c < '\U{7F}' || '\U{9F}' < c) && !IsSpace(c)
  }

  lemma PathOf(field: string)
    ensures IsCore(Trim(field), field) && IsBehindSlashes(WithoutLeadingSlashes(Trim(field)), Trim(field))
    ensures forall text, path | IsCore(text, field) && IsBehindSlashes(path, text) ::
              path == WithoutLeadingSlashes(Trim(field))
  {
    hide Trim, WithoutLeadingSlashes, IsCore, IsBehindSlashes;
    TrimMeans(field);
    SlashesMean(Trim(field));
    forall text, path | IsCore(text, field) && IsBehindSlashes(path, text)
      ensures path == WithoutLeadingSlashes(Trim(field))
    {
      CoreIsUnique(text, Trim(field), field);
      BehindSlashesIsUnique(path, WithoutLeadingSlashes(Trim(field)), Trim(field));
    }
  }

  /** The last character of a trimmed path is no white space, so its URL is trimmed. */
  lemma PathEnds(field: string)
    ensures var path := WithoutLeadingSlashes(Trim(field)); path != [] ==> !IsSpace(path[|path| - 1])
  {
    hide Trim, IsSpace;
    TrimMeans(field);
    SlashesMean(Trim(field));
  }

  lemma ArchiveHostIsClean()
    ensures ValidAuthority(PDF_HOST) && UrlChars(PDF_HOST)
    ensures forall i | 0 <= i < |PDF_HOST| :: PDF_HOST[i] !in {'/', '?', '#'}
  {
  }

  /** The path check accepts a field exactly if it has a URL in the archive, and yields that. */
  lemma PathsMean(field: string, url: string)
    ensures PdfUrl(field) == Ok(url) <==> IsArchiveUrl(url, field)
  {
    hide Trim, WithoutLeadingSlashes, IsCore, IsBehindSlashes, HttpsUrl, Contains, IsSpace, ValidAuthority, UrlChars,
      IsUrlCharacter;
    var path := WithoutLeadingSlashes(Trim(field));
    PathOf(field);
    TwoDots(path);
    if IsSafePath(path) {
      PathEnds(field);
      ArchiveHostIsClean();
      assert ("/" + path)[|"/" + path| - 1] == path[|path| - 1];
      UrlsOnAHost(PDF_HOST, "/" + path);
      PathChars(path);
      assert SCHEME + PDF_HOST + ("/" + path) == "https://static.cninfo.com.cn/" + path;
    }
  }

  lemma PathChars(path: string)
    requires '\\' !in path
    ensures UrlChars("/" + path) <==> forall i | 0 <= i < |path| :: IsUrlCharacter(path[i])
  {
    assert forall i | 0 <= i < |path| :: ("/" + path)[i + 1] == path[i];
  }

  // ---- The row check ------------------------------------------------------------------------------------------

  /** The record is what the row says: every field comes from the row's field of that name. */
  ghost predicate Reflects(row: Row, wire: WireRow) {
    && IsRequired(row.id, wire.id)
    && IsRequired(row.code, wire.code)
    && IsRequired(row.organization, wire.organization)
    && IsRequired(row.pageColumn, wire.pageColumn)
    && IsBoardOf(row.exchange, row.pageColumn)
    && IsNormalized(Some(row.title), wire.title)
    && IsNormalized(row.name, wire.name)
    && IsNormalized(row.category, if wire.categoryName.Some? then wire.categoryName else wire.category)
    && wire.publishedAt == Some(Ok(row.publishedAt))
    && (if row.adjunctUrl.Some? then IsRequired(row.adjunctUrl.value, wire.adjunctUrl)
        else forall text :: !IsRequired(text, wire.adjunctUrl))
  }

  /** What the check asks of a record. */
  ghost predicate Fits(row: Row, request: Request) {
    && |row.code| == 6 && (forall i | 0 <= i < 6 :: '0' <= row.code[i] <= '9')
    && |row.publishedAt| >= 10
    && AtMost(request.start, row.publishedAt[..10]) && AtMost(row.publishedAt[..10], request.end)
    && (row.adjunctUrl.Some? ==> exists url :: IsArchiveUrl(url, row.adjunctUrl.value))
  }

  lemma FittingText(field: Option<string>)
    ensures RequiredText(field).Ok? ==> IsRequired(RequiredText(field).value, field)
    ensures RequiredText(field).Err? ==> forall text :: !IsRequired(text, field)
  {
    hide RequiredText, IsRequired;
    if RequiredText(field).Ok? {
      RequiredMeans(field, RequiredText(field).value);
    }
    forall text | IsRequired(text, field) ensures RequiredText(field).Ok? {
      RequiredMeans(field, text);
    }
  }

  lemma FittingPath(field: string)
    ensures PdfUrl(field).Ok? <==> exists url :: IsArchiveUrl(url, field)
  {
    hide PdfUrl, IsArchiveUrl;
    if PdfUrl(field).Ok? {
      PathsMean(field, PdfUrl(field).value);
    }
    forall url | IsArchiveUrl(url, field) ensures PdfUrl(field).Ok? {
      PathsMean(field, url);
    }
  }

  lemma AdjunctMeans(field: Option<string>)
    ensures var adjunct := match field case None => None case Some(u) => NonBlank(u);
            if adjunct.Some? then RequiredText(field) == Ok(adjunct.value) else RequiredText(field).Err?
  {
  }

  lemma AcceptedRowReflects(wire: WireRow, request: Request, row: Row)
    requires ValidateRow(wire, request) == Ok(row)
    ensures Reflects(row, wire) && Fits(row, request)
  {
    hide RequiredText, OptionalText, BoardExchange, PdfUrl, Before, NonBlank, IsArchiveUrl, IsRequired, IsNormalized,
      IsBoardOf;
    FittingText(wire.id);
    FittingText(wire.code);
    FittingText(wire.organization);
    FittingText(wire.pageColumn);
    FittingText(wire.adjunctUrl);
    AdjunctMeans(wire.adjunctUrl);
    BoardsMean(row.pageColumn, row.exchange);
    OptionalMeans(wire.title);
    OptionalMeans(wire.name);
    OptionalMeans(if wire.categoryName.Some? then wire.categoryName else wire.category);
    if row.adjunctUrl.Some? {
      FittingPath(row.adjunctUrl.value);
    }
  }

  lemma ReflectedRowIsAccepted(wire: WireRow, request: Request, row: Row)
    requires Reflects(row, wire) && Fits(row, request)
    ensures ValidateRow(wire, request) == Ok(row)
  {
    hide RequiredText, OptionalText, BoardExchange, PdfUrl, Before, NonBlank, IsArchiveUrl, IsRequired, IsBoardOf, Words,
      Spaced;
    RequiredMeans(wire.id, row.id);
    RequiredMeans(wire.code, row.code);
    RequiredMeans(wire.organization, row.organization);
    RequiredMeans(wire.pageColumn, row.pageColumn);
    FittingText(wire.adjunctUrl);
    AdjunctMeans(wire.adjunctUrl);
    BoardsMean(row.pageColumn, row.exchange);
    OptionalMeans(wire.title);
    OptionalMeans(wire.name);
    OptionalMeans(if wire.categoryName.Some? then wire.categoryName else wire.category);
    if row.adjunctUrl.Some? {
      RequiredMeans(wire.adjunctUrl, row.adjunctUrl.value);
      FittingPath(row.adjunctUrl.value);
    }
  }

  /** The check accepts a row as a record exactly if the record is what the row says and fits the request. */
  lemma RowCheckIsExact(wire: WireRow, request: Request, row: Row)
    ensures ValidateRow(wire, request) == Ok(row) <==> Reflects(row, wire) && Fits(row, request)
  {
    hide ValidateRow, Reflects, Fits;
    if ValidateRow(wire, request) == Ok(row) {
      AcceptedRowReflects(wire, request, row);
    }
    if Reflects(row, wire) && Fits(row, request) {
      ReflectedRowIsAccepted(wire, request, row);
    }
  }

  // ---- The records' constructors ---------------------------------------------------------------------------------

  /** What white space leaves of the text is printable and has from 1 to 16384 characters. */
  ghost predicate IsText(value: string) {
    exists text :: IsCore(text, value) && 1 <= |text| <= 16384 && IsPrintable(text)
  }

  lemma TextIsAccepted(value: string)
    ensures NonEmptyText(value).Some? <==> IsText(value)
  {
    hide NonEmptyText, IsCore, IsPrintable;
    if NonEmptyText(value).Some? {
      TextsMean(value, NonEmptyText(value).value);
    }
    forall text | IsCore(text, value) && 1 <= |text| <= 16384 && IsPrintable(text)
      ensures NonEmptyText(value).Some?
    {
      TextsMean(value, text);
    }
  }

  ghost predicate IsOptionalText(value: Option<string>) {
    value.Some? && Words(value.value) != [] ==> IsText(Spaced(Words(value.value)))
  }

  lemma OptionalTextIsAccepted(value: Option<string>)
    ensures OptionalTextIsValid(value) <==> IsOptionalText(value)
  {
    hide NonEmptyText, OptionalText, Words, Spaced, IsText;
    OptionalMeans(value);
    if value.Some? && Words(value.value) != [] {
      TextIsAccepted(Spaced(Words(value.value)));
    }
  }

  /** The detail page of a record published on `date`. */
  function DetailUrl(row: Row, date: string): string {
    "https://www.cninfo.com.cn"
    + ("/new/disclosure/detail?stockCode=" + FormEncoded(row.code) + "&announcementId=" + FormEncoded(row.id)
       + "&orgId=" + FormEncoded(row.organization) + "&announcementTime=" + FormEncoded(date))
  }

  /** A record is accepted exactly if its texts are, its detail URL has at most 4096 characters, and its path, if it
      has one, has a URL in the archive. */
  lemma PublishableMeans(row: Row)
    ensures Publishable(row)
            <==> && IsText(row.id) && IsText(row.title) && IsText(row.publishedAt)
                 && IsOptionalText(row.name) && IsOptionalText(row.category)
                 && |row.publishedAt| >= 10 && |DetailUrl(row, row.publishedAt[..10])| <= 4096
                 && (row.adjunctUrl.Some? ==> exists url :: IsArchiveUrl(url, row.adjunctUrl.value))
  {
    hide NonEmptyText, OptionalTextIsValid, IsText, IsOptionalText, IsArchiveUrl, PdfUrl, FormEncoded, HttpsUrl;
    TextIsAccepted(row.id);
    TextIsAccepted(row.title);
    TextIsAccepted(row.publishedAt);
    OptionalTextIsAccepted(row.name);
    OptionalTextIsAccepted(row.category);
    if |row.publishedAt| >= 10 {
      DetailUrlsFailByLength(row);
      SameUrl(row, row.publishedAt[..10]);
    }
    if row.adjunctUrl.Some? {
      FittingPath(row.adjunctUrl.value);
    }
  }

  lemma SameUrl(row: Row, date: string)
    ensures SCHEME + DETAIL_HOST + DetailPath(row.code, row.organization, row.id, date) == DetailUrl(row, date)
  {
    hide FormEncoded;
    assert SCHEME + DETAIL_HOST == "https://www.cninfo.com.cn";
  }

  // ---- The rows and the records of a read --------------------------------------------------------------------

  /** Row `j` of page `p`, as the provider sent it. */
  predicate IsWireRow(server: Server, p: nat, j: nat, wire: WireRow) {
    && server(p).Ok? && server(p).value.announcements.Some?
    && j < |server(p).value.announcements.value| && server(p).value.announcements.value[j] == wire
  }

  /** The row at position `k`, thirty to a page. */
  predicate IsWireRowAt(server: Server, k: nat, wire: WireRow) {
    IsWireRow(server, k / 30 + 1, k % 30, wire)
  }

  /** Position `k` lies on the first `n` pages, and a row stands there. */
  ghost predicate IsSent(server: Server, n: nat, k: nat) {
    k / 30 < n && exists wire :: IsWireRowAt(server, k, wire)
  }

  /** Of a completed read, row `30 * (p - 1) + j` is what row `j` of page `p` says, and no other rows are sent. */
  lemma RowsReflectThePages(server: Server, request: Request, maxPages: nat, n: Positive, total: nat, raw: seq<Row>)
    requires Completes(server, request, maxPages, n, total, raw)
    ensures forall p: Positive, j: nat, wire | p <= n && IsWireRow(server, p, j, wire) ::
              30 * (p - 1) + j < |raw| && Reflects(raw[30 * (p - 1) + j], wire) && Fits(raw[30 * (p - 1) + j], request)
    ensures forall k: nat | k < |raw| :: IsSent(server, n, k)
  {
    hide Reflects, Fits, ReadsCleanly, Satisfied, Unsatisfied, IsWireRow, IsSent;
    forall p: Positive, j: nat, wire | p <= n && IsWireRow(server, p, j, wire)
      ensures 30 * (p - 1) + j < |raw| && Reflects(raw[30 * (p - 1) + j], wire) && Fits(raw[30 * (p - 1) + j], request)
    {
      RowOnPage(server, request, n, total, raw, p, j, wire);
    }
    forall k: nat | k < |raw| ensures IsSent(server, n, k) {
      RowHasWire(server, request, n, total, raw, k);
    }
  }

  lemma RowHasWire(server: Server, request: Request, n: nat, total: nat, raw: seq<Row>, k: nat)
    requires ReadsCleanly(server, request, n, total, raw) && k < |raw|
    ensures IsSent(server, n, k)
  {
    hide ValidateRow, NewestFirst, NoConflicts, PageAgrees;
    assert RowAt(server, request, k) == Some(raw[k]);
    assert IsWireRowAt(server, k, WireRows(server(k / 30 + 1).value)[k % 30]);
  }

  lemma RowOnPage(server: Server, request: Request, n: nat, total: nat, raw: seq<Row>, p: Positive, j: nat, wire: WireRow)
    requires ReadsCleanly(server, request, n, total, raw) && p <= n && IsWireRow(server, p, j, wire)
    ensures var k := 30 * (p - 1) + j; k < |raw| && Reflects(raw[k], wire) && Fits(raw[k], request)
  {
    hide ValidateRow, Reflects, Fits, NewestFirst, NoConflicts;
    var k := 30 * (p - 1) + j;
    assert PageAgrees(server, p, total);
    assert k / 30 == p - 1 && k % 30 == j;
    assert RowAt(server, request, k) == Some(raw[k]);
    RowCheckIsExact(wire, request, raw[k]);
  }

  /** Every record is what some row of the pages read says. */
  lemma RecordsReflectTheirRows(server: Server, request: Request, maxPages: nat, n: Positive, total: nat, raw: seq<Row>)
    requires Completes(server, request, maxPages, n, total, raw)
    ensures forall x | x in Receipt(request, n, total, raw).records ::
              Fits(x, request) && exists p: Positive, j: nat, wire :: p <= n && IsWireRow(server, p, j, wire) && Reflects(x, wire)
  {
    hide Completes, FirstOccurrences, Reflects, Fits, IsWireRow;
    RowsReflectThePages(server, request, maxPages, n, total, raw);
    FirstOccurrencesOccur(raw);
    forall x | x in Receipt(request, n, total, raw).records
      ensures Fits(x, request)
      ensures exists p: Positive, j: nat, wire :: p <= n && IsWireRow(server, p, j, wire) && Reflects(x, wire)
    {
      assert x in FirstOccurrences(raw);
      var k: nat :| k < |raw| && raw[k] == x;
      assert IsSent(server, n, k);
      var p: Positive := k / 30 + 1;
      var wire :| IsWireRowAt(server, k, wire);
      assert 30 * (p - 1) + k % 30 == k;
      assert p <= n && IsWireRow(server, p, k % 30, wire) && Reflects(x, wire);
    }
  }

  lemma {:induction false} FirstOccurrencesOccur(rows: seq<Row>)
    ensures forall x | x in FirstOccurrences(rows) :: x in rows
  {
    if rows != [] {
      FirstOccurrencesOccur(rows[..|rows| - 1]);
    }
  }

  /** A source that cuts a list of rows into pages of thirty, and may answer anything past the last one; the
      records are what its rows say, newest first, and no two of them contradict each other. */
  ghost predicate ServesList(server: Server, request: Request, wire: seq<WireRow>, rows: seq<Row>) {
    && |wire| == |rows|
    && (forall p: Positive | p == 1 || 30 * (p - 1) < |wire| ::
          server(p) == Ok(Page(Some(|wire|), Some(|wire|), Some(|wire| / 30), Some(30 * p < |wire|),
                               Some(wire[Min(|wire|, 30 * (p - 1))..Min(|wire|, 30 * p)]))))
    && (forall k | 0 <= k < |wire| :: Reflects(rows[k], wire[k]) && Fits(rows[k], request))
    && (forall i, j | 0 <= i < j < |rows| :: AtMost(rows[j].publishedAt, rows[i].publishedAt))
    && (forall i, j | 0 <= i < j < |rows| && rows[i].id == rows[j].id :: rows[i] == rows[j])
  }

  /** Such a source is read exactly when it fits the page bound or fills the limit first and its first distinct
      rows are publishable; these are then the records. */
  lemma ListsAreRead(server: Server, request: Request, maxPages: Positive, wire: seq<WireRow>, rows: seq<Row>)
    requires ServesList(server, request, wire, rows)
    ensures (exists n: Positive, total, raw ::
               Completes(server, request, maxPages, n, total, raw) && AllPublishable(Receipt(request, n, total, raw).records))
            <==> (|rows| <= 30 * maxPages || |FirstOccurrences(rows[..30 * maxPages])| >= request.limit)
                 && AllPublishable(FirstDistinct(rows, request))
    ensures forall n: Positive, total, raw | Completes(server, request, maxPages, n, total, raw) ::
              total == |rows| && Receipt(request, n, total, raw).records == FirstDistinct(rows, request)
  {
    hide Completes, Receipt, FirstOccurrences, AllPublishable, FirstDistinct, ValidateRow, Reflects, Fits;
    forall k | 0 <= k < |wire| ensures ValidateRow(wire[k], request) == Ok(rows[k]) {
      RowCheckIsExact(wire[k], request, rows[k]);
    }
    FaithfulSource(server, request, maxPages, wire, rows);
  }
}
