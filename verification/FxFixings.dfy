/** Central parity fixings: the bounded page loop, the parser of its pages and the order of the records. */
module FxFixings {
  import opened Paging
  import opened Sorting
  import opened Texts
  import opened Wrappers

  const MAX_PAGES := 20
  const MAX_ROWS := 1_000
  const MAX_PAGE_SIZE := 50

  datatype Pair = Pair(base: string, quote: string)

  /** Currencies quoted in yuan, then currencies in which the yuan is quoted: the audited table, in its order. */
  const QUOTED_IN_CNY := ["USD", "EUR", "JPY", "HKD", "GBP", "AUD", "NZD", "SGD", "CHF", "CAD"]
  const QUOTING_CNY :=
    ["MOP", "MYR", "RUB", "ZAR", "KRW", "AED", "SAR", "HUF", "PLN", "DKK", "SEK", "NOK", "TRY", "MXN", "THB"]

  predicate Audited(pair: Pair) {
    (pair.quote == "CNY" && pair.base in QUOTED_IN_CNY) || (pair.base == "CNY" && pair.quote in QUOTING_CNY)
  }

  function QuotationBase(pair: Pair): nat {
    if pair.base == "JPY" then 100 else 1
  }

  function Heading(pair: Pair): string {
    (if QuotationBase(pair) == 100 then "100" else "") + pair.base + "/" + pair.quote
  }

  function Headings(pairs: seq<Pair>): (headings: seq<string>)
    ensures |headings| == |pairs| && forall i | 0 <= i < |pairs| :: headings[i] == Heading(pairs[i])
  {
    seq(|pairs|, i requires 0 <= i < |pairs| => Heading(pairs[i]))
  }

  /** The complete heading catalog every page must carry. */
  function Catalog(): seq<string> {
    seq(|QUOTED_IN_CNY|, i requires 0 <= i < |QUOTED_IN_CNY| => Heading(Pair(QUOTED_IN_CNY[i], "CNY")))
    + seq(|QUOTING_CNY|, i requires 0 <= i < |QUOTING_CNY| => Heading(Pair("CNY", QUOTING_CNY[i])))
  }

  /** A request, as its constructor admits it: distinct pairs of three-letter codes, at least one. */
  datatype Request = Request(pairs: seq<Pair>, start: string, end: string, maxRows: nat) {
    predicate Valid() {
      && pairs != [] && NoRepeats(pairs) && maxRows > 0
      && forall p | p in pairs :: |p.base| == 3 && |p.quote| == 3
    }
  }

  /** A source row; the date or a value is `None` when it does not decode. */
  datatype Row = Row(date: Option<string>, values: seq<Option<real>>)

  datatype Page = Page(
    message: string, start: string, end: string, number: nat, pageTotal: nat, pageSize: nat, currency: string,
    searchList: seq<string>, head: seq<string>, total: nat, records: seq<Row>)

  datatype Fixing = Fixing(pair: Pair, date: string, value: real, quotationBase: nat)

  datatype Error = Unsupported | Rejected

  /** Headings tell audited pairs apart. */
  lemma HeadingsDiffer(a: Pair, b: Pair)
    requires |a.base| == |a.quote| == |b.base| == |b.quote| == 3 && Heading(a) == Heading(b)
    ensures a == b
  {
    var n := |Heading(a)|;
    assert Heading(a)[n - 7..n - 4] == a.base && Heading(a)[n - 3..] == a.quote;
    assert Heading(b)[n - 7..n - 4] == b.base && Heading(b)[n - 3..] == b.quote;
  }

  lemma HeadingsDoNotRepeat(pairs: seq<Pair>)
    requires NoRepeats(pairs) && forall p | p in pairs :: |p.base| == 3 && |p.quote| == 3
    ensures NoRepeats(Headings(pairs))
  {
    hide Heading;
    forall i, j | 0 <= i < j < |pairs| ensures Heading(pairs[i]) != Heading(pairs[j]) {
      assert pairs[i] in pairs && pairs[j] in pairs;
      if Heading(pairs[i]) == Heading(pairs[j]) {
        HeadingsDiffer(pairs[i], pairs[j]);
      }
    }
  }

  // ---- Complete pages ------------------------------------------------------------------------------------

  function PageRows(page: Page): seq<Row> {
    page.records
  }

  function Rows(pages: seq<Page>): seq<Row> {
    Gather(PageRows, pages)
  }

  predicate MetadataFits(page: Page, index: nat, request: Request) {
    && Trim(page.message) == "" && page.start == request.start && page.end == request.end
    && page.number == index + 1 && 1 <= page.pageTotal <= MAX_PAGES && 1 <= page.pageSize <= MAX_PAGE_SIZE
    && page.currency == Joined(Headings(request.pairs)) && page.searchList == Headings(request.pairs)
    && page.head == Catalog() && page.total > 0
  }

  predicate WidthsFit(rows: seq<Row>, width: nat) {
    forall r | r in rows :: |r.values| == width
  }

  /** The page fits the request and agrees with the first one. */
  predicate PageFits(pages: seq<Page>, index: nat, request: Request)
    requires index < |pages|
  {
    && MetadataFits(pages[index], index, request)
    && pages[index].total == pages[0].total && pages[index].pageTotal == pages[0].pageTotal
    && WidthsFit(pages[index].records, |request.pairs|)
  }

  /** Pages numbered from one that cover exactly the declared total. */
  predicate Complete(pages: seq<Page>, request: Request) {
    && 1 <= |pages| <= MAX_PAGES
    && (forall i: nat | i < |pages| :: PageFits(pages, i, request))
    && pages[0].pageTotal == |pages| && |Rows(pages)| == pages[0].total <= MAX_ROWS
  }

  /** Pushes the records of one page, each checked, under the row ceiling. */
  method TakeRecords(records: seq<Row>, width: nat, rows: seq<Row>) returns (r: Option<seq<Row>>)
    requires |rows| <= MAX_ROWS
    ensures r == if WidthsFit(records, width) && |rows| + |records| <= MAX_ROWS then Some(rows + records) else None
  {
    var taken := rows;
    for i := 0 to |records|
      invariant taken == rows + records[..i] && |taken| <= MAX_ROWS && WidthsFit(records[..i], width)
    {
      var record := records[i];
      assert record in records && records[..i + 1] == records[..i] + [record];
      if |record.values| != width {
        return None;
      }
      taken := taken + [record];
      if |taken| > MAX_ROWS {
        return None;
      }
    }
    assert records[..|records|] == records;
    r := Some(taken);
  }

  lemma Incomplete(pages: seq<Page>, index: nat, request: Request)
    requires index < |pages| && (PageFits(pages, index, request) ==> |Rows(pages[..index + 1])| > MAX_ROWS)
    ensures !Complete(pages, request)
  {
    hide PageFits, Gather;
    GatherGrows(PageRows, pages, index + 1);
  }

  method CollectPages(pages: seq<Page>, request: Request) returns (r: Option<seq<Row>>)
    ensures r == if Complete(pages, request) then Some(Rows(pages)) else None
  {
    hide MetadataFits, WidthsFit, Gather, Headings, Catalog, Joined, Trim;
    if pages == [] || |pages| > MAX_PAGES {
      return None;
    }
    var stableTotal: Option<nat>, stablePageTotal: Option<nat>, rows: seq<Row> := None, None, [];
    NoRows();
    for index := 0 to |pages|
      invariant stableTotal == if index == 0 then None else Some(pages[0].total)
      invariant stablePageTotal == if index == 0 then None else Some(pages[0].pageTotal)
      invariant rows == Rows(pages[..index]) && |rows| <= MAX_ROWS
      invariant forall i: nat | i < index :: PageFits(pages, i, request)
    {
      var page := pages[index];
      assert pages[..index + 1] == pages[..index] + [page];
      GatherAppend(PageRows, pages[..index], page);
      var fits := CheckMetadata(page, index, request);
      if !fits
         || (stableTotal.Some? && stableTotal.value != page.total)
         || (stablePageTotal.Some? && stablePageTotal.value != page.pageTotal)
      {
        Incomplete(pages, index, request);
        return None;
      }
      stableTotal := Some(if stableTotal.Some? then stableTotal.value else page.total);
      stablePageTotal := Some(if stablePageTotal.Some? then stablePageTotal.value else page.pageTotal);
      var taken := TakeRecords(page.records, |request.pairs|, rows);
      if taken.None? {
        Incomplete(pages, index, request);
        return None;
      }
      rows := taken.value;
    }
    assert pages[..|pages|] == pages;
    if stablePageTotal != Some(|pages|) || stableTotal != Some(|rows|) {
      return None;
    }
    r := Some(rows);
  }

  lemma NoRows()
    ensures Rows([]) == []
  {
  }

  method CheckMetadata(page: Page, index: nat, request: Request) returns (fits: bool)
    ensures fits == MetadataFits(page, index, request)
  {
    hide Joined, Trim, Catalog;
    if Trim(page.message) != "" || page.start != request.start || page.end != request.end {
      return false;
    }
    if page.number != index + 1 || !(1 <= page.pageTotal <= MAX_PAGES) || page.pageSize == 0
       || page.pageSize > MAX_PAGE_SIZE
    {
      return false;
    }
    var selected := Headings(request.pairs);
    if page.currency != Joined(selected) || page.searchList != selected {
      return false;
    }
    fits := page.head == Catalog() && page.total != 0;
  }

  // ---- Records -----------------------------------------------------------------------------------------------

  predicate RowReads(row: Row, request: Request) {
    && row.date.Some? && !Before(row.date.value, request.start) && !Before(request.end, row.date.value)
    && |row.values| == |request.pairs|
    && forall p | 0 <= p < |row.values| :: row.values[p].Some? && row.values[p].value > 0.0
  }

  /** Every row is within the request's bounds and has positive values, and no two rows share a date. */
  predicate Readable(rows: seq<Row>, request: Request) {
    && (forall r | r in rows :: RowReads(r, request))
    && forall i, j | 0 <= i < j < |rows| :: rows[i].date != rows[j].date
  }

  function FixingOf(row: Row, request: Request, p: nat): Fixing
    requires RowReads(row, request) && p < |request.pairs|
  {
    var pair := request.pairs[p];
    Fixing(pair, row.date.value, row.values[p].value, QuotationBase(pair))
  }

  /** The first `k` fixings of a row, in the order of the request. */
  function RowFixings(row: Row, request: Request, k: nat): (fixings: seq<Fixing>)
    requires RowReads(row, request) && k <= |request.pairs|
    ensures |fixings| == k && forall p | 0 <= p < k :: fixings[p] == FixingOf(row, request, p)
  {
    seq(k, p requires 0 <= p < k => FixingOf(row, request, p))
  }

  function Fixings(rows: seq<Row>, request: Request): (fixings: seq<Fixing>)
    requires forall r | r in rows :: RowReads(r, request)
    ensures |fixings| == |rows| * |request.pairs|
    ensures forall r, p: nat | r in rows && p < |request.pairs| :: FixingOf(r, request, p) in fixings
    ensures forall f | f in fixings :: exists r, p: nat :: r in rows && p < |request.pairs| && f == FixingOf(r, request, p)
  {
    if rows == [] then []
    else Fixings(rows[..|rows| - 1], request) + RowFixings(rows[|rows| - 1], request, |request.pairs|)
  }

  /** The identities recorded are those of the dates done, and of the first `k` headings of the current date. */
  ghost predicate SeenUpTo(seen: set<(string, string)>, dates: set<string>, headings: seq<string>, date: string, k: nat)
    requires k <= |headings|
  {
    && (forall d, h | (d, h) in seen :: h in headings && (d in dates || (d == date && h in headings[..k])))
    && (forall d, h | d in dates && h in headings :: (d, h) in seen)
    && (forall h | h in headings[..k] :: (date, h) in seen)
  }

  lemma SeenNext(seen: set<(string, string)>, dates: set<string>, headings: seq<string>, date: string, k: nat)
    requires k < |headings| && NoRepeats(headings) && SeenUpTo(seen, dates, headings, date, k)
    ensures SeenUpTo(seen + {(date, headings[k])}, dates, headings, date, k + 1)
    ensures (date, headings[k]) in seen <==> date in dates
  {
    assert headings[..k + 1] == headings[..k] + [headings[k]];
    assert headings[k] !in headings[..k];
  }

  lemma SeenAll(seen: set<(string, string)>, dates: set<string>, headings: seq<string>, date: string, next: string)
    requires SeenUpTo(seen, dates, headings, date, |headings|)
    ensures SeenUpTo(seen, dates + {date}, headings, next, 0)
  {
    assert headings[..|headings|] == headings;
  }

  function Dates(rows: seq<Row>): set<string> {
    set r | r in rows && r.date.Some? :: r.date.value
  }

  lemma DatesOfAppend(rows: seq<Row>, row: Row)
    requires row.date.Some?
    ensures Dates(rows + [row]) == Dates(rows) + {row.date.value}
  {
    assert forall r :: r in rows + [row] <==> r in rows || r == row;
  }

  /** Reads one row: its date within bounds, its values positive, its identities new. */
  method MapRow(row: Row, request: Request, seen: set<(string, string)>, ghost dates: set<string>)
    returns (r: Option<(seq<Fixing>, set<(string, string)>)>)
    requires request.Valid() && |row.values| == |request.pairs|
    requires SeenUpTo(seen, dates, Headings(request.pairs), "", 0)
    ensures r.Some? <==> RowReads(row, request) && row.date.value !in dates
    ensures r.Some? ==>
              && r.value.0 == RowFixings(row, request, |request.pairs|)
              && SeenUpTo(r.value.1, dates + {row.date.value}, Headings(request.pairs), "", 0)
  {
    hide Heading, SeenUpTo, NoRepeats, Before;
    if row.date.None? || Before(row.date.value, request.start) || Before(request.end, row.date.value) {
      return None;
    }
    var date, headings := row.date.value, Headings(request.pairs);
    HeadingsDoNotRepeat(request.pairs);
    var fixings: seq<Fixing>, known := [], seen;
    SeenNone(seen, dates, headings, date);
    for p := 0 to |request.pairs|
      invariant SeenUpTo(known, dates, headings, date, p) && |fixings| == p
      invariant forall i | 0 <= i < p :: row.values[i].Some? && row.values[i].value > 0.0
      invariant forall i | 0 <= i < p ::
                  fixings[i] == Fixing(request.pairs[i], date, row.values[i].value, QuotationBase(request.pairs[i]))
      invariant p > 0 ==> date !in dates
    {
      var pair, value := request.pairs[p], row.values[p];
      if value.None? || value.value <= 0.0 {
        return None;
      }
      SeenNext(known, dates, headings, date, p);
      if (date, headings[p]) in known {
        return None;
      }
      known := known + {(date, headings[p])};
      fixings := fixings + [Fixing(pair, date, value.value, QuotationBase(pair))];
    }
    SeenAll(known, dates, headings, date, "");
    r := Some((fixings, known));
  }

  lemma SeenNone(seen: set<(string, string)>, dates: set<string>, headings: seq<string>, date: string)
    requires SeenUpTo(seen, dates, headings, "", 0)
    ensures SeenUpTo(seen, dates, headings, date, 0)
  {
  }

  method MapRows(rows: seq<Row>, request: Request) returns (r: Option<seq<Fixing>>)
    requires request.Valid() && WidthsFit(rows, |request.pairs|)
    ensures r.Some? <==> Readable(rows, request)
    ensures r.Some? ==> r.value == Fixings(rows, request)
  {
    hide RowReads, SeenUpTo, Heading, NoRepeats;
    var records: seq<Fixing>, seen: set<(string, string)> := [], {};
    NothingSeen(Headings(request.pairs), request);
    for i := 0 to |rows|
      invariant Readable(rows[..i], request) && records == Fixings(rows[..i], request)
      invariant SeenUpTo(seen, Dates(rows[..i]), Headings(request.pairs), "", 0)
    {
      var row := rows[i];
      assert row in rows && rows[..i + 1] == rows[..i] + [row];
      var mapped := MapRow(row, request, seen, Dates(rows[..i]));
      NextRow(rows, i, request);
      if mapped.None? {
        return None;
      }
      records := records + mapped.value.0;
      seen := mapped.value.1;
    }
    assert rows[..|rows|] == rows;
    r := Some(records);
  }

  lemma NothingSeen(headings: seq<string>, request: Request)
    ensures SeenUpTo({}, Dates([]), headings, "", 0) && Readable([], request) && Fixings([], request) == []
  {
  }

  lemma NextRow(rows: seq<Row>, i: nat, request: Request)
    requires i < |rows| && Readable(rows[..i], request)
    ensures RowReads(rows[i], request) ==> rows[i].date.Some?
    ensures !RowReads(rows[i], request) ==> !Readable(rows, request)
    ensures RowReads(rows[i], request) && rows[i].date.value in Dates(rows[..i]) ==> !Readable(rows, request)
    ensures RowReads(rows[i], request) && rows[i].date.value !in Dates(rows[..i]) ==>
              && Readable(rows[..i + 1], request)
              && Fixings(rows[..i + 1], request)
                 == Fixings(rows[..i], request) + RowFixings(rows[i], request, |request.pairs|)
              && Dates(rows[..i + 1]) == Dates(rows[..i]) + {rows[i].date.value}
  {
    hide RowReads, Readable, Fixings, Dates;
    var row, before := rows[i], rows[..i];
    ReadsHaveDates(row, request);
    RefusedRow(rows, i, request);
    assert rows[..i + 1] == before + [row];
    if RowReads(row, request) && row.date.value !in Dates(before) {
      DatesOfAppend(before, row);
      AcceptedRow(before, row, request);
    }
  }

  lemma RefusedRow(rows: seq<Row>, i: nat, request: Request)
    requires i < |rows|
    ensures !RowReads(rows[i], request) ==> !Readable(rows, request)
    ensures rows[i].date.Some? && rows[i].date.value in Dates(rows[..i]) ==> !Readable(rows, request)
  {
    hide RowReads;
    if rows[i].date.Some? && rows[i].date.value in Dates(rows[..i]) {
      var r :| r in rows[..i] && r.date == rows[i].date;
      var j :| 0 <= j < i && rows[..i][j] == r;
      assert rows[j].date == rows[i].date;
    }
  }

  lemma AcceptedRow(before: seq<Row>, row: Row, request: Request)
    requires Readable(before, request) && RowReads(row, request) && row.date.Some?
    requires row.date.value !in Dates(before)
    ensures Readable(before + [row], request)
    ensures Fixings(before + [row], request) == Fixings(before, request) + RowFixings(row, request, |request.pairs|)
  {
    hide RowReads;
    assert (before + [row])[..|before|] == before;
    assert forall j | 0 <= j < |before| :: before[j] in before;
  }

  lemma ReadsHaveDates(row: Row, request: Request)
    ensures RowReads(row, request) ==> row.date.Some?
  {
  }

  // ---- Order -----------------------------------------------------------------------------------------------

  function IndexOf(pairs: seq<Pair>, pair: Pair): (i: nat)
    ensures i <= |pairs| && (i < |pairs| <==> pair in pairs)
    ensures i < |pairs| ==> pairs[i] == pair
  {
    if pairs == [] then 0 else if pairs[0] == pair then 0 else 1 + IndexOf(pairs[1..], pair)
  }

  predicate Precedes(pairs: seq<Pair>, left: Fixing, right: Fixing) {
    || IndexOf(pairs, left.pair) < IndexOf(pairs, right.pair)
    || (IndexOf(pairs, left.pair) == IndexOf(pairs, right.pair) && Before(left.date, right.date))
  }

  function Order(pairs: seq<Pair>): (Fixing, Fixing) -> bool {
    (left, right) => Precedes(pairs, left, right)
  }

  /** The request's fixings in order: one for each row and pair, and nothing else. */
  ghost predicate Arranged(full: seq<Fixing>, rows: seq<Row>, request: Request) {
    && (forall r | r in rows :: RowReads(r, request))
    && |full| == |rows| * |request.pairs| && StrictlyAscending(Order(request.pairs), full)
    && (forall f | f in full :: f in Fixings(rows, request)) && (forall f | f in Fixings(rows, request) :: f in full)
  }

  method CheckPairs(pairs: seq<Pair>) returns (audited: bool)
    ensures audited <==> forall p | p in pairs :: Audited(p)
  {
    hide Audited;
    for i := 0 to |pairs|
      invariant forall p | p in pairs[..i] :: Audited(p)
    {
      assert pairs[i] in pairs && pairs[..i + 1] == pairs[..i] + [pairs[i]];
      if !Audited(pairs[i]) {
        return false;
      }
    }
    assert pairs[..|pairs|] == pairs;
    audited := true;
  }

  /** Both outcomes, exactly: the pages are complete and readable, and the batch is the first of the arrangement. */
  method ParseCentralParityPages(pages: seq<Page>, request: Request)
    returns (r: Result<seq<Fixing>, Error>, ghost full: seq<Fixing>)
    requires request.Valid()
    ensures r == Err(Unsupported) <==> 1 <= |pages| <= 20 && exists p :: p in request.pairs && !Audited(p)
    ensures r.Ok? <==>
              && (forall p | p in request.pairs :: Audited(p))
              && Complete(pages, request) && Readable(Rows(pages), request)
    ensures r.Ok? ==>
              && Arranged(full, Rows(pages), request)
              && r.value == Cut(full, request.maxRows)
  {
    hide Audited, Readable, Gather, Order, PageFits, StrictlyAscending, NoRepeats;
    full := [];
    if pages == [] || |pages| > MAX_PAGES {
      return Err(Rejected), [];
    }
    var audited := CheckPairs(request.pairs);
    if !audited {
      return Err(Unsupported), [];
    }
    var rows := CollectPages(pages, request);
    if rows.None? {
      return Err(Rejected), [];
    }
    CompleteWidths(pages, request);
    var records := MapRows(rows.value, request);
    if records.None? {
      return Err(Rejected), [];
    }
    SortingArranges(rows.value, request);
    var sorted := Sort(Order(request.pairs), records.value);
    full := sorted;
    r := Ok(if |sorted| > request.maxRows then sorted[..request.maxRows] else sorted);
  }

  lemma CompleteWidths(pages: seq<Page>, request: Request)
    requires Complete(pages, request)
    ensures WidthsFit(Rows(pages), |request.pairs|)
  {
    hide MetadataFits;
    forall i | 0 <= i < |pages| ensures WidthsFit(pages[i].records, |request.pairs|) {
      assert PageFits(pages, i, request);
    }
    GatheredWidths(pages, |request.pairs|);
  }

  lemma {:induction false} GatheredWidths(pages: seq<Page>, width: nat)
    requires forall i | 0 <= i < |pages| :: WidthsFit(pages[i].records, width)
    ensures WidthsFit(Rows(pages), width)
    decreases |pages|
  {
    if pages != [] {
      GatheredWidths(pages[..|pages| - 1], width);
    }
  }

  lemma SortingArranges(rows: seq<Row>, request: Request)
    requires request.Valid() && Readable(rows, request)
    ensures Arranged(Sort(Order(request.pairs), Fixings(rows, request)), rows, request)
  {
    hide Sort, Order, StrictlyAscending, RowReads, TotalOn, NoRepeats;
    var order, records := Order(request.pairs), Fixings(rows, request);
    OrderIsTotal(rows, request);
    SortAscendsStrictly(order, records);
    SortKeepsElements(order, records);
    SameElements(Sort(order, records), records);
  }

  /** A fixing is told by its pair and its date. */
  lemma SameIdentity(rows: seq<Row>, request: Request, f: Fixing, g: Fixing)
    requires request.Valid() && Readable(rows, request)
    requires f in Fixings(rows, request) && g in Fixings(rows, request) && f.pair == g.pair && f.date == g.date
    ensures f == g
  {
    hide Fixings;
    var r, p: nat :| r in rows && p < |request.pairs| && f == FixingOf(r, request, p);
    var r', p': nat :| r' in rows && p' < |request.pairs| && g == FixingOf(r', request, p');
    var i :| 0 <= i < |rows| && rows[i] == r;
    var j :| 0 <= j < |rows| && rows[j] == r';
    assert r.date == r'.date;
  }

  lemma {:induction false} FixingsDoNotRepeat(rows: seq<Row>, request: Request)
    requires request.Valid() && Readable(rows, request)
    ensures NoRepeats(Fixings(rows, request))
    decreases |rows|
  {
    hide RowReads, NoRepeats, RowFixings, FixingOf, Request.Valid;
    if rows == [] {
      NoFixings();
    } else {
      var init, last := rows[..|rows| - 1], rows[|rows| - 1];
      FixingsDoNotRepeat(init, request);
      RowDoesNotRepeat(last, request);
      DatesAreNew(rows, request);
      NoRepeatsJoin(Fixings(init, request), RowFixings(last, request, |request.pairs|));
    }
  }

  lemma NoFixings()
    ensures NoRepeats<Fixing>([])
  {
  }

  lemma RowDoesNotRepeat(row: Row, request: Request)
    requires request.Valid() && RowReads(row, request)
    ensures NoRepeats(RowFixings(row, request, |request.pairs|))
  {
    hide RowReads;
  }

  lemma NoRepeatsJoin(a: seq<Fixing>, b: seq<Fixing>)
    requires NoRepeats(a) && NoRepeats(b) && forall f | f in a :: f !in b
    ensures NoRepeats(a + b)
  {
    assert forall i | 0 <= i < |a| :: a[i] in a;
    assert forall i | 0 <= i < |b| :: b[i] in b;
  }

  /** The last row's date tells its fixings from all earlier ones. */
  lemma DatesAreNew(rows: seq<Row>, request: Request)
    requires rows != [] && Readable(rows, request)
    ensures var init, last := rows[..|rows| - 1], rows[|rows| - 1];
            (forall r | r in init :: RowReads(r, request)) && RowReads(last, request)
            && forall f | f in Fixings(init, request) :: f !in RowFixings(last, request, |request.pairs|)
  {
    hide RowReads, Fixings;
    var init, last := rows[..|rows| - 1], rows[|rows| - 1];
    forall f | f in Fixings(init, request) ensures f !in RowFixings(last, request, |request.pairs|) {
      var r, p: nat :| r in init && p < |request.pairs| && f == FixingOf(r, request, p);
      ReadsHaveDates(r, request);
      ReadsHaveDates(last, request);
      var j :| 0 <= j < |init| && init[j] == r;
      assert rows[j].date != rows[|rows| - 1].date;
    }
  }

  lemma FixingsHavePairs(rows: seq<Row>, request: Request, f: Fixing)
    requires (forall r | r in rows :: RowReads(r, request)) && f in Fixings(rows, request)
    ensures f.pair in request.pairs
  {
    hide Fixings, RowReads;
    var r, p: nat :| r in rows && p < |request.pairs| && f == FixingOf(r, request, p);
  }

  lemma OrderIsAsymmetric(pairs: seq<Pair>, x: Fixing, y: Fixing)
    ensures !(Precedes(pairs, x, y) && Precedes(pairs, y, x)) && !Precedes(pairs, x, x)
    ensures x.pair in pairs && y.pair in pairs && !Precedes(pairs, x, y) && !Precedes(pairs, y, x) ==>
              x.pair == y.pair && x.date == y.date
  {
    hide IndexOf, Before;
    BeforeIsTotal(x.date, y.date);
    BeforeIsTotal(x.date, x.date);
  }

  lemma OrderIsTransitive(pairs: seq<Pair>, x: Fixing, y: Fixing, z: Fixing)
    requires Precedes(pairs, x, y) && Precedes(pairs, y, z)
    ensures Precedes(pairs, x, z)
  {
    hide IndexOf, Before;
    if Before(x.date, y.date) && Before(y.date, z.date) {
      BeforeIsTransitive(x.date, y.date, z.date);
    }
  }

  lemma OrderIsTotal(rows: seq<Row>, request: Request)
    requires request.Valid() && Readable(rows, request)
    ensures TotalOn(Order(request.pairs), Fixings(rows, request)) && NoRepeats(Fixings(rows, request))
  {
    hide Fixings, RowReads, Precedes, NoRepeats;
    var order, all := Order(request.pairs), Fixings(rows, request);
    FixingsDoNotRepeat(rows, request);
    forall x, y | x in all && y in all
      ensures (x == y <==> !order(x, y) && !order(y, x)) && !(order(x, y) && order(y, x))
    {
      OrderIsAsymmetric(request.pairs, x, y);
      FixingsHavePairs(rows, request, x);
      FixingsHavePairs(rows, request, y);
      if x.pair == y.pair && x.date == y.date {
        SameIdentity(rows, request, x, y);
      }
    }
    forall x, y, z | x in all && y in all && z in all && order(x, y) && order(y, z) ensures order(x, z) {
      OrderIsTransitive(request.pairs, x, y, z);
    }
  }

  // ---- Fetching ---------------------------------------------------------------------------------------------

  /** Any server: page numbers, counted from one, to decoded pages; `None` when the request or the decoding fails. */
  type Server = nat -> Option<Page>

  predicate Answers(server: Server, page: nat, answer: Page) {
    server(page) == Some(answer) && 1 <= answer.pageTotal <= MAX_PAGES
  }

  /** Pages after each of which the loop asks for another. */
  predicate Unfinished(server: Server, pages: seq<Page>) {
    forall i: nat | i < |pages| :: Answers(server, i + 1, pages[i]) && i + 1 < pages[i].pageTotal
  }

  /** A complete run of the loop: it ends with the first page whose number reaches the total it declares. */
  predicate Fetched(server: Server, pages: seq<Page>) {
    && 1 <= |pages| <= MAX_PAGES && Unfinished(server, pages[..|pages| - 1])
    && Answers(server, |pages|, pages[|pages| - 1]) && |pages| >= pages[|pages| - 1].pageTotal
  }

  /** A complete run begins with whatever pages the loop goes on from. */
  lemma RunsBegin(server: Server, pages: seq<Page>, run: seq<Page>)
    requires Unfinished(server, pages) && Fetched(server, run)
    ensures |pages| < |run| && pages == run[..|pages|] && Answers(server, |pages| + 1, run[|pages|])
  {
    hide Answers;
    var init := run[..|run| - 1];
    forall i: nat | i < |pages| && i < |init| ensures pages[i] == run[i] {
      assert Answers(server, i + 1, pages[i]) && Answers(server, i + 1, init[i]);
      SameAnswer(server, i + 1, pages[i], init[i]);
    }
    var last: nat := |run| - 1;
    if last < |pages| {
      SameAnswer(server, last + 1, pages[last], run[last]);
    }
    assert |pages| < |init| ==> Answers(server, |pages| + 1, init[|pages|]);
  }

  lemma SameAnswer(server: Server, page: nat, a: Page, b: Page)
    requires Answers(server, page, a) && Answers(server, page, b)
    ensures a == b
  {
  }

  lemma NextPage(server: Server, pages: seq<Page>, next: Page)
    requires Unfinished(server, pages) && Answers(server, |pages| + 1, next) && |pages| < MAX_PAGES
    ensures |pages| + 1 < next.pageTotal ==> Unfinished(server, pages + [next])
    ensures |pages| + 1 >= next.pageTotal ==> Fetched(server, pages + [next])
    ensures |pages| + 1 >= next.pageTotal ==> forall run | Fetched(server, run) :: run == pages + [next]
  {
    hide Answers, Unfinished;
    assert (pages + [next])[..|pages|] == pages;
    UnfinishedNext(server, pages, next);
    forall run | Fetched(server, run) && |pages| + 1 >= next.pageTotal ensures run == pages + [next] {
      RunsBegin(server, pages, run);
      SameAnswer(server, |pages| + 1, next, run[|pages|]);
      if |pages| + 1 < |run| {
        UnfinishedAt(server, run[..|run| - 1], |pages|);
      }
      assert run == run[..|pages|] + [next];
    }
  }

  lemma UnfinishedNext(server: Server, pages: seq<Page>, next: Page)
    requires Unfinished(server, pages) && Answers(server, |pages| + 1, next)
    ensures |pages| + 1 < next.pageTotal ==> Unfinished(server, pages + [next])
  {
    hide Answers;
  }

  lemma FewerThanAll(server: Server, pages: seq<Page>)
    requires Unfinished(server, pages)
    ensures |pages| < MAX_PAGES
  {
    if pages != [] {
      UnfinishedAt(server, pages, |pages| - 1);
    }
  }

  lemma UnfinishedAt(server: Server, pages: seq<Page>, i: nat)
    requires Unfinished(server, pages) && i < |pages|
    ensures i + 1 < pages[i].pageTotal
  {
  }

  lemma NoAnswer(server: Server, pages: seq<Page>)
    requires Unfinished(server, pages)
    requires var answer := server(|pages| + 1); answer.None? || !(1 <= answer.value.pageTotal <= MAX_PAGES)
    ensures forall run :: !Fetched(server, run)
  {
    hide Unfinished, Fetched;
    forall run | Fetched(server, run) ensures false {
      RunsBegin(server, pages, run);
    }
  }

  /** Fetches pages until one reaches the declared total, at most twenty, and parses them. */
  method FetchOfficialFxFixings(server: Server, request: Request)
    returns (r: Result<seq<Fixing>, Error>, ghost pages: seq<Page>, ghost full: seq<Fixing>, ghost requests: nat)
    requires request.Valid()
    ensures requests <= 20
    ensures r.Ok? ==>
              && Fetched(server, pages) && Complete(pages, request) && Readable(Rows(pages), request)
              && requests == |pages| == pages[0].pageTotal
              && Arranged(full, Rows(pages), request)
              && r.value == Cut(full, request.maxRows)
    ensures (exists p :: p in request.pairs && !Audited(p)) ==> r == Err(Unsupported) && requests == 0
    ensures (forall p | p in request.pairs :: Audited(p)) && r.Err? ==>
              forall run :: Fetched(server, run) ==> !(Complete(run, request) && Readable(Rows(run), request))
  {
    hide Audited, Readable, Rows, Complete, Arranged, Unfinished, Fetched;
    requests, full, pages := 0, [], [];
    var audited := CheckPairs(request.pairs);
    if !audited {
      return Err(Unsupported), [], [], 0;
    }
    var fetched: seq<Page> := [];
    NothingFetched(server);
    for page := 1 to MAX_PAGES + 1
      invariant |fetched| == page - 1 == requests && Unfinished(server, fetched)
      invariant |fetched| < MAX_PAGES
    {
      var response := server(page);
      requests := requests + 1;
      if response.None? || !(1 <= response.value.pageTotal <= MAX_PAGES) {
        NoAnswer(server, fetched);
        return Err(Rejected), [], [], requests;
      }
      NextPage(server, fetched, response.value);
      fetched := fetched + [response.value];
      if page >= response.value.pageTotal {
        break;
      }
      FewerThanAll(server, fetched);
    }
    r, full := ParseCentralParityPages(fetched, request);
    pages := fetched;
    CompleteTotal(pages, request);
  }

  lemma NothingFetched(server: Server)
    ensures Unfinished(server, [])
  {
  }

  lemma CompleteTotal(pages: seq<Page>, request: Request)
    ensures Complete(pages, request) ==> pages != [] && pages[0].pageTotal == |pages|
  {
    hide Gather, PageFits;
  }
}
