/** Full-market rankings: a bounded page loop over one of two endpoints, and the check that what it collected
    is one complete, distinct, descending universe. */
module MarketRankings {
  import opened Clocks
  import opened Exchanges
  import opened Paging
  import opened Texts
  import opened Wrappers

  const PAGE_SIZE := 100
  const MAX_UNIVERSE_SIZE := 20_000
  const MAX_RETURNED_RANKS := 200
  const MAX_PAGE_ATTEMPTS := 3
  const MAX_PAGES := MAX_UNIVERSE_SIZE / PAGE_SIZE

  datatype Kind = VolumeRatio | MainNetInflow | Unproven(name: string)
  datatype Unit = Multiple | Yuan
  datatype Instrument = Instrument(exchange: Exchange, code: string)
  datatype Session = PreOpen | OpeningAuction | Continuous | LunchBreak | Close | PostClose

  /** A source row; a field is `None` when it is absent or does not decode. */
  datatype Row = Row(instrument: Option<Instrument>, name: Option<string>, value: Option<real>, epoch: Option<nat>)
  datatype Envelope = Envelope(total: nat, rows: seq<Row>)

  datatype Endpoint = Primary | Delayed

  /** What one request brings back: a page, a transport failure, or a reply that does not parse. */
  datatype Reply = Page(envelope: Envelope) | Dropped | Garbled

  /** Any server: its answer may differ with the endpoint, the page and the attempt. */
  type Server = (Endpoint, nat, nat) -> Reply

  /** `Rejected` stands for every protocol, decoding and record error. */
  datatype Error = InvalidRequest | Unsupported | Transport | Rejected

  /** A row with every required field. */
  datatype Quote = Quote(instrument: Instrument, name: string, value: real, epoch: nat)

  datatype Entry = Entry(
    kind: Kind, rank: nat, instrument: Instrument, name: string, value: real, unit: Unit, sourceDay: nat,
    session: Session, universeSize: nat, coveredCount: nat, skewMillis: nat, sourceAt: nat)

  datatype Batch = Batch(sourceAt: nat, records: seq<Entry>)

  function RankingUnit(kind: Kind): (unit: Option<Unit>)
    ensures unit.None? <==> kind.Unproven?
  {
    match kind
    case VolumeRatio => Some(Multiple)
    case MainNetInflow => Some(Yuan)
    case Unproven(_) => None
  }

  // ---- Source time ----------------------------------------------------------------------------------

  const CHINA_OFFSET := 8 * 3600

  function SourceDay(epoch: nat): nat {
    (epoch + CHINA_OFFSET) / 86400
  }

  function SecondOfDay(epoch: nat): nat {
    (epoch + CHINA_OFFSET) % 86400
  }

  /** The trading session, from a comparison of clock texts. */
  function SessionForSourceAt(epoch: nat): Session {
    var time := ClockText(SecondOfDay(epoch));
    if Before(time, "09:15:00") then PreOpen
    else if Before(time, "09:30:00") then OpeningAuction
    else if AtMost(time, "11:30:00") then Continuous
    else if Before(time, "13:00:00") then LunchBreak
    else if Before(time, "15:00:00") then Continuous
    else if time == "15:00:00" then Close
    else PostClose
  }

  // ---- What makes a universe --------------------------------------------------------------------------

  function ReadRow(row: Row, kind: Kind): Option<Quote> {
    match row
    case Row(Some(instrument), Some(name), Some(value), Some(epoch)) =>
      if (kind.VolumeRatio? && value < 0.0) || epoch == 0 then None
      else Some(Quote(instrument, name, value, epoch))
    case _ => None
  }

  predicate Reads(rows: seq<Row>, kind: Kind, quotes: seq<Quote>) {
    |quotes| == |rows| && forall i | 0 <= i < |rows| :: ReadRow(rows[i], kind) == Some(quotes[i])
  }

  predicate Distinct(quotes: seq<Quote>) {
    forall i, j | 0 <= i < j < |quotes| :: quotes[i].instrument != quotes[j].instrument
  }

  predicate Descending(quotes: seq<Quote>) {
    forall i, j | 0 <= i < j < |quotes| :: quotes[i].value >= quotes[j].value
  }

  predicate OneInstant(quotes: seq<Quote>) {
    forall i | 0 <= i < |quotes| :: quotes[i].epoch == quotes[0].epoch
  }

  predicate ListedOn(quotes: seq<Quote>, exchange: Exchange) {
    exists i | 0 <= i < |quotes| :: quotes[i].instrument.exchange == exchange
  }

  predicate EveryExchange(quotes: seq<Quote>) {
    ListedOn(quotes, Shanghai) && ListedOn(quotes, Shenzhen) && ListedOn(quotes, Beijing)
  }

  /** A complete, distinct, descending market seen at one instant. */
  predicate Universe(quotes: seq<Quote>) {
    Distinct(quotes) && Descending(quotes) && OneInstant(quotes) && EveryExchange(quotes)
  }

  lemma UniverseIsNotEmpty(quotes: seq<Quote>)
    requires Universe(quotes)
    ensures quotes != []
  {
    assert ListedOn(quotes, Shanghai);
  }

  /** Every entry carries the day and the session of the first row. */
  function EntryFor(quote: Quote, kind: Kind, unit: Unit, rank: nat, total: nat, day: nat, session: Session): Entry {
    Entry(kind, rank, quote.instrument, quote.name, quote.value, unit, day, session, total, total, 0, quote.epoch)
  }

  function TopRanks(quotes: seq<Quote>, kind: Kind, limit: nat): Batch
    requires !kind.Unproven? && quotes != []
  {
    Batch(quotes[0].epoch,
          seq(Min(limit, |quotes|),
              (i: nat) requires i < Min(limit, |quotes|) =>
                EntryFor(quotes[i], kind, RankingUnit(kind).value, i + 1, |quotes|, SourceDay(quotes[0].epoch),
                         SessionForSourceAt(quotes[0].epoch))))
  }

  // ---- Parsing the collected pages ----------------------------------------------------------------------

  function PageRows(page: Envelope): seq<Row> {
    page.rows
  }

  function Rows(pages: seq<Envelope>): seq<Row> {
    Gather(PageRows, pages)
  }

  /** The pages agree on a total in range, none is too long, and together they hold that many rows. */
  predicate Whole(pages: seq<Envelope>) {
    && pages != []
    && (forall p | p in pages :: p.total == pages[0].total && |p.rows| <= PAGE_SIZE)
    && 1 <= pages[0].total <= MAX_UNIVERSE_SIZE
    && |Rows(pages)| == pages[0].total
  }

  /** The pages hold a universe, and these are its quotes. */
  predicate Holds(pages: seq<Envelope>, kind: Kind, quotes: seq<Quote>) {
    Whole(pages) && Reads(Rows(pages), kind, quotes) && Universe(quotes)
  }

  method ParseMarketRankingEnvelopes(pages: seq<Envelope>, kind: Kind, limit: nat)
    returns (r: Result<Batch, Error>, ghost quotes: seq<Quote>)
    requires limit > 0 && pages != [] && !kind.Unproven?
    ensures r.Ok? || r == Err(Rejected)
    ensures r.Ok? ==> Holds(pages, kind, quotes) && quotes != [] && r.value == TopRanks(quotes, kind, limit)
    ensures r.Err? ==> forall q :: !Holds(pages, kind, q)
  {
    hide Whole, Rows, Reads, Universe, SessionForSourceAt, SourceDay;
    quotes := [];
    var rows := CollectRows(pages);
    if rows.None? {
      return Err(Rejected), [];
    }
    WholeTotal(pages);
    var total := pages[0].total;
    var mapped := MapRows(rows.value, kind);
    if mapped.None? {
      return Err(Rejected), [];
    }
    quotes := mapped.value;
    UniverseIsNotEmpty(quotes);
    var unit := RankingUnit(kind).value;
    var returned := Min(limit, total);
    var day, session := SourceDay(mapped.value[0].epoch), SessionForSourceAt(mapped.value[0].epoch);
    var records: seq<Entry> := [];
    ReadsLength(rows.value, kind, quotes);
    while |records| < returned
      invariant |records| <= returned
      invariant forall i | 0 <= i < |records| :: records[i] == EntryFor(quotes[i], kind, unit, i + 1, total, day, session)
    {
      records := records + [EntryFor(mapped.value[|records|], kind, unit, |records| + 1, total, day, session)];
    }
    assert records == TopRanks(quotes, kind, limit).records;
    r := Ok(Batch(mapped.value[0].epoch, records));
  }

  lemma WholeTotal(pages: seq<Envelope>)
    requires Whole(pages)
    ensures pages != [] && pages[0].total == |Rows(pages)|
  {
  }

  lemma ReadsLength(rows: seq<Row>, kind: Kind, quotes: seq<Quote>)
    requires Reads(rows, kind, quotes)
    ensures |rows| == |quotes|
  {
  }

  lemma ReadsOnce(rows: seq<Row>, kind: Kind, a: seq<Quote>, b: seq<Quote>)
    requires Reads(rows, kind, a) && Reads(rows, kind, b)
    ensures a == b
  {
    forall i | 0 <= i < |a| ensures a[i] == b[i] {
      assert ReadRow(rows[i], kind) == Some(a[i]);
    }
  }

  method CollectRows(pages: seq<Envelope>) returns (rows: Option<seq<Row>>)
    requires pages != []
    ensures rows == if Whole(pages) then Some(Rows(pages)) else None
  {
    hide Rows;
    var total: Option<nat>, collected: seq<Row>, index: nat := None, [], 0;
    NoRows();
    while index < |pages|
      invariant index <= |pages| && total == (if index == 0 then None else Some(pages[0].total))
      invariant pages[..index] == [] ==> collected == []
      invariant collected == Rows(pages[..index])
      invariant forall p | p in pages[..index] :: p.total == pages[0].total && |p.rows| <= PAGE_SIZE
    {
      var envelope := pages[index];
      if total.Some? && total.value != envelope.total {
        return None;
      }
      total := Some(if total.Some? then total.value else envelope.total);
      if |envelope.rows| > PAGE_SIZE {
        return None;
      }
      RowsOfAppend(pages[..index], envelope);
      assert pages[..index + 1] == pages[..index] + [envelope];
      collected := collected + envelope.rows;
      index := index + 1;
    }
    assert pages[..index] == pages;
    if total.value == 0 || total.value > MAX_UNIVERSE_SIZE || |collected| != total.value {
      return None;
    }
    rows := Some(collected);
  }

  lemma NoRows()
    ensures Rows([]) == []
  {
  }

  lemma RowsOfAppend(pages: seq<Envelope>, last: Envelope)
    ensures Rows(pages + [last]) == Rows(pages) + last.rows
  {
    GatherAppend(PageRows, pages, last);
  }

  /** No reading of the rows is a universe. */
  ghost predicate Refuted(rows: seq<Row>, kind: Kind) {
    forall q | Reads(rows, kind, q) :: !Universe(q)
  }

  function Earliest(quotes: seq<Quote>): (r: Option<nat>)
    ensures r.Some? <==> quotes != []
    ensures forall i | 0 <= i < |quotes| :: r.value <= quotes[i].epoch
  {
    if quotes == [] then None
    else
      var last := quotes[|quotes| - 1].epoch;
      match Earliest(quotes[..|quotes| - 1])
      case None => Some(last)
      case Some(before) => Some(if before < last then before else last)
  }

  function Latest(quotes: seq<Quote>): (r: Option<nat>)
    ensures r.Some? <==> quotes != []
    ensures forall i | 0 <= i < |quotes| :: r.value >= quotes[i].epoch
  {
    if quotes == [] then None
    else
      var last := quotes[|quotes| - 1].epoch;
      match Latest(quotes[..|quotes| - 1])
      case None => Some(last)
      case Some(before) => Some(if before > last then before else last)
  }

  function Instruments(quotes: seq<Quote>): set<Instrument> {
    set i | 0 <= i < |quotes| :: quotes[i].instrument
  }

  function ExchangesOf(quotes: seq<Quote>): set<Exchange> {
    set i | 0 <= i < |quotes| :: quotes[i].instrument.exchange
  }

  /** The row-by-row checks; days and sessions are compared before the spread of the instants is. */
  method MapRows(rows: seq<Row>, kind: Kind) returns (mapped: Option<seq<Quote>>)
    ensures mapped.Some? ==> Reads(rows, kind, mapped.value) && Universe(mapped.value)
    ensures mapped.None? ==> Refuted(rows, kind)
  {
    hide *;
    var quotes: seq<Quote>, instruments: set<Instrument>, exchanges: set<Exchange> := [], {}, {};
    var previous: Option<real>, earliest: Option<nat>, latest: Option<nat> := None, None, None;
    var sourceDay: Option<nat>, session: Option<Session> := None, None;
    NoQuotes(rows, kind);
    for index := 0 to |rows|
      invariant Reads(rows[..index], kind, quotes) && Distinct(quotes) && Descending(quotes)
      invariant instruments == Instruments(quotes) && exchanges == ExchangesOf(quotes)
      invariant previous == if quotes == [] then None else Some(quotes[|quotes| - 1].value)
      invariant earliest == Earliest(quotes) && latest == Latest(quotes)
      invariant sourceDay == if quotes == [] then None else Some(SourceDay(quotes[0].epoch))
      invariant session == if quotes == [] then None else Some(SessionForSourceAt(quotes[0].epoch))
    {
      var next := ReadRow(rows[index], kind);
      if next.None? {
        UnreadableRefutes(rows, kind, index);
        return None;
      }
      var quote := next.value;
      exchanges := exchanges + {quote.instrument.exchange};
      if quote.instrument in instruments {
        RepeatRefutes(rows, kind, index, quotes, quote);
        return None;
      }
      instruments := instruments + {quote.instrument};
      if previous.Some? && previous.value < quote.value {
        ClimbRefutes(rows, kind, index, quotes, quote);
        return None;
      }
      var day, period := SourceDay(quote.epoch), SessionForSourceAt(quote.epoch);
      if sourceDay.Some? && sourceDay.value != day {
        OtherTimeRefutes(rows, kind, index, quotes, quote);
        return None;
      }
      if session.Some? && session.value != period {
        OtherTimeRefutes(rows, kind, index, quotes, quote);
        return None;
      }
      Accepting(rows, kind, index, quotes, quote);
      Extending(quotes, quote);
      sourceDay := Some(if sourceDay.Some? then sourceDay.value else day);
      session := Some(if session.Some? then session.value else period);
      earliest := Some(if earliest.Some? && earliest.value < quote.epoch then earliest.value else quote.epoch);
      latest := Some(if latest.Some? && latest.value > quote.epoch then latest.value else quote.epoch);
      previous := Some(quote.value);
      quotes := quotes + [quote];
    }
    assert rows[..|rows|] == rows;
    FinalChecks(rows, kind, quotes);
    if exchanges != {Shanghai, Shenzhen, Beijing} || sourceDay.None? || session.None? {
      return None;
    }
    if latest.value - earliest.value != 0 {
      return None;
    }
    mapped := Some(quotes);
  }

  lemma NoQuotes(rows: seq<Row>, kind: Kind)
    ensures Reads(rows[..0], kind, []) && Distinct([]) && Descending([])
    ensures Instruments([]) == {} && ExchangesOf([]) == {} && Earliest([]) == None && Latest([]) == None
  {
  }

  lemma UnreadableRefutes(rows: seq<Row>, kind: Kind, index: nat)
    requires index < |rows| && ReadRow(rows[index], kind) == None
    ensures Refuted(rows, kind)
  {
    hide ReadRow, Universe;
  }

  lemma ReadsPrefix(rows: seq<Row>, kind: Kind, index: nat, quotes: seq<Quote>, quote: Quote, whole: seq<Quote>)
    requires index < |rows| && Reads(rows[..index], kind, quotes) && ReadRow(rows[index], kind) == Some(quote)
    requires Reads(rows, kind, whole)
    ensures |whole| > index == |quotes| && whole[..index] == quotes && whole[index] == quote
  {
    hide ReadRow;
    forall i | 0 <= i < index ensures whole[i] == quotes[i] {
      assert rows[..index][i] == rows[i];
    }
  }

  lemma RepeatRefutes(rows: seq<Row>, kind: Kind, index: nat, quotes: seq<Quote>, quote: Quote)
    requires index < |rows| && Reads(rows[..index], kind, quotes) && ReadRow(rows[index], kind) == Some(quote)
    requires quote.instrument in Instruments(quotes)
    ensures Refuted(rows, kind)
  {
    hide Reads, ReadRow, Descending, OneInstant, EveryExchange;
    forall q | Reads(rows, kind, q) ensures !Universe(q) {
      ReadsPrefix(rows, kind, index, quotes, quote, q);
      var i :| 0 <= i < |quotes| && quotes[i].instrument == quote.instrument;
      assert q[i] == quotes[i];
    }
  }

  lemma ClimbRefutes(rows: seq<Row>, kind: Kind, index: nat, quotes: seq<Quote>, quote: Quote)
    requires index < |rows| && Reads(rows[..index], kind, quotes) && ReadRow(rows[index], kind) == Some(quote)
    requires quotes != [] && quotes[|quotes| - 1].value < quote.value
    ensures Refuted(rows, kind)
  {
    hide Reads, ReadRow, Distinct, OneInstant, EveryExchange;
    forall q | Reads(rows, kind, q) ensures !Universe(q) {
      ReadsPrefix(rows, kind, index, quotes, quote, q);
      assert q[index - 1] == quotes[index - 1];
    }
  }

  lemma OtherTimeRefutes(rows: seq<Row>, kind: Kind, index: nat, quotes: seq<Quote>, quote: Quote)
    requires index < |rows| && Reads(rows[..index], kind, quotes) && ReadRow(rows[index], kind) == Some(quote)
    requires quotes != []
    requires SourceDay(quotes[0].epoch) != SourceDay(quote.epoch)
             || SessionForSourceAt(quotes[0].epoch) != SessionForSourceAt(quote.epoch)
    ensures Refuted(rows, kind)
  {
    hide Reads, ReadRow, Distinct, Descending, EveryExchange, SessionForSourceAt, SourceDay;
    forall q | Reads(rows, kind, q) ensures !Universe(q) {
      ReadsPrefix(rows, kind, index, quotes, quote, q);
      assert q[0] == quotes[0];
    }
  }

  lemma Accepting(rows: seq<Row>, kind: Kind, index: nat, quotes: seq<Quote>, quote: Quote)
    requires index < |rows| && Reads(rows[..index], kind, quotes) && ReadRow(rows[index], kind) == Some(quote)
    requires Distinct(quotes) && Descending(quotes) && quote.instrument !in Instruments(quotes)
    requires quotes != [] ==> quotes[|quotes| - 1].value >= quote.value
    ensures Reads(rows[..index + 1], kind, quotes + [quote])
    ensures Distinct(quotes + [quote]) && Descending(quotes + [quote])
  {
    hide ReadRow;
    var more := quotes + [quote];
    assert more[..|quotes|] == quotes && more[|quotes|] == quote;
    assert Reads(rows[..index + 1], kind, more) by {
      assert forall i | 0 <= i < index :: rows[..index][i] == rows[i];
    }
    assert Distinct(more) by {
      assert forall i | 0 <= i < |quotes| :: quotes[i].instrument in Instruments(quotes);
    }
  }

  lemma Extending(quotes: seq<Quote>, quote: Quote)
    ensures Instruments(quotes + [quote]) == Instruments(quotes) + {quote.instrument}
    ensures ExchangesOf(quotes + [quote]) == ExchangesOf(quotes) + {quote.instrument.exchange}
    ensures Earliest(quotes + [quote])
            == Some(if quotes != [] && Earliest(quotes).value < quote.epoch then Earliest(quotes).value else quote.epoch)
    ensures Latest(quotes + [quote])
            == Some(if quotes != [] && Latest(quotes).value > quote.epoch then Latest(quotes).value else quote.epoch)
  {
    var more := quotes + [quote];
    assert more[..|quotes|] == quotes && more[|quotes|] == quote;
  }

  lemma FinalChecks(rows: seq<Row>, kind: Kind, quotes: seq<Quote>)
    requires Reads(rows, kind, quotes) && Distinct(quotes) && Descending(quotes)
    ensures ExchangesOf(quotes) != {Shanghai, Shenzhen, Beijing} || quotes == [] ==> Refuted(rows, kind)
    ensures quotes != [] && Earliest(quotes) != Latest(quotes) ==> Refuted(rows, kind)
    ensures ExchangesOf(quotes) == {Shanghai, Shenzhen, Beijing} && quotes != [] && Earliest(quotes) == Latest(quotes)
            ==> Universe(quotes)
  {
    hide Reads, Distinct, Descending, Earliest, Latest, EveryExchange, OneInstant;
    forall q | Reads(rows, kind, q) ensures q == quotes {
      ReadsOnce(rows, kind, q, quotes);
    }
    AllExchanges(quotes);
    if quotes != [] {
      NoSkewIsOneInstant(quotes);
    }
  }

  lemma AllExchanges(quotes: seq<Quote>)
    ensures EveryExchange(quotes) <==> ExchangesOf(quotes) == {Shanghai, Shenzhen, Beijing}
    ensures EveryExchange(quotes) ==> quotes != []
  {
    assert forall e | e in ExchangesOf(quotes) :: e == Shanghai || e == Shenzhen || e == Beijing;
    assert ListedOn(quotes, Shanghai) <==> Shanghai in ExchangesOf(quotes);
    assert ListedOn(quotes, Shenzhen) <==> Shenzhen in ExchangesOf(quotes);
    assert ListedOn(quotes, Beijing) <==> Beijing in ExchangesOf(quotes);
  }

  lemma {:induction false} EpochsAttained(quotes: seq<Quote>)
    requires quotes != []
    ensures exists i :: 0 <= i < |quotes| && quotes[i].epoch == Earliest(quotes).value
    ensures exists i :: 0 <= i < |quotes| && quotes[i].epoch == Latest(quotes).value
  {
    var last, init := quotes[|quotes| - 1], quotes[..|quotes| - 1];
    assert quotes[|quotes| - 1].epoch == last.epoch;
    if init != [] {
      EpochsAttained(init);
      assert forall i | 0 <= i < |init| :: init[i] == quotes[i];
    }
  }

  /** No skew between the earliest and the latest row means that all rows share their instant. */
  lemma NoSkewIsOneInstant(quotes: seq<Quote>)
    requires quotes != []
    ensures Earliest(quotes) == Latest(quotes) <==> OneInstant(quotes)
  {
    hide Earliest, Latest;
    EpochsAttained(quotes);
  }

  // ---- Requesting pages -----------------------------------------------------------------------------------

  /** The reply that stands for a page: the first that is not dropped, or the last attempt's. */
  function AnswerFrom(server: Server, endpoint: Endpoint, page: nat, attempt: nat): Reply
    requires attempt <= MAX_PAGE_ATTEMPTS
    decreases MAX_PAGE_ATTEMPTS - attempt
  {
    var reply := server(endpoint, page, attempt);
    if reply.Dropped? && attempt < MAX_PAGE_ATTEMPTS then AnswerFrom(server, endpoint, page, attempt + 1) else reply
  }

  function Delivered(server: Server, endpoint: Endpoint, page: nat): Reply {
    AnswerFrom(server, endpoint, page, 1)
  }

  /** The reply to this attempt, one of three: all before it were dropped, and it is not or is the last. */
  predicate IsAnswer(server: Server, endpoint: Endpoint, page: nat, attempt: nat, reply: Reply) {
    && 1 <= attempt <= 3 && reply == server(endpoint, page, attempt) && (reply.Dropped? ==> attempt == 3)
    && forall a: nat | 1 <= a < attempt :: server(endpoint, page, a).Dropped?
  }

  method FetchRankingPage(server: Server, endpoint: Endpoint, page: nat) returns (reply: Reply, ghost attempts: nat)
    ensures reply == Delivered(server, endpoint, page)
    ensures IsAnswer(server, endpoint, page, attempts, reply)
  {
    var attempt: nat := 1;
    while true
      invariant 1 <= attempt <= MAX_PAGE_ATTEMPTS
      invariant AnswerFrom(server, endpoint, page, attempt) == Delivered(server, endpoint, page)
      invariant forall a | 1 <= a < attempt :: server(endpoint, page, a).Dropped?
      decreases MAX_PAGE_ATTEMPTS - attempt
    {
      reply := server(endpoint, page, attempt);
      if reply.Dropped? && attempt < MAX_PAGE_ATTEMPTS {
        attempt := attempt + 1;
        continue;
      }
      return reply, attempt;
    }
  }

  /** Page `i`, counted from zero, is delivered, and its total is in range and the same as the first page's. */
  predicate Received(server: Server, endpoint: Endpoint, pages: seq<Envelope>, i: nat)
    requires i < |pages|
  {
    && Delivered(server, endpoint, i + 1) == Page(pages[i])
    && 1 <= pages[i].total <= MAX_UNIVERSE_SIZE
    && pages[i].total == pages[0].total
  }

  function Consumed(page: Envelope, i: nat): nat {
    PAGE_SIZE * i + |page.rows|
  }

  /** Full pages, each of which leaves rows still to come. */
  predicate Unfinished(server: Server, endpoint: Endpoint, pages: seq<Envelope>) {
    forall i: nat | i < |pages| ::
      Received(server, endpoint, pages, i) && |pages[i].rows| == PAGE_SIZE && Consumed(pages[i], i) < pages[i].total
  }

  /** A complete run of the page loop: full pages, and then the first that reaches the total. */
  predicate Snapshot(server: Server, endpoint: Endpoint, pages: seq<Envelope>) {
    && pages != []
    && Unfinished(server, endpoint, pages[..|pages| - 1])
    && Received(server, endpoint, pages, |pages| - 1)
    && Consumed(pages[|pages| - 1], |pages| - 1) >= pages[|pages| - 1].total
  }

  /** The endpoint delivers a complete run that holds these quotes. */
  ghost predicate Supports(server: Server, endpoint: Endpoint, kind: Kind, quotes: seq<Quote>) {
    exists pages :: Snapshot(server, endpoint, pages) && Holds(pages, kind, quotes)
  }

  /** The endpoint fails at transport level in the middle of an otherwise good run. */
  ghost predicate BreaksOff(server: Server, endpoint: Endpoint) {
    exists pages :: Unfinished(server, endpoint, pages) && Delivered(server, endpoint, |pages| + 1).Dropped?
  }

  lemma RunsAgree(server: Server, endpoint: Endpoint, a: seq<Envelope>, b: seq<Envelope>)
    requires Unfinished(server, endpoint, a) && Unfinished(server, endpoint, b)
    ensures |a| <= |b| ==> a == b[..|a|]
  {
    hide Delivered;
    if |a| <= |b| {
      forall i: nat | i < |a| ensures a[i] == b[i] {
        assert Received(server, endpoint, a, i) && Received(server, endpoint, b, i);
      }
    }
  }

  /** A page that is neither the next full page nor the last one settles that there is no snapshot. */
  lemma DeadEnd(server: Server, endpoint: Endpoint, pages: seq<Envelope>, other: seq<Envelope>)
    requires Unfinished(server, endpoint, pages) && Snapshot(server, endpoint, other)
    ensures |pages| < |other| && pages == other[..|pages|]
    ensures Received(server, endpoint, other, |pages|)
    ensures |other[|pages|].rows| == PAGE_SIZE || Consumed(other[|pages|], |pages|) >= other[|pages|].total
  {
    hide Delivered;
    var n, init := |pages|, other[..|other| - 1];
    var last: nat := |other| - 1;
    assert Received(server, endpoint, other, last);
    assert last < n ==> Received(server, endpoint, pages, last);
    RunsAgree(server, endpoint, pages, init);
    if n < |init| {
      assert Received(server, endpoint, init, n);
    }
  }

  lemma SnapshotIsUnique(server: Server, endpoint: Endpoint, a: seq<Envelope>, b: seq<Envelope>)
    requires Snapshot(server, endpoint, a) && Snapshot(server, endpoint, b)
    ensures a == b
  {
    hide Delivered;
    DeadEnd(server, endpoint, a[..|a| - 1], b);
    DeadEnd(server, endpoint, b[..|b| - 1], a);
    var last: nat := |a| - 1;
    assert Received(server, endpoint, a, last) && Received(server, endpoint, b, last);
    assert a == a[..last] + [a[last]];
  }

  lemma BreaksAreUnique(server: Server, endpoint: Endpoint, pages: seq<Envelope>, other: seq<Envelope>)
    requires Unfinished(server, endpoint, pages) && !Delivered(server, endpoint, |pages| + 1).Dropped?
    requires Unfinished(server, endpoint, other) && Delivered(server, endpoint, |other| + 1).Dropped?
    ensures |pages| < |other| && Received(server, endpoint, other, |pages|) && pages == other[..|pages|]
    ensures |other[|pages|].rows| == PAGE_SIZE && Consumed(other[|pages|], |pages|) < other[|pages|].total
  {
    hide Delivered;
    var n: nat := |other|;
    assert n < |pages| ==> Received(server, endpoint, pages, n);
    RunsAgree(server, endpoint, pages, other);
    var m: nat := |pages|;
    assert Received(server, endpoint, other, m);
  }

  /** An envelope the loop refuses after `pages`: its total is wrong, or it is short of the total. */
  predicate Refused(pages: seq<Envelope>, next: Envelope) {
    || !(1 <= next.total <= MAX_UNIVERSE_SIZE)
    || (pages != [] && next.total != pages[0].total)
    || (Consumed(next, |pages|) < next.total && |next.rows| != PAGE_SIZE)
  }

  lemma NoWayOn(server: Server, endpoint: Endpoint, pages: seq<Envelope>)
    requires Unfinished(server, endpoint, pages)
    requires var reply := Delivered(server, endpoint, |pages| + 1); reply.Page? ==> Refused(pages, reply.envelope)
    ensures forall other :: !Snapshot(server, endpoint, other)
    ensures !Delivered(server, endpoint, |pages| + 1).Dropped? ==> !BreaksOff(server, endpoint)
  {
    hide Delivered, Unfinished, Snapshot;
    forall other | Snapshot(server, endpoint, other) ensures false {
      DeadEnd(server, endpoint, pages, other);
    }
    if !Delivered(server, endpoint, |pages| + 1).Dropped? {
      forall other | Unfinished(server, endpoint, other) && Delivered(server, endpoint, |other| + 1).Dropped?
        ensures false
      {
        BreaksAreUnique(server, endpoint, pages, other);
      }
    }
  }

  /** An endpoint that delivers a snapshot does not break off. */
  lemma SnapshotsDoNotBreakOff(server: Server, endpoint: Endpoint, pages: seq<Envelope>)
    requires Snapshot(server, endpoint, pages)
    ensures !BreaksOff(server, endpoint)
  {
    hide Delivered, Unfinished;
    forall other | Unfinished(server, endpoint, other) && Delivered(server, endpoint, |other| + 1).Dropped?
      ensures false
    {
      BreaksAreUnique(server, endpoint, pages[..|pages| - 1], other);
    }
  }

  lemma NextPage(server: Server, endpoint: Endpoint, pages: seq<Envelope>, next: Envelope)
    requires Unfinished(server, endpoint, pages) && Delivered(server, endpoint, |pages| + 1) == Page(next)
    requires !Refused(pages, next)
    ensures Consumed(next, |pages|) < next.total ==> Unfinished(server, endpoint, pages + [next])
    ensures Consumed(next, |pages|) >= next.total ==> Snapshot(server, endpoint, pages + [next])
  {
    hide Delivered;
    var more, n: nat := pages + [next], |pages|;
    assert more[n] == next && (n > 0 ==> more[0] == pages[0]);
    assert Received(server, endpoint, more, n);
    forall i: nat | i < n ensures Received(server, endpoint, more, i) && more[i] == pages[i] {
      assert Received(server, endpoint, pages, i);
    }
  }

  /** A refused page ends the endpoint's chances, and not at transport level. */
  lemma RefusalEndsIt(server: Server, endpoint: Endpoint, kind: Kind, pages: seq<Envelope>)
    requires Unfinished(server, endpoint, pages)
    requires match Delivered(server, endpoint, |pages| + 1)
             case Dropped => false
             case Garbled => true
             case Page(next) => Refused(pages, next)
    ensures !BreaksOff(server, endpoint)
    ensures forall q :: !Supports(server, endpoint, kind, q)
  {
    hide Delivered, Unfinished, Snapshot, Refused, Holds, BreaksOff;
    NoWayOn(server, endpoint, pages);
  }

  lemma DroppingEndsIt(server: Server, endpoint: Endpoint, kind: Kind, pages: seq<Envelope>)
    requires Unfinished(server, endpoint, pages) && Delivered(server, endpoint, |pages| + 1).Dropped?
    ensures BreaksOff(server, endpoint)
    ensures forall q :: !Supports(server, endpoint, kind, q)
  {
    hide Delivered, Unfinished, Snapshot, Refused, Holds;
    NoWayOn(server, endpoint, pages);
  }

  /** Only the snapshot's own quotes are supported. */
  lemma SnapshotDecides(server: Server, endpoint: Endpoint, kind: Kind, pages: seq<Envelope>)
    requires Snapshot(server, endpoint, pages)
    ensures pages != [] && !BreaksOff(server, endpoint)
    ensures forall q :: Supports(server, endpoint, kind, q) <==> Holds(pages, kind, q)
  {
    hide Delivered, Unfinished, Holds, BreaksOff;
    SnapshotsDoNotBreakOff(server, endpoint, pages);
    forall other | Snapshot(server, endpoint, other) ensures other == pages {
      SnapshotIsUnique(server, endpoint, pages, other);
    }
  }

  /** Fetches page after page until the declared total is reached, then parses the whole. */
  method FetchRankingOperation(server: Server, endpoint: Endpoint, kind: Kind, limit: nat)
    returns (r: Result<Batch, Error>, ghost quotes: seq<Quote>, ghost requests: nat)
    requires limit > 0 && !kind.Unproven?
    ensures r.Ok? ==> Supports(server, endpoint, kind, quotes) && quotes != [] && r.value == TopRanks(quotes, kind, limit)
    ensures r.Err? ==> forall q :: !Supports(server, endpoint, kind, q)
    ensures r == Err(Transport) <==> BreaksOff(server, endpoint)
    ensures r.Err? ==> r.error == Transport || r.error == Rejected
    ensures 1 <= requests <= 600
  {
    hide Delivered, Unfinished, Snapshot, Holds, BreaksOff, Supports, TopRanks;
    var pages: seq<Envelope>, page: nat, expectedTotal: Option<nat> := [], 1, None;
    quotes, requests := [], 0;
    NothingFetched(server, endpoint);
    while true
      invariant Unfinished(server, endpoint, pages) && page == |pages| + 1
      invariant expectedTotal == if pages == [] then None else Some(pages[0].total)
      invariant requests <= MAX_PAGE_ATTEMPTS * |pages| && |pages| < MAX_PAGES
      decreases MAX_PAGES - |pages|
    {
      var reply, attempts := FetchRankingPage(server, endpoint, page);
      requests := requests + attempts;
      if reply.Dropped? {
        DroppingEndsIt(server, endpoint, kind, pages);
        return Err(Transport), [], requests;
      }
      if reply.Garbled? {
        RefusalEndsIt(server, endpoint, kind, pages);
        return Err(Rejected), [], requests;
      }
      var envelope := reply.envelope;
      if envelope.total == 0 || envelope.total > MAX_UNIVERSE_SIZE {
        RefusalEndsIt(server, endpoint, kind, pages);
        return Err(Rejected), [], requests;
      }
      if expectedTotal.Some? && expectedTotal.value != envelope.total {
        RefusalEndsIt(server, endpoint, kind, pages);
        return Err(Rejected), [], requests;
      }
      expectedTotal := Some(if expectedTotal.Some? then expectedTotal.value else envelope.total);
      var received := |envelope.rows|;
      var consumed := (page - 1) * PAGE_SIZE + received;
      if consumed < envelope.total && received != PAGE_SIZE {
        RefusalEndsIt(server, endpoint, kind, pages);
      } else {
        NextPage(server, endpoint, pages, envelope);
      }
      ghost var before := pages;
      pages := pages + [envelope];
      if consumed >= envelope.total {
        break;
      }
      if received != PAGE_SIZE {
        return Err(Rejected), [], requests;
      }
      assert Unfinished(server, endpoint, pages);
      AtMostAllPages(server, endpoint, pages);
      page := page + 1;
    }
    SnapshotDecides(server, endpoint, kind, pages);
    r, quotes := ParseMarketRankingEnvelopes(pages, kind, limit);
  }

  lemma NothingFetched(server: Server, endpoint: Endpoint)
    ensures Unfinished(server, endpoint, [])
  {
  }

  lemma AtMostAllPages(server: Server, endpoint: Endpoint, pages: seq<Envelope>)
    requires Unfinished(server, endpoint, pages)
    ensures |pages| < MAX_PAGES
  {
    hide Delivered;
    if pages != [] {
      var last: nat := |pages| - 1;
      assert Received(server, endpoint, pages, last);
    }
  }

  // ---- The operation ---------------------------------------------------------------------------------------

  /** The first endpoint decides, or the second one if the first breaks off. */
  method MarketRankingsOf(server: Server, kind: Kind, limit: nat)
    returns (r: Result<Batch, Error>, ghost quotes: seq<Quote>, ghost requests: nat)
    requires limit > 0
    ensures limit > 200 ==> r == Err(InvalidRequest) && requests == 0
    ensures limit <= 200 && kind.Unproven? ==> r == Err(Unsupported) && requests == 0
    ensures r.Ok? ==>
              && !kind.Unproven? && quotes != [] && r.value == TopRanks(quotes, kind, limit)
              && Supports(server, if BreaksOff(server, Primary) then Delayed else Primary, kind, quotes)
    ensures limit <= 200 && !kind.Unproven? && r.Err? ==>
              var endpoint := if BreaksOff(server, Primary) then Delayed else Primary;
              forall q :: !Supports(server, endpoint, kind, q)
    ensures limit <= 200 && !kind.Unproven? ==>
              (r == Err(Transport) <==> BreaksOff(server, Primary) && BreaksOff(server, Delayed))
    ensures requests <= 1200
  {
    hide BreaksOff, Supports, TopRanks;
    requests, quotes := 0, [];
    if limit > MAX_RETURNED_RANKS {
      return Err(InvalidRequest), [], 0;
    }
    if RankingUnit(kind).None? {
      return Err(Unsupported), [], 0;
    }
    var endpoints := [Primary, Delayed];
    for index := 0 to |endpoints|
      invariant requests <= index * MAX_PAGE_ATTEMPTS * MAX_PAGES
      invariant forall i | 0 <= i < index :: BreaksOff(server, endpoints[i])
      invariant forall i, q | 0 <= i < index :: !Supports(server, endpoints[i], kind, q)
    {
      ghost var sent;
      r, quotes, sent := FetchRankingOperation(server, endpoints[index], kind, limit);
      requests := requests + sent;
      assert endpoints[index] == if index == 0 then Primary else Delayed;
      if r != Err(Transport) {
        assert index == 1 ==> BreaksOff(server, endpoints[0]);
        return;
      }
    }
    assert BreaksOff(server, endpoints[0]) && BreaksOff(server, endpoints[1]);
    assert forall q :: !Supports(server, endpoints[1], kind, q);
    r := Err(Transport);
  }
}
