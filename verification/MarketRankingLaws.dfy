/** What a successful full-market ranking guarantees, and against which endpoints it succeeds. */
module MarketRankingLaws {
  import opened Clocks
  import opened Wrappers
  import opened MarketRankings
  import opened Paging
  import opened Texts

  predicate Represents(entry: Entry, kind: Kind, quote: Quote) {
    && entry.kind == kind && entry.unit == (if kind == VolumeRatio then Multiple else Yuan)
    && entry.instrument == quote.instrument && entry.name == quote.name
    && entry.value == quote.value && entry.sourceAt == quote.epoch
    && entry.sourceDay == SourceDay(quote.epoch) && entry.session == SessionForSourceAt(quote.epoch)
  }

  /** The entries are the source's first rows, ranked from 1, and whatever in the market is worth more than a
      returned entry is returned with a better rank. */
  lemma TopRanksAreTheGreatest(quotes: seq<Quote>, kind: Kind, limit: nat)
    requires Universe(quotes) && quotes != [] && !kind.Unproven?
    ensures var top := TopRanks(quotes, kind, limit).records;
            && |top| == Min(limit, |quotes|) && TopRanks(quotes, kind, limit).sourceAt == quotes[0].epoch
            && (forall i | 0 <= i < |top| :: top[i].rank == i + 1 && Represents(top[i], kind, quotes[i]))
            && (forall i | 0 <= i < |top| ::
                  top[i].universeSize == top[i].coveredCount == |quotes| && top[i].skewMillis == 0)
            && (forall i, j | 0 <= i < j < |top| :: top[i].instrument != top[j].instrument)
            && (forall i, k | 0 <= i < |top| && 0 <= k < |quotes| && quotes[k].value > top[i].value ::
                  k < i && Represents(top[k], kind, quotes[k]))
  {
    hide EveryExchange, SessionForSourceAt, SourceDay;
    assert forall i | 0 <= i < |quotes| :: quotes[i].epoch == quotes[0].epoch;
  }

  // ---- Sessions ------------------------------------------------------------------------------------------

  /** The day of a row is the one of its time eight hours on, and its session is cut at these seconds of that day. */
  lemma SessionsAreByTheClock(epoch: nat, day: nat, t: nat)
    requires epoch + 28_800 == 86_400 * day + t && t < 86_400
    ensures SourceDay(epoch) == day
    ensures SessionForSourceAt(epoch)
            == if t < 33300 then PreOpen
               else if t < 34200 then OpeningAuction
               else if t <= 41400 then Continuous
               else if t < 46800 then LunchBreak
               else if t < 54000 then Continuous
               else if t == 54000 then Close
               else PostClose
  {
    hide ClockText, Before;
    assert SecondOfDay(epoch) == t;
    ClockTextOf(33300, 9, 15, "09:15:00");
    ClockTextOf(34200, 9, 30, "09:30:00");
    ClockTextOf(41400, 11, 30, "11:30:00");
    ClockTextOf(46800, 13, 0, "13:00:00");
    ClockTextOf(54000, 15, 0, "15:00:00");
    ClockTextsCompare(t, 33300);
    ClockTextsCompare(t, 34200);
    ClockTextsCompare(41400, t);
    ClockTextsCompare(t, 46800);
    ClockTextsCompare(t, 54000);
  }

  // ---- Checks that cannot fail ----------------------------------------------------------------------------

  /** The record check of the market core. */
  predicate EntryAccepted(entry: Entry) {
    && RankingUnit(entry.kind) == Some(entry.unit)
    && (entry.kind.VolumeRatio? ==> entry.value >= 0.0)
    && entry.coveredCount == entry.universeSize && 1 <= entry.rank <= entry.coveredCount
    && entry.sourceDay == SourceDay(entry.sourceAt)
  }

  /** The batch check of the market core, which the parser runs on what it built. */
  predicate BatchAccepted(records: seq<Entry>, kind: Kind, limit: nat) {
    && records != []
    && records[0].kind == kind && records[0].coveredCount == records[0].universeSize
    && |records| == Min(limit, records[0].universeSize)
    && (forall i | 0 <= i < |records| ::
          && records[i].kind == kind && records[i].rank == i + 1
          && records[i].sourceDay == records[0].sourceDay && records[i].session == records[0].session
          && records[i].universeSize == records[0].universeSize && records[i].coveredCount == records[0].coveredCount
          && records[i].skewMillis == records[0].skewMillis)
    && (forall i, j | 0 <= i < j < |records| :: records[i].instrument != records[j].instrument)
    && (forall i | 0 < i < |records| :: records[i - 1].value >= records[i].value)
  }

  /** Neither the record check nor the batch check rejects what the parser accepted. */
  lemma LaterChecksNeverReject(rows: seq<Row>, quotes: seq<Quote>, kind: Kind, limit: nat)
    requires Reads(rows, kind, quotes) && Universe(quotes) && quotes != [] && !kind.Unproven? && limit > 0
    ensures BatchAccepted(TopRanks(quotes, kind, limit).records, kind, limit)
    ensures forall e | e in TopRanks(quotes, kind, limit).records :: EntryAccepted(e)
  {
    hide Distinct, Descending, EveryExchange, SessionForSourceAt, SourceDay;
    BatchIsAccepted(quotes, kind, limit);
    var top := TopRanks(quotes, kind, limit).records;
    forall e | e in top ensures EntryAccepted(e) {
      var i :| 0 <= i < |top| && top[i] == e;
      assert ReadRow(rows[i], kind) == Some(quotes[i]) && quotes[i].epoch == quotes[0].epoch;
    }
  }

  lemma BatchIsAccepted(quotes: seq<Quote>, kind: Kind, limit: nat)
    requires Universe(quotes) && quotes != [] && !kind.Unproven? && limit > 0
    ensures BatchAccepted(TopRanks(quotes, kind, limit).records, kind, limit)
  {
    hide EveryExchange, SessionForSourceAt, SourceDay;
    var top := TopRanks(quotes, kind, limit).records;
    assert forall i | 0 <= i < |top| :: top[i] == EntryFor(quotes[i], kind, RankingUnit(kind).value, i + 1, |quotes|,
      SourceDay(quotes[0].epoch), SessionForSourceAt(quotes[0].epoch));
    assert forall i | 0 <= i < |quotes| :: quotes[i].epoch == quotes[0].epoch;
  }

  /** An endpoint supports at most one universe. */
  lemma SupportIsUnique(server: Server, endpoint: Endpoint, kind: Kind, a: seq<Quote>, b: seq<Quote>)
    requires Supports(server, endpoint, kind, a) && Supports(server, endpoint, kind, b)
    ensures a == b && !BreaksOff(server, endpoint)
  {
    hide Snapshot, Whole, Reads, Universe, BreaksOff;
    var pages :| Snapshot(server, endpoint, pages) && Holds(pages, kind, a);
    SnapshotDecides(server, endpoint, kind, pages);
    assert Holds(pages, kind, b);
    ReadsOnce(Rows(pages), kind, a, b);
  }

  // ---- An honest endpoint ----------------------------------------------------------------------------------

  /** Page `i`, counted from zero, of a table cut into pages of one hundred. */
  function TablePage(rows: seq<Row>, i: nat): Envelope {
    Envelope(|rows|, Slice(rows, 100, i))
  }

  ghost predicate Honest(server: Server, endpoint: Endpoint, rows: seq<Row>) {
    forall i: nat | 100 * i < |rows| :: Delivered(server, endpoint, i + 1) == Page(TablePage(rows, i))
  }

  function TablePages(rows: seq<Row>, n: nat): (pages: seq<Envelope>)
    ensures |pages| == n && forall i | 0 <= i < n :: pages[i] == TablePage(rows, i)
  {
    seq(n, i requires 0 <= i => TablePage(rows, i))
  }

  /** Any server whose table is a universe within the bound is read completely. */
  lemma HonestTablesAreRead(server: Server, endpoint: Endpoint, kind: Kind, rows: seq<Row>, quotes: seq<Quote>)
    requires Honest(server, endpoint, rows) && |rows| <= 20_000
    requires Reads(rows, kind, quotes) && Universe(quotes)
    ensures Supports(server, endpoint, kind, quotes)
  {
    hide Delivered, Reads, Universe, Rows, Snapshot, Whole;
    UniverseIsNotEmpty(quotes);
    ReadsLength(rows, kind, quotes);
    var n: nat := (|rows| + PAGE_SIZE - 1) / PAGE_SIZE;
    var pages := TablePages(rows, n);
    TableIsGathered(rows, n);
    HonestSnapshot(server, endpoint, rows, n);
    HonestWhole(rows, n);
    assert Holds(pages, kind, quotes);
  }

  lemma TableIsGathered(rows: seq<Row>, n: nat)
    requires |rows| <= PAGE_SIZE * n
    ensures Rows(TablePages(rows, n)) == rows
  {
    SlicesGather(PageRows, TablePages(rows, n), rows, PAGE_SIZE);
    assert rows[..|rows|] == rows;
  }

  lemma HonestSnapshot(server: Server, endpoint: Endpoint, rows: seq<Row>, n: nat)
    requires Honest(server, endpoint, rows) && 0 < |rows| <= MAX_UNIVERSE_SIZE
    requires PAGE_SIZE * (n - 1) < |rows| <= PAGE_SIZE * n
    ensures Snapshot(server, endpoint, TablePages(rows, n))
  {
    hide Delivered;
    var pages := TablePages(rows, n);
    forall i: nat | i < n ensures Received(server, endpoint, pages, i) {
      assert Delivered(server, endpoint, i + 1) == Page(TablePage(rows, i));
    }
    var init := pages[..n - 1];
    forall i: nat | i < n - 1
      ensures Received(server, endpoint, init, i) && |init[i].rows| == PAGE_SIZE && Consumed(init[i], i) < init[i].total
    {
      assert Received(server, endpoint, pages, i);
    }
  }

  lemma HonestWhole(rows: seq<Row>, n: nat)
    requires 0 < |rows| <= MAX_UNIVERSE_SIZE && PAGE_SIZE * (n - 1) < |rows| <= PAGE_SIZE * n
    requires Rows(TablePages(rows, n)) == rows
    ensures Whole(TablePages(rows, n))
  {
    hide Rows;
    var pages := TablePages(rows, n);
    forall p | p in pages ensures p.total == |rows| && |p.rows| <= PAGE_SIZE {
      var i :| 0 <= i < n && pages[i] == p;
    }
  }
}
