# Verified model of the market-data adapters

This Dafny project models the hard algorithms of a read-only market-data adapter workspace and proves what they
promise. Untrusted servers are arbitrary functions from page number (and, where requests are retried, endpoint and
attempt) to reply, so every safety result holds against every server; honest servers appear only in the results that
say when a read succeeds. Shared clients are state machines over interleaved thread steps with a monotone clock.

`dafny verify dfyconfig.toml` checks everything.

| files | what they model |
|---|---|
| `MarketAnnouncements`, `MarketAnnouncementLaws`, `MarketAnnouncementRows`, `MarketAnnouncementReceipts` | whole-market announcement pagination, de-duplication and the coverage receipt |
| `RustBlanker`, `RustBlankerLaws`, `RustGrammar` | the in-place scanner that blanks comments and literals of Rust source |
| `EmQuantCalendar`, `EmQuantDates`, `EmQuantRanges` | day counts to calendar dates, the date check and the default date range |
| `MinuteBars`, `MinuteBarLaws`, `MinuteBarTimes` | grouping one-minute bars into wider ones, and what the bar constructor accepts of them |
| `CanonicalJson`, `CanonicalJsonLaws` | the length-prefixed canonical bytes of a JSON value |
| `PacingGate`, `PacingGateLaws`, `PacingGateTimes` | the request gate held across sleep, start, call and finish, and its tracker |
| `ProtoWire`, `ProtoWireLaws`, `ProtoWireGrammar`, `GrpcFrames` | protobuf fields and gRPC frames, written and read |
| `MarketRankings`, `MarketRankingLaws`, `MarketRankingPages` | full-market rankings over two endpoints with retries |
| `WorkspaceClosure` | the worklist of workspace members and their path dependencies |
| `DragonTiger` | de-duplication, total order and truncation of the market-wide list |
| `Datacenter`, `DatacenterLaws` | the bounded and the exact page reader |
| `FxFixings`, `FxFixingLaws`, `FxFixingPages` | central parity pages, their parser and the order of the fixings |
| `OrganizationCache`, `OrganizationCacheRuns`, `OrganizationLookups`, `OrganizationDocuments` | the organization map with a time to live, alone and under interleaving |
| `GroupedNumbers` | comma-grouped number parsing |
| `Validated`, `ValidatedLaws` | the text and URL checks of the record constructors |
| `Paging`, `Sorting`, `Texts`, `TextLaws`, `Decimals`, `Clocks`, `Exchanges`, `Wrappers` | shared vocabulary |

The main operations are described twice: by a specification in the code's own terms, which the methods are proved to compute,
and by laws that say what it means without that specification, with the limits and texts of the code as literals. The
laws are the modules named `Laws`, `Grammar`, `Rows`, `Receipts`, `Times`, `Pages`, `Lookups` and `Documents`.

Four properties one might expect turned out not to hold of the code; for each there is a proof of exactly when it does.

- The default date range is not always in text order. For every clock it is ordered if and only if today's year shows at
  least 1990 in its first four digits and its leading digits are not less than the computed year
  (`EmQuantRanges.DefaultRangeIsOrdered`): the floor is applied to the start alone, and a five-digit year can sort before
  a four-digit one. So up to the year 9999 it is ordered exactly from 1990-01-01 on (`FourDigitYearsAreOrdered`), and in
  the years 10000 to 19899 never (`FiveDigitYearsBreakTheOrder`).
- The starts that the request tracker records need not be an interval apart, although the gate's own stamps always are:
  the tracker reads the clock later than the gate does. With starts recorded at most `d` behind their stamps, a gap `g`
  is guaranteed if and only if `g` is zero or `g + d` is at most the interval (`PacingGateLaws.GuaranteedGap`);
  `TrackerGapCanVanish` is the extreme case, two starts at one instant.
- A varint does not round-trip for every value the encoder accepts: exactly those below 2^77 do
  (`ProtoWireLaws.VarintRoundTrip`).
- The lookback for intraday bars counts calendar days as trading days and adds one week: it is sure to hold a weekday
  for each trading day exactly up to twenty of them (`EmQuantRanges.IntradayLookback`). The lookbacks for days, weeks,
  months and years always suffice (`LookbackIsLongEnough`).

Three smaller observations.

- A lookup that has just fetched an acceptable document can still report the code as missing. On its own it does so when
  the document has expired by the second read (`OrganizationCache.CninfoClient.OrganizationMapping` states the condition
  exactly); among other threads also when another lookup has installed a document that does not serve it in between.
  `OrganizationCacheRuns.FreshLookupCanFail` builds such a run; by `UsefulFetchesFailWhenOvertaken` a document that still
  serves its lookup leaves no other way to fail.
- A document is stamped before the cache is locked, so an older one can replace a newer one (`OlderReplacesNewer`); the
  newest is cached throughout a run if and only if the installations come in the order of the stamps
  (`NewestIsCachedInOrder`).
- The ranking parser's comparisons of days and sessions decide nothing, because the comparison of instants that follows
  is stronger (`MarketRankings.ParseMarketRankingEnvelopes` states acceptance without them); neither do the record and
  batch checks that run last (`MarketRankingLaws.LaterChecksNeverReject`).

## Model

| member | source | states |
|---|---|---|
| MarketAnnouncements.MarketAnnouncementsWithCoverage | crates/magic-cninfo-rs/src/market_announcements.rs:172-324 | Against every server: success exactly when a completed clean read exists whose records the record constructors accept, and then the outcome is the receipt of that read |
| MarketAnnouncements.MapRecords | crates/magic-cninfo-rs/src/market_announcements.rs:467-491 | The records returned, and only those, are mapped: refused iff a text is blank, unprintable or too long, or a URL is not acceptable |
| MarketAnnouncements.CheckPageIsExact | crates/magic-cninfo-rs/src/market_announcements.rs:339-408 | The page checks, in the order the code applies them, pass exactly on pages that agree with one total in pages of thirty |
| MarketAnnouncements.InspectRows | crates/magic-cninfo-rs/src/market_announcements.rs:225-252 | The row loop extends the clean rows by the page, or stops before the first row no clean read can contain |
| MarketAnnouncementLaws.RowsAreConserved | crates/magic-cninfo-rs/src/market_announcements.rs:220-324 | unique + equivalent duplicates = inspected = sum of page row counts; returned = min(unique, limit) |
| MarketAnnouncementLaws.RecordsAreDistinctAndOrdered | crates/magic-cninfo-rs/src/market_announcements.rs:225-303 | The records are the first min(limit, unique) first occurrences: distinct ids, newest first across pages, no id lost |
| MarketAnnouncementLaws.RecordsMeetTheRequest | crates/magic-cninfo-rs/src/market_announcements.rs:410-465 | Every record of a completed read has a six-digit code, its board's exchange, a date in the requested range and, if it has a path, an acceptable URL inside the archive |
| MarketAnnouncementLaws.PagesTileTheRead | crates/magic-cninfo-rs/src/market_announcements.rs:186-257 | Page p supplies the rows from offset 30 * (p - 1); all pages but the last hold thirty |
| MarketAnnouncementLaws.ExhaustionIsConsistent | crates/magic-cninfo-rs/src/market_announcements.rs:259-323 | Exhausted iff the last page has no more iff pages read = pages expected |
| MarketAnnouncementLaws.IssueFreeMeansComplete | crates/magic-cninfo-rs/src/market_announcements.rs:264-288 | A batch has no issue exactly when it holds as many records as the source declares |
| MarketAnnouncements.CompletionIsUnique | crates/magic-cninfo-rs/src/market_announcements.rs:186-324 | One server determines at most one completed read |
| MarketAnnouncementLaws.FaithfulSource | crates/magic-cninfo-rs/src/market_announcements.rs:186-324 | An honest list, whatever its source says past its last page, is read exactly when it fits the page bound or fills the limit first and its first distinct rows are publishable; these are then the records |
| MarketAnnouncementLaws.DetailUrlsFailByLength | crates/magic-cninfo-rs/src/lib.rs:940-959 | Form encoding leaves nothing a URL check could refuse: a detail URL fails for its length only, whatever the texts in it |
| MarketAnnouncementRows.RowCheckIsExact | crates/magic-cninfo-rs/src/market_announcements.rs:410-465 | A row is accepted iff each required field is there, the code has six digits, the board is known, the date is in the range and a path is safe; the accepted row's id, code, organization and board are the trimmed wire fields of those names, and its time, title, name, category and path come from their own |
| MarketAnnouncementRows.PathsMean | crates/magic-cninfo-rs/src/lib.rs:961-975 | A path is accepted iff, trimmed and without leading slashes, it is not empty, has no two dots, backslash or colon and is a clean URL on the archive's host |
| MarketAnnouncementRows.PublishableMeans | crates/magic-cninfo-rs/src/market_announcements.rs:467-491 | A record is accepted by the constructors iff its texts are printable and at most 16384 long and its detail and archive URLs, written out, are acceptable |
| MarketAnnouncementRows.RowsReflectThePages | crates/magic-cninfo-rs/src/market_announcements.rs:186-257 | The row at position k of a completed read reflects row k mod 30 of page k / 30 + 1, field by field |
| MarketAnnouncementRows.RecordsReflectTheirRows | crates/magic-cninfo-rs/src/market_announcements.rs:289-303 | So does every record returned, for some row of the read |
| MarketAnnouncementRows.ListsAreRead | crates/magic-cninfo-rs/src/market_announcements.rs:186-324 | A list served in pages of thirty whose rows reflect given records, newest first and without contradictions, is read iff it fits the bound or fills the limit and its first distinct records are publishable; these are then returned |
| MarketAnnouncementReceipts.OneRowPerIdentity | crates/magic-cninfo-rs/src/market_announcements.rs:238-252 | As many rows are kept as there are identities |
| MarketAnnouncementReceipts.KeptInOrder | crates/magic-cninfo-rs/src/market_announcements.rs:238-252 | The rows kept stand at ascending positions of the rows read |
| MarketAnnouncementReceipts.ReadsStopInTime | crates/magic-cninfo-rs/src/market_announcements.rs:186-257 | The read ends with the first page that exhausts the list or reaches the limit of identities |
| MarketAnnouncementReceipts.EvidenceRepeatsThePages | crates/magic-cninfo-rs/src/market_announcements.rs:205-218 | The evidence of each page repeats what that page declared |
| MarketAnnouncementReceipts.CoverageSays | crates/magic-cninfo-rs/src/market_announcements.rs:259-323 | Each counter and flag of the coverage, said of the pages, the rows and the records |
| MarketAnnouncementReceipts.IssuesSay | crates/magic-cninfo-rs/src/market_announcements.rs:273-288 | Incomplete iff rows are left, truncated iff an identity read is not returned, overlap iff an identity was read twice; no issue twice |
| ValidatedLaws.TextsMean | crates/magic-market-core/src/validated.rs:13-40 | A text is accepted iff it is printable and has 1 to 16384 characters once the white space around it is gone, and that is what is kept |
| ValidatedLaws.UrlsMean | crates/magic-market-core/src/validated.rs:70-108 | A URL is accepted iff it is https, at most 4096 printable characters without white space or backslash, and names a host without credentials or a leading dot |
| RustBlanker.RustCodeWithoutCommentsOrLiterals | tools/compliance/check_tdx_native_boundary.py:406-470 | The buffer loop computes the region-by-region blanking |
| RustBlanker.FindRegionEnd | tools/compliance/check_tdx_native_boundary.py:412-469 | The branch chain finds where the comment or literal at an index ends, if one starts there |
| RustBlanker.FindRawStringDelimiter | tools/compliance/check_tdx_native_boundary.py:473-489 | The opening of a raw string, with its number of hashes |
| RustBlankerLaws.CodeSurvives | tools/compliance/check_tdx_native_boundary.py:406-503 | Same length; each character is the source's own at code positions and a blank or the kept newline elsewhere |
| RustBlankerLaws.CodeIsOutsideRegions | tools/compliance/check_tdx_native_boundary.py:412-469 | A position is code iff it lies in none of the comments and literals the scanner comes to |
| RustBlankerLaws.RegionStarts | tools/compliance/check_tdx_native_boundary.py:412-469 | A region starts iff a line or block comment, a raw string, a string or what looks like a character literal opens |
| RustBlankerLaws.NoQuotesOrCommentsRemain | tools/compliance/check_tdx_native_boundary.py:406-470 | The output has no double quote, no "//" and no "/*" |
| RustBlankerLaws.NoCharacterLiteralsRemain | tools/compliance/check_tdx_native_boundary.py:492-497 | No apostrophe that is left looks like a character literal |
| RustBlankerLaws.ScanningIsIdempotent | tools/compliance/check_tdx_native_boundary.py:406-503 | Scanning twice equals scanning once |
| RustGrammar.BlockCommentsNest | tools/compliance/check_tdx_native_boundary.py:419-433 | The depth counter closes a comment at an index iff the text up to there is a comment with balanced nested delimiters, and blanks to the end iff there is none |
| RustGrammar.QuotedLiteralsEscape | tools/compliance/check_tdx_native_boundary.py:443-468 | A quoted scan stops behind the literal whose backslashes pair up, and at the end of the text iff none starts there |
| RustGrammar.RawStringsEndAtTheirDelimiter | tools/compliance/check_tdx_native_boundary.py:435-442 | A raw string ends exactly behind the first quote with as many hashes as its opening, and at the end of the text iff there is none |
| RustGrammar.RawStringsOpen | tools/compliance/check_tdx_native_boundary.py:473-489 | An opening is found iff r or br, hashes and a quote stand there and no word runs into them |
| RustGrammar.LineCommentsEndWithTheLine | tools/compliance/check_tdx_native_boundary.py:413-418 | A line comment's region ends at the first newline behind its slashes, and at the end of the text iff there is none |
| RustGrammar.BlockCommentsAreRegions | tools/compliance/check_tdx_native_boundary.py:419-433 | A block comment's region ends behind the delimiter that balances its opening, and at the end of the text iff there is none |
| RustGrammar.StringsAreRegions | tools/compliance/check_tdx_native_boundary.py:443-455 | A string's region ends behind its closing quote, and at the end of the text iff it has none |
| RustGrammar.CharacterLiteralsMean | tools/compliance/check_tdx_native_boundary.py:492-497 | An apostrophe looks like a literal iff one stands two characters on, or, behind a backslash, three to eleven |
| RustGrammar.CharactersAreRegions | tools/compliance/check_tdx_native_boundary.py:456-468 | A character literal's region ends behind its closing apostrophe, and at the end of the text iff it has none |
| RustGrammar.TheRestIsCode | tools/compliance/check_tdx_native_boundary.py:412-469 | Where none of these opens, no region starts |
| RustGrammar.OutputIsBlankedInRegions | tools/compliance/check_tdx_native_boundary.py:406-470 | The output is blank, newlines excepted, in the regions the scanner comes to, and the source's own elsewhere |
| EmQuantCalendar.CivilFromDaysIsCalendar | crates/magic-emquant-rs/src/lib.rs:458-471 | For every day count, negative ones too, the closed form is the date reached from 1970-01-01 one day at a time (leap rule of Appendix C of RFC 3339) |
| EmQuantDates.DatesAndDaysCorrespond | crates/magic-emquant-rs/src/lib.rs:458-471 | Dates and day counts correspond one to one |
| EmQuantDates.AcceptedExactly | crates/magic-emquant-rs/src/lib.rs:364-387 | The date check accepts exactly the texts of calendar dates of the years 1900 to 9999 (full-date of section 5.6 of RFC 3339) |
| EmQuantDates.ComputedDateIsAccepted | crates/magic-emquant-rs/src/lib.rs:364-387 | A computed date passes the check iff its year is 1900 to 9999 |
| EmQuantDates.DateTextsCompare | crates/magic-emquant-rs/src/lib.rs:473-509 | For four-digit years the text order is the calendar order |
| EmQuantDates.DateTextsOfUnequalWidth | crates/magic-emquant-rs/src/lib.rs:473-509 | For years of any width the text order is decided by the leading digits, and within a year by the rest of the date |
| EmQuantRanges.DefaultRangeIsOrdered | crates/magic-emquant-rs/src/lib.rs:473-509 | For every clock, limit and interval the start is at least 1990-01-01, and start <= end iff today's year leads with at least 1990 and with no less than the computed year |
| EmQuantRanges.DefaultRangeIsClamped | crates/magic-emquant-rs/src/lib.rs:473-509 | Comparing texts clamps the day, so that the start is the later of 1990-01-01 and the lookback day, iff that day is before 1990 or its year leads with at least 1990 |
| EmQuantRanges.FourDigitYearsAreOrdered | crates/magic-emquant-rs/src/lib.rs:473-509 | Up to the year 9999 the range is in order iff today is not before 1990-01-01, and the start is always the clamped day |
| EmQuantRanges.LookbackIsLongEnough | crates/magic-emquant-rs/src/lib.rs:489-500 | From every day the lookback goes back over as many weekdays, or changes of week, calendar month or calendar year, as the limit asks for |
| EmQuantRanges.IntradayLookback | crates/magic-emquant-rs/src/lib.rs:489-500 | The intraday lookback is sure to hold a weekday for each 240 trading minutes iff these are at most twenty days |
| EmQuantRanges.FiveDigitYearsBreakTheOrder | crates/magic-emquant-rs/src/lib.rs:473-509 | In the years 10000 to 19899 no default range is in order |
| EmQuantRanges.CallersRangeIsKept | crates/magic-emquant-rs/src/lib.rs:473-482 | A caller's start and end are kept, each in its place; one without the other is refused, and nothing else is |
| EmQuantDates.DateTextsShowTheirDates | crates/magic-emquant-rs/src/lib.rs:458-471 | A printed date shows its year in at least four columns, a minus sign included, and its month and day in two digits each |
| MinuteBars.AggregateMinuteBars | crates/magic-emquant-rs/src/lib.rs:670-704 | Width one passes through; otherwise success exactly on gap-free groups of one observation whose summaries the bar constructor accepts, one bar a run |
| MinuteBars.AddBar | crates/magic-emquant-rs/src/lib.rs:682-700 | One turn of the loop keeps the closed runs and the open group, or shows that the input cannot be aggregated |
| MinuteBarLaws.BucketKeysAreFaithful | crates/magic-emquant-rs/src/lib.rs:588-608 | Two bars share a bucket key iff they share the date and the slot |
| MinuteBarLaws.ClockTimesAreBucketed | crates/magic-emquant-rs/src/lib.rs:588-608 | A printed clock time falls into the slot of its minute of the day; a time that no clock shows is refused |
| MinuteBarLaws.MaximalRunsAreUnique | crates/magic-emquant-rs/src/lib.rs:670-704 | There is only one cut of the bars into maximal runs |
| MinuteBarLaws.SummaryOf | crates/magic-emquant-rs/src/lib.rs:610-668 | First start and open, last end and close, greatest high, least low, volume and amount of the run, the amount iff every bar has one, and the last source and first observation time |
| MinuteBarLaws.VolumeOfOne | crates/magic-emquant-rs/src/lib.rs:638 | The volume of one bar is its own |
| MinuteBarLaws.VolumeOfConcat | crates/magic-emquant-rs/src/lib.rs:638 | The volume of two stretches together is the sum of theirs |
| MinuteBarLaws.AmountOfOne | crates/magic-emquant-rs/src/lib.rs:639-646 | The amount of one bar is its own |
| MinuteBarLaws.AmountOfConcat | crates/magic-emquant-rs/src/lib.rs:639-646 | The amount of two stretches together is the sum of theirs |
| MinuteBarTimes.AcceptedMeans | crates/magic-market-core/src/provider.rs:1398-1451 | The constructor accepts a bar iff its times are printed seconds of one day with one separator, in order and at most `width` minutes apart, open and close lie between low and high, and an amount is not negative |
| MinuteBarTimes.BucketsMean | crates/magic-emquant-rs/src/lib.rs:588-608 | A time has a bucket iff it is a date, a space, an hour up to 23, a colon and a minute up to 59, perhaps with more behind a colon; the bucket is that of the date and the stretch of the minute |
| MinuteBarLaws.SummaryIsConsistent | crates/magic-market-core/src/provider.rs:1425-1433 | Consistent bars have a consistent summary: no group fails for its prices or its amount |
| Clocks.ClockCheckIsExact | crates/magic-emquant-rs/src/lib.rs:389-404 | The clock check accepts exactly the printed texts of the seconds of a day, and each reads as its second |
| MinuteBarLaws.BarTimesAreExact | crates/magic-market-core/src/provider.rs:1206-1222 | The bar times accepted are exactly a printed date of the years 1900 to 9999, a space or a T, and a printed second of the day |
| MinuteBarLaws.RunsFitBySpan | crates/magic-market-core/src/provider.rs:1206-1253 | Of all the constructor's checks only the span can refuse a gapless group of minute bars: iff its last bar ends more than `width` minutes after its first starts |
| MinuteBarLaws.InstantRunsFit | crates/magic-emquant-rs/src/lib.rs:861-945 | Bars built as the history reader builds them, with one time for start and end, always give a bar the constructor accepts |
| MinuteBarLaws.InstantsAggregate | crates/magic-emquant-rs/src/lib.rs:861-945 | For such bars aggregation succeeds iff times use a space, no minute is missing in a bucket and each run has one observation |
| MinuteBarLaws.AggregationPartitionsTheInput | crates/magic-emquant-rs/src/lib.rs:670-704 | The runs are the input cut into maximal one-bucket stretches of at most `width` bars; total volume is conserved, and so is the total amount if every bar has one |
| MinuteBarLaws.RunsAreShort | crates/magic-emquant-rs/src/lib.rs:670-704 | A run holds consecutive minutes, at most `width` of them |
| CanonicalJson.ByteSink.WriteCanonicalJson | crates/magic-eastmoney-rs/src/provider_top_n_rankings.rs:188-213 | The recursive writer appends the canonical encoding and nothing else |
| CanonicalJson.ByteSink.WriteLengthPrefixed | crates/magic-eastmoney-rs/src/provider_top_n_rankings.rs:215-221 | Tag, decimal length, colon, bytes, semicolon are appended |
| CanonicalJson.SortCommutes | crates/magic-eastmoney-rs/src/provider_top_n_rankings.rs:204-212 | Sorting members by key commutes with canonicalising their values |
| CanonicalJsonLaws.DecodeInvertsEncode | crates/magic-eastmoney-rs/src/provider_top_n_rankings.rs:188-221 | A decoder that reads members in the order they stand recovers from encoding + rest the rest and a value with the same meaning, in which the keys of every object ascend bytewise at every depth |
| CanonicalJsonLaws.EqualBytesMeanEqualValues | crates/magic-eastmoney-rs/src/provider_top_n_rankings.rs:188-221 | Same bytes iff equal up to member order at every depth (section 4 of RFC 8259) |
| CanonicalJsonLaws.EncodingIsPrefixFree | crates/magic-eastmoney-rs/src/provider_top_n_rankings.rs:188-221 | No encoding is a proper prefix of another |
| CanonicalJsonLaws.CanonicalKeepsMeaning | crates/magic-eastmoney-rs/src/provider_top_n_rankings.rs:204-212 | Ordering the members changes nothing of the meaning |
| CanonicalJsonLaws.MeaningFixesCanonical | crates/magic-eastmoney-rs/src/provider_top_n_rankings.rs:204-212 | Equal meanings have one canonical form |
| PacingGate.ProbeRequestTracker.RequestStarted | crates/magic-market-core/src/probe.rs:175-188 | The tracker's whole state after a start |
| PacingGate.ProbeRequestTracker.RequestFinished | crates/magic-market-core/src/probe.rs:191-197 | The tracker's whole state after a finish, and its refusal without a start |
| PacingGate.LocksStayConsistent | crates/magic-eastmoney-rs/src/transport.rs:92-117 | No step breaks the agreement of thread phases and lock owners |
| PacingGate.StepKeepsInvariant | crates/magic-eastmoney-rs/src/transport.rs:92-117 | Every step of any thread keeps lock agreement, spacing and tracking |
| PacingGateLaws.RequestsArePaced | crates/magic-eastmoney-rs/src/transport.rs:153-195 | In every reachable state gate stamps are an interval apart, at most one call is in flight, started - finished is 0 or 1 |
| PacingGateLaws.TrackerLagsTheGate | crates/magic-cninfo-rs/src/lib.rs:313-340 | Each recorded start lies between its own stamp and the next one, which bounds how far a gap can fall short |
| PacingGateLaws.GuaranteedGap | crates/magic-eastmoney-rs/src/transport.rs:92-109 | Recorded starts that lag at most d behind their stamps are at least g apart in every run iff g = 0 or g + d <= interval |
| PacingGateLaws.TrackerGapCanVanish | crates/magic-eastmoney-rs/src/transport.rs:92-109 | For every interval, a run whose recorded starts coincide |
| PacingGateTimes.WaitsAreExact | crates/magic-cninfo-rs/src/lib.rs:315-326 | In every run a thread at the gate goes on at once iff an interval has passed since the last stamp, and otherwise sleeps until exactly an interval after it, or later by the time it took to fall asleep |
| PacingGateTimes.BlockedExactly | crates/magic-cninfo-rs/src/lib.rs:313-340 | In every run a thread is blocked iff it wants the gate while another has it, sleeps and is not due, or wants the tracker while another counts or reads |
| PacingGateTimes.SnapshotsPassTheGate | crates/magic-cninfo-rs/src/lib.rs:223-228 | A snapshot never waits for the gate and changes nothing |
| PacingGateTimes.StartsAreCounted | crates/magic-market-core/src/probe.rs:173-188 | After any events the tracker holds the number of starts, capped at 64 bits, the last one and the shortest gap between two |
| PacingGateTimes.ShortestGapMeans | crates/magic-market-core/src/probe.rs:175-182 | There is a shortest gap iff there are two starts, and it is the least of the gaps between consecutive ones |
| PacingGateTimes.ConcurrencyIsTheGreatest | crates/magic-market-core/src/probe.rs:186-187 | The greatest concurrency is attained after some of the events and never exceeded |
| PacingGateLaws.EveryThreadCanFinish | crates/magic-eastmoney-rs/src/transport.rs:153-195 | No deadlock with snapshot readers: from every reachable state some schedule lets any given thread finish |
| PacingGateLaws.FreeBothLocks | crates/magic-eastmoney-rs/src/transport.rs:92-117 | Whenever phases and locks agree both locks can be freed: their holders end idle and no other thread moves |
| ProtoWire.EncodeVarint | tools/probes/local_bridge_capability_probe.py:199-210 | The loop writes the base-128 form; negative values are refused |
| ProtoWire.ProtoReader.NextVarint | tools/probes/local_bridge_capability_probe.py:254-267 | The reader's value, error and position, for every input |
| ProtoWire.ProtoReader.NextField | tools/probes/local_bridge_capability_probe.py:269-299 | One field by wire type, with every error and the position reached |
| ProtoWire.ProtoReader.Fields | tools/probes/local_bridge_capability_probe.py:269-299 | All fields up to the end or the first error |
| ProtoWireLaws.VarintRoundTrip | tools/probes/local_bridge_capability_probe.py:199-267 | A varint reads back iff its value is below 2^77 and is otherwise too long |
| ProtoWireLaws.FieldsRoundTrip | tools/probes/local_bridge_capability_probe.py:213-299 | Any list of written fields reads back up to the first one out of range, and whole iff all are in range |
| ProtoWireLaws.QueryRequestDecodes | tools/probes/local_bridge_capability_probe.py:229-240 | A query request decodes to its context with version 1, optional provider and payload, and these to their parts, the content type spelled out |
| ProtoWireGrammar.WrittenVarints | tools/probes/local_bridge_capability_probe.py:199-210 | What is written for a value are bytes that all but the last go on, show the value in base 128 and end without a superfluous zero |
| ProtoWireGrammar.ReadingMeans | tools/probes/local_bridge_capability_probe.py:254-267 | A varint is read iff one of at most eleven bytes stands there; too long iff eleven bytes stand there that all go on, truncated iff fewer are left that all do |
| ProtoWireGrammar.WrittenFields | tools/probes/local_bridge_capability_probe.py:213-222 | A written field begins with the varint of eight times its number, plus two if it carries bytes |
| ProtoWireGrammar.ReadingFields | tools/probes/local_bridge_capability_probe.py:269-299 | What is read behind each kind of key, with every error and position |
| GrpcFrames.SplitGrpcFrames | tools/probes/local_bridge_capability_probe.py:357-374 | For every body, the joined payloads of its whole frames with flags 0 to 127 and of those with flags 128 to 255; a message framed on its own is returned as the data, without trailers |
| GrpcFrames.FramingIsEncoding | tools/probes/local_bridge_capability_probe.py:243-244 | Framing succeeds iff the length is at most 0xFFFFFFFF, and writes the frame with a zero flag |
| GrpcFrames.FrameBytes | tools/probes/local_bridge_capability_probe.py:243-244 | A frame is its flag, the length of its payload in four bytes with the greatest first, and the payload |
| GrpcFrames.StreamsAreSplitByFlag | tools/probes/local_bridge_capability_probe.py:369-372 | One more frame in a stream adds its payload to the data iff its flag is at most 127 and to the trailers iff it is greater, and what follows the whole frames adds nothing |
| GrpcFrames.FramesAreRecovered | tools/probes/local_bridge_capability_probe.py:357-374 | The frames found in a stream followed by no whole frame are those that were sent |
| GrpcFrames.EveryBodyIsAStream | tools/probes/local_bridge_capability_probe.py:357-374 | Every body is the encoding of the frames found in it and a rest that holds no whole frame |
| GrpcFrames.TruncationKeepsWholeFrames | tools/probes/local_bridge_capability_probe.py:357-374 | Cutting a stream anywhere leaves exactly the frames that lie wholly before the cut, whose number exists for every cut |
| MarketRankings.MarketRankingsOf | crates/magic-eastmoney-rs/src/market_rankings.rs:60-85 | Success iff the chosen endpoint supports a universe, and then its top ranks; the fallback is taken iff the first endpoint breaks off at transport level; at most 1200 requests |
| MarketRankings.FetchRankingOperation | crates/magic-eastmoney-rs/src/market_rankings.rs:150-209 | Success iff one endpoint delivers a snapshot that holds a universe; transport failure iff it breaks off in a good run; at most 200 pages |
| MarketRankings.FetchRankingPage | crates/magic-eastmoney-rs/src/market_rankings.rs:211-228 | The first reply of at most three attempts that is not a transport failure |
| MarketRankings.ParseMarketRankingEnvelopes | crates/magic-eastmoney-rs/src/market_rankings.rs:522-696 | Success iff the pages are whole and hold one distinct, descending universe of all three exchanges at one instant |
| MarketRankings.SnapshotIsUnique | crates/magic-eastmoney-rs/src/market_rankings.rs:150-209 | One endpoint delivers at most one snapshot |
| MarketRankings.SnapshotsDoNotBreakOff | crates/magic-eastmoney-rs/src/market_rankings.rs:60-85 | An endpoint with a snapshot never triggers the fallback |
| MarketRankings.NoSkewIsOneInstant | crates/magic-eastmoney-rs/src/market_rankings.rs:643-652 | Zero skew between earliest and latest means that all rows share their instant |
| MarketRankingLaws.TopRanksAreTheGreatest | crates/magic-eastmoney-rs/src/market_rankings.rs:659-684 | The entries are the source's first rows with ranks 1..k, each with its own fields, the unit of its kind, the size of the universe and no skew, and whatever is worth more than a returned entry is returned with a better rank |
| MarketRankingLaws.SessionsAreByTheClock | crates/magic-eastmoney-rs/src/market_rankings.rs:698-717 | The day of a row is that of its time eight hours on, and the comparisons of clock texts cut it at the seconds they name |
| MarketRankingLaws.LaterChecksNeverReject | crates/magic-market-core/src/signals.rs:747-808 | The record and batch checks of the market core accept whatever the parser accepted: the first row's day and session, which every record carries, are its own |
| MarketRankingLaws.SupportIsUnique | crates/magic-eastmoney-rs/src/market_rankings.rs:150-209 | An endpoint supports at most one universe, and then does not break off |
| MarketRankingLaws.HonestTablesAreRead | crates/magic-eastmoney-rs/src/market_rankings.rs:150-209 | Any endpoint that serves a universe within the bound in pages of one hundred is read completely |
| MarketRankingPages.RowsAreReadAsTheyStand | crates/magic-eastmoney-rs/src/market_rankings.rs:574-630 | Rows are read iff every field is there, the time is not zero and a volume ratio is not negative, and then as they stand |
| MarketRankingPages.UniversesMean | crates/magic-eastmoney-rs/src/market_rankings.rs:574-657 | A universe repeats no instrument, descends, is of one instant and lists some instrument on every exchange |
| MarketRankingPages.HoldingMeans | crates/magic-eastmoney-rs/src/market_rankings.rs:535-564 | Pages hold a universe iff all declare its size, at most 20000, and hold at most a hundred rows each, which together read as it |
| MarketRankingPages.DeliveriesMean | crates/magic-eastmoney-rs/src/market_rankings.rs:211-228 | The reply for a page is that of the first of three attempts that is not dropped, or of the third |
| MarketRankingPages.SnapshotsMean | crates/magic-eastmoney-rs/src/market_rankings.rs:161-208 | A snapshot is full pages of a hundred that leave rows to come and a last one that reaches their one total of 1 to 20000 |
| MarketRankingPages.BreakingOffMeans | crates/magic-eastmoney-rs/src/market_rankings.rs:161-228 | An endpoint breaks off iff behind full pages all three attempts at the next one are dropped |
| WorkspaceClosure.WorkspaceManifests | tools/compliance/check_http_transports.py:312-346 | The members are the manifests reachable from the start through manifests not excluded; the complaints are that of an empty workspace and those of each member, visited once |
| WorkspaceClosure.AddDependencies | tools/compliance/check_http_transports.py:340-344 | Following one manifest's dependencies keeps the worklist's invariant |
| WorkspaceClosure.Popping | tools/compliance/check_http_transports.py:318-324 | A popped manifest has never been visited |
| WorkspaceClosure.MembersAreLeast | tools/compliance/check_http_transports.py:312-346 | The members are the least set that holds the listed manifests not excluded, the root package and the dependencies, not excluded, of its manifests |
| WorkspaceClosure.ExcludedStayOut | tools/compliance/check_http_transports.py:312-342 | An excluded manifest is a member only if it is the root package's |
| WorkspaceClosure.RunsAgree | tools/compliance/check_http_transports.py:312-346 | Whatever the order of visits, the complaints are the same up to order |
| WorkspaceClosure.StartIsComplainedOf | tools/compliance/check_http_transports.py:312-316 | The start is complained of iff it is no package and lists nothing that is not excluded |
| DragonTiger.MapMarketEntries | crates/magic-eastmoney-rs/src/dragon_tiger.rs:205-273 | A bad row, a conflict of two entries with one id, or the first entries of the strict order, each only when due; an empty list is refused, and nothing else is refused as one |
| DragonTiger.DropDuplicates | crates/magic-eastmoney-rs/src/dragon_tiger.rs:242-256 | One entry for each id, and failure iff two rows share an id and differ |
| DragonTiger.LessIsTotal | crates/magic-eastmoney-rs/src/dragon_tiger.rs:257-281 | The order is asymmetric and decides any two entries with different ids |
| DragonTiger.LessIsTransitive | crates/magic-eastmoney-rs/src/dragon_tiger.rs:257-281 | The order is transitive |
| DragonTiger.TopIsUnique | crates/magic-eastmoney-rs/src/dragon_tiger.rs:257-272 | The truncated list is determined by the set of entries |
| DragonTiger.RowOrderIsIrrelevant | crates/magic-eastmoney-rs/src/dragon_tiger.rs:205-273 | Whatever is due for some rows is due for any permutation of them: the same list, or the same kind of failure |
| DragonTiger.FailuresIgnoreOrder | crates/magic-eastmoney-rs/src/dragon_tiger.rs:205-238 | Whether some row fails to map does not depend on the order |
| DragonTiger.TopListsTheGreatest | crates/magic-eastmoney-rs/src/dragon_tiger.rs:257-281 | Greater net amounts come first and missing ones last, then Shanghai, Shenzhen, Beijing, then smaller codes and ids; only a full list leaves an entry out, and then only behind all it lists |
| DragonTiger.RowsMapToTheirEntries | crates/magic-eastmoney-rs/src/dragon_tiger.rs:213-238 | Rows map iff each is of the date asked for and decodes, to what it decodes to |
| DragonTiger.ConsistencyIsNoConflict | crates/magic-eastmoney-rs/src/dragon_tiger.rs:242-256 | Entries are consistent iff no identity is in conflict |
| Datacenter.FetchRows | crates/magic-eastmoney-rs/src/datacenter_api.rs:9-64 | Success exactly with the first `limit` rows of the one complete reading of the server |
| Datacenter.FetchAllRows | crates/magic-eastmoney-rs/src/datacenter_api.rs:66-171 | Success exactly on an empty report or a run whose stable totals are in range and met; at most 20 requests, a failing one included; the extraction of the totals never fails |
| Datacenter.ReadingIsUnique | crates/magic-eastmoney-rs/src/datacenter_api.rs:9-64 | One server and limit determine one reading |
| Datacenter.SoundIsUnique | crates/magic-eastmoney-rs/src/datacenter_api.rs:66-171 | One server determines one sound run |
| Datacenter.FirstRowsOfAnHonestTable | crates/magic-eastmoney-rs/src/datacenter_api.rs:9-64 | From an honest table of 500-row pages come exactly its first min(limit, length) rows, in the least number of requests |
| Datacenter.HonestReportsAreRead | crates/magic-eastmoney-rs/src/datacenter_api.rs:66-171 | An honest report within the bound is read whole, in ceil(count / 500) requests |
| DatacenterLaws.ReadingsMean | crates/magic-eastmoney-rs/src/datacenter_api.rs:9-64 | A reading is a run of answers of which only the last fills the limit or declares no more pages |
| DatacenterLaws.SoundRunsMean | crates/magic-eastmoney-rs/src/datacenter_api.rs:66-171 | A report is returned whole iff it is one empty page, or at most twenty pages, none empty, that all declare their number and that of their rows, which takes that many pages of 500 |
| DatacenterLaws.PageCountsAreLeast | crates/magic-eastmoney-rs/src/datacenter_api.rs:134-140 | The page count is the least number of pages of 500 that holds the rows |
| FxFixings.FetchOfficialFxFixings | crates/magic-cfets-rs/src/lib.rs:172-198 | At most 20 requests, as many as the pages declare; success iff the fetched run is complete and readable |
| FxFixings.ParseCentralParityPages | crates/magic-cfets-rs/src/fx.rs:102-276 | Success iff the pairs are audited, pages 1..n cover exactly the total, and the rows are in bounds, positive and of distinct dates; the batch is the cut arrangement |
| FxFixings.CollectPages | crates/magic-cfets-rs/src/fx.rs:128-213 | The rows of the pages, exactly when the metadata and widths fit and the totals are covered |
| FxFixings.MapRow | crates/magic-cfets-rs/src/fx.rs:217-257 | One fixing for each requested pair, refused iff a value is missing or not positive or the date was seen |
| FxFixings.HeadingsDiffer | crates/magic-cfets-rs/src/fx.rs:12-38 | Headings tell pairs apart, so identities by heading are identities by pair |
| FxFixings.OrderIsTotal | crates/magic-cfets-rs/src/fx.rs:266-271 | The sort order is total on the records and the records do not repeat |
| FxFixingLaws.CatalogListsTheAudited | crates/magic-cfets-rs/src/fx.rs:12-38 | A pair is audited iff its heading stands in the catalog of 25 |
| FxFixingLaws.BatchIgnoresPaging | crates/magic-cfets-rs/src/fx.rs:102-276 | Moving or reordering rows across the pages changes neither whether they are readable nor their arrangement |
| FxFixingLaws.ArrangementIsByPairThenDate | crates/magic-cfets-rs/src/fx.rs:266-286 | The records come in the order of the requested pairs, dates ascending within a pair |
| FxFixingPages.CatalogIsAudited | crates/magic-cfets-rs/src/fx.rs:12-38 | The 25 headings, in their order |
| FxFixingPages.JoinedPartsSplit | crates/magic-cfets-rs/src/fx.rs:123 | What is joined by commas is told apart by them |
| FxFixingPages.CompleteMeans | crates/magic-cfets-rs/src/fx.rs:102-213 | Pages are complete iff they are the pages 1 to n, at most twenty, of a result of as many rows as they hold, at most a thousand, each with the request's bounds, pairs and widths and a blank message |
| FxFixingPages.FetchingMeans | crates/magic-cfets-rs/src/lib.rs:172-198 | The run fetched is the pages, each declaring one to twenty, up to the first whose number reaches what it declares |
| FxFixingPages.ReadableMeans | crates/magic-cfets-rs/src/fx.rs:215-240 | Rows are readable iff each has a date in the bounds and a positive value for each pair, and no date comes twice |
| FxFixingPages.FixingsAreGiven | crates/magic-cfets-rs/src/fx.rs:217-257 | A fixing is the value that a row gives in its pair's own column on the row's date, for a hundred units iff the base is the yen |
| OrganizationCache.IndexRows | crates/magic-cninfo-rs/src/lib.rs:279-301 | The index holds exactly what the rows give; refused iff out of bounds, malformed or conflicting |
| OrganizationCache.CninfoClient.CachedOrgId | crates/magic-cninfo-rs/src/lib.rs:254-264 | A read answers iff the document is young enough and lists the code |
| OrganizationCache.CninfoClient.RefreshOrganizationCache | crates/magic-cninfo-rs/src/lib.rs:266-311 | An acceptable document replaces the cache; a rejected one leaves it unchanged |
| OrganizationCache.CninfoClient.OrganizationMapping | crates/magic-cninfo-rs/src/lib.rs:230-252 | A lookup fetches at most once, none on a hit, whose identity it returns; after a fetch it succeeds exactly under the stated conditions |
| OrganizationDocuments.DocumentsMean | crates/magic-cninfo-rs/src/lib.rs:274-301 | A document is acceptable iff it lists 1 to 10000 rows, each six digits and a text once trimmed, and no two identities for one code; it gives what it lists |
| OrganizationDocuments.ExchangesMean | crates/magic-cninfo-rs/src/lib.rs:809-823 | The exchange of a code, by the ranges of the number it shows |
| OrganizationDocuments.InstrumentsMean | crates/magic-cninfo-rs/src/lib.rs:796-828 | An instrument is looked up iff it is an equity whose code shows a number of its exchange; unsupported iff it is none or shows a number of no exchange |
| OrganizationCacheRuns.LookupsAnswer | crates/magic-cninfo-rs/src/lib.rs:254-264 | A client's lookup is the answer of the interleaved model |
| OrganizationCacheRuns.StepKeepsInvariant | crates/magic-cninfo-rs/src/lib.rs:230-311 | Every atomic step of any thread keeps the invariant |
| OrganizationCacheRuns.EveryAnswerIsFaithful | crates/magic-cninfo-rs/src/lib.rs:230-311 | In every run each id returned is the one the document installed last gives in all its rows, younger than the time to live, after at most one fetch |
| OrganizationCacheRuns.EveryFailureIsExplained | crates/magic-cninfo-rs/src/lib.rs:230-311 | In every run a lookup that installed a document ends without an identity iff the document installed last at its reread is too old, lacks the code or gives a refused identity |
| OrganizationCacheRuns.UsefulFetchesFailWhenOvertaken | crates/magic-cninfo-rs/src/lib.rs:230-311 | If its own document still serves it, a lookup fails iff it was overtaken by an installation that does not |
| OrganizationCacheRuns.FreshLookupCanFail | crates/magic-cninfo-rs/src/lib.rs:230-311 | Any serving and any other acceptable document have a run in which the lookup that fetched the first ends without an identity |
| OrganizationCacheRuns.NewestIsCachedInOrder | crates/magic-cninfo-rs/src/lib.rs:302-309 | The newest document is the cached one throughout a run iff installations come in stamp order |
| OrganizationCacheRuns.OlderReplacesNewer | crates/magic-cninfo-rs/src/lib.rs:302-309 | Any two acceptable documents have a run in which the older replaces the newer |
| OrganizationCacheRuns.CachedDocumentsWereAccepted | crates/magic-cninfo-rs/src/lib.rs:266-311 | In every run each document the cache ever held was fetched by a step of that run, was acceptable, and carries that step's time |
| OrganizationLookups.FirstReadsDecide | crates/magic-cninfo-rs/src/lib.rs:230-241 | Among any other threads, a first read ends the lookup without a request iff the cache serves the code, with the identity served if the core accepts it |
| OrganizationLookups.InstallsAreReread | crates/magic-cninfo-rs/src/lib.rs:242-252 | What is installed is read again, and the lookup ends with what is served by then |
| GroupedNumbers.CountsAreGroupedNumbers | crates/magic-exchange-rs/src/hkex.rs:451-462 | Accepted exactly: well-grouped texts whose base-1000 value is at most 2^53, read as that value |
| GroupedNumbers.DecimalsAreGroupedNumbers | crates/magic-exchange-rs/src/hkex.rs:397-431 | With a point allowed, accepted exactly: a well-grouped part and digits after at most one point |
| GroupedNumbers.GroupedCountsAreReadBack | crates/magic-exchange-rs/src/hkex.rs:451-462 | The grouped decimal of n reads as n iff n is at most 2^53 |
| GroupedNumbers.TextsOfACount | crates/magic-exchange-rs/src/hkex.rs:397-462 | All accepted texts of a count: its numeral behind any number of zeros, with a comma before every third digit, and the count at most 2^53 |
| GroupedNumbers.CommasStand | crates/magic-exchange-rs/src/hkex.rs:414-430 | In grouped digits every fourth character from the right is a comma, none is first, and without them the digits are left |
| GroupedNumbers.GroupingMeans | crates/magic-exchange-rs/src/hkex.rs:414-430 | A text is well grouped iff it is some digits grouped so |
| GroupedNumbers.SourceCountsAreReadBack | crates/magic-eastmoney-rs/src/mx.rs:855-893 | Plain, grouped and zero-fraction forms of n all read as n iff n fits 32 bits |
| GroupedNumbers.TextsOfASourceCount | crates/magic-eastmoney-rs/src/mx.rs:855-893 | These, behind any number of leading zeros, are all the texts that read as n |

## Left out

- I/O: transports, TLS, subprocesses, sockets, clocks and lock poisoning; replies, clock readings and schedules are parameters.
- JSON decoding: a field is present and decoded or it is `None`. Outside `MarketAnnouncements`, `OrganizationCache` and `MinuteBars`, which model them, what a record constructor checks of one source row is part of that row's decoding.
- Digests, batch ids, evidence, provenance and the texts of error messages.
- Floating point: values are exact numbers, so a negative zero is zero; non-finite values count as undecodable.
- Overflow checks of page counters where the bounds proved keep the counters small; the one counter that an arbitrary server can drive to its end, in `Datacenter.FetchRows`, is modelled.
- Size limits of response bodies.
- MarketAnnouncementsWithCoverage: states which runs fail, not which of the error kinds each failure carries.
- MarketRankingsOf: protocol, decoding and record errors are one kind; the bounded and the diagnostic single-page readers, which share its row checks, are left out.
- WorkspaceManifests: starts after the root manifest is read and its member and exclude patterns are expanded, and leaves out the complaints of both; paths are names, reading and parsing a manifest is a lookup, and the order in which a manifest's dependencies are appended is arbitrary rather than sorted.
- ParseCentralParityPages: the provider check and the evidence of the records are left out.
- LaterChecksNeverReject: the evidence fields of the core checks are left out.
- Rust lexing: the scanner is modelled as it is, which approximates the language.
- IntradayLookback: counts weekdays; public holidays and the length of other markets' sessions are left out.
- AggregateMinuteBars: the texts of its bars are those of bars already built, hence trimmed; the interval of the new bar is its width.
- The bounded reader of the bridge's output.
- Single-record field mappers, admission and compliance row validation, the Baidu and CLS copies of the gate, target-price pagination and provider top-n parsing: easy members or near copies of what is here.
