/** What the receipt of a completed announcement read says, said of the pages and rows that were read. */
module MarketAnnouncementReceipts {
  import opened MarketAnnouncementLaws
  import opened MarketAnnouncements
  import opened Wrappers

  // ---- Identities -------------------------------------------------------------------------------------------

  function Ids(rows: seq<Row>): set<string> {
    set i | 0 <= i < |rows| :: rows[i].id
  }

  /** One row is kept for each identity. */
  lemma {:induction false} OneRowPerIdentity(rows: seq<Row>)
    ensures |FirstOccurrences(rows)| == |Ids(rows)|
  {
    hide Ids, SeenIn;
    if rows == [] {
      NoIdentities();
    } else {
      var init, last := rows[..|rows| - 1], rows[|rows| - 1];
      OneRowPerIdentity(init);
      assert rows == init + [last];
      LastIdentity(init, last);
    }
  }

  lemma NoIdentities()
    ensures Ids([]) == {}
  {
  }

  lemma LastIdentity(init: seq<Row>, last: Row)
    ensures Ids(init + [last]) == Ids(init) + {last.id}
    ensures SeenIn(init, last.id) <==> last.id in Ids(init)
  {
    var all := init + [last];
    assert all[|init|] == last;
    assert forall i | 0 <= i < |init| :: all[i] == init[i];
  }

  /** `positions` are where the kept rows stand: each is the first with its identity. */
  predicate ArePositions(positions: seq<nat>, rows: seq<Row>, kept: seq<Row>) {
    && |positions| == |kept|
    && (forall i | 0 <= i < |kept| :: positions[i] < |rows| && rows[positions[i]] == kept[i])
    && (forall i, k: nat | 0 <= i < |kept| && k < positions[i] && k < |rows| :: rows[k].id != kept[i].id)
    && (forall i, j | 0 <= i < j < |kept| :: positions[i] < positions[j])
  }

  /** The kept rows stand in the order in which they were read. */
  lemma {:induction false} KeptInOrder(rows: seq<Row>) returns (positions: seq<nat>)
    ensures ArePositions(positions, rows, FirstOccurrences(rows))
  {
    if rows == [] {
      positions := [];
    } else {
      var init, last := rows[..|rows| - 1], rows[|rows| - 1];
      positions := KeptInOrder(init);
      assert rows == init + [last];
      if !SeenIn(init, last.id) {
        positions := positions + [|init|];
      }
      NextPosition(init, last, FirstOccurrences(init), positions[..|FirstOccurrences(init)|]);
      assert SeenIn(init, last.id) ==> positions[..|FirstOccurrences(init)|] == positions;
      assert !SeenIn(init, last.id) ==> positions[..|FirstOccurrences(init)|] + [|init|] == positions;
    }
  }

  lemma NextPosition(init: seq<Row>, last: Row, kept: seq<Row>, positions: seq<nat>)
    requires ArePositions(positions, init, kept)
    ensures ArePositions(positions, init + [last], kept)
    ensures !SeenIn(init, last.id) ==> ArePositions(positions + [|init|], init + [last], kept + [last])
  {
    var all := init + [last];
    assert all[|init|] == last && forall i | 0 <= i < |init| :: all[i] == init[i];
  }

  /** The read asks for no page more than it needs: before the last one neither the end of the list nor enough
      identities had been reached. */
  lemma ReadsStopInTime(server: Server, request: Request, maxPages: nat, n: Positive, total: nat, raw: seq<Row>)
    requires Completes(server, request, maxPages, n, total, raw)
    ensures 30 * n >= total || |Ids(raw)| >= request.limit
    ensures forall m: nat | 1 <= m < n :: 30 * m < total && 30 * m <= |raw| && |Ids(raw[..30 * m])| < request.limit
  {
    hide FirstOccurrences, PageAgrees, RowsAgree, NewestFirst, NoConflicts;
    OneRowPerIdentity(raw);
    forall m: nat | 1 <= m < n
      ensures 30 * m < total && 30 * m <= |raw| && |Ids(raw[..30 * m])| < request.limit
    {
      assert !Satisfied(request, m, total, raw[..Min(|raw|, PAGE_SIZE * m)]);
      OneRowPerIdentity(raw[..Min(|raw|, PAGE_SIZE * m)]);
    }
  }

  // ---- The receipt ----------------------------------------------------------------------------------------------

  /** The evidence of page `p` repeats what the source said on it. */
  predicate Repeats(evidence: PageEvidence, p: nat, answer: Page) {
    && evidence.requestedPage == p
    && answer.totalRecordNum == answer.totalAnnouncement == Some(evidence.sourceTotal)
    && answer.totalPages == Some(evidence.sourceTotalPages)
    && answer.hasMore == Some(evidence.hasMore)
    && evidence.rowCount == if answer.announcements.Some? then |answer.announcements.value| else 0
  }

  lemma EvidenceRepeatsThePages(
    server: Server, request: Request, maxPages: nat, n: Positive, total: nat, raw: seq<Row>, p: Positive
  )
    requires Completes(server, request, maxPages, n, total, raw) && p <= n
    ensures var pages := Receipt(request, n, total, raw).coverage.pages;
            |pages| == n && server(p).Ok? && Repeats(pages[p - 1], p, server(p).value)
  {
    hide FirstOccurrences, RowsAgree, NewestFirst, NoConflicts, Satisfied, Unsatisfied;
    assert PageAgrees(server, p, total);
  }

  /** The counters and flags, said of the first and the last page, the rows and the records. */
  predicate Describes(c: Coverage, first: Page, last: Page, n: nat, raw: seq<Row>, records: seq<Row>) {
    && last.hasMore == Some(c.terminalHasMore) && last.totalRecordNum == Some(c.sourceTotal)
    && c.pagesRead == n && c.inspectedRawRows == |raw| && c.uniqueRows == |Ids(raw)|
    && c.returnedRows == |records| && c.equivalentDuplicateRows == |raw| - |Ids(raw)|
    && (c.sourceExhausted <==> |raw| == c.sourceTotal)
    && (c.callerLimitTruncated <==> |records| < |Ids(raw)|)
    && (c.verifiedEmpty <==> first.totalRecordNum == Some(0))
    && c.expectedRequestPages >= 1 && 30 * c.expectedRequestPages >= c.sourceTotal
    && (c.expectedRequestPages > 1 ==> 30 * (c.expectedRequestPages - 1) < c.sourceTotal)
  }

  /** The coverage of a completed read describes it. */
  lemma CoverageSays(server: Server, request: Request, maxPages: nat, n: Positive, total: nat, raw: seq<Row>)
    requires Completes(server, request, maxPages, n, total, raw)
    ensures server(1).Ok? && server(n).Ok?
    ensures var r := Receipt(request, n, total, raw);
            Describes(r.coverage, server(1).value, server(n).value, n, raw, r.records)
  {
    hide FirstOccurrences, RowsAgree, NewestFirst, NoConflicts, Satisfied, Unsatisfied, EvidencePages;
    OneRowPerIdentity(raw);
    FirstOccurrencesLength(raw);
    assert PageAgrees(server, n, total) && PageAgrees(server, 1, total);
  }

  /** An issue is raised exactly when what it names happened, and no other one is. */
  lemma IssuesSay(server: Server, request: Request, maxPages: nat, n: Positive, total: nat, raw: seq<Row>)
    requires Completes(server, request, maxPages, n, total, raw)
    ensures var r := Receipt(request, n, total, raw);
            && (PaginationIncomplete in r.issues <==> |raw| < total)
            && (TruncatedByLimit in r.issues <==> exists i | 0 <= i < |raw| :: raw[i].id !in Ids(r.records))
            && (IdentityOverlap in r.issues <==> exists i, j | 0 <= i < j < |raw| :: raw[i].id == raw[j].id)
            && forall a, b | 0 <= a < b < |r.issues| :: r.issues[a] != r.issues[b]
  {
    hide FirstOccurrences, RowsAgree, NewestFirst, NoConflicts, Satisfied, Unsatisfied, EvidencePages, PageAgrees;
    var r := Receipt(request, n, total, raw);
    OneRowPerIdentity(raw);
    RepeatsShrink(raw);
    FirstOccurrencesLength(raw);
    CutLosesIdentities(raw, r.records, request.limit);
  }

  /** Fewer identities than rows means that some row repeats another's. */
  lemma {:induction false} RepeatsShrink(rows: seq<Row>)
    ensures |Ids(rows)| <= |rows|
    ensures |Ids(rows)| < |rows| <==> exists i, j | 0 <= i < j < |rows| :: rows[i].id == rows[j].id
  {
    if rows != [] {
      var init, last := rows[..|rows| - 1], rows[|rows| - 1];
      RepeatsShrink(init);
      assert rows == init + [last];
      LastIdentity(init, last);
      assert forall i | 0 <= i < |init| :: rows[i] == init[i];
    }
  }

  /** The cut list lacks an identity exactly if it is shorter than the list. */
  lemma CutLosesIdentities(raw: seq<Row>, records: seq<Row>, limit: nat)
    requires records == FirstOccurrences(raw)[..Min(|FirstOccurrences(raw)|, limit)]
    ensures |records| < |FirstOccurrences(raw)| <==> exists i | 0 <= i < |raw| :: raw[i].id !in Ids(records)
  {
    hide FirstOccurrences, IsFirst;
    var kept := FirstOccurrences(raw);
    FirstOccurrencesAreFirst(raw);
    if |records| < |kept| {
      var x := kept[|records|];
      assert x in kept && SeenIn(raw, x.id);
      var i :| 0 <= i < |raw| && raw[i].id == x.id;
      assert forall k | 0 <= k < |records| :: records[k] == kept[k] && kept[k].id != x.id;
      assert raw[i].id !in Ids(records);
    } else {
      forall i | 0 <= i < |raw| ensures raw[i].id in Ids(records) {
        FirstOccurrencesKeepIds(raw, i);
        assert records == kept;
      }
    }
  }
}
