/** The market-wide dragon-tiger list: equal duplicates dropped, conflicting ones refused, then the first entries
    under a total order. */
module DragonTiger {
  import opened Exchanges
  import opened Paging
  import opened Sorting
  import opened Texts
  import opened Wrappers

  /** A mapped record; `details` stands for the fields that take no part in the ordering. */
  datatype Entry = Entry(id: string, exchange: Exchange, code: string, net: Option<real>, details: string)

  /** A source row: its trading date, and the entry it maps to if its fields decode. */
  datatype Row = Row(date: Option<string>, entry: Option<Entry>)

  datatype Error = BadRow | ConflictingDuplicate(id: string) | NoRecords

  // ---- The order --------------------------------------------------------------------------------------

  function ExchangeOrder(exchange: Exchange): nat {
    match exchange
    case Shanghai => 0
    case Shenzhen => 1
    case Beijing => 2
  }

  /** Larger net amounts first, missing ones last. */
  predicate NetBefore(left: Option<real>, right: Option<real>) {
    match (left, right)
    case (Some(l), Some(r)) => l > r
    case (Some(_), None) => true
    case (None, _) => false
  }

  predicate Less(left: Entry, right: Entry) {
    || NetBefore(left.net, right.net)
    || (left.net == right.net
        && (|| ExchangeOrder(left.exchange) < ExchangeOrder(right.exchange)
            || (left.exchange == right.exchange
                && (Before(left.code, right.code) || (left.code == right.code && Before(left.id, right.id))))))
  }

  lemma LessIsTotal(a: Entry, b: Entry)
    ensures !(Less(a, b) && Less(b, a)) && !Less(a, a)
    ensures a.id != b.id ==> Less(a, b) || Less(b, a)
  {
    hide Before;
    BeforeIsTotal(a.code, b.code);
    BeforeIsTotal(a.id, b.id);
    BeforeIsTotal(a.code, a.code);
    BeforeIsTotal(a.id, a.id);
  }

  lemma LessIsTransitive(a: Entry, b: Entry, c: Entry)
    requires Less(a, b) && Less(b, c)
    ensures Less(a, c)
  {
    hide Before;
    if Before(a.code, b.code) && Before(b.code, c.code) {
      BeforeIsTransitive(a.code, b.code, c.code);
    }
    if Before(a.id, b.id) && Before(b.id, c.id) {
      BeforeIsTransitive(a.id, b.id, c.id);
    }
  }

  // ---- What the list should be ------------------------------------------------------------------------

  /** Entries with the same identity are the same entry. */
  predicate Consistent(entries: seq<Entry>) {
    forall x, y | x in entries && y in entries && x.id == y.id :: x == y
  }

  /** `top` is strictly ordered, comes from `entries`, and leaves out only what is after all of it when full. */
  predicate Top(entries: seq<Entry>, limit: nat, top: seq<Entry>) {
    && |top| <= limit
    && (forall x | x in top :: x in entries)
    && (forall i, j | 0 <= i < j < |top| :: Less(top[i], top[j]))
    && (forall x | x in entries && x !in top :: |top| == limit && forall y | y in top :: Less(y, x))
  }

  /** No two lists meet that description: the list depends on nothing but the set of entries. */
  lemma TopIsUnique(entries: seq<Entry>, others: seq<Entry>, limit: nat, a: seq<Entry>, b: seq<Entry>)
    requires (forall x | x in entries :: x in others) && (forall x | x in others :: x in entries)
    requires Top(entries, limit, a) && Top(others, limit, b)
    ensures a == b
  {
    hide Less, Top;
    var k := 0;
    assert a[..0] == b[..0];
    while k < |a|
      invariant k <= |a| && k <= |b| && a[..k] == b[..k]
    {
      SameNext(entries, others, limit, a, b, k);
      assert a[..k + 1] == a[..k] + [a[k]] && b[..k + 1] == b[..k] + [b[k]];
      k := k + 1;
    }
    if k < |b| {
      SameNext(others, entries, limit, b, a, k);
    }
    assert a == a[..k] && b == b[..k];
  }

  lemma SameNext(entries: seq<Entry>, others: seq<Entry>, limit: nat, a: seq<Entry>, b: seq<Entry>, k: nat)
    requires (forall x | x in entries :: x in others) && (forall x | x in others :: x in entries)
    requires Top(entries, limit, a) && Top(others, limit, b)
    requires k < |a| && k <= |b| && a[..k] == b[..k]
    ensures k < |b| && a[k] == b[k]
  {
    hide Less;
    AheadOfOthers(entries, limit, a, others, b, k);
    if k < |b| {
      AheadOfOthers(others, limit, b, entries, a, k);
      LessIsTotal(a[k], b[k]);
    }
  }

  /** Past a common prefix, the next of one list is not after the next of the other. */
  lemma AheadOfOthers(entries: seq<Entry>, limit: nat, a: seq<Entry>, others: seq<Entry>, b: seq<Entry>, k: nat)
    requires Top(entries, limit, a) && Top(others, limit, b)
    requires (forall x | x in entries :: x in others) && k < |a| && k <= |b| && a[..k] == b[..k]
    ensures k < |b| && (b[k] == a[k] || Less(b[k], a[k]))
  {
    hide Less;
    var x := a[k];
    assert x in others;
    if x in b {
      var m :| 0 <= m < |b| && b[m] == x;
      assert m < k ==> a[..k][m] == x && Less(a[m], x);
      LessIsTotal(x, x);
    } else {
      assert k < |b| ==> b[k] in b;
    }
  }

  // ---- The mapping -------------------------------------------------------------------------------------

  function MapRow(row: Row, date: string): Option<Entry> {
    if row.date != Some(date) then None else row.entry
  }

  predicate Maps(rows: seq<Row>, date: string, entries: seq<Entry>) {
    |entries| == |rows| && forall i | 0 <= i < |rows| :: MapRow(rows[i], date) == Some(entries[i])
  }

  ghost predicate SomeRowFails(rows: seq<Row>, date: string) {
    exists i :: 0 <= i < |rows| && MapRow(rows[i], date).None?
  }

  /** Two different entries share this identity. */
  predicate Conflicts(entries: seq<Entry>, id: string) {
    exists x, y | x in entries && y in entries :: x.id == y.id == id && x != y
  }

  /** What the rows call for: the first failure that applies, or the top of their entries. */
  ghost predicate Yields(rows: seq<Row>, date: string, limit: nat, r: Result<seq<Entry>, Error>) {
    match r
    case Err(BadRow) => SomeRowFails(rows, date)
    case Err(ConflictingDuplicate(id)) => exists entries :: Maps(rows, date, entries) && Conflicts(entries, id)
    case Err(NoRecords) => rows == []
    case Ok(top) =>
      rows != [] && exists entries :: Maps(rows, date, entries) && Consistent(entries) && Top(entries, limit, top)
  }

  /** Maps, de-duplicates, sorts and cuts the rows; an empty list is refused in the end. */
  method MapMarketEntries(rows: seq<Row>, date: string, limit: nat) returns (r: Result<seq<Entry>, Error>)
    requires limit > 0
    ensures Yields(rows, date, limit, r)
    ensures r == Err(NoRecords) <==> rows == []
  {
    hide MapRow, Less, Consistent, Top, Conflicts;
    var mapped: seq<Entry> := [];
    for index := 0 to |rows|
      invariant Maps(rows[..index], date, mapped)
    {
      var entry := MapRow(rows[index], date);
      if entry.None? {
        return Err(BadRow);
      }
      mapped := mapped + [entry.value];
    }
    assert rows[..|rows|] == rows;
    var unique := DropDuplicates(mapped);
    if unique.Err? {
      return Err(unique.error);
    }
    var records := Sort(Less, unique.value);
    SortedIsTop(mapped, unique.value, limit);
    records := Cut(records, limit);
    TopIsEmpty(mapped, limit, records);
    if records == [] {
      return Err(NoRecords);
    }
    r := Ok(records);
  }

  lemma TopIsEmpty(entries: seq<Entry>, limit: nat, top: seq<Entry>)
    requires limit > 0 && Top(entries, limit, top)
    ensures top == [] <==> entries == []
  {
    hide Less;
    assert entries != [] ==> entries[0] in entries;
    assert top != [] ==> top[0] in top;
  }

  /** One entry for each identity, in order of first appearance. */
  predicate Deduplicated(entries: seq<Entry>, records: seq<Entry>) {
    && (forall x | x in records :: x in entries) && (forall x | x in entries :: x in records)
    && (forall i, j | 0 <= i < j < |records| :: records[i].id != records[j].id)
  }

  method DropDuplicates(mapped: seq<Entry>) returns (r: Result<seq<Entry>, Error>)
    ensures r.Ok? <==> Consistent(mapped)
    ensures r.Ok? ==> Deduplicated(mapped, r.value)
    ensures r.Err? ==> r.error.ConflictingDuplicate? && Conflicts(mapped, r.error.id)
  {
    var records: seq<Entry>, positions: map<string, nat> := [], map[];
    for index := 0 to |mapped|
      invariant forall x | x in records :: x in mapped[..index]
      invariant forall x | x in mapped[..index] :: x in records
      invariant forall i | 0 <= i < |records| :: records[i].id in positions && positions[records[i].id] == i
      invariant forall id | id in positions :: positions[id] < |records| && records[positions[id]].id == id
    {
      var record := mapped[index];
      assert mapped[..index + 1] == mapped[..index] + [record];
      if record.id in positions {
        var known := records[positions[record.id]];
        assert known in records && known in mapped && record in mapped;
        if known == record {
          continue;
        }
        return Err(ConflictingDuplicate(record.id));
      }
      positions := positions[record.id := |records|];
      records := records + [record];
    }
    assert mapped[..|mapped|] == mapped;
    forall x, y | x in mapped && y in mapped && x.id == y.id ensures x == y {
      assert x in records && y in records;
      var i :| 0 <= i < |records| && records[i] == x;
      var j :| 0 <= j < |records| && records[j] == y;
    }
    r := Ok(records);
  }

  lemma SortedIsTop(entries: seq<Entry>, unique: seq<Entry>, limit: nat)
    requires Deduplicated(entries, unique)
    ensures var sorted := Sort(Less, unique);
            Top(entries, limit, Cut(sorted, limit))
  {
    hide Less, Sort, TotalOn;
    var sorted := Sort(Less, unique);
    SortKeepsElements(Less, unique);
    SameElements(sorted, unique);
    UniqueIsTotal(entries, unique);
    SortAscendsStrictly(Less, unique);
    CutIsTop(entries, sorted, limit);
  }

  lemma UniqueIsTotal(entries: seq<Entry>, unique: seq<Entry>)
    requires Deduplicated(entries, unique)
    ensures TotalOn(Less, unique) && NoRepeats(unique)
  {
    hide Less;
    forall x, y | x in unique && y in unique
      ensures (x == y <==> !Less(x, y) && !Less(y, x)) && !(Less(x, y) && Less(y, x))
    {
      LessIsTotal(x, y);
      var i :| 0 <= i < |unique| && unique[i] == x;
      var j :| 0 <= j < |unique| && unique[j] == y;
    }
    forall x, y, z | x in unique && y in unique && z in unique && Less(x, y) && Less(y, z) ensures Less(x, z) {
      LessIsTransitive(x, y, z);
    }
  }

  lemma CutIsTop(entries: seq<Entry>, sorted: seq<Entry>, limit: nat)
    requires (forall x | x in sorted :: x in entries) && (forall x | x in entries :: x in sorted)
    requires forall i, j | 0 <= i < j < |sorted| :: Less(sorted[i], sorted[j])
    ensures Top(entries, limit, Cut(sorted, limit))
  {
    hide Less;
    if |sorted| > limit {
      var top := sorted[..limit];
      assert forall i | 0 <= i < limit :: sorted[i] in top;
      forall x | x in entries && x !in top ensures forall y | y in top :: Less(y, x) {
        var m :| 0 <= m < |sorted| && sorted[m] == x;
      }
    }
  }

  // ---- What the parts mean --------------------------------------------------------------------------------

  /** The first entry is the one to list: its net amount is known if the other's is, and not smaller; if they are equal,
      Shanghai comes before Shenzhen and Shenzhen before Beijing; then the smaller code, then the smaller id. */
  predicate ListedFirst(y: Entry, x: Entry) {
    && (x.net.Some? ==> y.net.Some? && y.net.value >= x.net.value)
    && (x.net == y.net ==> (y.exchange == Beijing ==> x.exchange == Beijing) && (x.exchange == Shanghai ==> y.exchange == Shanghai))
    && (x.net == y.net && x.exchange == y.exchange && x.code != y.code ==> Before(y.code, x.code))
    && (x.net == y.net && x.exchange == y.exchange && x.code == y.code ==> Before(y.id, x.id))
  }

  lemma LessListsFirst(y: Entry, x: Entry)
    requires Less(y, x)
    ensures ListedFirst(y, x)
  {
    hide Before;
    BeforeIsTotal(y.code, y.code);
  }

  /** The list goes from first to last, leaves out an entry only if it is full, and then only behind those it lists. */
  lemma TopListsTheGreatest(entries: seq<Entry>, limit: nat, top: seq<Entry>)
    requires Top(entries, limit, top)
    ensures |top| <= limit && forall x | x in top :: x in entries
    ensures forall i, j | 0 <= i < j < |top| :: ListedFirst(top[i], top[j])
    ensures forall x, y | x in entries && x !in top && y in top :: |top| == limit && ListedFirst(y, x)
    ensures |top| < limit ==> forall x | x in entries :: x in top
  {
    hide Less, ListedFirst;
    forall x, y | Less(y, x) ensures ListedFirst(y, x) {
      LessListsFirst(y, x);
    }
  }

  /** The rows map exactly if each is of the date and decodes, and they map to what they decode to. */
  lemma RowsMapToTheirEntries(rows: seq<Row>, date: string, entries: seq<Entry>)
    ensures Maps(rows, date, entries)
            <==> |entries| == |rows|
                 && forall i | 0 <= i < |rows| :: rows[i].date == Some(date) && rows[i].entry == Some(entries[i])
    ensures SomeRowFails(rows, date)
            <==> exists i :: 0 <= i < |rows| && (rows[i].date != Some(date) || rows[i].entry == None)
  {
    forall i | 0 <= i < |rows|
      ensures MapRow(rows[i], date).None? <==> rows[i].date != Some(date) || rows[i].entry == None
      ensures forall e :: MapRow(rows[i], date) == Some(e) <==> rows[i].date == Some(date) && rows[i].entry == Some(e)
    {
    }
  }

  /** Entries are consistent exactly if no identity is in conflict. */
  lemma ConsistencyIsNoConflict(entries: seq<Entry>)
    ensures Consistent(entries) <==> forall id :: !Conflicts(entries, id)
  {
    hide Conflicts;
    forall x, y | x in entries && y in entries && x.id == y.id && x != y ensures Conflicts(entries, x.id) {
      TheyConflict(entries, x, y);
    }
    forall id | Conflicts(entries, id) ensures !Consistent(entries) {
      ConflictsAreInconsistent(entries, id);
    }
  }

  lemma TheyConflict(entries: seq<Entry>, x: Entry, y: Entry)
    requires x in entries && y in entries && x.id == y.id && x != y
    ensures Conflicts(entries, x.id)
  {
  }

  // ---- Order of the source rows ----------------------------------------------------------------------------

  predicate SameVerdict(r: Result<seq<Entry>, Error>, r': Result<seq<Entry>, Error>) {
    r == r' || (r.Err? && r'.Err? && r.error.ConflictingDuplicate? && r'.error.ConflictingDuplicate?)
  }

  /** The rows in another order call for the same: the same list, or the same kind of failure. */
  lemma RowOrderIsIrrelevant(
    rows: seq<Row>, others: seq<Row>, date: string, limit: nat, r: Result<seq<Entry>, Error>, r': Result<seq<Entry>, Error>
  )
    requires multiset(rows) == multiset(others) && limit > 0
    requires Yields(rows, date, limit, r) && Yields(others, date, limit, r')
    ensures SameVerdict(r, r')
  {
    hide MapRow, Maps, Consistent, Top, Conflicts, SomeRowFails;
    SameElements(rows, others);
    FailuresIgnoreOrder(rows, others, date);
    if MapsSome(r) && MapsSome(r') {
      var entries :| Maps(rows, date, entries) && Explains(entries, limit, r);
      var entries' :| Maps(others, date, entries') && Explains(entries', limit, r');
      EntriesDecide(rows, others, date, limit, entries, entries', r, r');
    }
    MappedRowsDoNotFail(rows, date);
    MappedRowsDoNotFail(others, date);
  }

  /** The outcome is about entries, not about a row or the lack of rows. */
  predicate MapsSome(r: Result<seq<Entry>, Error>) {
    r.Ok? || r.error.ConflictingDuplicate?
  }

  predicate Explains(entries: seq<Entry>, limit: nat, r: Result<seq<Entry>, Error>)
    requires MapsSome(r)
  {
    match r
    case Ok(top) => Consistent(entries) && Top(entries, limit, top)
    case Err(error) => Conflicts(entries, error.id)
  }

  lemma EntriesDecide(
    rows: seq<Row>, others: seq<Row>, date: string, limit: nat, entries: seq<Entry>, entries': seq<Entry>,
    r: Result<seq<Entry>, Error>, r': Result<seq<Entry>, Error>
  )
    requires multiset(rows) == multiset(others) && MapsSome(r) && MapsSome(r')
    requires Maps(rows, date, entries) && Maps(others, date, entries')
    requires Explains(entries, limit, r) && Explains(entries', limit, r')
    ensures SameVerdict(r, r')
  {
    hide MapRow, Maps, Consistent, Top, Conflicts;
    SameEntries(rows, others, date, entries, entries');
    SameEntries(others, rows, date, entries', entries);
    ConsistencyIsOfTheSet(entries, entries');
    ConsistencyIsOfTheSet(entries', entries);
    if r.Ok? && r'.Ok? {
      TopIsUnique(entries, entries', limit, r.value, r'.value);
    }
    if r.Err? {
      ConflictsAreInconsistent(entries, r.error.id);
    }
    if r'.Err? {
      ConflictsAreInconsistent(entries', r'.error.id);
    }
  }

  lemma ConflictsAreInconsistent(entries: seq<Entry>, id: string)
    ensures Conflicts(entries, id) ==> !Consistent(entries)
  {
  }

  lemma MappedRowsDoNotFail(rows: seq<Row>, date: string)
    ensures forall entries | Maps(rows, date, entries) :: !SomeRowFails(rows, date) && |entries| == |rows|
    ensures forall entries, id | Maps(rows, date, entries) && Conflicts(entries, id) :: rows != []
    ensures rows == [] ==> !SomeRowFails(rows, date)
  {
    hide MapRow;
  }

  lemma ConsistencyIsOfTheSet(entries: seq<Entry>, entries': seq<Entry>)
    requires forall x | x in entries' :: x in entries
    ensures Consistent(entries) ==> Consistent(entries')
  {
  }

  lemma SameEntries(rows: seq<Row>, others: seq<Row>, date: string, entries: seq<Entry>, entries': seq<Entry>)
    requires multiset(rows) == multiset(others)
    requires Maps(rows, date, entries) && Maps(others, date, entries')
    ensures forall x | x in entries :: x in entries'
  {
    hide MapRow;
    SameElements(rows, others);
    forall x | x in entries ensures x in entries' {
      var i :| 0 <= i < |entries| && entries[i] == x;
      assert rows[i] in others;
      var j :| 0 <= j < |others| && others[j] == rows[i];
      assert entries'[j] == x;
    }
  }

  /** Rows map, or fail to, whatever their order. */
  lemma FailuresIgnoreOrder(rows: seq<Row>, others: seq<Row>, date: string)
    requires multiset(rows) == multiset(others)
    ensures SomeRowFails(rows, date) <==> SomeRowFails(others, date)
  {
    hide MapRow;
    SameElements(rows, others);
    if i :| 0 <= i < |rows| && MapRow(rows[i], date).None? {
      assert rows[i] in others;
    }
    if i :| 0 <= i < |others| && MapRow(others[i], date).None? {
      assert others[i] in rows;
    }
  }
}
