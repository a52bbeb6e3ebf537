/** The organization map with a time to live: read through a cache that only an accepted document replaces. */
module OrganizationCache {
  import opened Exchanges
  import opened Texts
  import opened Validated
  import opened Wrappers

  const MAX_ROWS := 10_000

  datatype Instrument = Instrument(exchange: Exchange, code: string, equity: bool)

  datatype WireRow = WireRow(code: Option<string>, orgId: Option<string>)

  /** What the mapping request brings back: an error, or a decoded document whose list may be absent. */
  datatype Reply = Failed(error: Error) | Document(stockList: Option<seq<WireRow>>)

  /** `Core` stands for a refusal by a constructor of the market core. */
  datatype Error = InvalidRequest | Unsupported | Transport | Decode | Schema | Core

  // ---- Documents ------------------------------------------------------------------------------------

  predicate SixDigits(code: string) {
    |code| == 6 && AllDigits(code)
  }

  /** The code and the identity a row gives, if it is well formed. */
  function RowEntry(row: WireRow): Option<(string, string)> {
    match row
    case WireRow(Some(code), Some(orgId)) =>
      (match (NonBlank(code), NonBlank(orgId))
       case (Some(c), Some(id)) => if SixDigits(c) then Some((c, id)) else None
       case _ => None)
    case _ => None
  }

  predicate Gives(rows: seq<WireRow>, code: string, orgId: string) {
    exists r | r in rows :: RowEntry(r) == Some((code, orgId))
  }

  /** Within bounds, every row well formed, and all rows for one code agree. */
  predicate Acceptable(rows: seq<WireRow>) {
    && 1 <= |rows| <= MAX_ROWS
    && (forall r | r in rows :: RowEntry(r).Some?)
    && (forall r, s | r in rows && s in rows && RowEntry(r).value.0 == RowEntry(s).value.0 :: RowEntry(r) == RowEntry(s))
  }

  /** The index holds exactly what the rows give. */
  ghost predicate Indexes(byCode: map<string, string>, rows: seq<WireRow>) {
    && (forall c | c in byCode :: Gives(rows, c, byCode[c]))
    && (forall c, id | Gives(rows, c, id) :: c in byCode && byCode[c] == id)
  }

  method IndexRows(rows: seq<WireRow>) returns (r: Result<map<string, string>, Error>)
    ensures r.Ok? <==> Acceptable(rows)
    ensures r.Ok? ==> Indexes(r.value, rows)
    ensures r.Err? ==> r.error == Schema
  {
    hide RowEntry;
    if rows == [] || |rows| > MAX_ROWS {
      return Err(Schema);
    }
    var byCode: map<string, string> := map[];
    for i := 0 to |rows|
      invariant forall r | r in rows[..i] :: RowEntry(r).Some?
      invariant forall r | r in rows[..i] ::
                  RowEntry(r).value.0 in byCode && byCode[RowEntry(r).value.0] == RowEntry(r).value.1
      invariant forall c | c in byCode :: Gives(rows[..i], c, byCode[c])
    {
      hide Gives;
      var entry := RowEntry(rows[i]);
      assert rows[i] in rows && rows[..i + 1] == rows[..i] + [rows[i]];
      if entry.None? {
        return Err(Schema);
      }
      var (code, orgId) := entry.value;
      GivesMore(rows, i, byCode, code, orgId, byCode[code := orgId]);
      if code in byCode && byCode[code] != orgId {
        Conflict(rows, i, code, byCode[code]);
        return Err(Schema);
      }
      byCode := byCode[code := orgId];
    }
    assert rows[..|rows|] == rows;
    r := Ok(byCode);
  }

  lemma GivesMore(
    rows: seq<WireRow>, i: nat, byCode: map<string, string>, code: string, orgId: string, updated: map<string, string>
  )
    requires i < |rows| && RowEntry(rows[i]) == Some((code, orgId)) && updated == byCode[code := orgId]
    requires forall c | c in byCode :: Gives(rows[..i], c, byCode[c])
    ensures forall c | c in updated :: Gives(rows[..i + 1], c, updated[c])
  {
    hide RowEntry;
    var more := rows[..i + 1];
    assert more == rows[..i] + [rows[i]] && rows[i] in more;
    forall c | c in updated ensures Gives(more, c, updated[c]) {
      if c != code {
        var r :| r in rows[..i] && RowEntry(r) == Some((c, byCode[c]));
        assert r in more;
      }
    }
  }

  lemma Conflict(rows: seq<WireRow>, i: nat, code: string, other: string)
    requires i < |rows| && RowEntry(rows[i]).Some? && RowEntry(rows[i]).value.0 == code
    requires RowEntry(rows[i]).value.1 != other && Gives(rows[..i], code, other)
    ensures !Acceptable(rows)
  {
    hide RowEntry;
    var r :| r in rows[..i] && RowEntry(r) == Some((code, other));
    assert r in rows && rows[i] in rows;
  }

  /** What a lookup returns for an identity it has found. */
  function Mapping(orgId: string): Result<string, Error> {
    match NonEmptyText(orgId)
    case None => Err(Core)
    case Some(text) => Ok(text)
  }

  /** Identities given by a document are trimmed, so mapping one keeps it or refuses it. */
  lemma MappingKeeps(rows: seq<WireRow>, code: string, orgId: string)
    requires Gives(rows, code, orgId)
    ensures Mapping(orgId).Ok? ==> Mapping(orgId).value == orgId
  {
    hide Trim, Printable, SixDigits;
    var r :| r in rows && RowEntry(r) == Some((code, orgId));
    TrimIsIdempotent(r.orgId.value);
  }

  // ---- The cache ------------------------------------------------------------------------------------------

  datatype Cached = Cached(fetchedAt: nat, byCode: map<string, string>)

  /** A cached document answers while its age is below the time to live. */
  function Lookup(cache: Option<Cached>, code: string, now: nat, ttl: nat): Option<string> {
    if cache.Some? && now < cache.value.fetchedAt + ttl && code in cache.value.byCode
    then Some(cache.value.byCode[code]) else None
  }

  function ExchangeOf(code: string): Option<Exchange>
    requires SixDigits(code)
  {
    if code[0] == '6' then Some(Shanghai)
    else if code[0] == '0' || code[0] == '3' then Some(Shenzhen)
    else if code[0] == '4' || code[0] == '8' || code[..3] == "920" then Some(Beijing)
    else None
  }

  function ValidateInstrument(instrument: Instrument): (r: Option<Error>)
    ensures r.None? ==> instrument.equity && SixDigits(instrument.code)
  {
    if !instrument.equity then Some(Unsupported)
    else if !SixDigits(instrument.code) then Some(InvalidRequest)
    else
      match ExchangeOf(instrument.code)
      case None => Some(Unsupported)
      case Some(exchange) => if instrument.exchange != exchange then Some(InvalidRequest) else None
  }

  class CninfoClient {
    const ttl: nat
    var cache: Option<Cached>
    ghost var accepted: seq<WireRow>

    /** The cache indexes the document accepted last. */
    ghost predicate Valid()
      reads this
    {
      cache.Some? ==> Acceptable(accepted) && Indexes(cache.value.byCode, accepted)
    }

    constructor (ttl: nat)
      ensures Valid() && this.ttl == ttl && cache == None
    {
      this.ttl := ttl;
      cache := None;
    }

    method CachedOrgId(code: string, now: nat) returns (orgId: Option<string>)
      requires Valid()
      ensures orgId == Lookup(cache, code, now, ttl)
      ensures orgId.Some? ==> Gives(accepted, code, orgId.value) && now - cache.value.fetchedAt < ttl
    {
      if cache.Some? && now < cache.value.fetchedAt + ttl && code in cache.value.byCode {
        return Some(cache.value.byCode[code]);
      }
      orgId := None;
    }

    /** Replaces the cache by an acceptable document, and otherwise leaves it as it was. */
    method RefreshOrganizationCache(reply: Reply, now: nat) returns (error: Option<Error>)
      requires Valid()
      modifies this
      ensures Valid()
      ensures error.None? <==> reply.Document? && reply.stockList.Some? && Acceptable(reply.stockList.value)
      ensures error.None? ==> accepted == reply.stockList.value && cache.Some? && cache.value.fetchedAt == now
      ensures error.Some? ==> cache == old(cache) && accepted == old(accepted)
      ensures reply.Failed? ==> error == Some(reply.error)
      ensures reply.Document? && error.Some? ==> error == Some(Schema)
    {
      if reply.Failed? {
        return Some(reply.error);
      }
      if reply.stockList.None? {
        return Some(Schema);
      }
      var byCode := IndexRows(reply.stockList.value);
      if byCode.Err? {
        return Some(byCode.error);
      }
      cache := Some(Cached(now, byCode.value));
      accepted := reply.stockList.value;
      error := None;
    }

    /** One lookup: a read, and if that misses one refresh and another read. The clock readings and the reply
        come from outside. */
    method OrganizationMapping(instrument: Instrument, firstRead: nat, reply: Reply, stamp: nat, secondRead: nat)
      returns (r: Result<string, Error>, fetches: nat)
      requires Valid() && firstRead <= stamp <= secondRead
      modifies this
      ensures Valid() && fetches <= 1
      ensures fetches == 0 <==>
                ValidateInstrument(instrument).Some? || Lookup(old(cache), instrument.code, firstRead, ttl).Some?
      ensures fetches == 0 ==>
                && cache == old(cache) && accepted == old(accepted)
                && r == match ValidateInstrument(instrument)
                        case Some(error) => Err(error)
                        case None => Mapping(Lookup(cache, instrument.code, firstRead, ttl).value)
      ensures fetches == 1 ==>
                if reply.Document? && reply.stockList.Some? && Acceptable(reply.stockList.value)
                then accepted == reply.stockList.value && cache.Some? && cache.value.fetchedAt == stamp
                else cache == old(cache) && accepted == old(accepted)
      ensures fetches == 1 ==>
                (r.Ok? <==>
                   && reply.Document? && reply.stockList.Some? && Acceptable(reply.stockList.value)
                   && secondRead - stamp < ttl
                   && exists id :: Gives(reply.stockList.value, instrument.code, id) && Mapping(id).Ok?)
      ensures r.Ok? ==>
                && Gives(accepted, instrument.code, r.value) && cache.Some?
                && (if fetches == 0 then firstRead else secondRead) - cache.value.fetchedAt < ttl
    {
      hide Gives, Acceptable, Mapping, ValidateInstrument;
      fetches := 0;
      var invalid := ValidateInstrument(instrument);
      if invalid.Some? {
        return Err(invalid.value), fetches;
      }
      var orgId := CachedOrgId(instrument.code, firstRead);
      if orgId.Some? {
        MappingKeeps(accepted, instrument.code, orgId.value);
        return Mapping(orgId.value), fetches;
      }
      fetches := 1;
      var error := RefreshOrganizationCache(reply, stamp);
      if error.Some? {
        return Err(error.value), fetches;
      }
      orgId := CachedOrgId(instrument.code, secondRead);
      if orgId.Some? {
        MappingKeeps(accepted, instrument.code, orgId.value);
        return Mapping(orgId.value), fetches;
      }
      r := Err(Unsupported);
    }
  }
}
