/** What organization documents, lookups and stock codes mean, said of their texts and numbers. */
module OrganizationDocuments {
  import opened Decimals
  import opened Exchanges
  import opened OrganizationCache
  import opened TextLaws
  import opened Texts
  import opened Validated
  import opened ValidatedLaws
  import opened Wrappers

  // ---- Documents ------------------------------------------------------------------------------------

  /** The row lists this identity for this code: six digits and a text that is not empty, white space around both aside. */
  ghost predicate Lists(row: WireRow, code: string, orgId: string) {
    && row.code.Some? && IsCore(code, row.code.value) && |code| == 6 && AllDigits(code)
    && row.orgId.Some? && IsCore(orgId, row.orgId.value) && orgId != ""
  }

  lemma EntriesMean(row: WireRow, code: string, orgId: string)
    ensures RowEntry(row) == Some((code, orgId)) <==> Lists(row, code, orgId)
  {
    hide Trim, IsCore;
    if row.code.Some? && row.orgId.Some? {
      CoreMeans(code, row.code.value);
      CoreMeans(orgId, row.orgId.value);
    }
  }

  lemma CoreMeans(t: string, s: string)
    ensures IsCore(t, s) <==> Trim(s) == t
  {
    hide Trim, IsCore;
    TrimMeans(s);
    if IsCore(t, s) {
      CoreIsUnique(t, Trim(s), s);
    }
  }

  /** Each row lists some code, and no two rows list different identities for one code. */
  ghost predicate ListsConsistently(rows: seq<WireRow>) {
    && (forall r | r in rows :: exists code, id :: Lists(r, code, id))
    && (forall r, s, code, id, other | r in rows && s in rows && Lists(r, code, id) && Lists(s, code, other) :: id == other)
  }

  /** Documents are acceptable exactly if they list from one to ten thousand rows, consistently; and they give what they
      list. */
  lemma DocumentsMean(rows: seq<WireRow>, code: string, orgId: string)
    ensures Acceptable(rows) <==> 1 <= |rows| <= 10_000 && ListsConsistently(rows)
    ensures Gives(rows, code, orgId) <==> exists r | r in rows :: Lists(r, code, orgId)
  {
    hide RowEntry, Lists;
    forall row, c, id ensures RowEntry(row) == Some((c, id)) <==> Lists(row, c, id) {
      EntriesMean(row, c, id);
    }
    forall r | RowEntry(r).Some? ensures RowEntry(r) == Some((RowEntry(r).value.0, RowEntry(r).value.1)) {
    }
  }

  // ---- Lookups ----------------------------------------------------------------------------------------

  /** A cached document answers while it is younger than the time to live, for the codes it indexes. */
  lemma LookupsMean(cache: Option<Cached>, code: string, now: nat, ttl: nat, orgId: string)
    ensures Lookup(cache, code, now, ttl) == Some(orgId)
            <==> && cache.Some? && now - cache.value.fetchedAt < ttl
                 && code in cache.value.byCode && cache.value.byCode[code] == orgId
  {
  }

  /** An identity found is returned, without the white space around it, exactly if it is a text the market core accepts. */
  lemma MappingsMean(orgId: string, text: string)
    ensures Mapping(orgId) == Ok(text) <==> IsCore(text, orgId) && 1 <= |text| <= 16384 && IsPrintable(text)
  {
    hide NonEmptyText, IsCore;
    TextsMean(orgId, text);
  }

  // ---- Stock codes --------------------------------------------------------------------------------------

  /** The exchange of a stock code, by the number it shows. */
  predicate TradesOn(number: nat, exchange: Exchange) {
    match exchange
    case Shanghai => 600_000 <= number <= 699_999
    case Shenzhen => number <= 99_999 || 300_000 <= number <= 399_999
    case Beijing => 400_000 <= number <= 499_999 || 800_000 <= number <= 899_999 || 920_000 <= number <= 920_999
  }

  lemma {:induction false} LeadingDigits(code: string)
    requires |code| == 6 && AllDigits(code)
    ensures var a, b, c := DigitValue(code[0]), DigitValue(code[1]), DigitValue(code[2]);
            100_000 * a + 10_000 * b + 1_000 * c <= Value(code) <= 100_000 * a + 10_000 * b + 1_000 * c + 999
  {
    hide Value;
    assert code[..6] == code && code[..0] == [];
    for k := 0 to 6
      invariant AllDigits(code[..k])
      invariant k >= 1 ==> Value(code[..1]) == DigitValue(code[0])
      invariant k >= 2 ==> Value(code[..2]) == 10 * DigitValue(code[0]) + DigitValue(code[1])
      invariant k >= 3 ==> Value(code[..3]) == 100 * DigitValue(code[0]) + 10 * DigitValue(code[1]) + DigitValue(code[2])
      invariant k >= 4 ==> 10 * Value(code[..3]) <= Value(code[..4]) <= 10 * Value(code[..3]) + 9
      invariant k >= 5 ==> 10 * Value(code[..4]) <= Value(code[..5]) <= 10 * Value(code[..4]) + 9
      invariant k >= 6 ==> 10 * Value(code[..5]) <= Value(code[..6]) <= 10 * Value(code[..5]) + 9
    {
      NextDigit(code, k);
    }
  }

  lemma NextDigit(code: string, k: nat)
    requires k < |code| && AllDigits(code)
    ensures AllDigits(code[..k + 1]) && Value(code[..k + 1]) == 10 * Value(code[..k]) + DigitValue(code[k])
    ensures Value(code[..0]) == 0
  {
    assert code[..k + 1][..k] == code[..k];
  }

  lemma ExchangesMean(code: string, exchange: Exchange)
    requires |code| == 6 && AllDigits(code)
    ensures ExchangeOf(code) == Some(exchange) <==> TradesOn(Value(code), exchange)
  {
    hide Value;
    LeadingDigits(code);
    var a, b, c := DigitValue(code[0]), DigitValue(code[1]), DigitValue(code[2]);
    assert code[..3] == "920" <==> a == 9 && b == 2 && c == 0 by {
      assert code[..3] == [code[0], code[1], code[2]];
    }
  }

  /** An instrument is looked up exactly if it is an equity whose code has six digits and shows a number of its exchange;
      it is unsupported if it is no equity or shows a number of no exchange, and invalid otherwise. */
  lemma InstrumentsMean(instrument: Instrument)
    ensures var (e, code) := (instrument.exchange, instrument.code);
            && (ValidateInstrument(instrument).None?
                <==> instrument.equity && |code| == 6 && AllDigits(code) && TradesOn(Value(code), e))
            && (ValidateInstrument(instrument) == Some(Unsupported)
                <==> !instrument.equity
                     || (|code| == 6 && AllDigits(code) && forall other: Exchange :: !TradesOn(Value(code), other)))
    ensures ValidateInstrument(instrument).Some? ==> ValidateInstrument(instrument).value in {Unsupported, InvalidRequest}
  {
    hide Value, ExchangeOf, TradesOn;
    var code := instrument.code;
    if SixDigits(code) {
      forall other: Exchange ensures ExchangeOf(code) == Some(other) <==> TradesOn(Value(code), other) {
        ExchangesMean(code, other);
      }
    }
  }
}
