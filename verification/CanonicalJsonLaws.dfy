/** The canonical encoding is uniquely decodable, writes members in key order, and is blind to the order they came in:
    two values have the same bytes exactly when they mean the same JSON value. */
module CanonicalJsonLaws {
  import opened Wrappers
  import opened Texts
  import opened Decimals
  import opened Sorting
  import opened CanonicalJson

  /** What a JSON text means: an object is an unordered collection of members (section 4 of
      RFC 8259). */
  datatype Meaning =
    | MNull
    | MBool(b: bool)
    | MNumber(text: string)
    | MString(text: string)
    | MArray(items: seq<Meaning>)
    | MObject(members: map<string, Meaning>)

  function MeaningOf(v: Json): Meaning
    decreases v, 0
  {
    match v
    case Null => MNull
    case Bool(b) => MBool(b)
    case Number(text) => MNumber(text)
    case String(text) => MString(text)
    case Array(items) => MArray(MeaningOfItems(items))
    case Object(members) => MObject(MeaningOfMembers(members))
  }

  function MeaningOfItems(items: seq<Json>): (r: seq<Meaning>)
    ensures |r| == |items| && forall i | 0 <= i < |items| :: r[i] == MeaningOf(items[i])
    decreases items, 1
  {
    if items == [] then [] else [MeaningOf(items[0])] + MeaningOfItems(items[1..])
  }

  function MeaningOfMembers(members: seq<Member>): map<string, Meaning>
    decreases members, 1
  {
    if members == [] then map[]
    else MeaningOfMembers(members[1..])[members[0].key := MeaningOf(members[0].value)]
  }

  // ---- A decoder -----------------------------------------------------------------------------------

  /** The payload of a length-prefixed field with this tag, and what follows it. */
  function ReadPrefixed(tag: char, s: string): (r: Option<(string, string)>)
    ensures r.Some? ==> |r.value.1| < |s|
  {
    if s == [] || s[0] != tag then None
    else
      match SplitOnce(s[1..], ':')
      case None => None
      case Some((length, after)) =>
        if length == [] || !AllDigits(length) then None
        else
          var n := Value(length);
          if n + 1 > |after| || after[n] != ';' then None
          else
            assert |s| == 1 + |length| + 1 + |after|;
            Some((after[..n], after[n + 1..]))
  }

  function ReadCount(tag: char, s: string): (r: Option<(nat, string)>)
    ensures r.Some? ==> |r.value.1| < |s|
  {
    match ReadPrefixed(tag, s)
    case None => None
    case Some((text, rest)) => if text == [] || !AllDigits(text) then None else Some((Value(text), rest))
  }

  /** Reads one value from the front of `s`, members in the order they stand there; the rest is returned untouched. */
  function Decode(s: string): (r: Option<(Json, string)>)
    ensures r.Some? ==> |r.value.1| < |s|
    decreases |s|, 0
  {
    if s == [] then None
    else if s[0] == 'n' then Some((Null, s[1..]))
    else if s[0] == 'b' then (if |s| < 2 then None else Some((Bool(s[1] == '\U{1}'), s[2..])))
    else if s[0] == 'd' then
      (match ReadPrefixed('d', s) case None => None case Some((text, rest)) => Some((Number(text), rest)))
    else if s[0] == 's' then
      (match ReadPrefixed('s', s) case None => None case Some((text, rest)) => Some((String(text), rest)))
    else if s[0] == 'a' then
      match ReadCount('a', s)
      case None => None
      case Some((n, rest)) =>
        (match DecodeItems(n, rest) case None => None case Some((items, end)) => Some((Array(items), end)))
    else
      match ReadCount('o', s)
      case None => None
      case Some((n, rest)) =>
        (match DecodeMembers(n, rest) case None => None case Some((members, end)) => Some((Object(members), end)))
  }

  function DecodeItems(n: nat, s: string): (r: Option<(seq<Json>, string)>)
    ensures r.Some? ==> |r.value.1| <= |s|
    decreases |s|, n + 1
  {
    if n == 0 then Some(([], s))
    else
      match Decode(s)
      case None => None
      case Some((item, rest)) =>
        match DecodeItems(n - 1, rest)
        case None => None
        case Some((items, end)) => Some(([item] + items, end))
  }

  function DecodeMembers(n: nat, s: string): (r: Option<(seq<Member>, string)>)
    ensures r.Some? ==> |r.value.1| <= |s|
    decreases |s|, n + 1
  {
    if n == 0 then Some(([], s))
    else
      match ReadPrefixed('k', s)
      case None => None
      case Some((key, afterKey)) =>
        match Decode(afterKey)
        case None => None
        case Some((value, rest)) =>
          match DecodeMembers(n - 1, rest)
          case None => None
          case Some((members, end)) => Some(([Member(key, value)] + members, end))
  }

  // ---- Decoding inverts encoding ----------------------------------------------------------------

  lemma PrefixedRoundTrip(tag: char, text: string, rest: string)
    ensures ReadPrefixed(tag, LengthPrefixed(tag, text) + rest) == Some((text, rest))
  {
    hide SplitOnce, Numeral, Value;
    var s := LengthPrefixed(tag, text) + rest;
    var after := text + ";" + rest;
    assert s == [tag] + Numeral(|text|) + ":" + after;
    assert s[1..] == Numeral(|text|) + ":" + after;
    NoColon(Numeral(|text|));
    SplitOnceAt(Numeral(|text|), ':', after);
    ValueOfNumeral(|text|);
    assert after[..|text|] == text && after[|text|] == ';' && after[|text| + 1..] == rest;
  }

  lemma NoColon(digits: string)
    requires AllDigits(digits)
    ensures ':' !in digits
  {
  }

  lemma CountRoundTrip(tag: char, n: nat, rest: string)
    ensures ReadCount(tag, LengthPrefixed(tag, Numeral(n)) + rest) == Some((n, rest))
  {
    hide LengthPrefixed, ReadPrefixed, Numeral, Value;
    PrefixedRoundTrip(tag, Numeral(n), rest);
    ValueOfNumeral(n);
  }

  lemma PrefixedStarts(tag: char, text: string, rest: string)
    ensures LengthPrefixed(tag, text) + rest != [] && (LengthPrefixed(tag, text) + rest)[0] == tag
  {
    hide Numeral;
    assert (LengthPrefixed(tag, text) + rest)[0] == LengthPrefixed(tag, text)[0];
  }

  lemma {:induction false} PlainRoundTrip(v: Json, rest: string)
    ensures Decode(Plain(v) + rest) == Some((v, rest))
    decreases v, 0
  {
    hide LengthPrefixed, ReadPrefixed, ReadCount, Numeral, PlainItems, PlainMembers, DecodeItems, DecodeMembers;
    var s := Plain(v) + rest;
    match v
    case Null => assert s[1..] == rest;
    case Bool(b) => assert s[2..] == rest;
    case Number(text) =>
      PrefixedRoundTrip('d', text, rest);
      PrefixedStarts('d', text, rest);
    case String(text) =>
      PrefixedRoundTrip('s', text, rest);
      PrefixedStarts('s', text, rest);
    case Array(items) =>
      assert s == LengthPrefixed('a', Numeral(|items|)) + (PlainItems(items) + rest);
      CountRoundTrip('a', |items|, PlainItems(items) + rest);
      PrefixedStarts('a', Numeral(|items|), PlainItems(items) + rest);
      ItemsRoundTrip(items, rest);
    case Object(members) =>
      assert s == LengthPrefixed('o', Numeral(|members|)) + (PlainMembers(members) + rest);
      CountRoundTrip('o', |members|, PlainMembers(members) + rest);
      PrefixedStarts('o', Numeral(|members|), PlainMembers(members) + rest);
      MembersRoundTrip(members, rest);
  }

  lemma {:induction false} ItemsRoundTrip(items: seq<Json>, rest: string)
    ensures DecodeItems(|items|, PlainItems(items) + rest) == Some((items, rest))
    decreases items, 1
  {
    hide Decode, Plain;
    if items == [] {
      assert PlainItems(items) + rest == rest;
    } else {
      var tail := PlainItems(items[1..]) + rest;
      assert PlainItems(items) + rest == Plain(items[0]) + tail;
      PlainRoundTrip(items[0], tail);
      ItemsRoundTrip(items[1..], rest);
      assert items == [items[0]] + items[1..];
    }
  }

  lemma {:induction false} MembersRoundTrip(members: seq<Member>, rest: string)
    ensures DecodeMembers(|members|, PlainMembers(members) + rest) == Some((members, rest))
    decreases members, 1
  {
    hide Decode, Plain, LengthPrefixed, ReadPrefixed;
    if members == [] {
      assert PlainMembers(members) + rest == rest;
    } else {
      var tail := PlainMembers(members[1..]) + rest;
      assert PlainMembers(members) + rest == LengthPrefixed('k', members[0].key) + (Plain(members[0].value) + tail);
      PrefixedRoundTrip('k', members[0].key, Plain(members[0].value) + tail);
      PlainRoundTrip(members[0].value, tail);
      MembersRoundTrip(members[1..], rest);
      assert members == [members[0]] + members[1..];
    }
  }

  // ---- The canonical form keeps the meaning ---------------------------------------------------

  predicate HasMember(members: seq<Member>, key: string, meaning: Meaning) {
    exists i | 0 <= i < |members| :: members[i].key == key && MeaningOf(members[i].value) == meaning
  }

  /** The map of an object holds exactly its members. */
  lemma {:induction false} MapHoldsMembers(members: seq<Member>, key: string, meaning: Meaning)
    requires DistinctKeys(members)
    ensures (key in MeaningOfMembers(members) && MeaningOfMembers(members)[key] == meaning)
            <==> HasMember(members, key, meaning)
    ensures key in MeaningOfMembers(members) <==> exists i | 0 <= i < |members| :: members[i].key == key
  {
    hide MeaningOf;
    if members != [] {
      var tail := members[1..];
      MapHoldsMembers(tail, key, meaning);
      assert forall i | 0 < i < |members| :: members[i] == tail[i - 1];
    }
  }

  lemma SameMap(a: seq<Member>, b: seq<Member>)
    requires DistinctKeys(a) && DistinctKeys(b)
    requires forall i | 0 <= i < |a| :: HasMember(b, a[i].key, MeaningOf(a[i].value))
    requires forall i | 0 <= i < |b| :: HasMember(a, b[i].key, MeaningOf(b[i].value))
    ensures MeaningOfMembers(a) == MeaningOfMembers(b)
  {
    hide MeaningOf, MeaningOfMembers, DistinctKeys;
    var ma, mb := MeaningOfMembers(a), MeaningOfMembers(b);
    forall key | key in ma ensures key in mb && mb[key] == ma[key] {
      MapHoldsMembers(a, key, ma[key]);
      MapHoldsMembers(b, key, ma[key]);
    }
    forall key | key in mb ensures key in ma {
      MapHoldsMembers(b, key, mb[key]);
      MapHoldsMembers(a, key, mb[key]);
    }
  }

  lemma DistinctKeysPermute(a: seq<Member>, b: seq<Member>)
    requires multiset(a) == multiset(b) && DistinctKeys(a)
    ensures DistinctKeys(b)
  {
    SameElements(a, b);
    assert NoRepeats(a);
    NoRepeatsInPermutation(a, b);
    forall i, j | 0 <= i < j < |b| ensures b[i].key != b[j].key {
      assert b[i] in a && b[j] in a;
    }
  }

  lemma KeysOrderMembers(members: seq<Member>)
    requires DistinctKeys(members)
    ensures TotalOn(ByKey, members)
  {
    hide Before;
    forall x, y | x in members && y in members
      ensures x == y <==> !ByKey(x, y) && !ByKey(y, x)
      ensures !(ByKey(x, y) && ByKey(y, x))
    {
      BeforeIsTotal(x.key, y.key);
    }
    forall x, y, z | x in members && y in members && z in members && ByKey(x, y) && ByKey(y, z) ensures ByKey(x, z) {
      BeforeIsTransitive(x.key, y.key, z.key);
    }
  }

  /** Ordering the members changes nothing of what the value means. */
  lemma {:induction false} CanonicalKeepsMeaning(v: Json)
    requires WellFormed(v)
    ensures MeaningOf(Canonical(v)) == MeaningOf(v)
    decreases v
  {
    match v
    case Array(items) =>
      forall i | 0 <= i < |items| ensures MeaningOf(Canonical(items[i])) == MeaningOf(items[i]) {
        CanonicalKeepsMeaning(items[i]);
      }
      assert MeaningOfItems(CanonicalItems(items)) == MeaningOfItems(items);
    case Object(members) =>
      forall i | 0 <= i < |members| ensures MeaningOf(Canonical(members[i].value)) == MeaningOf(members[i].value) {
        CanonicalKeepsMeaning(members[i].value);
      }
      SortedMembersMeanTheSame(members);
    case _ =>
  }

  lemma SortedMembersMeanTheSame(members: seq<Member>)
    requires DistinctKeys(members)
    requires forall i | 0 <= i < |members| :: MeaningOf(Canonical(members[i].value)) == MeaningOf(members[i].value)
    ensures MeaningOfMembers(Sort(ByKey, CanonicalMembers(members))) == MeaningOfMembers(members)
  {
    hide MeaningOf, MeaningOfMembers, Canonical, Sort, CanonicalMembers;
    var plain := CanonicalMembers(members);
    var sorted := Sort(ByKey, plain);
    assert DistinctKeys(plain);
    hide DistinctKeys;
    SortKeepsElements(ByKey, plain);
    DistinctKeysPermute(plain, sorted);
    SameElements(sorted, plain);
    forall i | 0 <= i < |members| ensures HasMember(sorted, members[i].key, MeaningOf(members[i].value)) {
      assert plain[i] in sorted;
    }
    forall i | 0 <= i < |sorted| ensures HasMember(members, sorted[i].key, MeaningOf(sorted[i].value)) {
      assert sorted[i] in plain;
    }
    SameMap(sorted, members);
  }

  /** Equal meanings have one canonical form. */
  lemma {:induction false} MeaningFixesCanonical(v: Json, w: Json)
    requires WellFormed(v) && WellFormed(w) && MeaningOf(v) == MeaningOf(w)
    ensures Canonical(v) == Canonical(w)
    decreases v
  {
    match (v, w)
    case (Array(a), Array(b)) =>
      assert |a| == |b|;
      forall i | 0 <= i < |a| ensures Canonical(a[i]) == Canonical(b[i]) {
        assert MeaningOfItems(a)[i] == MeaningOfItems(b)[i];
        MeaningFixesCanonical(a[i], b[i]);
      }
      assert CanonicalItems(a) == CanonicalItems(b);
    case (Object(a), Object(b)) =>
      forall i, j | 0 <= i < |a| && 0 <= j < |b| && MeaningOf(a[i].value) == MeaningOf(b[j].value)
        ensures Canonical(a[i].value) == Canonical(b[j].value)
      {
        MeaningFixesCanonical(a[i].value, b[j].value);
      }
      SameMembers(a, b);
    case _ =>
  }

  lemma SameMembers(a: seq<Member>, b: seq<Member>)
    requires DistinctKeys(a) && DistinctKeys(b) && MeaningOfMembers(a) == MeaningOfMembers(b)
    requires forall i, j | 0 <= i < |a| && 0 <= j < |b| && MeaningOf(a[i].value) == MeaningOf(b[j].value) ::
               Canonical(a[i].value) == Canonical(b[j].value)
    ensures Sort(ByKey, CanonicalMembers(a)) == Sort(ByKey, CanonicalMembers(b))
  {
    hide MeaningOf, MeaningOfMembers, Canonical, Sort;
    var ca, cb := CanonicalMembers(a), CanonicalMembers(b);
    forall i | 0 <= i < |a| ensures ca[i] in cb {
      var j := Counterpart(a, b, i);
      assert cb[j] == ca[i];
    }
    forall j | 0 <= j < |b| ensures cb[j] in ca {
      var i := Counterpart(b, a, j);
      assert ca[i] == cb[j];
    }
    assert NoRepeats(ca) && NoRepeats(cb);
    KeysOrderMembers(ca);
    SortIgnoresOrder(ByKey, ca, cb);
  }

  lemma Counterpart(a: seq<Member>, b: seq<Member>, i: nat) returns (j: nat)
    requires DistinctKeys(a) && DistinctKeys(b) && MeaningOfMembers(a) == MeaningOfMembers(b) && i < |a|
    ensures j < |b| && b[j].key == a[i].key && MeaningOf(b[j].value) == MeaningOf(a[i].value)
  {
    hide MeaningOf, MeaningOfMembers, DistinctKeys;
    var meaning := MeaningOf(a[i].value);
    assert HasMember(a, a[i].key, meaning);
    MapHoldsMembers(a, a[i].key, meaning);
    MapHoldsMembers(b, a[i].key, meaning);
    j :| 0 <= j < |b| && b[j].key == a[i].key && MeaningOf(b[j].value) == meaning;
  }

  // ---- The canonical form is in key order ----------------------------------------------------------

  /** In every object, at any depth, each key stands before the keys that follow it. */
  predicate KeysAscend(v: Json) {
    match v
    case Array(items) => forall i | 0 <= i < |items| :: KeysAscend(items[i])
    case Object(members) => MembersAscend(members) && forall i | 0 <= i < |members| :: KeysAscend(members[i].value)
    case _ => true
  }

  predicate MembersAscend(members: seq<Member>) {
    forall i, j | 0 <= i < j < |members| :: Before(members[i].key, members[j].key)
  }

  lemma {:induction false} CanonicalAscends(v: Json)
    requires WellFormed(v)
    ensures KeysAscend(Canonical(v))
    decreases v
  {
    hide Before, Sort, CanonicalMembers;
    match v
    case Array(items) =>
      forall i | 0 <= i < |items| ensures KeysAscend(Canonical(items[i])) {
        CanonicalAscends(items[i]);
      }
    case Object(members) =>
      var plain := CanonicalMembers(members);
      var sorted := Sort(ByKey, plain);
      forall i | 0 <= i < |members| ensures KeysAscend(plain[i].value) {
        CanonicalAscends(members[i].value);
      }
      SortedMembersAscend(plain);
      forall i | 0 <= i < |sorted| ensures KeysAscend(sorted[i].value) {
        assert sorted[i] in plain;
      }
    case _ =>
  }

  lemma SortedMembersAscend(members: seq<Member>)
    requires DistinctKeys(members)
    ensures MembersAscend(Sort(ByKey, members)) && forall m | m in Sort(ByKey, members) :: m in members
  {
    hide Before, Sort;
    var sorted := Sort(ByKey, members);
    KeysOrderMembers(members);
    SortAscends(ByKey, members);
    SortKeepsElements(ByKey, members);
    SameElements(sorted, members);
    DistinctKeysPermute(members, sorted);
    forall i, j | 0 <= i < j < |sorted| ensures Before(sorted[i].key, sorted[j].key) {
      assert !ByKey(sorted[j], sorted[i]);
      BeforeIsTotal(sorted[i].key, sorted[j].key);
    }
  }

  // ---- Main results --------------------------------------------------------------------------------

  /** A decoder recovers the value and leaves what follows untouched. The value it reads has the meaning that was
      written, and the members of every object in ascending order of their keys. */
  lemma DecodeInvertsEncode(v: Json, rest: string)
    requires WellFormed(v)
    ensures var r := Decode(Encode(v) + rest);
            r.Some? && r.value.1 == rest && MeaningOf(r.value.0) == MeaningOf(v) && KeysAscend(r.value.0)
  {
    hide Decode, Plain, Canonical, MeaningOf, KeysAscend;
    PlainRoundTrip(Canonical(v), rest);
    CanonicalKeepsMeaning(v);
    CanonicalAscends(v);
  }

  /** Two values have the same bytes exactly when they differ at most in the order of members, at
      any depth. */
  lemma EqualBytesMeanEqualValues(v: Json, w: Json)
    requires WellFormed(v) && WellFormed(w)
    ensures Encode(v) == Encode(w) <==> MeaningOf(v) == MeaningOf(w)
  {
    hide Decode, MeaningOf, Canonical, Plain;
    DecodeInvertsEncode(v, "");
    DecodeInvertsEncode(w, "");
    if MeaningOf(v) == MeaningOf(w) {
      MeaningFixesCanonical(v, w);
    }
  }

  /** No encoding is a proper prefix of another, even followed by different bytes. */
  lemma EncodingIsPrefixFree(v: Json, w: Json, a: string, b: string)
    requires WellFormed(v) && WellFormed(w) && Encode(v) + a == Encode(w) + b
    ensures Encode(v) == Encode(w) && a == b && MeaningOf(v) == MeaningOf(w)
  {
    hide Decode, MeaningOf, Encode;
    DecodeInvertsEncode(v, a);
    DecodeInvertsEncode(w, b);
    EqualBytesMeanEqualValues(v, w);
  }
}
