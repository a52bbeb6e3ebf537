/** The canonical byte form of a JSON value, from which a batch identity is digested. Text is given
    as its UTF-8 bytes, one character per byte. */
module CanonicalJson {
  import opened Texts
  import opened Decimals
  import opened Sorting

  datatype Member = Member(key: string, value: Json)

  /** A JSON value as decoded: the members of an object in the order they happen to be stored. A
      number is its printed text. */
  datatype Json =
    | Null
    | Bool(b: bool)
    | Number(text: string)
    | String(text: string)
    | Array(items: seq<Json>)
    | Object(members: seq<Member>)

  predicate DistinctKeys(members: seq<Member>) {
    forall i, j | 0 <= i < j < |members| :: members[i].key != members[j].key
  }

  /** No object repeats a key, as the decoder's map type guarantees. */
  predicate WellFormed(v: Json) {
    match v
    case Array(items) => forall i | 0 <= i < |items| :: WellFormed(items[i])
    case Object(members) => DistinctKeys(members) && forall i | 0 <= i < |members| :: WellFormed(members[i].value)
    case _ => true
  }

  // ---- Encoding -------------------------------------------------------------------------------------

  function LengthPrefixed(tag: char, text: string): string {
    [tag] + Numeral(|text|) + ":" + text + ";"
  }

  /** The bytes of a value, members in the order they stand. */
  function Plain(v: Json): string
    decreases v, 0
  {
    match v
    case Null => "n"
    case Bool(b) => ['b', if b then '\U{1}' else '\U{0}']
    case Number(text) => LengthPrefixed('d', text)
    case String(text) => LengthPrefixed('s', text)
    case Array(items) => LengthPrefixed('a', Numeral(|items|)) + PlainItems(items)
    case Object(members) => LengthPrefixed('o', Numeral(|members|)) + PlainMembers(members)
  }

  function PlainItems(items: seq<Json>): string
    decreases items, 1
  {
    if items == [] then [] else Plain(items[0]) + PlainItems(items[1..])
  }

  function PlainMembers(members: seq<Member>): string
    decreases members, 1
  {
    if members == [] then []
    else LengthPrefixed('k', members[0].key) + Plain(members[0].value) + PlainMembers(members[1..])
  }

  predicate ByKey(a: Member, b: Member) {
    Before(a.key, b.key)
  }

  /** The value with the members of every object in key order. */
  function Canonical(v: Json): Json
    decreases v, 0
  {
    match v
    case Array(items) => Array(CanonicalItems(items))
    case Object(members) => Object(Sort(ByKey, CanonicalMembers(members)))
    case _ => v
  }

  function CanonicalItems(items: seq<Json>): (r: seq<Json>)
    ensures |r| == |items| && forall i | 0 <= i < |items| :: r[i] == Canonical(items[i])
    decreases items, 1
  {
    if items == [] then [] else [Canonical(items[0])] + CanonicalItems(items[1..])
  }

  function CanonicalMembers(members: seq<Member>): (r: seq<Member>)
    ensures |r| == |members|
    ensures forall i | 0 <= i < |members| :: r[i] == Member(members[i].key, Canonical(members[i].value))
    decreases members, 1
  {
    if members == [] then []
    else [Member(members[0].key, Canonical(members[0].value))] + CanonicalMembers(members[1..])
  }

  function Encode(v: Json): string {
    Plain(Canonical(v))
  }

  // ---- The writer -----------------------------------------------------------------------------------

  /** The growing output of the encoder. */
  class ByteSink {
    var bytes: string

    constructor ()
      ensures bytes == ""
    {
      bytes := "";
    }

    method WriteLengthPrefixed(tag: char, text: string)
      modifies this
      ensures bytes == old(bytes) + LengthPrefixed(tag, text)
    {
      bytes := bytes + [tag];
      bytes := bytes + Numeral(|text|);
      bytes := bytes + ":";
      bytes := bytes + text;
      bytes := bytes + ";";
    }

    /** Appends the canonical bytes of `value`; objects are written in key order. */
    method WriteCanonicalJson(value: Json)
      modifies this
      ensures bytes == old(bytes) + Encode(value)
      decreases value, 1
    {
      hide Plain, Canonical, LengthPrefixed, Encode, Sort, CanonicalItems, CanonicalMembers, PlainItems, PlainMembers, Numeral;
      EncodeCases(value);
      match value
      case Null => bytes := bytes + "n";
      case Bool(b) => bytes := bytes + ['b', if b then '\U{1}' else '\U{0}'];
      case Number(text) => WriteLengthPrefixed('d', text);
      case String(text) => WriteLengthPrefixed('s', text);
      case Array(items) =>
        WriteLengthPrefixed('a', Numeral(|items|));
        WriteItems(items);
      case Object(members) =>
        WriteLengthPrefixed('o', Numeral(|members|));
        var entries := Sort(ByKey, members);
        SortKeepsElements(ByKey, members);
        SameElements(entries, members);
        WriteEntries(entries, value);
        SortCommutes(members);
    }

    method WriteItems(items: seq<Json>)
      modifies this
      ensures bytes == old(bytes) + PlainItems(CanonicalItems(items))
      decreases items, 0
    {
      hide Plain, Canonical, Encode, PlainItems;
      NothingWritten();
      assert items[..0] == [];
      for i := 0 to |items|
        invariant bytes == old(bytes) + PlainItems(CanonicalItems(items[..i]))
      {
        WriteCanonicalJson(items[i]);
        AppendItem(items, i);
      }
      assert items[..|items|] == items;
    }

    method WriteEntries(entries: seq<Member>, ghost parent: Json)
      requires parent.Object? && forall m | m in entries :: m in parent.members
      modifies this
      ensures bytes == old(bytes) + PlainMembers(CanonicalMembers(entries))
      decreases parent, 0
    {
      hide Plain, Canonical, Encode, PlainMembers, LengthPrefixed;
      NothingWritten();
      assert entries[..0] == [];
      for i := 0 to |entries|
        invariant bytes == old(bytes) + PlainMembers(CanonicalMembers(entries[..i]))
      {
        assert entries[i] in entries;
        MemberIsSmaller(parent, entries[i]);
        WriteLengthPrefixed('k', entries[i].key);
        WriteCanonicalJson(entries[i].value);
        AppendMember(entries, i);
      }
      assert entries[..|entries|] == entries;
    }
  }

  lemma NothingWritten()
    ensures PlainItems(CanonicalItems([])) == "" && PlainMembers(CanonicalMembers([])) == ""
  {
  }

  lemma MemberIsSmaller(parent: Json, m: Member)
    requires parent.Object? && m in parent.members
    ensures m.value < parent
  {
    var i :| 0 <= i < |parent.members| && parent.members[i] == m;
    assert parent.members[i] < parent;
  }

  lemma EncodeCases(v: Json)
    ensures v.Null? ==> Encode(v) == "n"
    ensures v.Bool? ==> Encode(v) == ['b', if v.b then '\U{1}' else '\U{0}']
    ensures v.Number? ==> Encode(v) == LengthPrefixed('d', v.text)
    ensures v.String? ==> Encode(v) == LengthPrefixed('s', v.text)
    ensures v.Array? ==>
              Encode(v) == LengthPrefixed('a', Numeral(|v.items|)) + PlainItems(CanonicalItems(v.items))
    ensures v.Object? ==>
              Encode(v) == LengthPrefixed('o', Numeral(|v.members|)) + PlainMembers(Sort(ByKey, CanonicalMembers(v.members)))
  {
    hide LengthPrefixed, Sort;
    if v.Object? {
      SortKeepsElements(ByKey, CanonicalMembers(v.members));
      SameElements(Sort(ByKey, CanonicalMembers(v.members)), CanonicalMembers(v.members));
    }
  }

  lemma {:induction false} PlainItemsAppend(a: seq<Json>, b: seq<Json>)
    ensures PlainItems(a + b) == PlainItems(a) + PlainItems(b)
  {
    hide Plain;
    if a == [] {
      assert a + b == b;
    } else {
      PlainItemsAppend(a[1..], b);
      assert (a + b)[1..] == a[1..] + b;
      assert PlainItems(a + b) == Plain(a[0]) + (PlainItems(a[1..]) + PlainItems(b));
    }
  }

  lemma {:induction false} PlainMembersAppend(a: seq<Member>, b: seq<Member>)
    ensures PlainMembers(a + b) == PlainMembers(a) + PlainMembers(b)
  {
    hide LengthPrefixed, Plain;
    if a == [] {
      assert a + b == b;
    } else {
      PlainMembersAppend(a[1..], b);
      assert (a + b)[1..] == a[1..] + b;
      var head := LengthPrefixed('k', a[0].key) + Plain(a[0].value);
      assert PlainMembers(a + b) == head + (PlainMembers(a[1..]) + PlainMembers(b));
    }
  }

  lemma AppendItem(items: seq<Json>, i: nat)
    requires i < |items|
    ensures PlainItems(CanonicalItems(items[..i + 1])) == PlainItems(CanonicalItems(items[..i])) + Encode(items[i])
  {
    hide Plain, Canonical, CanonicalItems;
    assert CanonicalItems(items[..i + 1]) == CanonicalItems(items[..i]) + [Canonical(items[i])];
    PlainItemsAppend(CanonicalItems(items[..i]), [Canonical(items[i])]);
    assert PlainItems([Canonical(items[i])]) == Encode(items[i]);
  }

  lemma AppendMember(entries: seq<Member>, i: nat)
    requires i < |entries|
    ensures PlainMembers(CanonicalMembers(entries[..i + 1]))
            == PlainMembers(CanonicalMembers(entries[..i])) + (LengthPrefixed('k', entries[i].key) + Encode(entries[i].value))
  {
    hide Plain, Canonical, LengthPrefixed, PlainMembers, CanonicalMembers;
    var last := Member(entries[i].key, Canonical(entries[i].value));
    assert CanonicalMembers(entries[..i + 1]) == CanonicalMembers(entries[..i]) + [last];
    PlainMembersAppend(CanonicalMembers(entries[..i]), [last]);
    PlainOfOne(last);
  }

  lemma PlainOfOne(m: Member)
    ensures PlainMembers([m]) == LengthPrefixed('k', m.key) + Plain(m.value)
  {
    hide Plain, LengthPrefixed;
    assert [m][1..] == [];
    assert PlainMembers([m]) == LengthPrefixed('k', m.key) + Plain(m.value) + [];
  }

  /** Sorting by key and canonicalising the values commute. */
  lemma {:induction false} SortCommutes(members: seq<Member>)
    ensures Sort(ByKey, CanonicalMembers(members)) == CanonicalMembers(Sort(ByKey, members))
  {
    hide Canonical;
    if members != [] {
      SortCommutes(members[1..]);
      InsertCommutes(members[0], Sort(ByKey, members[1..]));
    }
  }

  lemma {:induction false} InsertCommutes(m: Member, members: seq<Member>)
    ensures Insert(ByKey, Member(m.key, Canonical(m.value)), CanonicalMembers(members))
            == CanonicalMembers(Insert(ByKey, m, members))
  {
    hide Canonical;
    if members != [] && ByKey(members[0], m) {
      InsertCommutes(m, members[1..]);
    } else {
      assert ([m] + members)[1..] == members;
    }
  }
}
