/** Encoder and reader of the probe's wire codec agree: any list of fields reads back unchanged, up to
    the first number too large for the reader. */
module ProtoWireLaws {
  import opened Wrappers
  import opened ProtoWire

  const TWO_77: nat := 0x2000_0000_0000_0000_0000

  function Pow128(n: nat): (p: nat)
    ensures p > 0
  {
    if n == 0 then 1 else 128 * Pow128(n - 1)
  }

  lemma ElevenBytes()
    ensures Pow128(11) == TWO_77
  {
    assert Pow128(3) == 0x20_0000;
    assert Pow128(6) == 0x400_0000_0000 by {
      assert Pow128(4) == 128 * Pow128(3) && Pow128(5) == 128 * Pow128(4);
    }
    assert Pow128(9) == 0x8000_0000_0000_0000 by {
      assert Pow128(7) == 128 * Pow128(6) && Pow128(8) == 128 * Pow128(7);
    }
    assert Pow128(10) == 128 * Pow128(9);
  }

  predicate At(data: Bytes, pos: nat, part: Bytes) {
    pos + |part| <= |data| && data[pos..pos + |part|] == part
  }

  lemma AtParts(data: Bytes, pos: nat, a: Bytes, b: Bytes)
    requires At(data, pos, a + b)
    ensures pos + |a| + |b| <= |data| && At(data, pos, a) && At(data, pos + |a|, b)
  {
    assert data[pos..pos + |a|] == (a + b)[..|a|] == a;
    assert data[pos + |a|..pos + |a| + |b|] == (a + b)[|a|..] == b;
  }

  lemma AtStart(data: Bytes, pos: nat, part: Bytes)
    requires At(data, pos, part) && part != []
    ensures pos < |data| && data[pos] == part[0] && At(data, pos + 1, part[1..])
  {
    assert data[pos] == data[pos..pos + |part|][0];
    assert part == [part[0]] + part[1..];
    AtParts(data, pos, [part[0]], part[1..]);
  }

  // ---- Varints ----------------------------------------------------------------------------------------

  lemma {:induction false} VarintReads(value: nat, data: Bytes, pos: nat, k: nat)
    requires At(data, pos, Varint(value)) && k <= 10
    ensures value < Pow128(11 - k) ==> ReadVarint(data, pos, k) == Read(value, pos + |Varint(value)|)
    ensures value >= Pow128(11 - k) ==> ReadVarint(data, pos, k).Unreadable? && ReadVarint(data, pos, k).error == VarintTooLong
    decreases value
  {
    AtStart(data, pos, Varint(value));
    VarintStep(data, pos, k);
    assert Pow128(11 - k) == 128 * Pow128(10 - k);
    if value >= 128 {
      assert Varint(value)[1..] == Varint(value / 128);
      assert value / 128 < Pow128(10 - k) <==> value < 128 * Pow128(10 - k);
      if k < 10 {
        VarintReads(value / 128, data, pos + 1, k + 1);
      }
    }
  }

  /** A varint reads back exactly when its value is below 2^77; any larger one is refused as too
      long. */
  lemma VarintRoundTrip(value: nat, rest: Bytes)
    ensures value < TWO_77 ==> ReadVarint(Varint(value) + rest, 0, 0) == Read(value, |Varint(value)|)
    ensures value >= TWO_77 ==> var r := ReadVarint(Varint(value) + rest, 0, 0); r.Unreadable? && r.error == VarintTooLong
  {
    ElevenBytes();
    assert At(Varint(value) + rest, 0, Varint(value));
    VarintReads(value, Varint(value) + rest, 0, 0);
  }

  // ---- Fields -----------------------------------------------------------------------------------------

  /** The fields the encoder can write. */
  predicate Writable(f: Field) {
    f.VarintField? || f.Delimited?
  }

  function EncodeField(f: Field): Bytes
    requires Writable(f)
  {
    if f.VarintField? then PbVarint(f.number, f.value) else PbBytes(f.number, f.data)
  }

  function EncodeFields(fields: seq<Field>): Bytes
    requires forall f | f in fields :: Writable(f)
  {
    if fields == [] then [] else EncodeField(fields[0]) + EncodeFields(fields[1..])
  }

  /** Tag and value, or tag and length, are within what the reader accepts. */
  predicate InRange(f: Field)
    requires Writable(f)
  {
    if f.VarintField? then f.number * 8 < TWO_77 && f.value < TWO_77
    else f.number * 8 + 2 < TWO_77 && |f.data| < TWO_77
  }

  lemma KeySplits(number: nat, wireType: nat)
    requires wireType < 8
    ensures (number * 8 + wireType) / 8 == number && (number * 8 + wireType) % 8 == wireType
  {
  }

  lemma FieldReads(f: Field, data: Bytes, pos: nat)
    requires Writable(f) && At(data, pos, EncodeField(f))
    ensures pos < |data|
    ensures InRange(f) ==> ReadField(data, pos) == Got(f, pos + |EncodeField(f)|)
    ensures !InRange(f) ==> ReadField(data, pos).Failed? && ReadField(data, pos).error == VarintTooLong
  {
    hide *;
    if f.VarintField? {
      VarintFieldReads(f, data, pos);
    } else {
      BytesFieldReads(f, data, pos);
    }
  }

  lemma VarintFieldReads(f: Field, data: Bytes, pos: nat)
    requires f.VarintField? && Writable(f) && At(data, pos, EncodeField(f))
    ensures pos < |data|
    ensures InRange(f) ==> ReadField(data, pos) == Got(f, pos + |EncodeField(f)|)
    ensures !InRange(f) ==> ReadField(data, pos).Failed? && ReadField(data, pos).error == VarintTooLong
  {
    hide ReadVarint, Varint, At, Pow128;
    ElevenBytes();
    var key := f.number * 8;
    KeySplits(f.number, 0);
    AtParts(data, pos, Varint(key), Varint(f.value));
    VarintReads(key, data, pos, 0);
    VarintReads(f.value, data, pos + |Varint(key)|, 0);
  }

  lemma BytesFieldReads(f: Field, data: Bytes, pos: nat)
    requires !f.VarintField? && Writable(f) && At(data, pos, EncodeField(f))
    ensures pos < |data|
    ensures InRange(f) ==> ReadField(data, pos) == Got(f, pos + |EncodeField(f)|)
    ensures !InRange(f) ==> ReadField(data, pos).Failed? && ReadField(data, pos).error == VarintTooLong
  {
    hide ReadVarint, Varint, At, Pow128, ReadField, EncodeField;
    ElevenBytes();
    var key := f.number * 8 + 2;
    KeySplits(f.number, 2);
    DelimitedParts(f, data, pos);
    VarintReads(key, data, pos, 0);
    VarintReads(|f.data|, data, pos + |Varint(key)|, 0);
    ReadsDelimited(data, pos);
  }

  /** Where the key, the length and the payload of a delimited field stand. */
  lemma DelimitedParts(f: Field, data: Bytes, pos: nat)
    requires f.Delimited? && At(data, pos, EncodeField(f))
    ensures var key := Varint(f.number * 8 + 2);
            var start := pos + |key| + |Varint(|f.data|)|;
            && At(data, pos, key) && At(data, pos + |key|, Varint(|f.data|))
            && pos < |data| && start + |f.data| <= |data| && data[start..start + |f.data|] == f.data
            && start + |f.data| == pos + |EncodeField(f)|
  {
    hide Varint, At;
    var key := Varint(f.number * 8 + 2);
    assert EncodeField(f) == key + (Varint(|f.data|) + f.data);
    AtParts(data, pos, key, Varint(|f.data|) + f.data);
    AtParts(data, pos + |key|, Varint(|f.data|), f.data);
    AtMeans(data, pos + |key| + |Varint(|f.data|)|, f.data);
  }

  /** The steps of reading a delimited field. */
  lemma ReadsDelimited(data: Bytes, pos: nat)
    requires pos < |data|
    ensures var key := ReadVarint(data, pos, 0);
            && (key.Unreadable? ==> ReadField(data, pos) == Failed(key.error, key.next))
            && (key.Read? && key.value % 8 == 2 ==>
                  var length := ReadVarint(data, key.next, 0);
                  && (length.Unreadable? ==> ReadField(data, pos) == Failed(length.error, length.next))
                  && (length.Read? && length.next + length.value <= |data| ==>
                        ReadField(data, pos)
                        == Got(Delimited(key.value / 8, data[length.next..length.next + length.value]),
                               length.next + length.value)))
  {
    hide ReadVarint;
  }

  lemma AtMeans(data: Bytes, pos: nat, part: Bytes)
    requires At(data, pos, part)
    ensures pos + |part| <= |data| && data[pos..pos + |part|] == part
  {
  }

  /** The longest prefix the reader accepts. */
  function Acceptable(fields: seq<Field>): seq<Field>
    requires forall f | f in fields :: Writable(f)
  {
    if fields == [] || !InRange(fields[0]) then [] else [fields[0]] + Acceptable(fields[1..])
  }

  lemma {:induction false} FieldsRead(fields: seq<Field>, data: Bytes, pos: nat)
    requires forall f | f in fields :: Writable(f)
    requires pos + |EncodeFields(fields)| == |data| && At(data, pos, EncodeFields(fields))
    ensures ReadFields(data, pos)
            == (Acceptable(fields), if Acceptable(fields) == fields then Done else Raised(VarintTooLong))
    decreases |fields|
  {
    hide EncodeField, ReadField, InRange;
    if fields != [] {
      AtParts(data, pos, EncodeField(fields[0]), EncodeFields(fields[1..]));
      FieldReads(fields[0], data, pos);
      assert fields == [fields[0]] + fields[1..];
      if InRange(fields[0]) {
        FieldsRead(fields[1..], data, pos + |EncodeField(fields[0])|);
      }
    }
  }

  /** Reading any concatenation of encoded fields gives back those fields, in order, up to the first
      one out of the reader's range, where it stops with an error; so exactly the lists of in-range
      fields read back whole. */
  lemma FieldsRoundTrip(fields: seq<Field>)
    requires forall f | f in fields :: Writable(f)
    ensures ReadFields(EncodeFields(fields), 0)
            == (Acceptable(fields), if Acceptable(fields) == fields then Done else Raised(VarintTooLong))
    ensures Acceptable(fields) == fields <==> forall f | f in fields :: InRange(f)
  {
    FieldsRead(fields, EncodeFields(fields), 0);
    AcceptableMeansInRange(fields);
  }

  lemma {:induction false} AcceptableMeansInRange(fields: seq<Field>)
    requires forall f | f in fields :: Writable(f)
    ensures Acceptable(fields) <= fields
    ensures Acceptable(fields) == fields <==> forall f | f in fields :: InRange(f)
    decreases |fields|
  {
    hide InRange;
    if fields != [] {
      AcceptableMeansInRange(fields[1..]);
      assert fields == [fields[0]] + fields[1..];
    }
  }

  // ---- The query request --------------------------------------------------------------------------

  const PROTOCOL_VERSION: nat := 1

  function Ascii(s: string): Bytes
    requires forall i | 0 <= i < |s| :: s[i] < '\U{80}'
  {
    seq(|s|, i requires 0 <= i < |s| => s[i] as int)
  }

  const CANONICAL_JSON_CONTENT_TYPE: Bytes := Ascii("application/json; charset=utf-8")

  /** Text arguments are given as their UTF-8 bytes; an absent or empty provider is left out. */
  function BuildQueryRequest(requestId: Bytes, schema: Bytes, schemaVersion: nat, params: Bytes, provider: Option<Bytes>): Bytes {
    var context := PbVarint(1, PROTOCOL_VERSION) + PbBytes(2, requestId);
    var payload := PbBytes(1, schema) + PbVarint(2, schemaVersion) + PbBytes(3, CANONICAL_JSON_CONTENT_TYPE)
                   + PbBytes(4, params);
    var message := PbBytes(1, context);
    var routed := if provider.Some? && provider.value != [] then message + PbBytes(2, provider.value) else message;
    routed + PbBytes(3, payload)
  }

  function ContextFields(requestId: Bytes): seq<Field> {
    [VarintField(1, 1), Delimited(2, requestId)]
  }

  /** The bytes are the characters of the text, one byte each. */
  predicate Spells(bytes: Bytes, text: string) {
    |bytes| == |text| && forall i | 0 <= i < |text| :: bytes[i] == text[i] as nat
  }

  function PayloadFields(schema: Bytes, schemaVersion: nat, params: Bytes): seq<Field> {
    [Delimited(1, schema), VarintField(2, schemaVersion), Delimited(3, CANONICAL_JSON_CONTENT_TYPE), Delimited(4, params)]
  }

  function RequestFields(context: Bytes, payload: Bytes, provider: Option<Bytes>): seq<Field> {
    [Delimited(1, context)] + (if provider.Some? && provider.value != [] then [Delimited(2, provider.value)] else [])
    + [Delimited(3, payload)]
  }

  lemma EncodeOne(f: Field, rest: seq<Field>)
    requires Writable(f) && forall g | g in rest :: Writable(g)
    ensures forall g | g in [f] + rest :: Writable(g)
    ensures EncodeFields([f] + rest) == EncodeField(f) + EncodeFields(rest)
  {
    assert ([f] + rest)[1..] == rest;
  }

  lemma ContextIsItsFields(requestId: Bytes)
    ensures PbVarint(1, PROTOCOL_VERSION) + PbBytes(2, requestId) == EncodeFields(ContextFields(requestId))
  {
    hide PbVarint, PbBytes, EncodeFields;
    var id := Delimited(2, requestId);
    EncodeOne(id, []);
    EncodeOne(VarintField(1, PROTOCOL_VERSION), [id]);
    assert [id] + [] == [id] && ContextFields(requestId) == [VarintField(1, PROTOCOL_VERSION)] + [id];
    NoFields();
  }

  lemma NoFields()
    ensures EncodeFields([]) == []
  {
  }

  lemma PayloadIsItsFields(schema: Bytes, schemaVersion: nat, params: Bytes)
    ensures PbBytes(1, schema) + PbVarint(2, schemaVersion) + PbBytes(3, CANONICAL_JSON_CONTENT_TYPE) + PbBytes(4, params)
            == EncodeFields(PayloadFields(schema, schemaVersion, params))
  {
    hide PbVarint, PbBytes, EncodeFields, CANONICAL_JSON_CONTENT_TYPE;
    var a, b := Delimited(1, schema), VarintField(2, schemaVersion);
    var c, d := Delimited(3, CANONICAL_JSON_CONTENT_TYPE), Delimited(4, params);
    EncodeOne(d, []);
    EncodeOne(c, [d]);
    EncodeOne(b, [c, d]);
    EncodeOne(a, [b, c, d]);
    NoFields();
    assert [d] + [] == [d] && [c] + [d] == [c, d] && [b] + [c, d] == [b, c, d];
    assert PayloadFields(schema, schemaVersion, params) == [a] + [b, c, d];
  }

  lemma RequestIsItsFields(context: Bytes, payload: Bytes, provider: Option<Bytes>)
    ensures forall f | f in RequestFields(context, payload, provider) :: Writable(f)
    ensures EncodeFields(RequestFields(context, payload, provider))
            == PbBytes(1, context)
               + (if provider.Some? && provider.value != [] then PbBytes(2, provider.value) else [])
               + PbBytes(3, payload)
  {
    hide PbBytes, EncodeFields;
    var a, c := Delimited(1, context), Delimited(3, payload);
    EncodeOne(c, []);
    NoFields();
    assert [c] + [] == [c];
    if provider.Some? && provider.value != [] {
      var b := Delimited(2, provider.value);
      EncodeOne(b, [c]);
      EncodeOne(a, [b] + [c]);
      assert RequestFields(context, payload, provider) == [a] + ([b] + [c]);
    } else {
      EncodeOne(a, [c]);
      assert RequestFields(context, payload, provider) == [a] + [c];
    }
  }

  /** A query request decodes to its context, its provider if one was given, and its payload; and
      the context and the payload decode to what went into them. */
  lemma QueryRequestDecodes(requestId: Bytes, schema: Bytes, schemaVersion: nat, params: Bytes, provider: Option<Bytes>)
    requires schemaVersion < TWO_77
    requires |BuildQueryRequest(requestId, schema, schemaVersion, params, provider)| < TWO_77
    ensures var context := EncodeFields(ContextFields(requestId));
            var payload := EncodeFields(PayloadFields(schema, schemaVersion, params));
            && ReadFields(BuildQueryRequest(requestId, schema, schemaVersion, params, provider), 0)
               == (RequestFields(context, payload, provider), Done)
            && ReadFields(context, 0) == (ContextFields(requestId), Done)
            && ReadFields(payload, 0) == (PayloadFields(schema, schemaVersion, params), Done)
    ensures Spells(PayloadFields(schema, schemaVersion, params)[2].data, "application/json; charset=utf-8")
  {
    hide ReadFields, EncodeFields, PbVarint, CANONICAL_JSON_CONTENT_TYPE, Varint, Acceptable;
    var context := EncodeFields(ContextFields(requestId));
    var payload := EncodeFields(PayloadFields(schema, schemaVersion, params));
    ContextIsItsFields(requestId);
    PayloadIsItsFields(schema, schemaVersion, params);
    RequestIsItsFields(context, payload, provider);
    FieldsRoundTrip(ContextFields(requestId));
    FieldsRoundTrip(PayloadFields(schema, schemaVersion, params));
    var message := BuildQueryRequest(requestId, schema, schemaVersion, params, provider);
    assert message == EncodeFields(RequestFields(context, payload, provider)) by {
      hide PbBytes;
      assert PbBytes(1, context) + [] + PbBytes(3, payload) == PbBytes(1, context) + PbBytes(3, payload);
    }
    FieldsRoundTrip(RequestFields(context, payload, provider));
    ContentTypeIsSpelled();
  }

  lemma ContentTypeIsSpelled()
    ensures Spells(CANONICAL_JSON_CONTENT_TYPE, "application/json; charset=utf-8")
  {
  }
}
