/** The probe's protobuf wire codec: varints, tagged fields and the sequential field reader. */
module ProtoWire {
  import opened Wrappers

  type Byte = n: nat | n < 256
  type Bytes = seq<Byte>

  datatype Error =
    | NegativeVarint | TruncatedVarint | VarintTooLong | TruncatedDelimited | Truncated32 | Truncated64
    | UnsupportedWireType(wireType: nat)

  // ---- Encoding -----------------------------------------------------------------------------------

  /** Seven bits a byte, least significant first; the high bit marks that more follow. */
  function Varint(value: nat): (bytes: Bytes)
    ensures bytes != []
  {
    if value < 128 then [value] else [value % 128 + 128] + Varint(value / 128)
  }

  lemma VarintUnfolds(value: nat)
    ensures Varint(value) == if value / 128 > 0 then [value % 128 + 128] + Varint(value / 128) else [value % 128]
  {
  }

  /** The encoding loop; negative values are refused. */
  method EncodeVarint(value: int) returns (r: Result<Bytes, Error>)
    ensures r == if value < 0 then Err(NegativeVarint) else Ok(Varint(value))
  {
    if value < 0 {
      return Err(NegativeVarint);
    }
    hide Varint;
    var out: Bytes := [];
    var left: nat := value;
    while true
      invariant out + Varint(left) == Varint(value)
      decreases left
    {
      var bits := left % 128;
      VarintUnfolds(left);
      left := left / 128;
      if left > 0 {
        assert out + ([bits + 128] + Varint(left)) == (out + [bits + 128]) + Varint(left);
        out := out + [bits + 128];
      } else {
        out := out + [bits];
        return Ok(out);
      }
    }
  }

  function Tag(number: nat, wireType: nat): Bytes {
    Varint(number * 8 + wireType)
  }

  function PbVarint(number: nat, value: nat): Bytes {
    Tag(number, 0) + Varint(value)
  }

  function PbBytes(number: nat, data: Bytes): Bytes {
    Tag(number, 2) + Varint(|data|) + data
  }

  // ---- Reading ---------------------------------------------------------------------------------------

  datatype VarintRead = Read(value: nat, next: nat) | Unreadable(error: Error, next: nat)

  /** Reads a varint at `pos`, of which `k` continuation bytes have gone before. */
  function ReadVarint(data: Bytes, pos: nat, k: nat): (r: VarintRead)
    requires pos <= |data|
    ensures pos <= r.next <= |data|
    ensures r.Read? ==> pos < r.next
    decreases |data| - pos
  {
    if pos == |data| then Unreadable(TruncatedVarint, pos)
    else if data[pos] < 128 then Read(data[pos], pos + 1)
    else if 7 * (k + 1) > 70 then Unreadable(VarintTooLong, pos + 1)
    else
      match ReadVarint(data, pos + 1, k + 1)
      case Unreadable(error, next) => Unreadable(error, next)
      case Read(value, next) => Read(data[pos] - 128 + 128 * value, next)
  }

  /** A decoded field: its number and its payload, by wire type. */
  datatype Field =
    | VarintField(number: nat, value: nat)
    | Fixed64(number: nat, data: Bytes)
    | Delimited(number: nat, data: Bytes)
    | Fixed32(number: nat, data: Bytes)

  datatype FieldRead = Got(field: Field, next: nat) | Failed(error: Error, next: nat)

  function Take(data: Bytes, pos: nat, length: nat): Option<Bytes>
    requires pos <= |data|
  {
    if pos + length > |data| then None else Some(data[pos..pos + length])
  }

  function ReadField(data: Bytes, pos: nat): (r: FieldRead)
    requires pos < |data|
    ensures pos <= r.next <= |data|
    ensures r.Got? ==> pos < r.next
  {
    match ReadVarint(data, pos, 0)
    case Unreadable(error, next) => Failed(error, next)
    case Read(key, start) =>
      var number, wireType := key / 8, key % 8;
      if wireType == 0 then
        match ReadVarint(data, start, 0)
        case Unreadable(error, next) => Failed(error, next)
        case Read(value, next) => Got(VarintField(number, value), next)
      else if wireType == 2 then
        match ReadVarint(data, start, 0)
        case Unreadable(error, next) => Failed(error, next)
        case Read(length, body) =>
          match Take(data, body, length)
          case None => Failed(TruncatedDelimited, body)
          case Some(payload) => Got(Delimited(number, payload), body + length)
      else if wireType == 5 then
        match Take(data, start, 4)
        case None => Failed(Truncated32, start)
        case Some(payload) => Got(Fixed32(number, payload), start + 4)
      else if wireType == 1 then
        match Take(data, start, 8)
        case None => Failed(Truncated64, start)
        case Some(payload) => Got(Fixed64(number, payload), start + 8)
      else Failed(UnsupportedWireType(wireType), start)
  }

  datatype Ending = Done | Raised(error: Error)

  /** The fields read from `pos` on, and how the reading ends. */
  function ReadFields(data: Bytes, pos: nat): (seq<Field>, Ending)
    requires pos <= |data|
    decreases |data| - pos
  {
    if pos == |data| then ([], Done)
    else
      match ReadField(data, pos)
      case Failed(error, _) => ([], Raised(error))
      case Got(field, next) =>
        var (fields, ending) := ReadFields(data, next);
        ([field] + fields, ending)
  }

  /** Sequential reader over one message payload. */
  class ProtoReader {
    const data: Bytes
    var pos: nat

    predicate Valid()
      reads this
    {
      pos <= |data|
    }

    constructor (data: Bytes)
      ensures this.data == data && pos == 0 && Valid()
    {
      this.data := data;
      pos := 0;
    }

    /** Each byte adds its seven bits above those already read; the eleventh must be the last. */
    method NextVarint() returns (r: Result<nat, Error>)
      requires Valid()
      modifies this
      ensures Valid()
      ensures var spec := ReadVarint(data, old(pos), 0);
              pos == spec.next && r == match spec case Read(value, _) => Ok(value) case Unreadable(error, _) => Err(error)
    {
      hide ReadVarint;
      var result: nat, weight: nat, shift: nat, k: nat := 0, 1, 0, 0;
      ghost var start := pos;
      while true
        invariant Valid() && shift == 7 * k
        invariant Scaled(ReadVarint(data, start, 0), result, weight, ReadVarint(data, pos, k))
        decreases |data| - pos
      {
        VarintStep(data, pos, k);
        if pos >= |data| {
          return Err(TruncatedVarint);
        }
        var byte := data[pos];
        pos := pos + 1;
        var bits: nat := byte % 128;
        if byte < 128 {
          return Ok(result + weight * bits);
        }
        shift := shift + 7;
        if shift > 70 {
          return Err(VarintTooLong);
        }
        NextScale(ReadVarint(data, start, 0), result, weight, bits, ReadVarint(data, pos, k + 1));
        result, weight, k := result + weight * bits, weight * 128, k + 1;
      }
    }

    /** Reads the fields up to the end of the buffer or the first error. */
    method Fields() returns (fields: seq<Field>, ending: Ending)
      requires Valid()
      modifies this
      ensures Valid() && (fields, ending) == ReadFields(data, old(pos))
      ensures ending.Done? ==> pos == |data|
    {
      hide ReadField;
      fields := [];
      ghost var start := pos;
      assert [] + ReadFields(data, pos).0 == ReadFields(data, pos).0;
      while pos < |data|
        invariant Valid()
        invariant Preceded(fields, ReadFields(data, pos), ReadFields(data, start))
        decreases |data| - pos
      {
        FieldStep(data, pos, fields, ReadFields(data, start));
        var field := NextField();
        if field.Err? {
          return fields, Raised(field.error);
        }
        fields := fields + [field.value];
      }
      ending := Done;
      assert fields + [] == fields;
    }

    method NextField() returns (r: Result<Field, Error>)
      requires Valid() && pos < |data|
      modifies this
      ensures Valid()
      ensures var spec := ReadField(data, old(pos));
              pos == spec.next && r == match spec case Got(field, _) => Ok(field) case Failed(error, _) => Err(error)
    {
      var key := NextVarint();
      if key.Err? {
        return Err(key.error);
      }
      var number, wireType := key.value / 8, key.value % 8;
      if wireType == 0 {
        var value := NextVarint();
        if value.Err? {
          return Err(value.error);
        }
        return Ok(VarintField(number, value.value));
      }
      if wireType == 2 {
        var length := NextVarint();
        if length.Err? {
          return Err(length.error);
        }
        var end := pos + length.value;
        if end > |data| {
          return Err(TruncatedDelimited);
        }
        var payload := data[pos..end];
        pos := end;
        return Ok(Delimited(number, payload));
      }
      if wireType == 5 {
        var end := pos + 4;
        if end > |data| {
          return Err(Truncated32);
        }
        var payload := data[pos..end];
        pos := end;
        return Ok(Fixed32(number, payload));
      }
      if wireType == 1 {
        var end := pos + 8;
        if end > |data| {
          return Err(Truncated64);
        }
        var payload := data[pos..end];
        pos := end;
        return Ok(Fixed64(number, payload));
      }
      r := Err(UnsupportedWireType(wireType));
    }
  }

  lemma VarintStep(data: Bytes, pos: nat, k: nat)
    requires pos <= |data|
    ensures ReadVarint(data, pos, k)
            == if pos == |data| then Unreadable(TruncatedVarint, pos)
               else if data[pos] < 128 then Read(data[pos], pos + 1)
               else if 7 * (k + 1) > 70 then Unreadable(VarintTooLong, pos + 1)
               else match ReadVarint(data, pos + 1, k + 1)
                    case Unreadable(error, next) => Unreadable(error, next)
                    case Read(value, next) => Read(data[pos] - 128 + 128 * value, next)
  {
  }

  /** `whole` is `fields` followed by what is still to be read. */
  predicate Preceded(fields: seq<Field>, rest: (seq<Field>, Ending), whole: (seq<Field>, Ending)) {
    whole == (fields + rest.0, rest.1)
  }

  lemma FieldStep(data: Bytes, pos: nat, fields: seq<Field>, whole: (seq<Field>, Ending))
    requires pos < |data| && Preceded(fields, ReadFields(data, pos), whole)
    ensures match ReadField(data, pos)
            case Failed(error, _) => whole == (fields, Raised(error))
            case Got(field, next) => Preceded(fields + [field], ReadFields(data, next), whole)
  {
    hide ReadField;
    match ReadField(data, pos)
    case Failed(_, _) => assert fields + [] == fields;
    case Got(field, next) =>
      var rest := ReadFields(data, next).0;
      assert fields + ([field] + rest) == (fields + [field]) + rest;
  }

  /** `whole` is what remains to be read, scaled by the weight of the bytes already read. */
  predicate Scaled(whole: VarintRead, result: nat, weight: nat, rest: VarintRead) {
    match rest
    case Unreadable(_, _) => whole == rest
    case Read(value, next) => whole == Read(result + weight * value, next)
  }

  lemma NextScale(whole: VarintRead, result: nat, weight: nat, bits: nat, rest: VarintRead)
    requires match rest
             case Unreadable(_, _) => whole == rest
             case Read(value, next) => whole == Read(result + weight * (bits + 128 * value), next)
    ensures Scaled(whole, result + weight * bits, weight * 128, rest)
  {
    if rest.Read? {
      assert weight * (bits + 128 * rest.value) == weight * bits + (weight * 128) * rest.value;
    }
  }
}
