/** The wire format read off the bytes: which bytes are a varint, a key and a field, and what the reader makes of every
    input. */
module ProtoWireGrammar {
  import opened Wrappers
  import opened ProtoWire
  import opened ProtoWireLaws

  // ---- Varints ----------------------------------------------------------------------------------------

  /** The number that the low seven bits of the bytes make, least significant first. */
  function Bits(bytes: Bytes): nat {
    if bytes == [] then 0 else bytes[0] % 128 + 128 * Bits(bytes[1..])
  }

  predicate Continues(bytes: Bytes) {
    forall i | 0 <= i < |bytes| :: bytes[i] >= 128
  }

  /** Bytes of which all but the last have their high bit set. */
  predicate IsVarint(bytes: Bytes) {
    bytes != [] && bytes[|bytes| - 1] < 128 && Continues(bytes[..|bytes| - 1])
  }

  lemma OneByte(bytes: Bytes)
    requires bytes != [] && bytes[0] < 128
    ensures IsVarint(bytes) <==> |bytes| == 1
    ensures |bytes| == 1 ==> Bits(bytes) == bytes[0]
  {
    if |bytes| == 1 {
      assert bytes[1..] == [];
    } else {
      assert bytes[..|bytes| - 1][0] == bytes[0];
    }
  }

  lemma MoreBytes(bytes: Bytes)
    requires bytes != [] && bytes[0] >= 128
    ensures IsVarint(bytes) <==> IsVarint(bytes[1..])
    ensures Bits(bytes) == bytes[0] - 128 + 128 * Bits(bytes[1..])
    ensures Continues(bytes) <==> Continues(bytes[1..])
  {
    var rest := bytes[1..];
    assert bytes == [bytes[0]] + rest;
    if rest != [] {
      assert bytes[..|bytes| - 1] == [bytes[0]] + rest[..|rest| - 1];
    }
  }

  /** What is written is a varint of the value, without a superfluous last byte. */
  lemma {:induction false} WrittenVarints(value: nat)
    ensures var bytes := Varint(value);
            IsVarint(bytes) && Bits(bytes) == value && (|bytes| > 1 ==> bytes[|bytes| - 1] != 0)
  {
    hide IsVarint, Bits;
    var bytes := Varint(value);
    if value < 128 {
      OneByte(bytes);
    } else {
      WrittenVarints(value / 128);
      assert bytes[1..] == Varint(value / 128);
      MoreBytes(bytes);
      assert value / 128 > 0;
      if |bytes[1..]| == 1 {
        OneByte(bytes[1..]) by { assert bytes[1..][0] < 128 by { LastOfOne(bytes[1..]); } }
      }
    }
  }

  lemma LastOfOne(bytes: Bytes)
    requires IsVarint(bytes) && |bytes| == 1
    ensures bytes[0] < 128
  {
  }

  /** The bytes from `pos` to `next` are a varint of at most eleven bytes that shows `value`. */
  predicate Holds(data: Bytes, pos: nat, next: nat, value: nat) {
    pos < next <= |data| && next - pos <= 11 && IsVarint(data[pos..next]) && Bits(data[pos..next]) == value
  }

  /** A varint is read exactly if one of at most eleven bytes stands there; it is too long if eleven bytes stand there
      that all go on, and truncated if fewer are left and all of them do. */
  lemma ReadingMeans(data: Bytes, pos: nat, value: nat, next: nat)
    requires pos <= |data|
    ensures ReadVarint(data, pos, 0) == Read(value, next) <==> Holds(data, pos, next, value)
    ensures ReadVarint(data, pos, 0) == Unreadable(VarintTooLong, next)
            <==> next == pos + 11 <= |data| && Continues(data[pos..next])
    ensures ReadVarint(data, pos, 0) == Unreadable(TruncatedVarint, next)
            <==> next == |data| < pos + 11 && Continues(data[pos..])
  {
    hide ReadVarint, IsVarint, Bits, Continues;
    ReadingFrom(data, pos, 0);
    assert data[pos..|data|] == data[pos..];
    var r := ReadVarint(data, pos, 0);
    if pos < next <= |data| {
      if r.Read? {
        OneEnd(data, pos, r.next, next);
        OneEnd(data, pos, next, r.next);
      } else {
        OneEnd(data, pos, next, r.next);
      }
    }
    if r.Read? {
      OneEnd(data, pos, r.next, |data|);
    }
  }

  /** What goes on up to `b`, or ends there as a varint, has no varint ending before. */
  lemma OneEnd(data: Bytes, pos: nat, a: nat, b: nat)
    requires pos < a <= |data| && pos <= b <= |data|
    ensures IsVarint(data[pos..a]) && Continues(data[pos..b]) ==> b < a
    ensures IsVarint(data[pos..a]) && IsVarint(data[pos..b]) ==> b <= a
  {
    if IsVarint(data[pos..a]) {
      assert data[a - 1] == data[pos..a][a - pos - 1] < 128;
      if a <= b {
        assert data[a - 1] == data[pos..b][a - pos - 1];
      }
      if a < b {
        assert data[a - 1] == data[pos..b][..b - pos - 1][a - pos - 1];
      }
    }
  }

  lemma {:induction false} ReadingFrom(data: Bytes, pos: nat, k: nat)
    requires pos <= |data| && k <= 10
    ensures match ReadVarint(data, pos, k)
            case Read(value, next) =>
              next - pos <= 11 - k && IsVarint(data[pos..next]) && Bits(data[pos..next]) == value
            case Unreadable(error, next) =>
              && Continues(data[pos..next])
              && if error == VarintTooLong then next == pos + 11 - k
                 else error == TruncatedVarint && next == |data| < pos + 11 - k
    decreases 10 - k
  {
    hide ReadVarint, IsVarint, Bits, Continues;
    VarintStep(data, pos, k);
    if pos == |data| {
      NothingContinues(data[pos..pos]);
    } else {
      if data[pos] < 128 {
        OneByte(data[pos..pos + 1]);
      } else if k == 10 {
        NothingContinues(data[pos + 1..pos + 1]);
        Behind(data, pos, pos + 1);
      } else {
        ReadingFrom(data, pos + 1, k + 1);
        Behind(data, pos, ReadVarint(data, pos + 1, k + 1).next);
      }
    }
  }

  lemma NothingContinues(bytes: Bytes)
    ensures bytes == [] ==> Continues(bytes)
  {
  }

  lemma Behind(data: Bytes, pos: nat, next: nat)
    requires pos < next <= |data| && data[pos] >= 128
    ensures IsVarint(data[pos..next]) <==> IsVarint(data[pos + 1..next])
    ensures Bits(data[pos..next]) == data[pos] - 128 + 128 * Bits(data[pos + 1..next])
    ensures Continues(data[pos..next]) <==> Continues(data[pos + 1..next])
  {
    hide IsVarint, Bits, Continues;
    assert data[pos..next][1..] == data[pos + 1..next];
    MoreBytes(data[pos..next]);
  }

  // ---- Fields -----------------------------------------------------------------------------------------

  /** A written field begins with the varint of eight times its number, plus two if it carries bytes; behind it stands
      the varint of its value, or of the number of bytes and then these. */
  lemma WrittenFields(f: Field) returns (key: Bytes, value: Bytes)
    requires Writable(f)
    ensures IsVarint(key) && Bits(key) == 8 * f.number + if f.VarintField? then 0 else 2
    ensures IsVarint(value) && Bits(value) == if f.VarintField? then f.value else |f.data|
    ensures EncodeField(f) == key + value + if f.VarintField? then [] else f.data
  {
    hide Varint, IsVarint, Bits;
    if f.VarintField? {
      key, value := Varint(f.number * 8), Varint(f.value);
      assert key + value + [] == key + value;
      WrittenVarints(f.number * 8);
      WrittenVarints(f.value);
    } else {
      key, value := Varint(f.number * 8 + 2), Varint(|f.data|);
      WrittenVarints(f.number * 8 + 2);
      WrittenVarints(|f.data|);
    }
  }

  /** Behind a key of eight times a number plus 0, 2, 5 or 1 the reader takes a varint, a varint and as many bytes, four
      bytes or eight bytes; it refuses any other key. */
  lemma ReadingFields(data: Bytes, pos: nat, number: nat, kind: nat, start: nat, value: nat, next: nat)
    requires kind < 8 && Holds(data, pos, start, 8 * number + kind)
    ensures kind == 0 && Holds(data, start, next, value) ==> ReadField(data, pos) == Got(VarintField(number, value), next)
    ensures kind == 2 && Holds(data, start, next, value) ==>
              ReadField(data, pos)
              == if next + value <= |data| then Got(Delimited(number, data[next..next + value]), next + value)
                 else Failed(TruncatedDelimited, next)
    ensures kind == 5 ==>
              ReadField(data, pos)
              == if start + 4 <= |data| then Got(Fixed32(number, data[start..start + 4]), start + 4)
                 else Failed(Truncated32, start)
    ensures kind == 1 ==>
              ReadField(data, pos)
              == if start + 8 <= |data| then Got(Fixed64(number, data[start..start + 8]), start + 8)
                 else Failed(Truncated64, start)
    ensures kind in {3, 4, 6, 7} ==> ReadField(data, pos) == Failed(UnsupportedWireType(kind), start)
    ensures kind in {0, 2} && ReadVarint(data, start, 0).Unreadable? ==>
              ReadField(data, pos) == Failed(ReadVarint(data, start, 0).error, ReadVarint(data, start, 0).next)
  {
    hide ReadVarint, IsVarint, Bits;
    ReadingMeans(data, pos, 8 * number + kind, start);
    ReadingMeans(data, start, value, next);
    KeySplits(number, kind);
    assert 8 * number + kind == number * 8 + kind;
  }

  /** An unreadable key is an unreadable field. */
  lemma UnreadableKeys(data: Bytes, pos: nat)
    requires pos < |data| && ReadVarint(data, pos, 0).Unreadable?
    ensures ReadField(data, pos) == Failed(ReadVarint(data, pos, 0).error, ReadVarint(data, pos, 0).next)
  {
    hide ReadVarint;
  }
}
