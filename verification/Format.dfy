/** The bytes themselves: what a dump file looks like to other programs. */
module Format {
  import opened Bytes
  import opened Record
  import opened Stream

  lemma TimesMore(d: nat, a: nat, b: nat)
    requires a < b
    ensures d * a + d <= d * b
  {
    assert d * b == d * a + d * (b - a);
    assert d * (b - a) == d + d * (b - a - 1);
  }

  lemma QuotientIs(x: nat, d: nat, q: nat, r: nat)
    requires d > 0 && x == d * q + r && r < d
    ensures x / d == q
  {
    var e := x / d;
    assert x == d * e + x % d;
    if e < q {
      TimesMore(d, e, q);
    } else if q < e {
      TimesMore(d, q, e);
    }
  }

  lemma DivideAndRest(y: nat, b: nat)
    requires b > 0
    ensures y == b * (y / b) + y % b && y % b < b
  {
  }

  lemma Regroup(b: nat, q: nat)
    ensures (0x100 * b) * q == 0x100 * (b * q)
  {
  }

  lemma DivideTwice(x: nat, b: nat)
    requires b > 0
    ensures (x / 0x100) / b == x / (0x100 * b)
  {
    var y := x / 0x100;
    var q, r := y / b, y % b;
    DivideAndRest(y, b);
    Regroup(b, q);
    QuotientIs(x, 0x100 * b, q, 0x100 * r + x % 0x100);
  }

  /** The byte order: the byte at place k is the one k places from the least significant end. */
  lemma {:induction false} ByteAt(x: nat, w: nat, k: nat)
    requires k < w
    ensures ToBytes(x, w)[k] == (x / Span(k)) % 0x100
    decreases w
  {
    if k > 0 {
      ByteAt(x / 0x100, w - 1, k - 1);
      DivideTwice(x, Span(k - 1));
    }
  }

  // ----- headers -----

  /** The ids of the fields in a file. */
  lemma FieldCodes()
    ensures FieldId(Id) == 0 && FieldId(StartTs) == 1 && FieldId(EndTs) == 2 && FieldId(Sector) == 3 &&
      FieldId(Size) == 4
    ensures FieldId(Op) == 5 && FieldId(Cpu) == 6 && FieldId(Status) == 7 && FieldId(Data) == 8
    ensures SCHEMA_DEFAULT == ALL_FIELDS[..8] && SCHEMA_PAYLOAD == ALL_FIELDS
  {
  }

  lemma SliceBehind(a: seq<byte>, b: seq<byte>, i: nat)
    requires |a| == 4 && i + 4 <= |b|
    ensures (a + b)[i + 4..i + 8] == b[i..i + 4]
  {
  }

  lemma Front(a: seq<byte>, b: seq<byte>)
    ensures (a + b)[..|a|] == a
  {
  }

  lemma {:induction false} IdLies(schema: Schema, from: nat, k: nat)
    requires from <= k < |schema|
    ensures IdsFrom(schema, from)[4 * (k - from)..4 * (k - from) + 4] == ToBytes(FieldId(schema[k]), 4)
    decreases k - from
  {
    var id, rest := ToBytes(FieldId(schema[from]), 4), IdsFrom(schema, from + 1);
    assert IdsFrom(schema, from) == id + rest;
    if from < k {
      IdLies(schema, from + 1, k);
      SliceBehind(id, rest, 4 * (k - from - 1));
    } else {
      assert (id + rest)[..4] == id;
    }
  }

  /** A header begins with the number of fields, four bytes. */
  lemma HeaderCount(schema: Schema)
    ensures HeaderBytes(schema)[..4] == ToBytes(|schema|, 4)
  {
    Front(ToBytes(|schema|, 4), IdsFrom(schema, 0));
  }

  /** Behind it are the ids of the fields, four bytes each. */
  lemma HeaderLayout(schema: Schema, k: nat)
    requires k < |schema|
    ensures HeaderBytes(schema)[4 * k + 4..4 * k + 8] == ToBytes(FieldId(schema[k]), 4)
  {
    IdLies(schema, 0, k);
    SliceBehind(ToBytes(|schema|, 4), IdsFrom(schema, 0), 4 * k);
  }

  // ----- records -----

  /** A record is its length, and then its fields, each where those before it end. */
  lemma RecordLayout(schema: Schema, info: Info, k: nat)
    requires ValidInfo(info) && k < |schema|
    ensures |RecordBytes(schema, info)| == 8 + SerialSize(schema, info)
    ensures Lies(RecordBytes(schema, info), 0, ToBytes(SerialSize(schema, info), 8))
    ensures Lies(RecordBytes(schema, info), 8 + SizeTo(schema, k, info), FieldBytes(schema[k], info))
  {
    var r := RecordBytes(schema, info);
    SerialSizeIsLength(schema, info);
    assert Lies(r, 8, FieldsBytes(schema, info));
    FieldLies(schema, k, info, r, 8);
  }

  lemma PlacesInRecord(info: Info)
    ensures SizeTo(SCHEMA_PAYLOAD, 0, info) == 0 && SizeTo(SCHEMA_PAYLOAD, 1, info) == 4
    ensures SizeTo(SCHEMA_PAYLOAD, 2, info) == 12 && SizeTo(SCHEMA_PAYLOAD, 3, info) == 20
    ensures SizeTo(SCHEMA_PAYLOAD, 4, info) == 28 && SizeTo(SCHEMA_PAYLOAD, 5, info) == 32
    ensures SizeTo(SCHEMA_PAYLOAD, 6, info) == 36 && SizeTo(SCHEMA_PAYLOAD, 7, info) == 40
    ensures SizeTo(SCHEMA_PAYLOAD, 8, info) == 41 && SerialSize(SCHEMA_PAYLOAD, info) == 49 + info.payload.size
  {
  }

  /** Signed numbers in two's complement. */
  function Unsigned64(x: s64): u64 {
    if x < 0 then x + 0x1_0000_0000_0000_0000 else x
  }

  function Unsigned32(x: s32): u32 {
    if x < 0 then x + 0x1_0000_0000 else x
  }

  /** Where the fields of a record are, the payload last. */
  const PLACES: seq<nat> := [8, 12, 20, 28, 36, 40, 44, 48, 49]

  /** And what is there. */
  function Expected(info: Info, k: nat): seq<byte>
    requires k < 8
  {
    match k
    case 0 => ToBytes(info.id, 4)
    case 1 => ToBytes(Unsigned64(info.startTs), 8)
    case 2 => ToBytes(Unsigned64(info.endTs), 8)
    case 3 => ToBytes(info.sector, 8)
    case 4 => ToBytes(info.size, 4)
    case 5 => ToBytes(info.op, 4)
    case 6 => ToBytes(Unsigned32(info.cpu), 4)
    case _ => [info.status]
  }

  lemma ScalarIsExpected(info: Info, k: nat)
    requires k < 8
    ensures SCHEMA_PAYLOAD[k] != Data && ScalarBytes(SCHEMA_PAYLOAD[k], info) == Expected(info, k)
  {
    Spans();
    assert ToBytes(info.status, 1) == [info.status];
  }

  lemma ScalarPlace(info: Info, k: nat)
    requires k < 9
    ensures SizeTo(SCHEMA_PAYLOAD, k, info) + 8 == PLACES[k]
  {
    PlacesInRecord(info);
  }

  lemma FieldLiesAt(schema: Schema, info: Info, k: nat, at: nat, bytes: seq<byte>)
    requires ValidInfo(info) && k < |schema| && 8 + SizeTo(schema, k, info) == at &&
      FieldBytes(schema[k], info) == bytes
    ensures Lies(RecordBytes(schema, info), at, bytes)
  {
    RecordLayout(schema, info, k);
  }

  /** A record with payload: every scalar at its place. */
  lemma PayloadRecordScalars(info: Info, k: nat)
    requires ValidInfo(info) && k < 8
    ensures Lies(RecordBytes(SCHEMA_PAYLOAD, info), PLACES[k], Expected(info, k))
  {
    ScalarPlace(info, k);
    ScalarIsExpected(info, k);
    FieldLiesAt(SCHEMA_PAYLOAD, info, k, PLACES[k], Expected(info, k));
  }

  /** Its length in front, and the size and the content of the payload at its end. */
  lemma PayloadRecordEnds(info: Info)
    requires ValidInfo(info)
    ensures |RecordBytes(SCHEMA_PAYLOAD, info)| == 57 + info.payload.size
    ensures Lies(RecordBytes(SCHEMA_PAYLOAD, info), 0, ToBytes(49 + info.payload.size, 8))
    ensures Lies(RecordBytes(SCHEMA_PAYLOAD, info), 49, ToBytes(info.payload.size, 8))
    ensures Lies(RecordBytes(SCHEMA_PAYLOAD, info), 57, Content(info.payload))
  {
    PlacesInRecord(info);
    RecordLayout(SCHEMA_PAYLOAD, info, 8);
    Halves(RecordBytes(SCHEMA_PAYLOAD, info), 49, ToBytes(info.payload.size, 8), Content(info.payload));
  }

  lemma DefaultPrefix(info: Info, k: nat)
    requires k <= 8
    ensures SizeTo(SCHEMA_DEFAULT, k, info) == SizeTo(SCHEMA_PAYLOAD, k, info)
  {
    if k > 0 {
      DefaultPrefix(info, k - 1);
    }
  }

  /** A record without payload: the same scalars at the same places, and nothing behind them. */
  lemma DefaultRecordScalars(info: Info, k: nat)
    requires ValidInfo(info) && k < 8
    ensures Lies(RecordBytes(SCHEMA_DEFAULT, info), PLACES[k], Expected(info, k))
  {
    DefaultPrefix(info, k);
    ScalarPlace(info, k);
    ScalarIsExpected(info, k);
    FieldLiesAt(SCHEMA_DEFAULT, info, k, PLACES[k], Expected(info, k));
  }

  lemma DefaultRecordEnds(info: Info)
    requires ValidInfo(info)
    ensures |RecordBytes(SCHEMA_DEFAULT, info)| == 49 && Lies(RecordBytes(SCHEMA_DEFAULT, info), 0, ToBytes(41, 8))
  {
    DefaultPrefix(info, 8);
    PlacesInRecord(info);
    RecordLayout(SCHEMA_DEFAULT, info, 0);
  }
}
