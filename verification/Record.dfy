/**
 * Trace records, schemas, and the byte format of a dump file: the schema as a header, then the
 * records, each prefixed with the number of bytes that follow.
 */
module Record {
  import opened Options
  import opened Bytes

  /** segs are the bio's segments when a record is written, and one buffer when it is read. */
  datatype Payload = Payload(size: u64, segs: seq<seq<byte>>)

  datatype Info = Info(cpu: s32, id: u32, startTs: s64, endTs: s64, sector: u64, size: u32, op: u32,
                       status: byte, payload: Payload)

  datatype Field = Id | StartTs | EndTs | Sector | Size | Op | Cpu | Status | Data

  type Schema = seq<Field>

  /** blgy_prxy_bio_serial_schema_all. */
  const ALL_FIELDS: Schema := [Id, StartTs, EndTs, Sector, Size, Op, Cpu, Status, Data]

  const SCHEMA_DEFAULT: Schema := [Id, StartTs, EndTs, Sector, Size, Op, Cpu, Status]
  const SCHEMA_PAYLOAD: Schema := [Id, StartTs, EndTs, Sector, Size, Op, Cpu, Status, Data]

  function SchemaFor(payload: bool): Schema {
    if payload then SCHEMA_PAYLOAD else SCHEMA_DEFAULT
  }

  function FieldId(f: Field): (id: u32)
    ensures id < |ALL_FIELDS| && ALL_FIELDS[id] == f
  {
    match f
    case Id => 0
    case StartTs => 1
    case EndTs => 2
    case Sector => 3
    case Size => 4
    case Op => 5
    case Cpu => 6
    case Status => 7
    case Data => 8
  }

  // ----- scalar fields -----

  function Width(f: Field): nat
    requires f != Data
  {
    match f
    case StartTs => 8
    case EndTs => 8
    case Sector => 8
    case Status => 1
    case Id => 4
    case Size => 4
    case Op => 4
    case Cpu => 4
  }

  function Scalar(f: Field, info: Info): (x: int)
    requires f != Data
  {
    match f
    case Id => info.id
    case StartTs => info.startTs
    case EndTs => info.endTs
    case Sector => info.sector
    case Size => info.size
    case Op => info.op
    case Cpu => info.cpu
    case Status => info.status
  }

  function ScalarBytes(f: Field, info: Info): (s: seq<byte>)
    requires f != Data
    ensures |s| == Width(f)
  {
    Spans();
    ToBytes(Wrap(Scalar(f, info), Width(f)), Width(f))
  }

  /** info with the field f read from its bytes at pos. */
  function WithScalar(f: Field, info: Info, s: seq<byte>, pos: nat): Info
    requires f != Data && pos + Width(f) <= |s|
  {
    FromBytesBound(s, pos, Width(f));
    Spans();
    var x := FromBytes(s, pos, Width(f));
    match f
    case Id => info.(id := x)
    case StartTs => info.(startTs := Unwrap(x, 8))
    case EndTs => info.(endTs := Unwrap(x, 8))
    case Sector => info.(sector := x)
    case Size => info.(size := x)
    case Op => info.(op := x)
    case Cpu => info.(cpu := Unwrap(x, 4))
    case Status => info.(status := x)
  }

  // ----- the payload -----

  function Content(p: Payload): seq<byte> {
    if p.size == 0 then [] else Flatten(p.segs)
  }

  /** The segments of the bio add up to the size recorded for them. */
  predicate ValidInfo(info: Info) {
    info.payload.size > 0 ==> |Flatten(info.payload.segs)| == info.payload.size
  }

  function PayloadBytes(p: Payload): seq<byte> {
    ToBytes(p.size, 8) + Content(p)
  }

  // ----- fields and records -----

  function FieldSize(f: Field, info: Info): nat {
    if f == Data then info.payload.size + 8 else Width(f)
  }

  function FieldBytes(f: Field, info: Info): seq<byte> {
    if f == Data then PayloadBytes(info.payload) else ScalarBytes(f, info)
  }

  /** The size of the first k fields: where the k-th one starts. */
  function SizeTo(schema: Schema, k: nat, info: Info): nat
    requires k <= |schema|
  {
    if k == 0 then 0 else SizeTo(schema, k - 1, info) + FieldSize(schema[k - 1], info)
  }

  function SerialSize(schema: Schema, info: Info): nat { SizeTo(schema, |schema|, info) }

  function FieldEncoder(info: Info): Field -> seq<byte> {
    (f: Field) => FieldBytes(f, info)
  }

  /** The fields one after the other. */
  function FieldsBytes(schema: Schema, info: Info): seq<byte> {
    EncodeAll(FieldEncoder(info), schema)
  }

  function RecordBytes(schema: Schema, info: Info): seq<byte> {
    ToBytes(SerialSize(schema, info), 8) + FieldsBytes(schema, info)
  }

  /** A record that fits in the address space, its length prefix included. */
  predicate Storable(schema: Schema, info: Info) {
    ValidInfo(info) && SerialSize(schema, info) + 8 < 0x1_0000_0000_0000_0000
  }

  lemma FieldBytesSize(f: Field, info: Info)
    requires ValidInfo(info)
    ensures |FieldBytes(f, info)| == FieldSize(f, info)
  {
  }

  lemma FieldsBytesAppend(schema: Schema, k: nat, info: Info)
    requires k < |schema|
    ensures FieldsBytes(schema[..k + 1], info) == FieldsBytes(schema[..k], info) + FieldBytes(schema[k], info)
  {
    assert schema[..k + 1] == schema[..k] + [schema[k]];
    EncodeAllAppend(FieldEncoder(info), schema[..k], schema[k]);
  }

  lemma {:induction false} SizeToIsLength(schema: Schema, k: nat, info: Info)
    requires ValidInfo(info) && k <= |schema|
    ensures |FieldsBytes(schema[..k], info)| == SizeTo(schema, k, info)
  {
    if k > 0 {
      SizeToIsLength(schema, k - 1, info);
      FieldsBytesAppend(schema, k - 1, info);
      FieldBytesSize(schema[k - 1], info);
    }
  }

  /** serial_size predicts exactly what serialize advances by. */
  lemma SerialSizeIsLength(schema: Schema, info: Info)
    requires ValidInfo(info)
    ensures |FieldsBytes(schema, info)| == SerialSize(schema, info)
  {
    assert schema[..|schema|] == schema;
    SizeToIsLength(schema, |schema|, info);
  }

  // ----- the two reading builds -----

  /** The generator copies the payload; the JSON converter only reads its size and skips it. */
  datatype Build = Generator | ToJson

  /** Reading field f of a record at pos into info; None when that reads past the end. */
  function DecodeField(b: Build, f: Field, info: Info, s: seq<byte>, pos: nat): Option<Info> {
    if f != Data then
      if pos + Width(f) > |s| then None else Some(WithScalar(f, info, s, pos))
    else if pos + 8 > |s| then None
    else
      var size := SizeAt(s, pos);
      if b == ToJson then Some(info.(payload := info.payload.(size := size)))
      else if size == 0 then Some(info.(payload := Payload(0, [])))
      else if pos + 8 + size > |s| then None
      else Some(info.(payload := Payload(size, [s[pos + 8..pos + 8 + size]])))
  }

  function SizeAt(s: seq<byte>, pos: nat): u64
    requires pos + 8 <= |s|
  {
    FromBytesBound(s, pos, 8);
    Spans();
    FromBytes(s, pos, 8)
  }

  /** The info read so far and where the next byte is. */
  datatype Cursor = Cursor(info: Info, pos: nat)

  /** One turn of the reading loop over a schema. */
  function FieldReader(b: Build, schema: Schema, s: seq<byte>): (nat, Cursor) -> Option<Cursor> {
    (k: nat, c: Cursor) =>
      if k >= |schema| then None
      else
        match DecodeField(b, schema[k], c.info, s, c.pos)
        case None => None
        case Some(info) => Some(Cursor(info, c.pos + FieldSize(schema[k], info)))
  }

  /** Reading all fields of a schema from pos on into info. */
  function ReadFields(b: Build, schema: Schema, info: Info, s: seq<byte>, pos: nat): Option<Cursor> {
    Repeat(FieldReader(b, schema, s), 0, |schema|, Cursor(info, pos))
  }

  /** dst with field f taken over from src, as far as the build takes it over. */
  function Received(b: Build, f: Field, dst: Info, src: Info): Info {
    match f
    case Id => dst.(id := src.id)
    case StartTs => dst.(startTs := src.startTs)
    case EndTs => dst.(endTs := src.endTs)
    case Sector => dst.(sector := src.sector)
    case Size => dst.(size := src.size)
    case Op => dst.(op := src.op)
    case Cpu => dst.(cpu := src.cpu)
    case Status => dst.(status := src.status)
    case Data =>
      if b == ToJson then dst.(payload := dst.payload.(size := src.payload.size))
      else dst.(payload := Payload(src.payload.size, if src.payload.size == 0 then [] else [Content(src.payload)]))
  }

  /** dst with the first k fields taken over from src, one after the other. */
  function ReceivedTo(b: Build, schema: Schema, k: nat, dst: Info, src: Info): Info
    requires k <= |schema|
  {
    if k == 0 then dst else Received(b, schema[k - 1], ReceivedTo(b, schema, k - 1, dst, src), src)
  }

  function ReceivedAll(b: Build, schema: Schema, dst: Info, src: Info): Info {
    ReceivedTo(b, schema, |schema|, dst, src)
  }

  lemma ScalarRoundTrip(f: Field, dst: Info, src: Info, s: seq<byte>, pos: nat)
    requires f != Data && Lies(s, pos, ScalarBytes(f, src))
    ensures WithScalar(f, dst, s, pos) == Received(Generator, f, dst, src) == Received(ToJson, f, dst, src)
  {
    Spans();
    BytesRoundTrip(Wrap(Scalar(f, src), Width(f)), Width(f), s, pos);
  }

  lemma PayloadRoundTrip(p: Payload, s: seq<byte>, pos: nat)
    requires (p.size > 0 ==> |Flatten(p.segs)| == p.size) && Lies(s, pos, PayloadBytes(p))
    ensures |PayloadBytes(p)| == 8 + p.size && SizeAt(s, pos) == p.size
    ensures s[pos + 8..pos + 8 + p.size] == Content(p)
  {
    Spans();
    Halves(s, pos, ToBytes(p.size, 8), Content(p));
    BytesRoundTrip(p.size, 8, s, pos);
  }

  lemma FieldRoundTrip(b: Build, f: Field, dst: Info, src: Info, s: seq<byte>, pos: nat)
    requires ValidInfo(src) && Lies(s, pos, FieldBytes(f, src))
    ensures DecodeField(b, f, dst, s, pos) == Some(Received(b, f, dst, src))
    ensures FieldSize(f, Received(b, f, dst, src)) == FieldSize(f, src)
  {
    if f != Data {
      ScalarRoundTrip(f, dst, src, s, pos);
    } else {
      PayloadRoundTrip(src.payload, s, pos);
    }
  }

  lemma FieldLies(schema: Schema, k: nat, src: Info, s: seq<byte>, pos: nat)
    requires k < |schema| && ValidInfo(src) && Lies(s, pos, FieldsBytes(schema, src))
    ensures Lies(s, pos + SizeTo(schema, k, src), FieldBytes(schema[k], src))
  {
    var parts := Map(FieldEncoder(src), schema);
    PartLies(s, pos, parts, k);
    assert parts[..k] == Map(FieldEncoder(src), schema[..k]);
    SizeToIsLength(schema, k, src);
  }

  /** Where the reading loop is after k turns over a written record. */
  ghost function Progress(b: Build, schema: Schema, dst: Info, src: Info, pos: nat): nat -> Cursor {
    (k: nat) =>
      if k <= |schema|
      then Cursor(ReceivedTo(b, schema, k, dst, src), pos + SizeTo(schema, k, src))
      else Cursor(dst, pos)
  }

  /** One turn of the reading loop over a written field, whatever has been read before. */
  lemma ReaderTurn(b: Build, schema: Schema, src: Info, s: seq<byte>, k: nat, c: Cursor)
    requires k < |schema| && ValidInfo(src) && Lies(s, c.pos, FieldBytes(schema[k], src))
    ensures FieldReader(b, schema, s)(k, c) ==
      Some(Cursor(Received(b, schema[k], c.info, src), c.pos + FieldSize(schema[k], src)))
  {
    FieldRoundTrip(b, schema[k], c.info, src, s, c.pos);
  }

  lemma ProgressTurn(b: Build, schema: Schema, dst: Info, src: Info, pos: nat, k: nat, c: Cursor)
    requires k < |schema| && c == Cursor(ReceivedTo(b, schema, k, dst, src), pos + SizeTo(schema, k, src))
    ensures Progress(b, schema, dst, src, pos)(k) == c
    ensures Progress(b, schema, dst, src, pos)(k + 1) ==
      Cursor(Received(b, schema[k], c.info, src), c.pos + FieldSize(schema[k], src))
  {
  }

  lemma ReaderStep(b: Build, schema: Schema, dst: Info, src: Info, s: seq<byte>, pos: nat, k: nat)
    requires k < |schema| && ValidInfo(src) && Lies(s, pos, FieldsBytes(schema, src))
    ensures StepsTo(FieldReader(b, schema, s), Progress(b, schema, dst, src, pos), k)
  {
    var c := Cursor(ReceivedTo(b, schema, k, dst, src), pos + SizeTo(schema, k, src));
    var c' := Cursor(Received(b, schema[k], c.info, src), c.pos + FieldSize(schema[k], src));
    FieldLies(schema, k, src, s, pos);
    ReaderTurn(b, schema, src, s, k, c);
    ProgressTurn(b, schema, dst, src, pos, k, c);
    StepIs(FieldReader(b, schema, s), Progress(b, schema, dst, src, pos), k, c, c');
  }

  lemma ProgressEnds(b: Build, schema: Schema, dst: Info, src: Info, pos: nat)
    ensures Progress(b, schema, dst, src, pos)(0) == Cursor(dst, pos)
    ensures Progress(b, schema, dst, src, pos)(|schema|) ==
      Cursor(ReceivedAll(b, schema, dst, src), pos + SerialSize(schema, src))
  {
  }

  /** The reading loop as a whole goes along the path that its turns go along. */
  lemma ReaderFollows(b: Build, schema: Schema, dst: Info, src: Info, s: seq<byte>, pos: nat)
    requires ValidInfo(src) && Lies(s, pos, FieldsBytes(schema, src))
    ensures Repeat(FieldReader(b, schema, s), 0, |schema|, Progress(b, schema, dst, src, pos)(0)) ==
      Some(Progress(b, schema, dst, src, pos)(|schema|))
  {
    var step, path := FieldReader(b, schema, s), Progress(b, schema, dst, src, pos);
    forall k: nat | k < |schema| ensures StepsTo(step, path, k) {
      ReaderStep(b, schema, dst, src, s, pos, k);
    }
    RepeatFollows(step, path, 0, |schema|);
  }

  /**
   * Deserialize after serialize, for any schema: every listed field is taken over, and reading
   * stops exactly where the record ends, although the width of the payload is only known once
   * its size has been read.
   */
  lemma FieldsRoundTrip(b: Build, schema: Schema, dst: Info, src: Info, s: seq<byte>, pos: nat)
    requires ValidInfo(src) && Lies(s, pos, FieldsBytes(schema, src))
    ensures ReadFields(b, schema, dst, s, pos) ==
      Some(Cursor(ReceivedAll(b, schema, dst, src), pos + SerialSize(schema, src)))
  {
    ReaderFollows(b, schema, dst, src, s, pos);
    ProgressEnds(b, schema, dst, src, pos);
  }

  lemma ReadFieldsAdvances(b: Build, schema: Schema, info: Info, s: seq<byte>, pos: nat)
    requires ReadFields(b, schema, info, s, pos).Some?
    ensures ReadFields(b, schema, info, s, pos).value.pos >= pos
  {
    RepeatKeeps(FieldReader(b, schema, s), (c: Cursor) => c.pos >= pos, 0, |schema|, Cursor(info, pos));
  }

  // ----- what a received record says -----

  datatype Value = Number(x: int) | Blob(bytes: seq<byte>)

  function ValueOf(f: Field, info: Info): Value {
    if f == Data then Blob(Content(info.payload)) else Number(Scalar(f, info))
  }

  lemma {:induction false} UnlistedKept(b: Build, schema: Schema, k: nat, dst: Info, src: Info, f: Field)
    requires k <= |schema| && f !in schema[..k]
    ensures f != Data ==> Scalar(f, ReceivedTo(b, schema, k, dst, src)) == Scalar(f, dst)
    ensures f == Data ==> ReceivedTo(b, schema, k, dst, src).payload == dst.payload
  {
    if k > 0 {
      assert schema[..k] == schema[..k - 1] + [schema[k - 1]];
      UnlistedKept(b, schema, k - 1, dst, src, f);
    }
  }

  lemma ReceivedValue(f: Field, g: Field, dst: Info, src: Info)
    requires ValidInfo(src)
    ensures ValueOf(f, Received(Generator, g, dst, src)) == ValueOf(f, if f == g then src else dst)
  {
    assert Flatten([Content(src.payload)]) == Content(src.payload) + Flatten([]);
  }

  lemma {:induction false} ReceivedValues(schema: Schema, k: nat, dst: Info, src: Info, f: Field)
    requires ValidInfo(src) && k <= |schema|
    ensures ValueOf(f, ReceivedTo(Generator, schema, k, dst, src)) == ValueOf(f, if f in schema[..k] then src else dst)
  {
    if k > 0 {
      assert schema[..k] == schema[..k - 1] + [schema[k - 1]];
      ReceivedValues(schema, k - 1, dst, src, f);
      ReceivedValue(f, schema[k - 1], ReceivedTo(Generator, schema, k - 1, dst, src), src);
    }
  }

  /** Every listed field carries the written value, and every unlisted one is left alone. */
  lemma ReceivedIsRestored(schema: Schema, dst: Info, src: Info, f: Field)
    requires ValidInfo(src)
    ensures ValueOf(f, ReceivedAll(Generator, schema, dst, src)) == ValueOf(f, if f in schema then src else dst)
  {
    assert schema[..|schema|] == schema;
    ReceivedValues(schema, |schema|, dst, src, f);
  }

  lemma {:induction false} ConvertedValues(schema: Schema, k: nat, dst: Info, src: Info, f: Field)
    requires k <= |schema|
    ensures f != Data ==>
      Scalar(f, ReceivedTo(ToJson, schema, k, dst, src)) == Scalar(f, if f in schema[..k] then src else dst)
    ensures ReceivedTo(ToJson, schema, k, dst, src).payload ==
      dst.payload.(size := if Data in schema[..k] then src.payload.size else dst.payload.size)
  {
    if k > 0 {
      assert schema[..k] == schema[..k - 1] + [schema[k - 1]];
      ConvertedValues(schema, k - 1, dst, src, f);
    }
  }

  /** The converter gets the same scalars, and of the payload only its size. */
  lemma ConvertedIsRestored(schema: Schema, dst: Info, src: Info, f: Field)
    ensures f != Data ==>
      Scalar(f, ReceivedAll(ToJson, schema, dst, src)) == Scalar(f, if f in schema then src else dst)
    ensures ReceivedAll(ToJson, schema, dst, src).payload ==
      dst.payload.(size := if Data in schema then src.payload.size else dst.payload.size)
  {
    assert schema[..|schema|] == schema;
    ConvertedValues(schema, |schema|, dst, src, f);
  }

  lemma {:induction false} ReceivedSizes(schema: Schema, k: nat, dst: Info, src: Info)
    requires k <= |schema| && Data in schema[..k]
    ensures ReceivedTo(Generator, schema, k, dst, src).payload.size == src.payload.size
  {
    assert schema[..k] == schema[..k - 1] + [schema[k - 1]];
    if schema[k - 1] != Data {
      ReceivedSizes(schema, k - 1, dst, src);
    }
  }

  lemma ReceivedSize(schema: Schema, dst: Info, src: Info)
    requires Data in schema
    ensures ReceivedAll(Generator, schema, dst, src).payload.size == src.payload.size
  {
    assert schema[..|schema|] == schema;
    ReceivedSizes(schema, |schema|, dst, src);
  }

  // ----- the header -----

  function IdsFrom(schema: Schema, k: nat): (s: seq<byte>)
    requires k <= |schema|
    ensures |s| == 4 * (|schema| - k)
    decreases |schema| - k
  {
    if k == |schema| then [] else ToBytes(FieldId(schema[k]), 4) + IdsFrom(schema, k + 1)
  }

  function HeaderBytes(schema: Schema): (s: seq<byte>)
    ensures |s| == 4 + 4 * |schema|
  {
    ToBytes(|schema|, 4) + IdsFrom(schema, 0)
  }

  /** EINVAL for an unknown id; Short when the ids reach past the bytes given. */
  datatype Header = Invalid | Short | Header(schema: Schema)

  function WordAt(s: seq<byte>, pos: nat): u32
    requires pos + 4 <= |s|
  {
    FromBytesBound(s, pos, 4);
    Spans();
    FromBytes(s, pos, 4)
  }

  /** The ids still to read, appended to the fields already found. */
  function DecodeIds(s: seq<byte>, pos: nat, count: nat, found: Schema): Header
    decreases count
  {
    if count == 0 then Header(found)
    else if pos + 4 > |s| then Short
    else if WordAt(s, pos) >= |ALL_FIELDS| then Invalid
    else DecodeIds(s, pos + 4, count - 1, found + [ALL_FIELDS[WordAt(s, pos)]])
  }

  function DecodeHeader(s: seq<byte>): Header {
    if |s| < 4 then Short else DecodeIds(s, 4, WordAt(s, 0), [])
  }

  lemma WordRoundTrip(s: seq<byte>, pos: nat, x: u32)
    requires Lies(s, pos, ToBytes(x, 4))
    ensures WordAt(s, pos) == x
  {
    Spans();
    BytesRoundTrip(x, 4, s, pos);
  }

  lemma {:induction false} IdsRoundTrip(schema: Schema, k: nat, s: seq<byte>, pos: nat)
    requires k <= |schema| && Lies(s, pos, IdsFrom(schema, k))
    ensures DecodeIds(s, pos, |schema| - k, schema[..k]) == Header(schema)
    decreases |schema| - k
  {
    if k < |schema| {
      Halves(s, pos, ToBytes(FieldId(schema[k]), 4), IdsFrom(schema, k + 1));
      WordRoundTrip(s, pos, FieldId(schema[k]));
      IdsRoundTrip(schema, k + 1, s, pos + 4);
      assert schema[..k + 1] == schema[..k] + [schema[k]];
    } else {
      assert schema[..k] == schema;
    }
  }

  /** The schema in the header of a file is the schema the file was written with. */
  lemma HeaderRoundTrip(schema: Schema, s: seq<byte>)
    requires |schema| < 0x1_0000_0000 && Lies(s, 0, HeaderBytes(schema))
    ensures DecodeHeader(s) == Header(schema)
  {
    Halves(s, 0, ToBytes(|schema|, 4), IdsFrom(schema, 0));
    WordRoundTrip(s, 0, |schema|);
    IdsRoundTrip(schema, 0, s, 4);
  }
}
