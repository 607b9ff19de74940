/** The JSON converter's reader: the whole file at once, payloads skipped, one info reused throughout. */
module WholeFile {
  import opened Options
  import opened Bytes
  import opened Record
  import opened Stream
  import opened Serial

  const REQ_OP_SPAN := 0x100

  /** info.op &= REQ_OP_MASK. */
  function Masked(info: Info): Info {
    info.(op := info.op % REQ_OP_SPAN)
  }

  function LastOr(infos: seq<Info>, info: Info): Info {
    if infos == [] then info else infos[|infos| - 1]
  }

  /** What is printed: every record is read into the info the one before it left behind. */
  function Converted(schema: Schema, infos: seq<Info>, info0: Info): (r: seq<Info>)
    ensures |r| == |infos|
  {
    if infos == [] then []
    else
      var before := Converted(schema, infos[..|infos| - 1], info0);
      before + [Masked(ReceivedAll(ToJson, schema, LastOr(before, info0), infos[|infos| - 1]))]
  }

  /** The loop advances by exactly one record, although it never looks at the length prefix. */
  lemma ConvertOne(schema: Schema, dst: Info, info: Info, s: seq<byte>)
    requires Storable(schema, info) && Lies(s, 0, RecordBytes(schema, info))
    ensures ReadFields(ToJson, schema, dst, s, 8) ==
      Some(Cursor(ReceivedAll(ToJson, schema, dst, info), |RecordBytes(schema, info)|))
  {
    Halves(s, 0, ToBytes(SerialSize(schema, info), 8), FieldsBytes(schema, info));
    SerialSizeIsLength(schema, info);
    FieldsRoundTrip(ToJson, schema, dst, info, s, 8);
  }

  /** Where in a file written with this schema the k-th record starts. */
  lemma NextRecordLies(schema: Schema, infos: seq<Info>, s: seq<byte>, k: nat)
    requires s == HeaderBytes(schema) + RecordsBytes(schema, infos) && k < |infos|
    ensures var at := |HeaderBytes(schema)| + |RecordsBytes(schema, infos[..k])|;
      at <= |s| && Lies(s[at..], 0, RecordBytes(schema, infos[k]))
  {
    assert infos == infos[..k] + infos[k..];
    RecordsBytesConcat(schema, infos[..k], infos[k..]);
    RecordsBytesSplit(schema, infos, k);
    LiesBehind(s, HeaderBytes(schema), RecordsBytes(schema, infos[..k]), RecordBytes(schema, infos[k]),
               RecordsBytes(schema, infos[k + 1..]));
  }

  lemma LiesBehind(s: seq<byte>, h: seq<byte>, a: seq<byte>, r: seq<byte>, b: seq<byte>)
    requires s == h + (a + (r + b))
    ensures |h| + |a| <= |s| && Lies(s[|h| + |a|..], 0, r)
  {
    assert s[|h| + |a|..] == r + b;
  }

  lemma RecordsGrow(schema: Schema, infos: seq<Info>, k: nat)
    requires k < |infos|
    ensures |RecordsBytes(schema, infos[..k + 1])| ==
      |RecordsBytes(schema, infos[..k])| + |RecordBytes(schema, infos[k])|
  {
    assert infos[..k + 1] == infos[..k] + [infos[k]];
    EncodeAllAppend(Encoder(schema), infos[..k], infos[k]);
  }

  lemma {:induction false} RecordsLeft(schema: Schema, infos: seq<Info>, k: nat)
    requires k <= |infos|
    ensures |RecordsBytes(schema, infos[..k])| + 8 * (|infos| - k) <= |RecordsBytes(schema, infos)|
    decreases |infos| - k
  {
    if k < |infos| {
      RecordsLeft(schema, infos, k + 1);
      RecordsGrow(schema, infos, k);
    } else {
      assert infos[..k] == infos;
    }
  }

  /** parse_dump_file on a well-formed file; the loop ends because every turn eats at least a prefix. */
  method ParseDumpFile(buf: array<byte>, info0: Info, ghost schema: Schema, ghost infos: seq<Info>)
    returns (printed: seq<Info>)
    requires |schema| < 0x1_0000_0000 && AllStorable(schema, infos)
    requires buf[..] == HeaderBytes(schema) + RecordsBytes(schema, infos)
    ensures printed == Converted(schema, infos, info0)
  {
    ghost var s := buf[..];
    assert buf[..buf.Length] == s && Lies(s, 0, HeaderBytes(schema));
    HeaderRoundTrip(schema, s);
    var h, bufOffset := DeserializeSchema(buf, buf.Length);
    var info := info0;
    assert infos[..|infos|] == infos;
    printed := [];
    ghost var k := 0;
    while bufOffset != buf.Length
      invariant k <= |infos| && bufOffset == |HeaderBytes(schema)| + |RecordsBytes(schema, infos[..k])| <= buf.Length
      invariant printed == Converted(schema, infos[..k], info0) && info == LastOr(printed, info0)
      decreases buf.Length - bufOffset
    {
      NextRecordLies(schema, infos, s, k);
      ConvertOne(schema, info, infos[k], s[bufOffset..]);
      assert buf[bufOffset..buf.Length] == s[bufOffset..];
      RecordsGrow(schema, infos, k);
      RecordsLeft(schema, infos, k + 1);
      RecordBytesSize(schema, infos[k]);
      var n;
      info, n := Deserialize(ToJson, h.schema, info, buf, bufOffset, buf.Length);
      bufOffset := bufOffset + n;
      info := Masked(info);
      printed := printed + [info];
      assert infos[..k + 1][..k] == infos[..k];
      k := k + 1;
    }
    RecordsLeft(schema, infos, k);
    assert infos[..k] == infos;
  }

  /** Where the two readers must agree on a field the schema lists. */
  predicate SameField(f: Field, converted: Info, replayed: Info) {
    if f == Data then converted.payload.size == replayed.payload.size
    else if f == Op then converted.op == replayed.op % 0x100
    else Scalar(f, converted) == Scalar(f, replayed)
  }

  lemma {:induction false} ConvertedAt(schema: Schema, infos: seq<Info>, info0: Info, i: nat) returns (dst: Info)
    requires i < |infos|
    ensures Converted(schema, infos, info0)[i] == Masked(ReceivedAll(ToJson, schema, dst, infos[i]))
    decreases |infos|
  {
    if i < |infos| - 1 {
      dst := ConvertedAt(schema, infos[..|infos| - 1], info0, i);
    } else {
      dst := LastOr(Converted(schema, infos[..|infos| - 1], info0), info0);
    }
  }

  /**
   * The two readers agree: on any file of any schema the converter prints, record by record, what
   * the generator replays, up to the operation mask, although it reuses one info and skips payloads.
   */
  lemma ReadersAgree(schema: Schema, infos: seq<Info>, info0: Info, i: nat, f: Field)
    requires AllStorable(schema, infos) && i < |infos| && f in schema
    ensures SameField(f, Converted(schema, infos, info0)[i], ReplayedAll(schema, infos)[i])
  {
    var dst := ConvertedAt(schema, infos, info0, i);
    ConvertedIsRestored(schema, dst, infos[i], f);
    ReceivedIsRestored(schema, ZERO_INFO, infos[i], f);
    if f == Data {
      ReceivedSize(schema, ZERO_INFO, infos[i]);
    }
  }
}
