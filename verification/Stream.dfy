/** A dump file as a stream of records: writing them all, reading them one by one. */
module Stream {
  import opened Options
  import opened Bytes
  import opened Record

  const SIZE_T_SPAN := 0x1_0000_0000_0000_0000

  function Encoder(schema: Schema): Info -> seq<byte> {
    (info: Info) => RecordBytes(schema, info)
  }

  function Encoded(schema: Schema, infos: seq<Info>): (r: seq<seq<byte>>)
    ensures |r| == |infos|
  {
    Map(Encoder(schema), infos)
  }

  /** The records one after the other. */
  function RecordsBytes(schema: Schema, infos: seq<Info>): seq<byte> {
    EncodeAll(Encoder(schema), infos)
  }

  predicate AllStorable(schema: Schema, infos: seq<Info>) {
    forall i | 0 <= i < |infos| :: Storable(schema, infos[i])
  }

  lemma RecordsBytesAppend(schema: Schema, infos: seq<Info>, info: Info)
    ensures RecordsBytes(schema, infos + [info]) == RecordsBytes(schema, infos) + RecordBytes(schema, info)
  {
    EncodeAllAppend(Encoder(schema), infos, info);
  }

  lemma RecordsBytesConcat(schema: Schema, a: seq<Info>, b: seq<Info>)
    ensures RecordsBytes(schema, a + b) == RecordsBytes(schema, a) + RecordsBytes(schema, b)
  {
    EncodeAllConcat(Encoder(schema), a, b);
  }

  lemma RecordBytesSize(schema: Schema, info: Info)
    requires ValidInfo(info)
    ensures |RecordBytes(schema, info)| == SerialSize(schema, info) + 8
  {
    SerialSizeIsLength(schema, info);
  }

  // ----- reading -----

  /** The info that the generator hands to read_next: all zero. */
  const ZERO_INFO := Info(0, 0, 0, 0, 0, 0, 0, 0, Payload(0, []))

  /** serialized_size: the prefix plus its own width, in size_t arithmetic. */
  function SerializedSize(s: seq<byte>): (n: nat)
    requires |s| >= 8
  {
    (SizeAt(s, 0) + 8) % SIZE_T_SPAN
  }

  /** used is what the stream advances by; BadRecord is a record whose fields reach past its length. */
  datatype Parsed = Ok(info: Info, used: nat) | Empty | Err | BadRecord

  /** One read_next on the bytes still unread. */
  function ParseNext(schema: Schema, info: Info, rest: seq<byte>): (r: Parsed)
    ensures r.Ok? ==> |rest| >= 8 && 8 <= r.used <= SerializedSize(rest) <= |rest|
  {
    if |rest| < 8 then Empty
    else if |rest| < SerializedSize(rest) then Err
    else
      match ReadFields(Generator, schema, info, rest[..SerializedSize(rest)], 8)
      case Some(c) =>
        ReadFieldsAdvances(Generator, schema, info, rest[..SerializedSize(rest)], 8);
        if c.pos <= SerializedSize(rest) then Ok(c.info, c.pos) else BadRecord
      case None => BadRecord
  }

  lemma SizePrefix(schema: Schema, info: Info, rest: seq<byte>)
    requires Storable(schema, info) && Lies(rest, 0, ToBytes(SerialSize(schema, info), 8))
    ensures SerializedSize(rest) == SerialSize(schema, info) + 8 == |RecordBytes(schema, info)|
  {
    Spans();
    BytesRoundTrip(SerialSize(schema, info), 8, rest, 0);
    RecordBytesSize(schema, info);
  }

  /** What the generator ends up with when it reads a written record into a zeroed info. */
  function Replayed(schema: Schema, info: Info): Info {
    ReceivedAll(Generator, schema, ZERO_INFO, info)
  }

  /** A whole record is read back whole, and the stream advances by exactly its bytes. */
  lemma ParseWhole(schema: Schema, dst: Info, info: Info, rest: seq<byte>)
    requires Storable(schema, info) && Lies(rest, 0, RecordBytes(schema, info))
    ensures ParseNext(schema, dst, rest) ==
      Ok(ReceivedAll(Generator, schema, dst, info), |RecordBytes(schema, info)|)
  {
    Halves(rest, 0, ToBytes(SerialSize(schema, info), 8), FieldsBytes(schema, info));
    SizePrefix(schema, info, rest);
    SerialSizeIsLength(schema, info);
    var r := rest[..SerializedSize(rest)];
    assert Lies(r, 8, FieldsBytes(schema, info));
    FieldsRoundTrip(Generator, schema, dst, info, r, 8);
  }

  /**
   * What read_next answers, in terms of the bytes alone: empty when there is no whole length, an
   * error when there is less than the length says.
   */
  lemma ParseOutcomes(schema: Schema, dst: Info, rest: seq<byte>)
    ensures ParseNext(schema, dst, rest) == Empty <==> |rest| < 8
    ensures |rest| >= 8 && SizeAt(rest, 0) < SIZE_T_SPAN - 8 ==>
      (ParseNext(schema, dst, rest) == Err <==> |rest| < SizeAt(rest, 0) + 8)
  {
  }

  /**
   * The stream advances to where the fields end, not to where the length says that the record does:
   * of a record whose length claims more than its fields need, the rest is taken for the next record.
   */
  lemma ParseFollowsFields(schema: Schema, dst: Info, info: Info, rest: seq<byte>)
    requires ValidInfo(info) && |rest| >= 8 && SerialSize(schema, info) <= SizeAt(rest, 0)
    requires SizeAt(rest, 0) + 8 <= |rest| && SizeAt(rest, 0) < SIZE_T_SPAN - 8
    requires Lies(rest, 8, FieldsBytes(schema, info))
    ensures ParseNext(schema, dst, rest) ==
      Ok(ReceivedAll(Generator, schema, dst, info), 8 + SerialSize(schema, info))
  {
    SerialSizeIsLength(schema, info);
    var r := rest[..SerializedSize(rest)];
    assert Lies(r, 8, FieldsBytes(schema, info));
    FieldsRoundTrip(Generator, schema, dst, info, r, 8);
  }

  /** A record cut short reads as Empty when not even its length is there, and as Err otherwise. */
  lemma ParseCut(schema: Schema, dst: Info, info: Info, rest: seq<byte>)
    requires Storable(schema, info) && rest < RecordBytes(schema, info)
    ensures ParseNext(schema, dst, rest) == if |rest| < 8 then Empty else Err
  {
    if |rest| >= 8 {
      assert Lies(rest, 0, ToBytes(SerialSize(schema, info), 8)) by {
        Halves(RecordBytes(schema, info), 0, ToBytes(SerialSize(schema, info), 8), FieldsBytes(schema, info));
      }
      SizePrefix(schema, info, rest);
    }
  }

  /** Calling read_next until it delivers no record: the records, and what the last call said. */
  function ParseAll(schema: Schema, rest: seq<byte>): (seq<Info>, Parsed)
    decreases |rest|
  {
    match ParseNext(schema, ZERO_INFO, rest)
    case Ok(info, used) =>
      var (infos, last) := ParseAll(schema, rest[used..]);
      ([info] + infos, last)
    case other => ([], other)
  }

  function ReplayedAll(schema: Schema, infos: seq<Info>): (r: seq<Info>)
    ensures |r| == |infos|
  {
    seq(|infos|, i requires 0 <= i < |infos| => Replayed(schema, infos[i]))
  }

  /** A record followed by anything: it is delivered, and reading goes on behind it. */
  lemma ParseStep(schema: Schema, info: Info, tail: seq<byte>)
    requires Storable(schema, info)
    ensures ParseAll(schema, RecordBytes(schema, info) + tail) ==
      ([Replayed(schema, info)] + ParseAll(schema, tail).0, ParseAll(schema, tail).1)
  {
    var part := RecordBytes(schema, info);
    assert Lies(part + tail, 0, part);
    ParseWhole(schema, ZERO_INFO, info, part + tail);
    assert (part + tail)[|part|..] == tail;
  }

  /** What reading delivers from the i-th record on. */
  ghost function Suffixes(schema: Schema, infos: seq<Info>, tail: seq<byte>): nat -> (seq<Info>, Parsed) {
    (i: nat) => ParseAll(schema, if i <= |infos| then RecordsBytes(schema, infos[i..]) + tail else [])
  }

  ghost predicate Link(f: nat -> (seq<Info>, Parsed), gots: seq<Info>, i: nat)
    requires i < |gots|
  {
    f(i) == ([gots[i]] + f(i + 1).0, f(i + 1).1)
  }

  lemma {:induction false} Chain(f: nat -> (seq<Info>, Parsed), gots: seq<Info>, i: nat)
    requires i <= |gots| && forall k: nat | k < |gots| :: Link(f, gots, k)
    ensures f(i) == (gots[i..] + f(|gots|).0, f(|gots|).1)
    decreases |gots| - i
  {
    if i < |gots| {
      Chain(f, gots, i + 1);
      assert Link(f, gots, i);
      assert gots[i..] + f(|gots|).0 == [gots[i]] + (gots[i + 1..] + f(|gots|).0);
    } else {
      assert gots[i..] + f(|gots|).0 == f(|gots|).0;
    }
  }

  lemma RecordsBytesSplit(schema: Schema, infos: seq<Info>, i: nat)
    requires i < |infos|
    ensures RecordsBytes(schema, infos[i..]) == RecordBytes(schema, infos[i]) + RecordsBytes(schema, infos[i + 1..])
  {
    var parts := Encoded(schema, infos[i..]);
    assert parts[0] == RecordBytes(schema, infos[i]);
    assert parts[1..] == Encoded(schema, infos[i + 1..]);
  }

  lemma SuffixesLink(schema: Schema, infos: seq<Info>, tail: seq<byte>, i: nat)
    requires AllStorable(schema, infos) && i < |infos|
    ensures Link(Suffixes(schema, infos, tail), ReplayedAll(schema, infos), i)
  {
    RecordsBytesSplit(schema, infos, i);
    var rest := RecordsBytes(schema, infos[i + 1..]) + tail;
    assert RecordsBytes(schema, infos[i..]) + tail == RecordBytes(schema, infos[i]) + rest;
    ParseStep(schema, infos[i], rest);
  }

  /** Records followed by anything: all of them are delivered in order, and reading goes on behind them. */
  lemma ParseRecords(schema: Schema, infos: seq<Info>, tail: seq<byte>)
    requires AllStorable(schema, infos)
    ensures ParseAll(schema, RecordsBytes(schema, infos) + tail) ==
      (ReplayedAll(schema, infos) + ParseAll(schema, tail).0, ParseAll(schema, tail).1)
  {
    var f, gots := Suffixes(schema, infos, tail), ReplayedAll(schema, infos);
    forall i: nat | i < |gots| ensures Link(f, gots, i) {
      SuffixesLink(schema, infos, tail, i);
    }
    Chain(f, gots, 0);
    assert infos[0..] == infos && gots[0..] == gots;
    assert RecordsBytes(schema, infos[|infos|..]) + tail == tail;
  }

  lemma ParseLeftOver(schema: Schema, info: Info, rest: seq<byte>)
    requires Storable(schema, info) && rest < RecordBytes(schema, info)
    ensures ParseAll(schema, rest) == ([], if |rest| < 8 then Empty else Err)
  {
    ParseCut(schema, ZERO_INFO, info, rest);
  }

  /**
   * A file cut off after any byte of its records: the reader delivers exactly the records that
   * lie whole before the cut, in order, and then reports Empty if fewer than eight bytes are
   * left over and Err otherwise.
   */
  lemma ParseTruncated(schema: Schema, infos: seq<Info>, rest: seq<byte>) returns (k: nat)
    requires AllStorable(schema, infos) && rest <= RecordsBytes(schema, infos)
    ensures k <= |infos| && |RecordsBytes(schema, infos[..k])| <= |rest|
    ensures k < |infos| ==> |rest| < |RecordsBytes(schema, infos[..k + 1])|
    ensures ParseAll(schema, rest).0 == ReplayedAll(schema, infos[..k])
    ensures ParseAll(schema, rest).1 == if |rest| - |RecordsBytes(schema, infos[..k])| < 8 then Empty else Err
  {
    var parts := Encoded(schema, infos);
    k := WholeParts(parts, |rest|);
    WholePartsMeaning(parts, |rest|);
    var tail := LeftOver(parts, rest);
    assert Encoded(schema, infos[..k]) == parts[..k];
    ParseRecords(schema, infos[..k], tail);
    if k < |infos| {
      assert Encoded(schema, infos[..k + 1]) == parts[..k + 1];
      ParseLeftOver(schema, infos[k], tail);
    }
  }

  /** The whole file: every record, in order, then Empty. */
  lemma ParseWritten(schema: Schema, infos: seq<Info>)
    requires AllStorable(schema, infos)
    ensures ParseAll(schema, RecordsBytes(schema, infos)) == (ReplayedAll(schema, infos), Empty)
  {
    ParseRecords(schema, infos, []);
    assert RecordsBytes(schema, infos) + [] == RecordsBytes(schema, infos);
    assert ReplayedAll(schema, infos) + [] == ReplayedAll(schema, infos);
  }
}
