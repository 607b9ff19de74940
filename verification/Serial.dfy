/** The serializer as it runs: loops that copy bytes into and out of buffers. */
module Serial {
  import opened Options
  import opened Bytes
  import opened Record
  import opened Stream

  // ----- memory -----

  /** s with the bytes a written over it at the given place. */
  function Patch(s: seq<byte>, at: nat, a: seq<byte>): (r: seq<byte>)
    requires at + |a| <= |s|
    ensures |r| == |s|
  {
    s[..at] + a + s[at + |a|..]
  }

  lemma PatchPatch(s: seq<byte>, at: nat, a: seq<byte>, b: seq<byte>)
    requires at + |a| + |b| <= |s|
    ensures Patch(Patch(s, at, a), at + |a|, b) == Patch(s, at, a + b)
  {
  }

  lemma PatchSlices(s: seq<byte>, at: nat, a: seq<byte>)
    requires at + |a| <= |s|
    ensures Patch(s, at, a)[..at] == s[..at] && Patch(s, at, a)[at..at + |a|] == a
  {
  }

  method CopyIn(buf: array<byte>, at: nat, src: seq<byte>)
    requires at + |src| <= buf.Length
    modifies buf
    ensures buf[..] == Patch(old(buf[..]), at, src)
  {
    ghost var was := buf[..];
    for i := 0 to |src|
      invariant buf[..] == Patch(was, at, src[..i])
    {
      buf[at + i] := src[i];
      assert src[..i + 1] == src[..i] + [src[i]];
    }
    assert src[..|src|] == src;
  }

  /** memcpy to the front of the same buffer; source and target may overlap, so it goes upwards. */
  method MoveToFront(buf: array<byte>, from: nat, count: nat)
    requires from + count <= buf.Length
    modifies buf
    ensures buf[..count] == old(buf[from..from + count])
  {
    ghost var window := buf[from..from + count];
    for k := 0 to count
      invariant forall l | 0 <= l < k :: buf[l] == window[l]
      invariant forall l | from + k <= l < from + count :: buf[l] == window[l - from]
    {
      buf[k] := buf[from + k];
    }
  }

  // ----- writing -----

  /** The payload goes out segment by segment, after its size; a bio that is no write has no payload. */
  method SerializePayload(p: Payload, buf: array<byte>, at: nat)
    requires at + |PayloadBytes(p)| <= buf.Length
    modifies buf
    ensures buf[..] == Patch(old(buf[..]), at, PayloadBytes(p))
  {
    ghost var was := buf[..];
    CopyIn(buf, at, ToBytes(p.size, 8));
    var offset := 8;
    if p.size == 0 {
      assert PayloadBytes(p) == ToBytes(p.size, 8);
      return;
    }
    ghost var written: seq<byte> := [];
    assert ToBytes(p.size, 8) + [] == ToBytes(p.size, 8);
    for i := 0 to |p.segs|
      invariant written == Flatten(p.segs[..i]) && offset == 8 + |written|
      invariant offset + |Flatten(p.segs[i..])| == |PayloadBytes(p)|
      invariant buf[..] == Patch(was, at, ToBytes(p.size, 8) + written)
    {
      assert p.segs[i..][1..] == p.segs[i + 1..];
      assert p.segs[..i + 1] == p.segs[..i] + [p.segs[i]];
      FlattenAppend(p.segs[..i], p.segs[i]);
      PatchPatch(was, at, ToBytes(p.size, 8) + written, p.segs[i]);
      Associative(ToBytes(p.size, 8), written, p.segs[i]);
      CopyIn(buf, at + offset, p.segs[i]);
      offset := offset + |p.segs[i]|;
      written := written + p.segs[i];
    }
    assert p.segs[..|p.segs|] == p.segs;
  }

  method SerializeField(f: Field, info: Info, buf: array<byte>, at: nat)
    requires at + |FieldBytes(f, info)| <= buf.Length
    modifies buf
    ensures buf[..] == Patch(old(buf[..]), at, FieldBytes(f, info))
  {
    if f == Data {
      SerializePayload(info.payload, buf, at);
    } else {
      CopyIn(buf, at, ScalarBytes(f, info));
    }
  }

  method SerialSizeOf(schema: Schema, info: Info) returns (size: nat)
    ensures size == SerialSize(schema, info)
  {
    size := 0;
    var offset := 0;
    while offset < |schema|
      invariant offset <= |schema|
      invariant size == SizeTo(schema, offset, info)
    {
      size := size + FieldSize(schema[offset], info);
      offset := offset + 1;
    }
  }

  method SerializeFields(schema: Schema, info: Info, buf: array<byte>, at: nat) returns (n: nat)
    requires ValidInfo(info) && at + SerialSize(schema, info) <= buf.Length
    requires |FieldsBytes(schema, info)| == SerialSize(schema, info)
    modifies buf
    ensures n == SerialSize(schema, info)
    ensures buf[..] == Patch(old(buf[..]), at, FieldsBytes(schema, info))
  {
    ghost var was := buf[..];
    n := 0;
    var offset := 0;
    assert Patch(was, at, FieldsBytes(schema[..0], info)) == was;
    while offset < |schema|
      invariant offset <= |schema| && at + n <= buf.Length
      invariant n == SizeTo(schema, offset, info) == |FieldsBytes(schema[..offset], info)|
      invariant buf[..] == Patch(was, at, FieldsBytes(schema[..offset], info))
    {
      SizeToMonotone(schema, offset + 1, |schema|, info);
      FieldBytesSize(schema[offset], info);
      FieldsBytesAppend(schema, offset, info);
      PatchPatch(was, at, FieldsBytes(schema[..offset], info), FieldBytes(schema[offset], info));
      SerializeField(schema[offset], info, buf, at + n);
      n := n + FieldSize(schema[offset], info);
      offset := offset + 1;
    }
    assert schema[..|schema|] == schema;
  }

  /** Writes the record at the given place, touches nothing else, and says how far it got. */
  method Serialize(schema: Schema, info: Info, buf: array<byte>, at: nat) returns (n: nat)
    requires Storable(schema, info) && at + |RecordBytes(schema, info)| <= buf.Length
    modifies buf
    ensures n == |RecordBytes(schema, info)|
    ensures buf[..] == Patch(old(buf[..]), at, RecordBytes(schema, info))
  {
    ghost var was := buf[..];
    SerialSizeIsLength(schema, info);
    var size := SerialSizeOf(schema, info);
    CopyIn(buf, at, ToBytes(size, 8));
    n := SerializeFields(schema, info, buf, at + 8);
    n := n + 8;
    PatchPatch(was, at, ToBytes(size, 8), FieldsBytes(schema, info));
  }

  lemma {:induction false} SizeToMonotone(schema: Schema, k: nat, l: nat, info: Info)
    requires k <= l <= |schema|
    ensures SizeTo(schema, k, info) <= SizeTo(schema, l, info)
  {
    if k < l {
      SizeToMonotone(schema, k, l - 1, info);
    }
  }

  method SerializeSchema(schema: Schema, buf: array<byte>, at: nat) returns (n: nat)
    requires |schema| < 0x1_0000_0000 && at + |HeaderBytes(schema)| <= buf.Length
    modifies buf
    ensures n == |HeaderBytes(schema)|
    ensures buf[..] == Patch(old(buf[..]), at, HeaderBytes(schema))
  {
    ghost var was := buf[..];
    ghost var written := ToBytes(|schema|, 4);
    CopyIn(buf, at, ToBytes(|schema|, 4));
    n := 4;
    var offset := 0;
    while offset < |schema|
      invariant offset <= |schema| && n == |written| == 4 + 4 * offset
      invariant written + IdsFrom(schema, offset) == HeaderBytes(schema)
      invariant buf[..] == Patch(was, at, written)
    {
      var id := ToBytes(FieldId(schema[offset]), 4);
      Associative(written, id, IdsFrom(schema, offset + 1));
      PatchPatch(was, at, written, id);
      CopyIn(buf, at + n, id);
      n := n + 4;
      written := written + id;
      offset := offset + 1;
    }
    assert written + [] == written;
  }

  // ----- reading -----

  /** The table of all fields lists them by their ids. */
  lemma TableIsById(k: nat)
    requires k < |ALL_FIELDS|
    ensures FieldId(ALL_FIELDS[k]) == k
  {
  }

  /** The field with a given id is found by going through the table of all fields. */
  method GetFieldById(id: u32) returns (f: Option<Field>)
    ensures f == if id < |ALL_FIELDS| then Some(ALL_FIELDS[id]) else None
    ensures f.Some? ==> FieldId(f.value) == id
  {
    var offset := 0;
    while offset < |ALL_FIELDS|
      invariant offset <= |ALL_FIELDS|
      invariant id < |ALL_FIELDS| ==> offset <= id
    {
      TableIsById(offset);
      if FieldId(ALL_FIELDS[offset]) == id {
        return Some(ALL_FIELDS[offset]);
      }
      offset := offset + 1;
    }
    f := None;
  }

  /**
   * Reads the schema from the start of the buffer. Invalid is -EINVAL. The source does not know
   * how much of the buffer is meaningful; the caller vouches that the header lies within it.
   */
  method DeserializeSchema(buf: array<byte>, ghost limit: nat) returns (h: Header, n: nat)
    requires limit <= buf.Length && DecodeHeader(buf[..limit]) != Short
    ensures h == DecodeHeader(buf[..limit])
    ensures h.Header? ==> n == |HeaderBytes(h.schema)|
  {
    ghost var s := buf[..limit];
    FromBytesSame(buf[..4], 0, s, 0, 4);
    var size := WordAt(buf[..4], 0);
    n := 4;
    var found: Schema := [];
    for i := 0 to size
      invariant |found| == i && n == 4 + 4 * i
      invariant DecodeIds(s, n, size - i, found) == DecodeHeader(s)
    {
      FromBytesSame(buf[n..n + 4], 0, s, n, 4);
      var f := GetFieldById(WordAt(buf[n..n + 4], 0));
      if f == None {
        return Invalid, n;
      }
      found := found + [f.value];
      n := n + 4;
    }
    h := Header(found);
  }

  /** One turn of the reading loop. */
  method DeserializeField(b: Build, schema: Schema, s: seq<byte>, k: nat, c: Cursor) returns (c': Cursor)
    requires FieldReader(b, schema, s)(k, c).Some?
    ensures FieldReader(b, schema, s)(k, c) == Some(c')
  {
    var info := DecodeField(b, schema[k], c.info, s, c.pos).value;
    c' := Cursor(info, c.pos + FieldSize(schema[k], info));
  }

  /** reader and the reading loop's turn are the same thing, for turn k from c. */
  ghost predicate IsTurn(reader: (nat, Cursor) -> Option<Cursor>, b: Build, schema: Schema, s: seq<byte>, k: nat,
      c: Cursor) {
    reader(k, c) == FieldReader(b, schema, s)(k, c)
  }

  method DeserializeFields(b: Build, schema: Schema, s: seq<byte>, c0: Cursor,
      ghost reader: (nat, Cursor) -> Option<Cursor>)
    returns (c: Cursor)
    requires forall k: nat, q: Cursor :: IsTurn(reader, b, schema, s, k, q)
    requires Repeat(reader, 0, |schema|, c0).Some?
    ensures Repeat(reader, 0, |schema|, c0) == Some(c)
  {
    c := c0;
    var offset := 0;
    while offset < |schema|
      invariant offset <= |schema|
      invariant Repeat(reader, offset, |schema|, c) == Repeat(reader, 0, |schema|, c0)
    {
      assert IsTurn(reader, b, schema, s, offset, c);
      c := DeserializeField(b, schema, s, offset, c);
      offset := offset + 1;
    }
  }

  /** Reads one record out of buf[from..to]; the caller vouches that its fields lie within. */
  method Deserialize(b: Build, schema: Schema, info0: Info, buf: array<byte>, from: nat, to: nat)
    returns (info: Info, n: nat)
    requires from <= to <= buf.Length && ReadFields(b, schema, info0, buf[from..to], 8).Some?
    ensures ReadFields(b, schema, info0, buf[from..to], 8) == Some(Cursor(info, n))
  {
    var c := DeserializeFields(b, schema, buf[from..to], Cursor(info0, 8), FieldReader(b, schema, buf[from..to]));
    info, n := c.info, c.pos;
  }
}
