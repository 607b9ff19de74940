/** The generator's reader: a small window that slides over the dump file and grows when it must. */
module Parsing {
  import opened Numbers
  import opened Options
  import opened Bytes
  import opened Record
  import opened Stream
  import opened Serial
  import opened Dumping

  /** The largest buffer a read_next on these unread bytes asks for. */
  function Asked(rest: seq<byte>): nat {
    if |rest| < 8 then 8 else Max(8, SerializedSize(rest))
  }

  lemma DecodeFieldExtends(b: Build, f: Field, info: Info, s: seq<byte>, t: seq<byte>, pos: nat)
    requires s <= t && DecodeField(b, f, info, s, pos).Some?
    ensures DecodeField(b, f, info, t, pos) == DecodeField(b, f, info, s, pos)
  {
    FromBytesSame(s, pos, t, pos, if f != Data then Width(f) else 8);
    if f == Data {
      var size := SizeAt(s, pos);
      if pos + 8 + size <= |s| {
        assert s[pos + 8..pos + 8 + size] == t[pos + 8..pos + 8 + size];
      }
    }
  }

  /** Bytes behind a record do not change how it is read. */
  lemma ReadFieldsExtends(b: Build, schema: Schema, info: Info, s: seq<byte>, t: seq<byte>, pos: nat)
    requires s <= t && ReadFields(b, schema, info, s, pos).Some?
    ensures ReadFields(b, schema, info, t, pos) == ReadFields(b, schema, info, s, pos)
  {
    var step, step' := FieldReader(b, schema, s), FieldReader(b, schema, t);
    forall k: nat, c: Cursor ensures StepExtends(step, step', k, c) {
      if k < |schema| && DecodeField(b, schema[k], c.info, s, c.pos).Some? {
        DecodeFieldExtends(b, schema[k], c.info, s, t, c.pos);
      }
    }
    RepeatExtends(step, step', 0, |schema|, Cursor(info, pos));
  }

  /** Reading a record out of a window that shows the beginning of the unread bytes. */
  method ReadRecord(schema: Schema, info0: Info, buf: array<byte>, from: nat, to: nat,
                    ghost record: seq<byte>, ghost c: Cursor)
    returns (info: Info, used: nat)
    requires from <= to <= buf.Length && record <= buf[from..to]
    requires ReadFields(Generator, schema, info0, record, 8) == Some(c)
    ensures info == c.info && used == c.pos
  {
    ReadFieldsExtends(Generator, schema, info0, record, buf[from..to], 8);
    info, used := Deserialize(Generator, schema, info0, buf, from, to);
  }

  datatype Ret = ReadOk | ReadEmpty | ReadErr

  class Parser {
    const file: FileData
    var fileOffset: nat
    var schema: Schema
    var buf: array<byte>
    var size: nat
    var valid: nat
    var offset: nat

    /** The window holds exactly the bytes of the file just before the file position. */
    ghost predicate Valid()
      reads this, file, buf
    {
      && buf.Length == size && offset <= valid <= size
      && valid - offset <= fileOffset <= |file.bytes|
      && buf[offset..valid] == file.bytes[fileOffset - (valid - offset)..fileOffset]
    }

    /** The bytes of the file not yet handed out: the window and what is still to be read. */
    ghost function Rest(): seq<byte>
      requires Valid()
      reads this, file, buf
    {
      file.bytes[fileOffset - (valid - offset)..]
    }

    lemma WindowIsPrefix()
      requires Valid()
      ensures buf[offset..valid] == Rest()[..valid - offset]
    {
    }

    constructor (file: FileData, initialSize: nat)
      ensures Valid() && fresh(buf) && this.file == file
      ensures size == initialSize && fileOffset == valid == offset == 0
    {
      this.file := file;
      fileOffset, valid, offset := 0, 0, 0;
      schema := [];
      size := initialSize;
      buf := new byte[initialSize](_ => 0);
    }

    /** vfs_iter_read at the file position into buf[at..]: as much as asked for, or as there is. */
    method ReadFile(at: nat, count: nat) returns (n: nat)
      requires buf.Length == size && at + count <= size && fileOffset <= |file.bytes|
      modifies this`fileOffset, buf
      ensures n == Min(count, |file.bytes| - old(fileOffset)) && fileOffset == old(fileOffset) + n
      ensures buf[..] == Patch(old(buf[..]), at, file.bytes[old(fileOffset)..fileOffset])
    {
      n := Min(count, |file.bytes| - fileOffset);
      CopyIn(buf, at, file.bytes[fileOffset..fileOffset + n]);
      fileOffset := fileOffset + n;
    }

    /**
     * blgy_gen_parser_init once the file is open; false is EINVAL, for an empty file. The file
     * must start with the header of some schema and the first buffer must be able to hold it,
     * which the source takes for granted.
     */
    method Init(ghost written: Schema) returns (ok: bool)
      requires Valid() && fileOffset == valid == offset == 0
      requires |written| < 0x1_0000_0000
      requires file.bytes != [] ==> HeaderBytes(written) <= file.bytes && |HeaderBytes(written)| <= size
      modifies this, buf
      ensures Valid() && buf == old(buf) && size == old(size)
      ensures ok <==> file.bytes != []
      ensures ok ==> schema == written && Rest() == file.bytes[|HeaderBytes(written)|..]
    {
      assert Rest() == file.bytes;
      FillUp();
      if valid == 0 {
        return false;
      }
      ReadHeader(written);
      ok := true;
    }

    lemma WindowHasHeader(written: Schema)
      requires Valid() && offset == 0 && |written| < 0x1_0000_0000
      requires HeaderBytes(written) <= Rest() && |HeaderBytes(written)| <= valid
      ensures DecodeHeader(buf[..valid]) == Header(written)
    {
      WindowIsPrefix();
      assert Lies(buf[..valid], 0, HeaderBytes(written));
      HeaderRoundTrip(written, buf[..valid]);
    }

    /** The schema at the start of the file, which the window holds. */
    method ReadHeader(ghost written: Schema)
      requires Valid() && offset == 0 && |written| < 0x1_0000_0000
      requires HeaderBytes(written) <= Rest() && |HeaderBytes(written)| <= valid
      modifies this`schema, this`offset
      ensures Valid() && schema == written && Rest() == old(Rest())[|HeaderBytes(written)|..]
    {
      WindowHasHeader(written);
      var h, n := DeserializeSchema(buf, valid);
      schema := h.schema;
      offset := offset + n;
    }

    /** The unread bytes go to the front of the buffer. */
    method ShiftToFront()
      requires Valid()
      modifies this`offset, this`valid, buf
      ensures Valid() && offset == 0 && Rest() == old(Rest())
    {
      MoveToFront(buf, offset, valid - offset);
      offset, valid := 0, valid - offset;
    }

    /** krealloc of the buffer. */
    method Grow(newSize: nat)
      requires Valid() && size <= newSize
      modifies this`buf, this`size
      ensures Valid() && fresh(buf) && size == newSize && Rest() == old(Rest())
    {
      var a := new byte[newSize](_ => 0);
      CopyIn(a, 0, buf[..]);
      assert a[offset..valid] == a[..][offset..valid] == buf[..][offset..valid] == buf[offset..valid];
      buf, size := a, newSize;
    }

    /** Reads from the file into the free end of the buffer. */
    method FillUp()
      requires Valid() && offset == 0
      modifies this`fileOffset, this`valid, buf
      ensures Valid() && Rest() == old(Rest()) && valid == Min(size, |Rest()|)
    {
      ghost var before := buf[..];
      var n := ReadFile(valid, size - valid);
      PatchSlices(before, valid, file.bytes[fileOffset - n..fileOffset]);
      ghost var after := buf[..];
      assert after[..valid + n] == before[..valid] + file.bytes[fileOffset - n..fileOffset];
      valid := valid + n;
    }

    /** Moves the unread bytes to the front, grows the buffer if asked for more, and fills it up. */
    method RefillBuf(requested: nat)
      requires Valid()
      modifies this`fileOffset, this`buf, this`size, this`valid, this`offset, buf
      ensures Valid() && (buf == old(buf) || fresh(buf))
      ensures Rest() == old(Rest())
      ensures size == Max(old(size), requested) && offset == 0 && valid == Min(size, |Rest()|)
    {
      ShiftToFront();
      if size < requested {
        Grow(requested);
      }
      FillUp();
    }

    /** Refills only when fewer bytes are at hand; afterwards there are enough if the file has enough. */
    method Require(requested: nat)
      requires Valid()
      modifies this`fileOffset, this`buf, this`size, this`valid, this`offset, buf
      ensures Valid() && (buf == old(buf) || fresh(buf))
      ensures Rest() == old(Rest()) && size == Max(old(size), requested)
      ensures valid - offset < requested <==> |Rest()| < requested
    {
      if valid - offset < requested {
        RefillBuf(requested);
      }
    }

    /** serialized_size at the read position. */
    method NextSize() returns (n: nat)
      requires Valid() && valid - offset >= 8
      ensures |Rest()| >= 8 && n == SerializedSize(Rest())
    {
      WindowIsPrefix();
      assert buf[offset..offset + 8] == buf[offset..valid][..8] == Rest()[..8];
      assert Rest()[0..8] == Rest()[..8] == buf[offset..offset + 8][0..8];
      FromBytesSame(buf[offset..offset + 8], 0, Rest(), 0, 8);
      n := SerializedSize(buf[offset..offset + 8]);
    }

    /** Hands out the record of n bytes at the read position. */
    method Take(info0: Info, ghost n: nat, ghost c: Cursor) returns (info: Info)
      requires Valid() && 8 <= n <= valid - offset && c.pos <= n
      requires ReadFields(Generator, schema, info0, Rest()[..n], 8) == Some(c)
      modifies this`offset
      ensures Valid() && info == c.info && Rest() == old(Rest())[c.pos..]
    {
      WindowIsPrefix();
      assert Rest()[..n] <= buf[offset..valid];
      var used;
      info, used := ReadRecord(schema, info0, buf, offset, valid, Rest()[..n], c);
      offset := offset + used;
    }

    /** What ParseNext says in terms of the loop over the fields. */
    lemma ParseNextReads(info0: Info, rest: seq<byte>)
      requires |rest| >= 8 && |rest| >= SerializedSize(rest) && ParseNext(schema, info0, rest) != BadRecord
      ensures var p := ParseNext(schema, info0, rest);
        && p.Ok? && 8 <= p.used <= SerializedSize(rest)
        && ReadFields(Generator, schema, info0, rest[..SerializedSize(rest)], 8) == Some(Cursor(p.info, p.used))
    {
    }

    /** Brings the next record into the window, as far as the file has it. */
    method Locate() returns (ret: Ret, n: nat)
      requires Valid()
      modifies this`fileOffset, this`buf, this`size, this`valid, this`offset, buf
      ensures Valid() && (buf == old(buf) || fresh(buf)) && Rest() == old(Rest())
      ensures size == Max(old(size), Asked(Rest()))
      ensures |Rest()| < 8 ==> ret == ReadEmpty
      ensures |Rest()| >= 8 ==> n == SerializedSize(Rest()) && ret == if |Rest()| < n then ReadErr else ReadOk
      ensures ret == ReadOk ==> n <= valid - offset
    {
      Require(8);
      if valid - offset < 8 {
        return ReadEmpty, 0;
      }
      n := NextSize();
      Require(n);
      ret := if valid - offset < n then ReadErr else ReadOk;
    }

    /**
     * One read_next: exactly what ParseNext says about the unread bytes, wherever the window
     * happens to lie over them; and the buffer is as large as it was or as large as was asked for.
     */
    method ReadNext(info0: Info) returns (ret: Ret, info: Info)
      requires Valid() && ParseNext(schema, info0, Rest()) != BadRecord
      modifies this`fileOffset, this`buf, this`size, this`valid, this`offset, buf
      ensures Valid() && (buf == old(buf) || fresh(buf))
      ensures size == Max(old(size), Asked(old(Rest())))
      ensures match ParseNext(schema, info0, old(Rest()))
        case Ok(i, used) => ret == ReadOk && info == i && Rest() == old(Rest())[used..]
        case Empty => ret == ReadEmpty && info == info0 && Rest() == old(Rest())
        case Err => ret == ReadErr && info == info0 && Rest() == old(Rest())
        case BadRecord => false
    {
      ghost var p := ParseNext(schema, info0, Rest());
      var n;
      ret, n := Locate();
      info := info0;
      if ret == ReadOk {
        ParseNextReads(info0, Rest());
        info := Take(info0, n, Cursor(p.info, p.used));
      }
    }
  }
}
