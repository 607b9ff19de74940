/** The buffered append log of one cpu. */
module Dumping {
  import opened Bytes
  import opened Record
  import opened Stream
  import opened Serial
  import opened DumpLog

  /** The content of an open file. */
  class FileData {
    var bytes: seq<byte>

    constructor ()
      ensures bytes == []
    {
      bytes := [];
    }
  }

  /** Calls return false for the source's error codes. */
  class Dump {
    const file: FileData
    const schema: Schema
    var fileOffset: nat
    var buf: array<byte>
    var size: nat
    var offset: nat

    ghost predicate Valid()
      reads this, file, buf
    {
      buf.Length == size && offset <= size && fileOffset == |file.bytes|
    }

    ghost function View(): Writer
      requires Valid()
      reads this, file, buf
    {
      Writer(file.bytes, buf[..offset], size)
    }

    /** Opens an empty file and puts the schema into a buffer of the given first size. */
    constructor (file: FileData, schema: Schema, initialSize: nat)
      requires file.bytes == []
      requires |schema| < 0x1_0000_0000 && |HeaderBytes(schema)| <= initialSize
      ensures Valid() && fresh(buf) && this.file == file && this.schema == schema
      ensures View() == Fresh(HeaderBytes(schema), initialSize)
    {
      this.file, this.schema := file, schema;
      fileOffset := 0;
      buf := new byte[initialSize](_ => 0);
      size, offset := initialSize, 0;
      new;
      var n := SerializeSchema(schema, buf, offset);
      offset := offset + n;
    }

    /** vfs_iter_write at the file position, which is the end of the file; ok tells whether the write goes through. */
    method WriteFile(count: nat, ok: bool) returns (ret: bool)
      requires Valid() && count <= buf.Length
      modifies this`fileOffset, file
      ensures Valid() && ret == ok
      ensures file.bytes == old(file.bytes) + if ok then buf[..count] else []
    {
      if !ok {
        return false;
      }
      file.bytes := file.bytes[..fileOffset] + buf[..count];
      fileOffset := fileOffset + count;
      ret := true;
    }

    /** Empties the buffer into the file; the buffer is empty afterwards even when the write fails. */
    method Drain(ok: bool) returns (ret: bool)
      requires Valid()
      modifies this`fileOffset, this`offset, file
      ensures Valid()
      ensures View() == Drained(old(View()), ok || old(View().pending) == [])
      ensures ret == (ok || old(View().pending) == [])
    {
      if offset == 0 {
        return true;
      }
      ret := WriteFile(offset, ok);
      offset := 0;
    }

    /** krealloc: a buffer of the new size that starts with the old content. */
    method Resize(newSize: nat)
      requires Valid() && size <= newSize
      modifies this`buf, this`size
      ensures Valid() && fresh(buf) && size == newSize && buf[..offset] == old(buf[..offset])
    {
      var a := new byte[newSize](_ => 0);
      CopyIn(a, 0, buf[..]);
      assert a[..offset] == a[..][..offset] == buf[..][..offset];
      buf, size := a, newSize;
    }

    /** Makes room for count more bytes: first by draining, then by growing. */
    method Prepare(count: nat, ok: bool) returns (ret: bool)
      requires Valid()
      modifies this, file, buf
      ensures Valid() && (buf == old(buf) || fresh(buf))
      ensures ret == !Fails(old(View()), count, ok)
      ensures ret ==> offset + count <= size
      ensures old(offset) + count <= old(size) ==> ret && offset == old(offset) && file.bytes == old(file.bytes)
      ensures View() ==
        if Fits(old(View()), count) then old(View())
        else if ret then Drained(old(View()), true).(cap := if count <= old(size) then old(size) else count)
        else Drained(old(View()), false)
    {
      if size - offset >= count {
        return true;
      }
      ret := Drain(ok);
      if !ret {
        return false;
      }
      if size - offset >= count {
        return true;
      }
      Resize(count);
    }

    /** blgy_prxy_dump: room for the record is made, then it is serialized into the buffer. */
    method Append(info: Info, ok: bool) returns (ret: bool)
      requires Valid() && Storable(schema, info)
      modifies this, file, buf
      ensures Valid() && (buf == old(buf) || fresh(buf))
      ensures View() == DumpLog.Append(old(View()), RecordBytes(schema, info), ok)
      ensures ret == !Fails(old(View()), |RecordBytes(schema, info)|, ok)
      ensures old(offset) + |RecordBytes(schema, info)| <= old(size) ==>
        ret && file.bytes == old(file.bytes) && buf[..offset] == old(buf[..offset]) + RecordBytes(schema, info)
      ensures old(offset) + |RecordBytes(schema, info)| > old(size) ==>
        if ok || old(offset) == 0 then
          ret && file.bytes == old(file.bytes) + old(buf[..offset]) && buf[..offset] == RecordBytes(schema, info)
        else !ret && file.bytes == old(file.bytes) && offset == 0
    {
      RecordBytesSize(schema, info);
      var n := SerialSizeOf(schema, info);
      ret := Prepare(n + 8, ok);
      if !ret {
        return false;
      }
      ghost var before := buf[..offset];
      n := Serialize(schema, info, buf, offset);
      offset := offset + n;
      assert buf[..offset] == before + RecordBytes(schema, info);
    }

    /** The last drain, when the dump is destroyed. */
    method Destroy(ok: bool)
      requires Valid()
      modifies this`fileOffset, this`offset, this`size, this`buf, file
      ensures file.bytes == Drained(old(View()), ok || old(View().pending) == []).file
    {
      var ret := Drain(ok);
      buf := new byte[0];
      size, offset := 0, 0;
    }
  }
}
