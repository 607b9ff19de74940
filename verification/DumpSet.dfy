/** One dump per cpu, as a session of the proxy opens, uses and closes them. */
module DumpSet {
  import opened Record
  import opened Stream
  import opened DumpLog
  import opened Dumping

  /** All the objects of some dumps. */
  ghost function Parts(dumps: seq<Dump>): set<object>
    reads dumps
  {
    (set d: Dump | d in dumps :: d as object) + (set d: Dump | d in dumps :: d.buf as object)
    + (set d: Dump | d in dumps :: d.file as object)
  }

  /** No two dumps are the same or share a file. */
  predicate Separate(dumps: seq<Dump>) {
    forall i, j | 0 <= i < j < |dumps| :: dumps[i] != dumps[j] && dumps[i].file != dumps[j].file
  }

  ghost predicate OwnBuffers(dumps: seq<Dump>)
    reads dumps
  {
    forall i, j | 0 <= i < j < |dumps| :: dumps[i].buf != dumps[j].buf
  }

  ghost predicate Mirrors(dumps: seq<Dump>, schema: Schema, writers: seq<Writer>)
    reads dumps, Parts(dumps)
  {
    |writers| == |dumps| && forall i | 0 <= i < |dumps| ::
      dumps[i].Valid() && dumps[i].schema == schema && dumps[i].View() == writers[i]
  }

  method OpenOne(schema: Schema, initialSize: nat) returns (d: Dump)
    requires |schema| < 0x1_0000_0000 && |HeaderBytes(schema)| <= initialSize
    ensures fresh(d) && fresh(d.buf) && fresh(d.file)
    ensures d.Valid() && d.schema == schema && d.View() == Fresh(HeaderBytes(schema), initialSize)
  {
    var file := new FileData();
    d := new Dump(file, schema, initialSize);
  }

  lemma AddDump(dumps: seq<Dump>, d: Dump, schema: Schema, writers: seq<Writer>)
    requires Separate(dumps) && OwnBuffers(dumps) && Mirrors(dumps, schema, writers)
    requires d !in dumps && d.buf !in Parts(dumps) && d.file !in Parts(dumps)
    requires d.Valid() && d.schema == schema
    ensures Separate(dumps + [d]) && OwnBuffers(dumps + [d]) && Mirrors(dumps + [d], schema, writers + [d.View()])
    ensures Parts(dumps + [d]) == Parts(dumps) + {d, d.buf, d.file}
  {
    assert forall e: Dump :: e in dumps + [d] <==> e in dumps || e == d;
    forall i | 0 <= i < |dumps|
      ensures dumps[i] != d && dumps[i].buf != d.buf && dumps[i].file != d.file
    {
      assert dumps[i].buf in Parts(dumps) && dumps[i].file in Parts(dumps);
    }
  }

  method OpenNext(dumps: seq<Dump>, schema: Schema, initialSize: nat, ghost writers: seq<Writer>)
      returns (more: seq<Dump>)
    requires Separate(dumps) && OwnBuffers(dumps) && Mirrors(dumps, schema, writers)
    requires |schema| < 0x1_0000_0000 && |HeaderBytes(schema)| <= initialSize
    ensures Separate(more) && OwnBuffers(more) && fresh(Parts(more) - Parts(dumps))
    ensures Mirrors(more, schema, writers + [Fresh(HeaderBytes(schema), initialSize)])
  {
    var d := OpenOne(schema, initialSize);
    AddDump(dumps, d, schema, writers);
    more := dumps + [d];
  }

  method OpenAll(cpus: nat, schema: Schema, initialSize: nat) returns (all: seq<Dump>, ghost shown: seq<Writer>)
    requires |schema| < 0x1_0000_0000 && |HeaderBytes(schema)| <= initialSize
    ensures Separate(all) && OwnBuffers(all) && Mirrors(all, schema, shown) && fresh(Parts(all))
    ensures shown == FreshAll(HeaderBytes(schema), initialSize, cpus)
  {
    all, shown := [], [];
    for i := 0 to cpus
      invariant |shown| == i && (forall k | 0 <= k < i :: shown[k] == Fresh(HeaderBytes(schema), initialSize))
      invariant Separate(all) && OwnBuffers(all) && Mirrors(all, schema, shown) && fresh(Parts(all))
    {
      all := OpenNext(all, schema, initialSize, shown);
      shown := shown + [Fresh(HeaderBytes(schema), initialSize)];
    }
  }

  class Dumps {
    const schema: Schema
    const dumps: seq<Dump>
    ghost var writers: seq<Writer>
    ghost var repr: set<object>

    ghost predicate Valid()
      reads this, repr
    {
      && this !in repr && (forall d | d in dumps :: d in repr) && Parts(dumps) <= repr
      && Separate(dumps) && OwnBuffers(dumps) && Mirrors(dumps, schema, writers)
    }

    /** blgy_prxy_dumps_init: every cpu gets a dump on a new file, the header in its buffer. */
    constructor (cpus: nat, schema: Schema, initialSize: nat)
      requires |schema| < 0x1_0000_0000 && |HeaderBytes(schema)| <= initialSize
      ensures Valid() && fresh(repr) && this.schema == schema
      ensures writers == FreshAll(HeaderBytes(schema), initialSize, cpus)
    {
      var all, shown := OpenAll(cpus, schema, initialSize);
      this.schema, dumps, writers, repr := schema, all, shown, Parts(all);
    }

    /**
     * blgy_prxy_dump on the dump of one cpu, ok telling whether a file write goes through: the others
     * are left alone.
     */
    method Append(cpu: nat, info: Info, ok: bool) returns (ret: bool)
      requires Valid() && cpu < |dumps| && Storable(schema, info)
      modifies this, repr
      ensures Valid() && fresh(repr - old(repr))
      ensures writers == old(writers)[cpu := DumpLog.Append(old(writers)[cpu], RecordBytes(schema, info), ok)]
      ensures ret == !Fails(old(writers)[cpu], |RecordBytes(schema, info)|, ok)
    {
      ret := dumps[cpu].Append(info, ok);
      repr := repr + {dumps[cpu].buf};
      writers := writers[cpu := DumpLog.Append(writers[cpu], RecordBytes(schema, info), ok)];
    }

    /** blgy_prxy_dumps_destroy, once the work queue is flushed: all buffers are drained. */
    method Destroy(oks: seq<bool>)
      requires Valid() && |oks| == |dumps|
      modifies this, repr
      ensures |old(writers)| == |dumps|
      ensures forall i | 0 <= i < |dumps| ::
        dumps[i].file.bytes == Drained(old(writers)[i], oks[i] || old(writers)[i].pending == []).file
    {
      for i := 0 to |dumps|
        invariant writers == old(writers)
        invariant forall k | 0 <= k < i ::
          dumps[k].file.bytes == Drained(writers[k], oks[k] || writers[k].pending == []).file
        invariant forall k | i <= k < |dumps| :: dumps[k].Valid() && dumps[k].View() == writers[k]
      {
        dumps[i].Destroy(oks[i]);
      }
    }
  }
}
