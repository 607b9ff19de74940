/** From dumped records through the file to the records that are replayed. */
module Pipeline {
  import opened Numbers
  import opened Options
  import opened Bytes
  import opened Record
  import opened Stream
  import opened DumpLog
  import opened Dumping
  import opened Parsing

  // ----- no write fails -----

  /** A file that holds the header and some records whole. */
  function FileOf(schema: Schema, infos: seq<Info>): seq<byte> {
    HeaderBytes(schema) + RecordsBytes(schema, infos)
  }

  /** Dumping records one by one, whatever the buffer size, and closing leaves exactly their file. */
  lemma WrittenFile(schema: Schema, initialSize: nat, infos: seq<Info>)
    requires |HeaderBytes(schema)| <= initialSize
    ensures Drained(AppendAll(Fresh(HeaderBytes(schema), initialSize), Encoded(schema, infos)), true).file ==
      FileOf(schema, infos)
  {
    AppendAllKeepsLog(Fresh(HeaderBytes(schema), initialSize), Encoded(schema, infos));
    assert Log(Fresh(HeaderBytes(schema), initialSize)) == HeaderBytes(schema);
  }

  /** Such a file has the right header, and behind it exactly the records, in order, and then the end. */
  lemma FileReadsBack(schema: Schema, infos: seq<Info>)
    requires |schema| < 0x1_0000_0000 && AllStorable(schema, infos)
    ensures DecodeHeader(FileOf(schema, infos)) == Header(schema)
    ensures ParseAll(schema, FileOf(schema, infos)[|HeaderBytes(schema)|..]) == (ReplayedAll(schema, infos), Empty)
  {
    assert Lies(FileOf(schema, infos), 0, HeaderBytes(schema));
    HeaderRoundTrip(schema, FileOf(schema, infos));
    ParseWritten(schema, infos);
    assert FileOf(schema, infos)[|HeaderBytes(schema)|..] == RecordsBytes(schema, infos);
  }

  method DumpAll(file: FileData, schema: Schema, infos: seq<Info>, initialSize: nat)
    requires file.bytes == []
    requires |schema| < 0x1_0000_0000 && |HeaderBytes(schema)| <= initialSize && AllStorable(schema, infos)
    modifies file
    ensures file.bytes == FileOf(schema, infos)
  {
    var dump := new Dump(file, schema, initialSize);
    ghost var parts := Encoded(schema, infos);
    ghost var w := Fresh(HeaderBytes(schema), initialSize);
    for i := 0 to |infos|
      invariant dump.Valid() && fresh(dump) && fresh(dump.buf) && dump.file == file && dump.schema == schema
      invariant dump.View() == AppendAll(w, parts[..i])
    {
      assert parts[..i + 1][..i] == parts[..i] && parts[..i + 1][i] == RecordBytes(schema, infos[i]);
      var ret := dump.Append(infos[i], true);
    }
    assert parts[..|infos|] == parts;
    WrittenFile(schema, initialSize, infos);
    dump.Destroy(true);
  }

  /** What read_next answers, in terms of the specification. */
  function RetOf(p: Parsed): Ret
    requires p != BadRecord
  {
    match p
    case Ok(_, _) => ReadOk
    case Empty => ReadEmpty
    case Err => ReadErr
  }

  /** The size of a buffer after all reads of some bytes, which each ask for what comes next. */
  ghost function Peak(schema: Schema, rest: seq<byte>, size: nat): nat
    decreases |rest|
  {
    match ParseNext(schema, ZERO_INFO, rest)
    case Ok(_, used) => Peak(schema, rest[used..], Max(size, Asked(rest)))
    case _ => Max(size, Asked(rest))
  }

  /** all and peak say what reading everything comes to, and read_next is its first step. */
  ghost predicate FirstStep(schema: Schema, all: seq<byte> -> (seq<Info>, Parsed), peak: (seq<byte>, nat) -> nat,
                            rest: seq<byte>, size: nat)
  {
    var p := ParseNext(schema, ZERO_INFO, rest);
    all(rest).1 != BadRecord ==>
      && p != BadRecord
      && (if p.Ok? then
            && all(rest) == ([p.info] + all(rest[p.used..]).0, all(rest[p.used..]).1)
            && peak(rest, size) == peak(rest[p.used..], Max(size, Asked(rest)))
          else all(rest) == ([], p) && peak(rest, size) == Max(size, Asked(rest)))
  }

  ghost predicate Reads(schema: Schema, all: seq<byte> -> (seq<Info>, Parsed), peak: (seq<byte>, nat) -> nat) {
    forall rest: seq<byte>, size: nat :: FirstStep(schema, all, peak, rest, size)
  }

  method ReplayOne(parser: Parser, ghost schema: Schema, ghost all: seq<byte> -> (seq<Info>, Parsed),
      ghost peak: (seq<byte>, nat) -> nat)
    returns (ret: Ret, info: Info)
    requires parser.Valid() && parser.schema == schema && Reads(schema, all, peak) && all(parser.Rest()).1 != BadRecord
    modifies parser, parser.buf
    ensures parser.Valid() && parser.schema == schema && (parser.buf == old(parser.buf) || fresh(parser.buf))
    ensures var was := all(old(parser.Rest()));
      if ret == ReadOk then |parser.Rest()| < |old(parser.Rest())| &&
          was == ([info] + all(parser.Rest()).0, all(parser.Rest()).1)
      else was.0 == [] && was.1 != BadRecord && ret == RetOf(was.1)
    ensures peak(old(parser.Rest()), old(parser.size)) ==
      if ret == ReadOk then peak(parser.Rest(), parser.size) else parser.size
  {
    assert FirstStep(schema, all, peak, parser.Rest(), parser.size);
    ret, info := parser.ReadNext(ZERO_INFO);
  }

  method ReplayAll(parser: Parser, ghost schema: Schema, ghost all: seq<byte> -> (seq<Info>, Parsed),
      ghost peak: (seq<byte>, nat) -> nat)
    returns (got: seq<Info>, last: Ret)
    requires parser.Valid() && parser.schema == schema && Reads(schema, all, peak) && all(parser.Rest()).1 != BadRecord
    modifies parser, parser.buf
    ensures got == all(old(parser.Rest())).0 && all(old(parser.Rest())).1 != BadRecord &&
      last == RetOf(all(old(parser.Rest())).1)
    ensures parser.size == peak(old(parser.Rest()), old(parser.size))
  {
    ghost var whole, top := all(parser.Rest()), peak(parser.Rest(), parser.size);
    var info;
    got, last := [], ReadOk;
    while last == ReadOk
      invariant parser.Valid() && parser.schema == schema && (parser.buf == old(parser.buf) || fresh(parser.buf))
      invariant whole.1 != BadRecord
      invariant if last == ReadOk then
          && whole.0 == got + all(parser.Rest()).0 && whole.1 == all(parser.Rest()).1
          && top == peak(parser.Rest(), parser.size)
        else got == whole.0 && last == RetOf(whole.1) && top == parser.size
      decreases if last == ReadOk then |parser.Rest()| + 1 else 0
    {
      last, info := ReplayOne(parser, schema, all, peak);
      if last == ReadOk {
        assert got + ([info] + all(parser.Rest()).0) == (got + [info]) + all(parser.Rest()).0;
        got := got + [info];
      }
    }
  }

  lemma ParsingReads(schema: Schema, rest: seq<byte>, size: nat)
    ensures FirstStep(schema, (r: seq<byte>) => ParseAll(schema, r), (r: seq<byte>, n: nat) => Peak(schema, r, n),
      rest, size)
  {
  }

  /**
   * Calling read_next until it delivers no more: whatever the bytes, unless a record overruns its
   * own length, the reader delivers what the specification says, and its buffer grows no further
   * than to the largest amount asked for.
   */
  method ReplayRest(parser: Parser) returns (got: seq<Info>, last: Ret)
    requires parser.Valid() && ParseAll(parser.schema, parser.Rest()).1 != BadRecord
    modifies parser, parser.buf
    ensures var all := ParseAll(old(parser.schema), old(parser.Rest()));
      got == all.0 && all.1 != BadRecord && last == RetOf(all.1)
    ensures parser.size == Peak(old(parser.schema), old(parser.Rest()), old(parser.size))
  {
    ghost var schema := parser.schema;
    ghost var all := (r: seq<byte>) => ParseAll(schema, r);
    ghost var peak := (r: seq<byte>, n: nat) => Peak(schema, r, n);
    forall rest: seq<byte>, size: nat ensures FirstStep(schema, all, peak, rest, size) {
      ParsingReads(schema, rest, size);
    }
    got, last := ReplayAll(parser, schema, all, peak);
  }

  /** What read_next finds before the k-th record, and where it leaves the reader. */
  lemma NextRecord(schema: Schema, infos: seq<Info>, k: nat)
    requires AllStorable(schema, infos) && k <= |infos|
    ensures ParseNext(schema, ZERO_INFO, RecordsBytes(schema, infos[k..])) ==
      if k < |infos| then Ok(Replayed(schema, infos[k]), |RecordBytes(schema, infos[k])|) else Empty
    ensures k < |infos| ==> |RecordBytes(schema, infos[k])| <= |RecordsBytes(schema, infos[k..])|
    ensures k < |infos| ==>
      RecordsBytes(schema, infos[k..])[|RecordBytes(schema, infos[k])|..] == RecordsBytes(schema, infos[k + 1..])
  {
    if k < |infos| {
      RecordsBytesSplit(schema, infos, k);
      assert Lies(RecordsBytes(schema, infos[k..]), 0, RecordBytes(schema, infos[k]));
      ParseWhole(schema, ZERO_INFO, infos[k], RecordsBytes(schema, infos[k..]));
    }
  }

  /** It asks for that record, or for a length at the end. */
  lemma AskedIsRecord(schema: Schema, infos: seq<Info>, k: nat)
    requires AllStorable(schema, infos) && k <= |infos|
    ensures Asked(RecordsBytes(schema, infos[k..])) == if k < |infos| then |RecordBytes(schema, infos[k])| else 8
  {
    if k < |infos| {
      var rest := RecordsBytes(schema, infos[k..]);
      RecordsBytesSplit(schema, infos, k);
      Halves(rest, 0, RecordBytes(schema, infos[k]), RecordsBytes(schema, infos[k + 1..]));
      Halves(rest, 0, ToBytes(SerialSize(schema, infos[k]), 8), FieldsBytes(schema, infos[k]));
      SizePrefix(schema, infos[k], rest);
    }
  }

  lemma PeakNext(schema: Schema, infos: seq<Info>, k: nat, size: nat)
    requires AllStorable(schema, infos) && k <= |infos|
    ensures Peak(schema, RecordsBytes(schema, infos[k..]), size) ==
      if k < |infos| then Peak(schema, RecordsBytes(schema, infos[k + 1..]), Max(size, |RecordBytes(schema, infos[k])|))
      else Max(size, 8)
  {
    NextRecord(schema, infos, k);
    AskedIsRecord(schema, infos, k);
  }

  ghost predicate PeakStep(f: (nat, nat) -> nat, parts: seq<seq<byte>>, k: nat, size: nat)
    requires k <= |parts|
  {
    f(k, size) == if k < |parts| then f(k + 1, Max(size, |parts[k]|)) else Max(size, 8)
  }

  lemma {:induction false} PeakFollows(f: (nat, nat) -> nat, parts: seq<seq<byte>>, k: nat, size: nat)
    requires k <= |parts| && forall i: nat, n: nat | i <= |parts| :: PeakStep(f, parts, i, n)
    ensures f(k, Longest(parts[..k], size)) == Max(Longest(parts, size), 8)
    decreases |parts| - k
  {
    assert PeakStep(f, parts, k, Longest(parts[..k], size));
    if k < |parts| {
      assert parts[..k + 1][..k] == parts[..k] && parts[..k + 1][k] == parts[k];
      PeakFollows(f, parts, k + 1, size);
    } else {
      assert parts[..k] == parts;
    }
  }

  lemma PeakIsLongest(schema: Schema, infos: seq<Info>, size: nat)
    requires AllStorable(schema, infos)
    ensures Peak(schema, RecordsBytes(schema, infos), size) == Max(Longest(Encoded(schema, infos), size), 8)
  {
    var parts := Encoded(schema, infos);
    var f := (k: nat, n: nat) => Peak(schema, if k <= |infos| then RecordsBytes(schema, infos[k..]) else [], n);
    forall i: nat, n: nat | i <= |parts| ensures PeakStep(f, parts, i, n) {
      PeakNext(schema, infos, i, n);
    }
    PeakFollows(f, parts, 0, size);
    assert infos[0..] == infos;
  }

  /** The window ends up as large as it was first, or as the longest record, and at least eight bytes. */
  method ReplayFile(parser: Parser, ghost infos: seq<Info>) returns (got: seq<Info>, last: Ret)
    requires parser.Valid() && AllStorable(parser.schema, infos)
    requires parser.Rest() == RecordsBytes(parser.schema, infos)
    modifies parser, parser.buf
    ensures got == ReplayedAll(old(parser.schema), infos) && last == ReadEmpty
    ensures parser.size == Max(Longest(Encoded(old(parser.schema), infos), old(parser.size)), 8)
  {
    ParseWritten(parser.schema, infos);
    PeakIsLongest(parser.schema, infos, parser.size);
    got, last := ReplayRest(parser);
  }

  /**
   * The file may also break off after any byte of its records: the reader object then delivers
   * exactly those that are whole, and says whether less than a length is left over.
   */
  method ReplayCutFile(parser: Parser, ghost infos: seq<Info>) returns (got: seq<Info>, last: Ret, ghost k: nat)
    requires parser.Valid() && AllStorable(parser.schema, infos)
    requires parser.Rest() <= RecordsBytes(parser.schema, infos)
    modifies parser, parser.buf
    ensures k <= |infos| && got == ReplayedAll(old(parser.schema), infos[..k])
    ensures |RecordsBytes(old(parser.schema), infos[..k])| <= |old(parser.Rest())|
    ensures k < |infos| ==> |old(parser.Rest())| < |RecordsBytes(old(parser.schema), infos[..k + 1])|
    ensures last ==
      if |old(parser.Rest())| - |RecordsBytes(old(parser.schema), infos[..k])| < 8 then ReadEmpty else ReadErr
  {
    k := ParseTruncated(parser.schema, infos, parser.Rest());
    got, last := ReplayRest(parser);
  }

  /** Opening a file that was dumped: the reader stands before its first record. */
  method Open(file: FileData, ghost schema: Schema, ghost infos: seq<Info>, readSize: nat) returns (parser: Parser)
    requires file.bytes == FileOf(schema, infos)
    requires |schema| < 0x1_0000_0000 && |HeaderBytes(schema)| <= readSize
    ensures fresh(parser) && fresh(parser.buf) && parser.Valid() && parser.schema == schema
    ensures parser.Rest() == RecordsBytes(schema, infos)
  {
    parser := new Parser(file, readSize);
    assert HeaderBytes(schema) <= file.bytes;
    assert file.bytes[|HeaderBytes(schema)|..] == RecordsBytes(schema, infos);
    var ok := parser.Init(schema);
  }

  /**
   * The pipeline is the identity on record lists, for any schema and whatever the sizes of the
   * two buffers and of the records.
   */
  method CaptureThenReplay(schema: Schema, infos: seq<Info>, writeSize: nat, readSize: nat)
    returns (got: seq<Info>, last: Ret)
    requires |schema| < 0x1_0000_0000 && AllStorable(schema, infos)
    requires |HeaderBytes(schema)| <= writeSize && |HeaderBytes(schema)| <= readSize
    ensures got == ReplayedAll(schema, infos) && last == ReadEmpty
  {
    var file := new FileData();
    DumpAll(file, schema, infos, writeSize);
    var parser := Open(file, schema, infos, readSize);
    got, last := ReplayFile(parser, infos);
  }

  // ----- some writes fail -----

  /** The outcome of the first file write, the closing one included; true when there is none. */
  function HeaderSaved(schema: Schema, initialSize: nat, calls: seq<Call<Info>>, closeOk: bool): bool {
    match FirstWrite(Encoder(schema), Fresh(HeaderBytes(schema), initialSize), calls)
    case Some(b) => b
    case None => closeOk
  }

  const EMPTY_LEDGER: Ledger<Info> := Ledger(InBuffer, [], [])

  /** The accounts of a run on a new dump, and how they stand when the dump has been closed. */
  function AccountsOf(schema: Schema, initialSize: nat, calls: seq<Call<Info>>): Ledger<Info> {
    RunLedger(Encoder(schema), Fresh(HeaderBytes(schema), initialSize), EMPTY_LEDGER, calls)
  }

  function Kept(schema: Schema, initialSize: nat, calls: seq<Call<Info>>, closeOk: bool): seq<Info> {
    AccountsOf(schema, initialSize, calls).kept +
      if closeOk then AccountsOf(schema, initialSize, calls).buffered else []
  }

  /** What failing drains have taken with them, the last one included. */
  function Missing(schema: Schema, initialSize: nat, calls: seq<Call<Info>>, closeOk: bool): seq<Info> {
    LostIn(Encoder(schema), Fresh(HeaderBytes(schema), initialSize), EMPTY_LEDGER, calls)
    + if closeOk then [] else AccountsOf(schema, initialSize, calls).buffered
  }

  /**
   * A failing file write loses whole records only. After any run of dump calls, with any of the
   * file writes failing, the file holds an in-order selection of the dumped records, each of them
   * whole, behind the header; the header is missing exactly when the very first write failed.
   */
  lemma FailedDrainsLoseWholeRecords(schema: Schema, initialSize: nat, calls: seq<Call<Info>>, closeOk: bool)
    ensures Subsequence(Kept(schema, initialSize, calls, closeOk), InfosOf(calls))
    ensures Drained(RunCalls(Encoder(schema), Fresh(HeaderBytes(schema), initialSize), calls), closeOk).file ==
      HeaderIf(HeaderBytes(schema), HeaderSaved(schema, initialSize, calls, closeOk))
      + RecordsBytes(schema, Kept(schema, initialSize, calls, closeOk))
  {
    var h, enc := HeaderBytes(schema), Encoder(schema);
    var w, l := Fresh(h, initialSize), EMPTY_LEDGER;
    assert EncodeAll(enc, []) == [] && h + [] == h;
    assert Accounts(h, enc, l, w);
    var w', l' := RunCalls(enc, w, calls), RunLedger(enc, w, l, calls);
    RunKeepsAccounts(h, enc, w, l, calls);
    RunKeepsOrder(enc, w, l, calls);
    HeaderFollowsFirstWrite(h, enc, w, l, calls);
    if closeOk {
      SuccessfulDrain(h, enc, l', w');
    } else {
      PrefixIsSubsequence(l'.kept, l'.buffered, InfosOf(calls));
      assert l'.kept + [] == l'.kept;
    }
  }

  /**
   * And it loses no others: each dumped record is kept or was taken by a failing drain, one that
   * held it in the buffer or was made to have room for it.
   */
  lemma FailedDrainsLoseNothingElse(schema: Schema, initialSize: nat, calls: seq<Call<Info>>, closeOk: bool)
    ensures multiset(InfosOf(calls)) ==
      multiset(Kept(schema, initialSize, calls, closeOk)) + multiset(Missing(schema, initialSize, calls, closeOk))
  {
    RunConserves(Encoder(schema), Fresh(HeaderBytes(schema), initialSize), EMPTY_LEDGER, calls);
  }

  /**
   * Records that fit the first buffer, with the header, are all in the file once it is closed, whatever
   * writes would fail before.
   */
  lemma FittingRecordsSurvive(schema: Schema, initialSize: nat, calls: seq<Call<Info>>)
    requires |FileOf(schema, InfosOf(calls))| <= initialSize
    ensures Drained(RunCalls(Encoder(schema), Fresh(HeaderBytes(schema), initialSize), calls), true).file ==
      FileOf(schema, InfosOf(calls))
  {
    NothingLostThatFits(Encoder(schema), Fresh(HeaderBytes(schema), initialSize), EMPTY_LEDGER, calls);
  }

  lemma {:induction false} SelectionStorable(schema: Schema, a: seq<Info>, b: seq<Info>)
    requires Subsequence(a, b) && AllStorable(schema, b)
    ensures AllStorable(schema, a)
    decreases |b|
  {
    if a != [] {
      var a', b' := a[..|a| - 1], b[..|b| - 1];
      assert forall i | 0 <= i < |b'| :: b'[i] == b[i];
      if a[|a| - 1] == b[|b| - 1] && Subsequence(a', b') {
        SelectionStorable(schema, a', b');
        assert forall i | 0 <= i < |a'| :: a'[i] == a[i];
      } else {
        SelectionStorable(schema, a, b');
      }
    }
  }

  /** As long as the first write goes through, what a run with failing writes leaves behind can be replayed. */
  lemma FailedDrainsLeaveReadableFile(schema: Schema, initialSize: nat, calls: seq<Call<Info>>, closeOk: bool)
    requires |schema| < 0x1_0000_0000 && AllStorable(schema, InfosOf(calls))
    requires HeaderSaved(schema, initialSize, calls, closeOk)
    ensures var file :=
      Drained(RunCalls(Encoder(schema), Fresh(HeaderBytes(schema), initialSize), calls), closeOk).file;
      && DecodeHeader(file) == Header(schema) && |HeaderBytes(schema)| <= |file|
      && ParseAll(schema, file[|HeaderBytes(schema)|..]) ==
           (ReplayedAll(schema, Kept(schema, initialSize, calls, closeOk)), Empty)
  {
    var kept := Kept(schema, initialSize, calls, closeOk);
    FailedDrainsLoseWholeRecords(schema, initialSize, calls, closeOk);
    SelectionStorable(schema, kept, InfosOf(calls));
    FileReadsBack(schema, kept);
  }
}
