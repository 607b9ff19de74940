/**
 * What a dump does, on values: encoded records are batched in a buffer that is drained into a
 * file. T is the type of the records and enc their encoding.
 */
module DumpLog {
  import opened Options
  import opened Bytes

  /** The file, the bytes in the buffer, and the size of the buffer. */
  datatype Writer = Writer(file: seq<byte>, pending: seq<byte>, cap: nat)

  function Log(w: Writer): seq<byte> { w.file + w.pending }

  /** A new dump: the header is the first thing in the buffer. */
  function Fresh(header: seq<byte>, cap: nat): Writer {
    Writer([], header, cap)
  }

  /** n new dumps. */
  function FreshAll(header: seq<byte>, cap: nat, n: nat): (r: seq<Writer>)
    ensures |r| == n && forall i | 0 <= i < n :: r[i] == Fresh(header, cap)
  {
    seq(n, _ => Fresh(header, cap))
  }

  /** A drain: the buffer is emptied whether or not the file write succeeds. */
  function Drained(w: Writer, ok: bool): Writer {
    Writer(if ok then w.file + w.pending else w.file, [], w.cap)
  }

  /** The files that n dumps leave behind when they are closed and the last drains go through. */
  function ClosedFiles(ws: seq<Writer>): (r: seq<seq<byte>>)
    ensures |r| == |ws| && forall i | 0 <= i < |ws| :: r[i] == Drained(ws[i], true).file
  {
    seq(|ws|, i requires 0 <= i < |ws| => Drained(ws[i], true).file)
  }

  predicate Fits(w: Writer, size: nat) {
    |w.pending| + size <= w.cap
  }

  /** A drain is needed and its file write fails: the call gives up and the record is dropped too. */
  predicate Fails(w: Writer, size: nat, ok: bool) {
    !Fits(w, size) && w.pending != [] && !ok
  }

  function Append(w: Writer, rec: seq<byte>, ok: bool): Writer {
    if Fits(w, |rec|) then w.(pending := w.pending + rec)
    else if Fails(w, |rec|, ok) then Drained(w, false)
    else
      var d := Drained(w, true);
      Writer(d.file, rec, if |rec| <= d.cap then d.cap else |rec|)
  }

  /**
   * One dump, case by case. A record that there is room for is only buffered, whatever the state
   * of the file. Otherwise the buffer goes to the file and the record into the buffer, which
   * grows if it must; but if that file write fails, both are lost.
   */
  lemma AppendCases(w: Writer, rec: seq<byte>, ok: bool)
    ensures |w.pending| + |rec| <= w.cap ==> Append(w, rec, ok) == w.(pending := w.pending + rec)
    ensures |w.pending| + |rec| > w.cap && (ok || w.pending == []) ==>
      Append(w, rec, ok) == Writer(w.file + w.pending, rec, if |rec| > w.cap then |rec| else w.cap)
    ensures |w.pending| + |rec| > w.cap && w.pending != [] && !ok ==>
      Append(w, rec, ok) == Writer(w.file, [], w.cap)
  {
  }

  // ----- all file writes succeed -----

  function AppendAll(w: Writer, recs: seq<seq<byte>>): Writer {
    if recs == [] then w else Append(AppendAll(w, recs[..|recs| - 1]), recs[|recs| - 1], true)
  }

  function Longest(recs: seq<seq<byte>>, least: nat): (m: nat)
    ensures m >= least && forall i | 0 <= i < |recs| :: |recs[i]| <= m
    ensures m == least || exists i :: 0 <= i < |recs| && |recs[i]| == m
  {
    if recs == [] then least
    else
      var m := Longest(recs[..|recs| - 1], least);
      assert forall i | 0 <= i < |recs| - 1 :: recs[i] == recs[..|recs| - 1][i];
      if |recs[|recs| - 1]| > m then |recs[|recs| - 1]| else m
  }

  lemma AppendKeepsLog(w: Writer, rec: seq<byte>)
    requires |w.pending| <= w.cap
    ensures Log(Append(w, rec, true)) == Log(w) + rec
    ensures |Append(w, rec, true).pending| <= Append(w, rec, true).cap
    ensures Append(w, rec, true).cap == if |rec| <= w.cap then w.cap else |rec|
  {
    Associative(w.file, w.pending, rec);
  }

  /**
   * File and buffer together are always everything written so far, in order; no write passes the
   * end of the buffer, whose size is the larger of its first size and the longest record.
   */
  lemma {:induction false} AppendAllKeepsLog(w: Writer, recs: seq<seq<byte>>)
    requires |w.pending| <= w.cap
    ensures Log(AppendAll(w, recs)) == Log(w) + Flatten(recs)
    ensures |AppendAll(w, recs).pending| <= AppendAll(w, recs).cap == Longest(recs, w.cap)
  {
    if recs == [] {
      assert Log(w) + Flatten(recs) == Log(w);
    } else {
      var init, rec := recs[..|recs| - 1], recs[|recs| - 1];
      AppendAllKeepsLog(w, init);
      AppendKeepsLog(AppendAll(w, init), rec);
      FlattenAppend(init, rec);
      assert recs == init + [rec];
      Associative(Log(w), Flatten(init), rec);
    }
  }

  // ----- some file writes fail -----

  /** Where the header is: still in the buffer, in the file, or lost with a failed drain. */
  datatype HeaderState = InBuffer | InFile | Lost

  /** The accounts of a run: which records are in the file and which ones in the buffer. */
  datatype Ledger<T> = Ledger(header: HeaderState, kept: seq<T>, buffered: seq<T>)

  function HeaderIf(h: seq<byte>, b: bool): seq<byte> {
    if b then h else []
  }

  ghost predicate Accounts<T>(h: seq<byte>, enc: T -> seq<byte>, l: Ledger<T>, w: Writer) {
    && w.file == HeaderIf(h, l.header == InFile) + EncodeAll(enc, l.kept)
    && w.pending == HeaderIf(h, l.header == InBuffer) + EncodeAll(enc, l.buffered)
    && (l.header == InBuffer ==> l.kept == [])
  }

  function LedgerDrained<T>(l: Ledger<T>, ok: bool): Ledger<T> {
    if ok then Ledger(if l.header == InBuffer then InFile else l.header, l.kept + l.buffered, [])
    else Ledger(if l.header == InBuffer then Lost else l.header, l.kept, [])
  }

  /** One dump call: the record, and whether a file write, if the call needs one, succeeds. */
  datatype Call<T> = Call(info: T, ok: bool)

  function LedgerAppend<T>(enc: T -> seq<byte>, l: Ledger<T>, w: Writer, c: Call<T>): Ledger<T> {
    if Fits(w, |enc(c.info)|) then l.(buffered := l.buffered + [c.info])
    else if Fails(w, |enc(c.info)|, c.ok) then LedgerDrained(l, false)
    else LedgerDrained(l, true).(buffered := [c.info])
  }

  function RunCalls<T>(enc: T -> seq<byte>, w: Writer, cs: seq<Call<T>>): Writer {
    if cs == [] then w
    else
      var c := cs[|cs| - 1];
      Append(RunCalls(enc, w, cs[..|cs| - 1]), enc(c.info), c.ok)
  }

  function RunLedger<T>(enc: T -> seq<byte>, w: Writer, l: Ledger<T>, cs: seq<Call<T>>): Ledger<T> {
    if cs == [] then l
    else
      var init := cs[..|cs| - 1];
      LedgerAppend(enc, RunLedger(enc, w, l, init), RunCalls(enc, w, init), cs[|cs| - 1])
  }

  lemma SuccessfulDrain<T>(h: seq<byte>, enc: T -> seq<byte>, l: Ledger<T>, w: Writer)
    requires Accounts(h, enc, l, w)
    ensures Accounts(h, enc, LedgerDrained(l, true), Drained(w, true))
  {
    EncodeAllConcat(enc, l.kept, l.buffered);
    if l.header == InBuffer {
      assert l.kept + l.buffered == l.buffered;
      assert w.file == [];
    } else {
      Associative(w.file, EncodeAll(enc, l.kept), EncodeAll(enc, l.buffered));
      Associative(HeaderIf(h, l.header == InFile), EncodeAll(enc, l.kept), EncodeAll(enc, l.buffered));
      assert w.pending == EncodeAll(enc, l.buffered);
    }
  }

  lemma FailedDrain<T>(h: seq<byte>, enc: T -> seq<byte>, l: Ledger<T>, w: Writer)
    requires Accounts(h, enc, l, w)
    ensures Accounts(h, enc, LedgerDrained(l, false), Drained(w, false))
  {
  }

  lemma BufferOne<T>(h: seq<byte>, enc: T -> seq<byte>, l: Ledger<T>, w: Writer, x: T)
    requires Accounts(h, enc, l, w)
    ensures Accounts(h, enc, l.(buffered := l.buffered + [x]), w.(pending := w.pending + enc(x)))
  {
    EncodeAllAppend(enc, l.buffered, x);
    Associative(HeaderIf(h, l.header == InBuffer), EncodeAll(enc, l.buffered), enc(x));
  }

  lemma AppendKeepsAccounts<T>(h: seq<byte>, enc: T -> seq<byte>, l: Ledger<T>, w: Writer, c: Call<T>)
    requires Accounts(h, enc, l, w)
    ensures Accounts(h, enc, LedgerAppend(enc, l, w, c), Append(w, enc(c.info), c.ok))
  {
    if Fits(w, |enc(c.info)|) {
      BufferOne(h, enc, l, w, c.info);
    } else if Fails(w, |enc(c.info)|, c.ok) {
      FailedDrain(h, enc, l, w);
    } else {
      SuccessfulDrain(h, enc, l, w);
      BufferOne(h, enc, LedgerDrained(l, true), Drained(w, true), c.info);
      assert LedgerDrained(l, true).buffered + [c.info] == [c.info];
      assert Drained(w, true).pending + enc(c.info) == enc(c.info);
    }
  }

  /** Over any run of successful and failing file writes, the accounts match file and buffer. */
  lemma {:induction false} RunKeepsAccounts<T>(h: seq<byte>, enc: T -> seq<byte>, w: Writer, l: Ledger<T>,
      cs: seq<Call<T>>)
    requires Accounts(h, enc, l, w)
    ensures Accounts(h, enc, RunLedger(enc, w, l, cs), RunCalls(enc, w, cs))
  {
    if cs != [] {
      var init := cs[..|cs| - 1];
      RunKeepsAccounts(h, enc, w, l, init);
      AppendKeepsAccounts(h, enc, RunLedger(enc, w, l, init), RunCalls(enc, w, init), cs[|cs| - 1]);
    }
  }

  /** The outcome of the first file write of a run, if there was one. */
  function FirstWrite<T>(enc: T -> seq<byte>, w: Writer, cs: seq<Call<T>>): Option<bool> {
    if cs == [] then None
    else
      var init, c := cs[..|cs| - 1], cs[|cs| - 1];
      var v := RunCalls(enc, w, init);
      match FirstWrite(enc, w, init)
      case Some(b) => Some(b)
      case None => if !Fits(v, |enc(c.info)|) && v.pending != [] then Some(c.ok) else None
  }

  /** The header is in the file exactly when the first file write succeeds, and lost when it fails. */
  lemma {:induction false} HeaderFollowsFirstWrite<T>(h: seq<byte>, enc: T -> seq<byte>, w: Writer, l: Ledger<T>,
      cs: seq<Call<T>>)
    requires h != [] && Accounts(h, enc, l, w) && l.header == InBuffer
    ensures RunLedger(enc, w, l, cs).header ==
      match FirstWrite(enc, w, cs)
      case None => InBuffer
      case Some(b) => if b then InFile else Lost
  {
    if cs != [] {
      HeaderFollowsFirstWrite(h, enc, w, l, cs[..|cs| - 1]);
      RunKeepsAccounts(h, enc, w, l, cs[..|cs| - 1]);
    }
  }

  // ----- what is lost -----

  /** What a failing drain takes with it: what was in the buffer, and the record that needed the room. */
  function LostBy<T>(enc: T -> seq<byte>, l: Ledger<T>, w: Writer, c: Call<T>): seq<T> {
    if |w.pending| + |enc(c.info)| > w.cap && w.pending != [] && !c.ok then l.buffered + [c.info] else []
  }

  function LostIn<T>(enc: T -> seq<byte>, w: Writer, l: Ledger<T>, cs: seq<Call<T>>): seq<T> {
    if cs == [] then []
    else
      var init := cs[..|cs| - 1];
      LostIn(enc, w, l, init) + LostBy(enc, RunLedger(enc, w, l, init), RunCalls(enc, w, init), cs[|cs| - 1])
  }

  lemma CallConserves<T>(enc: T -> seq<byte>, l: Ledger<T>, w: Writer, c: Call<T>)
    ensures var m := LedgerAppend(enc, l, w, c);
      multiset(l.kept) + multiset(l.buffered) + multiset{c.info} ==
        multiset(m.kept) + multiset(m.buffered) + multiset(LostBy(enc, l, w, c))
  {
  }

  lemma OneMoreConserved<T>(before: seq<T>, x: T, n: Ledger<T>, m: Ledger<T>, lost: seq<T>, more: seq<T>)
    requires multiset(before) == multiset(n.kept) + multiset(n.buffered) + multiset(lost)
    requires multiset(n.kept) + multiset(n.buffered) + multiset{x} ==
      multiset(m.kept) + multiset(m.buffered) + multiset(more)
    ensures multiset(before + [x]) == multiset(m.kept) + multiset(m.buffered) + multiset(lost + more)
  {
    assert multiset(before + [x]) == (multiset(n.kept) + multiset(n.buffered) + multiset{x}) + multiset(lost);
  }

  /** The i-th call takes one record in, and leaves, keeps or loses what it says. */
  ghost predicate TurnConserves<T>(infos: seq<T>, ledger: nat -> Ledger<T>, more: nat -> seq<T>, i: nat)
    requires i < |infos|
  {
    multiset(ledger(i).kept) + multiset(ledger(i).buffered) + multiset{infos[i]} ==
      multiset(ledger(i + 1).kept) + multiset(ledger(i + 1).buffered) + multiset(more(i))
  }

  function Joined<T>(more: nat -> seq<T>, k: nat): seq<T> {
    if k == 0 then [] else Joined(more, k - 1) + more(k - 1)
  }

  lemma {:induction false} TurnsConserve<T>(infos: seq<T>, ledger: nat -> Ledger<T>, more: nat -> seq<T>, k: nat)
    requires k <= |infos| && ledger(0).kept == ledger(0).buffered == []
    requires forall i: nat | i < |infos| :: TurnConserves(infos, ledger, more, i)
    ensures multiset(infos[..k]) == multiset(ledger(k).kept) + multiset(ledger(k).buffered) + multiset(Joined(more, k))
  {
    if k == 0 {
      assert infos[..0] == [];
    } else {
      TurnsConserve(infos, ledger, more, k - 1);
      assert TurnConserves(infos, ledger, more, k - 1);
      OneMoreConserved(infos[..k - 1], infos[k - 1], ledger(k - 1), ledger(k), Joined(more, k - 1), more(k - 1));
      assert infos[..k] == infos[..k - 1] + [infos[k - 1]];
    }
  }

  lemma {:induction false} LostIsJoined<T>(enc: T -> seq<byte>, w: Writer, l: Ledger<T>, cs: seq<Call<T>>,
      more: nat -> seq<T>, k: nat)
    requires k <= |cs| && forall i: nat | i < |cs| :: more(i) == LostAt(enc, w, l, cs, i)
    ensures Joined(more, k) == LostIn(enc, w, l, cs[..k])
  {
    if k > 0 {
      LostIsJoined(enc, w, l, cs, more, k - 1);
      assert cs[..k][..k - 1] == cs[..k - 1] && cs[..k][k - 1] == cs[k - 1];
      assert more(k - 1) == LostAt(enc, w, l, cs, k - 1);
    }
  }

  /** What the i-th call loses. */
  function LostAt<T>(enc: T -> seq<byte>, w: Writer, l: Ledger<T>, cs: seq<Call<T>>, i: nat): seq<T>
    requires i < |cs|
  {
    LostBy(enc, RunLedger(enc, w, l, cs[..i]), RunCalls(enc, w, cs[..i]), cs[i])
  }

  lemma CallTurnConserves<T>(enc: T -> seq<byte>, w: Writer, l: Ledger<T>, cs: seq<Call<T>>, i: nat)
    requires i < |cs|
    ensures multiset(RunLedger(enc, w, l, cs[..i]).kept) + multiset(RunLedger(enc, w, l, cs[..i]).buffered) +
      multiset{cs[i].info} ==
      multiset(RunLedger(enc, w, l, cs[..i + 1]).kept) + multiset(RunLedger(enc, w, l, cs[..i + 1]).buffered)
      + multiset(LostAt(enc, w, l, cs, i))
  {
    CallConserves(enc, RunLedger(enc, w, l, cs[..i]), RunCalls(enc, w, cs[..i]), cs[i]);
    assert cs[..i + 1][..i] == cs[..i] && cs[..i + 1][i] == cs[i];
  }

  /** Over a whole run every dumped record is in the file, in the buffer, or among those lost, and nowhere twice. */
  lemma RunConserves<T>(enc: T -> seq<byte>, w: Writer, l: Ledger<T>, cs: seq<Call<T>>)
    requires l.kept == l.buffered == []
    ensures var m := RunLedger(enc, w, l, cs);
      multiset(InfosOf(cs)) == multiset(m.kept) + multiset(m.buffered) + multiset(LostIn(enc, w, l, cs))
  {
    var infos := InfosOf(cs);
    var ledger := (i: nat) => RunLedger(enc, w, l, if i <= |cs| then cs[..i] else []);
    var more := (i: nat) => if i < |cs| then LostAt(enc, w, l, cs, i) else [];
    forall i: nat | i < |infos| ensures TurnConserves(infos, ledger, more, i) {
      CallTurnConserves(enc, w, l, cs, i);
    }
    TurnsConserve(infos, ledger, more, |infos|);
    LostIsJoined(enc, w, l, cs, more, |cs|);
    assert infos[..|infos|] == infos && cs[..|cs|] == cs;
  }

  /** While everything written fits the first buffer nothing is lost, whatever would become of file writes. */
  lemma {:induction false} NothingLostThatFits<T>(enc: T -> seq<byte>, w: Writer, l: Ledger<T>, cs: seq<Call<T>>)
    requires l.kept == l.buffered == [] && |w.pending| + |EncodeAll(enc, InfosOf(cs))| <= w.cap
    ensures RunCalls(enc, w, cs) == w.(pending := w.pending + EncodeAll(enc, InfosOf(cs)))
    ensures RunLedger(enc, w, l, cs) == l.(buffered := InfosOf(cs)) && LostIn(enc, w, l, cs) == []
  {
    if cs == [] {
      assert InfosOf(cs) == [] && EncodeAll(enc, []) == [];
      assert w.pending + [] == w.pending;
    } else {
      var init, c := cs[..|cs| - 1], cs[|cs| - 1];
      assert InfosOf(cs) == InfosOf(init) + [c.info];
      EncodeAllAppend(enc, InfosOf(init), c.info);
      NothingLostThatFits(enc, w, l, init);
      Associative(w.pending, EncodeAll(enc, InfosOf(init)), enc(c.info));
    }
  }

  /** a is b with some elements left out. */
  predicate Subsequence<T(==)>(a: seq<T>, b: seq<T>) {
    if a == [] then true
    else if b == [] then false
    else (a[|a| - 1] == b[|b| - 1] && Subsequence(a[..|a| - 1], b[..|b| - 1])) || Subsequence(a, b[..|b| - 1])
  }

  function InfosOf<T>(cs: seq<Call<T>>): (r: seq<T>)
    ensures |r| == |cs|
  {
    seq(|cs|, i requires 0 <= i < |cs| => cs[i].info)
  }

  lemma SubsequenceOfMore<T>(a: seq<T>, b: seq<T>, x: T)
    requires Subsequence(a, b)
    ensures Subsequence(a, b + [x]) && Subsequence(a + [x], b + [x])
  {
    assert (b + [x])[..|b|] == b && (a + [x])[..|a|] == a;
  }

  lemma {:induction false} PrefixIsSubsequence<T>(a: seq<T>, rest: seq<T>, b: seq<T>)
    requires Subsequence(a + rest, b)
    ensures Subsequence(a, b)
    decreases |rest| + |b|
  {
    if a != [] && rest != [] {
      var c, b' := a + rest, b[..|b| - 1];
      if c[|c| - 1] == b[|b| - 1] && Subsequence(c[..|c| - 1], b') {
        assert c[..|c| - 1] == a + rest[..|rest| - 1];
        PrefixIsSubsequence(a, rest[..|rest| - 1], b');
      } else {
        PrefixIsSubsequence(a, rest, b');
      }
    } else {
      assert rest == [] ==> a + rest == a;
    }
  }

  lemma AppendKeepsOrder<T>(enc: T -> seq<byte>, l: Ledger<T>, w: Writer, c: Call<T>, before: seq<T>)
    requires Subsequence(l.kept + l.buffered, before)
    ensures var m := LedgerAppend(enc, l, w, c); Subsequence(m.kept + m.buffered, before + [c.info])
  {
    PrefixIsSubsequence(l.kept, l.buffered, before);
    SubsequenceOfMore(l.kept, before, c.info);
    SubsequenceOfMore(l.kept + l.buffered, before, c.info);
    assert (l.kept + l.buffered) + [c.info] == l.kept + (l.buffered + [c.info]);
    assert l.kept + [] == l.kept;
  }

  /** What ends up in the file or the buffer was dumped, in that order, and nothing twice. */
  lemma {:induction false} RunKeepsOrder<T>(enc: T -> seq<byte>, w: Writer, l: Ledger<T>, cs: seq<Call<T>>)
    requires l.kept == l.buffered == []
    ensures Subsequence(RunLedger(enc, w, l, cs).kept + RunLedger(enc, w, l, cs).buffered, InfosOf(cs))
  {
    if cs != [] {
      var init, c := cs[..|cs| - 1], cs[|cs| - 1];
      RunKeepsOrder(enc, w, l, init);
      assert InfosOf(cs) == InfosOf(init) + [c.info];
      AppendKeepsOrder(enc, RunLedger(enc, w, l, init), RunCalls(enc, w, init), c, InfosOf(init));
    }
  }
}
