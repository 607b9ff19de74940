/** Fixed-width integers as the little-endian bytes that memcpy moves. */
module Bytes {

  type byte = x: int | 0 <= x < 0x100
  type u32 = x: int | 0 <= x < 0x1_0000_0000
  type u64 = x: int | 0 <= x < 0x1_0000_0000_0000_0000
  type s32 = x: int | -0x8000_0000 <= x < 0x8000_0000
  type s64 = x: int | -0x8000_0000_0000_0000 <= x < 0x8000_0000_0000_0000

  /** The number of values of w bytes. */
  function Span(w: nat): (n: nat)
    ensures n > 0
  {
    if w == 0 then 1 else 0x100 * Span(w - 1)
  }

  lemma Spans()
    ensures Span(1) == 0x100 && Span(4) == 0x1_0000_0000 && Span(8) == 0x1_0000_0000_0000_0000
  {
    assert Span(2) == 0x1_0000;
    assert Span(3) == 0x100_0000;
    assert Span(5) == 0x100_0000_0000;
    assert Span(6) == 0x1_0000_0000_0000;
    assert Span(7) == 0x100_0000_0000_0000;
  }

  /** The low w bytes of x, least significant first. */
  function ToBytes(x: nat, w: nat): (s: seq<byte>)
    ensures |s| == w
  {
    if w == 0 then [] else [x % 0x100] + ToBytes(x / 0x100, w - 1)
  }

  /** s has the bytes a at pos. */
  predicate Lies(s: seq<byte>, pos: nat, a: seq<byte>) {
    pos + |a| <= |s| && s[pos..pos + |a|] == a
  }

  lemma Halves(s: seq<byte>, pos: nat, a: seq<byte>, b: seq<byte>)
    requires Lies(s, pos, a + b)
    ensures Lies(s, pos, a) && Lies(s, pos + |a|, b)
  {
    var r := s[pos..pos + |a + b|];
    assert s[pos..pos + |a|] == r[..|a|];
    assert s[pos + |a|..pos + |a| + |b|] == r[|a|..];
  }

  /** The w bytes at pos as a number. */
  function FromBytes(s: seq<byte>, pos: nat, w: nat): nat
    requires pos + w <= |s|
    decreases w
  {
    if w == 0 then 0 else s[pos] + 0x100 * FromBytes(s, pos + 1, w - 1)
  }

  lemma {:induction false} FromBytesBound(s: seq<byte>, pos: nat, w: nat)
    requires pos + w <= |s|
    ensures FromBytes(s, pos, w) < Span(w)
    decreases w
  {
    if w > 0 {
      FromBytesBound(s, pos + 1, w - 1);
    }
  }

  lemma {:induction false} BytesRoundTrip(x: nat, w: nat, s: seq<byte>, pos: nat)
    requires x < Span(w) && Lies(s, pos, ToBytes(x, w))
    ensures FromBytes(s, pos, w) == x
    decreases w
  {
    if w > 0 {
      assert s[pos] == s[pos..pos + w][0] == x % 0x100;
      Halves(s, pos, [x % 0x100], ToBytes(x / 0x100, w - 1));
      BytesRoundTrip(x / 0x100, w - 1, s, pos + 1);
    }
  }

  /** Only the bytes read matter. */
  lemma {:induction false} FromBytesSame(s: seq<byte>, p: nat, t: seq<byte>, q: nat, w: nat)
    requires p + w <= |s| && q + w <= |t| && s[p..p + w] == t[q..q + w]
    ensures FromBytes(s, p, w) == FromBytes(t, q, w)
    decreases w
  {
    if w > 0 {
      assert s[p] == s[p..p + w][0] == t[q..q + w][0] == t[q];
      assert s[p + 1..p + w] == s[p..p + w][1..] == t[q..q + w][1..] == t[q + 1..q + w];
      FromBytesSame(s, p + 1, t, q + 1, w - 1);
    }
  }

  /** Two's complement. */
  function Wrap(x: int, w: nat): nat
    requires Span(w) + x >= 0
  {
    if x < 0 then x + Span(w) else x
  }

  function Unwrap(x: nat, w: nat): int {
    if 2 * x >= Span(w) then x - Span(w) else x
  }

  function Flatten(segs: seq<seq<byte>>): seq<byte> {
    if segs == [] then [] else segs[0] + Flatten(segs[1..])
  }

  lemma Associative(a: seq<byte>, b: seq<byte>, c: seq<byte>)
    ensures a + (b + c) == (a + b) + c
  {
  }

  lemma {:induction false} FlattenConcat(a: seq<seq<byte>>, b: seq<seq<byte>>)
    ensures Flatten(a + b) == Flatten(a) + Flatten(b)
  {
    if a == [] {
      assert a + b == b;
    } else {
      FlattenConcat(a[1..], b);
      assert (a + b)[0] == a[0] && (a + b)[1..] == a[1..] + b;
      Associative(a[0], Flatten(a[1..]), Flatten(b));
    }
  }

  lemma FlattenAppend(a: seq<seq<byte>>, x: seq<byte>)
    ensures Flatten(a + [x]) == Flatten(a) + x
  {
    FlattenConcat(a, [x]);
    assert Flatten([x]) == x + Flatten([]);
  }

  /** How many of the parts lie whole within the first len bytes. */
  function WholeParts(parts: seq<seq<byte>>, len: nat): (k: nat)
    ensures k <= |parts|
  {
    if parts == [] || |parts[0]| > len then 0 else 1 + WholeParts(parts[1..], len - |parts[0]|)
  }

  lemma {:induction false} WholePartsMeaning(parts: seq<seq<byte>>, len: nat)
    ensures |Flatten(parts[..WholeParts(parts, len)])| <= len
    ensures WholeParts(parts, len) < |parts| ==> len < |Flatten(parts[..WholeParts(parts, len) + 1])|
  {
    var k := WholeParts(parts, len);
    if k > 0 {
      WholePartsMeaning(parts[1..], len - |parts[0]|);
      assert parts[..k][1..] == parts[1..][..k - 1];
      assert k < |parts| ==> parts[..k + 1][1..] == parts[1..][..k];
    } else if parts != [] {
      assert parts[..1] == [parts[0]];
      assert Flatten([parts[0]]) == parts[0] + Flatten([]);
    }
  }

  /** What a prefix of the parts leaves over after the whole ones. */
  lemma {:induction false} LeftOver(parts: seq<seq<byte>>, rest: seq<byte>) returns (tail: seq<byte>)
    requires rest <= Flatten(parts)
    ensures rest == Flatten(parts[..WholeParts(parts, |rest|)]) + tail
    ensures var k := WholeParts(parts, |rest|); if k < |parts| then tail < parts[k] else tail == []
    decreases |parts|
  {
    var k := WholeParts(parts, |rest|);
    if k == 0 {
      tail := rest;
      assert parts[..0] == [];
    } else {
      var p := parts[0];
      tail := LeftOver(parts[1..], rest[|p|..]);
      assert rest == p + rest[|p|..];
      assert parts[..k][1..] == parts[1..][..k - 1];
      Associative(p, Flatten(parts[1..][..k - 1]), tail);
    }
  }

  // ----- encoding a list element by element -----

  function Map<T>(enc: T -> seq<byte>, xs: seq<T>): (r: seq<seq<byte>>)
    ensures |r| == |xs|
  {
    seq(|xs|, i requires 0 <= i < |xs| => enc(xs[i]))
  }

  function EncodeAll<T>(enc: T -> seq<byte>, xs: seq<T>): seq<byte> {
    Flatten(Map(enc, xs))
  }

  lemma EncodeAllConcat<T>(enc: T -> seq<byte>, a: seq<T>, b: seq<T>)
    ensures EncodeAll(enc, a + b) == EncodeAll(enc, a) + EncodeAll(enc, b)
  {
    assert Map(enc, a + b) == Map(enc, a) + Map(enc, b);
    FlattenConcat(Map(enc, a), Map(enc, b));
  }

  lemma EncodeAllAppend<T>(enc: T -> seq<byte>, a: seq<T>, x: T)
    ensures EncodeAll(enc, a + [x]) == EncodeAll(enc, a) + enc(x)
  {
    assert Map(enc, a + [x]) == Map(enc, a) + [enc(x)];
    FlattenAppend(Map(enc, a), enc(x));
  }

  /** Each part lies where the parts before it end. */
  lemma PartLies(s: seq<byte>, pos: nat, parts: seq<seq<byte>>, k: nat)
    requires k < |parts| && Lies(s, pos, Flatten(parts))
    ensures Lies(s, pos + |Flatten(parts[..k])|, parts[k])
  {
    assert parts == parts[..k] + parts[k..];
    FlattenConcat(parts[..k], parts[k..]);
    Halves(s, pos, Flatten(parts[..k]), Flatten(parts[k..]));
    Halves(s, pos + |Flatten(parts[..k])|, parts[k], Flatten(parts[k..][1..]));
  }
}
