/** Building a request in a buffer, one `mp_encode_*` call at a time, behind five bytes kept for the length. */
module IprotoCode {
  import opened Wrappers
  import opened Msgpack
  import opened MsgpackCode
  import opened Iproto

  // ---------------------------------------------------------------- the pieces the encoders write

  function Num(n: nat): bytes {
    Bytes(UintWire(n))
  }

  function Txt(s: bytes): bytes {
    Bytes(Enc(Text(s)))
  }

  function Hd(k: Kind, n: nat): bytes {
    Head(k, MinWidth(k, n), n)
  }

  /** The encodings of the items of a container. */
  function Items(vs: seq<Value>): (parts: seq<bytes>)
    ensures |parts| == |vs|
  {
    if vs == [] then [] else Items(vs[..|vs| - 1]) + [Bytes(Enc(vs[|vs| - 1]))]
  }

  lemma {:induction false} ItemsBytes(vs: seq<Value>)
    ensures BytesAll(EncAll(vs)) == Concat(Items(vs))
    decreases |vs|
  {
    hide Enc, Bytes;
    if vs != [] {
      var front, v := vs[..|vs| - 1], vs[|vs| - 1];
      ItemsBytes(front);
      EncAllLast(vs);
      BytesAllAppend(EncAll(front), [Enc(v)]);
      assert BytesAll([Enc(v)]) == Bytes(Enc(v)) + BytesAll([Enc(v)][1..]);
      assert Items(vs)[..|vs| - 1] == Items(front);
    }
  }

  lemma {:induction false} ItemsAt(vs: seq<Value>)
    ensures forall i :: 0 <= i < |vs| ==> Items(vs)[i] == Bytes(Enc(vs[i]))
    decreases |vs|
  {
    hide Enc, Bytes;
    if vs != [] {
      ItemsAt(vs[..|vs| - 1]);
    }
  }

  /** Numbers and strings are single pieces. */
  lemma Pieces(vs: seq<Value>)
    ensures forall i :: 0 <= i < |vs| && vs[i].UInt? ==> Items(vs)[i] == Num(vs[i].n)
    ensures forall i :: 0 <= i < |vs| && vs[i].Text? ==> Items(vs)[i] == Txt(vs[i].s)
  {
    hide Bytes, Items;
    ItemsAt(vs);
  }

  lemma EncAllLast(vs: seq<Value>)
    requires vs != []
    ensures EncAll(vs) == EncAll(vs[..|vs| - 1]) + [Enc(vs[|vs| - 1])]
  {
    hide EncAll, Enc;
    forall i | 0 <= i < |vs| - 1
      ensures EncAll(vs)[i] == EncAll(vs[..|vs| - 1])[i]
    {
      EncAllAt(vs, i);
      EncAllAt(vs[..|vs| - 1], i);
    }
    EncAllAt(vs, |vs| - 1);
  }

  lemma ListBytes(vs: seq<Value>)
    ensures Bytes(Enc(List(vs))) == Concat([Hd(ArrK, |vs|)] + Items(vs))
  {
    hide Concat, Items, Head, BytesAll, EncAll, MinWidth;
    ItemsBytes(vs);
    ConcatHead(Hd(ArrK, |vs|), Items(vs));
  }

  lemma DictBytes(vs: seq<Value>)
    ensures Bytes(Enc(Dict(vs))) == Concat([Hd(MapK, |vs| / 2)] + Items(vs))
  {
    hide Concat, Items, Head, BytesAll, EncAll, MinWidth;
    ItemsBytes(vs);
    ConcatHead(Hd(MapK, |vs| / 2), Items(vs));
  }

  /** The last piece can be replaced by its own pieces. */
  lemma ReplaceLast(head: seq<bytes>, tail: seq<bytes>)
    ensures Concat(head + [Concat(tail)]) == Concat(head + tail)
  {
    ConcatAppend(head, [Concat(tail)]);
    ConcatAppend(head, tail);
    ConcatHead(Concat(tail), []);
    assert [Concat(tail)] + [] == [Concat(tail)];
  }

  /** A map whose last value is a list: the list's pieces can be written in its place. */
  lemma DictListBytes(front: seq<Value>, inner: seq<Value>)
    ensures Bytes(Enc(Dict(front + [List(inner)])))
         == Concat([Hd(MapK, (|front| + 1) / 2)] + Items(front) + ([Hd(ArrK, |inner|)] + Items(inner)))
  {
    hide Enc, Bytes, Hd, Concat;
    var vs := front + [List(inner)];
    assert vs[..|vs| - 1] == front;
    DictBytes(vs);
    ListBytes(inner);
    var head, tail := [Hd(MapK, |vs| / 2)] + Items(front), [Hd(ArrK, |inner|)] + Items(inner);
    assert [Hd(MapK, |vs| / 2)] + Items(vs) == head + [Concat(tail)];
    ReplaceLast(head, tail);
  }

  // ---------------------------------------------------------------- writing them

  /** The first i pieces stand behind the length prefix, and the rest will fit. */
  ghost predicate Writing(buf: array<byte>, q: nat, parts: seq<bytes>, i: nat)
    reads buf
  {
    && i <= |parts| && 5 <= q <= buf.Length && 5 + |Concat(parts)| <= buf.Length
    && buf[5..q] == Concat(parts[..i])
  }

  /** `p = mp_encode_uint(p, n)` */
  method PutUint(buf: array<byte>, p: nat, n: nat, ghost parts: seq<bytes>, ghost i: nat) returns (q: nat)
    requires n < TWO64 && Writing(buf, p, parts, i) && i < |parts| && parts[i] == Num(n)
    modifies buf
    ensures Writing(buf, q, parts, i + 1)
  {
    hide Bytes, Enc, Concat;
    ConcatPrefix(parts, i);
    ghost var was := buf[..p];
    q := EncodeUint(buf, p, n);
    assert buf[5..q] == was[5..] + Num(n);
  }

  /** One map entry with a number: `mp_encode_uint` of the key, then of the value. */
  method PutEntry(buf: array<byte>, p: nat, k: nat, n: nat, ghost parts: seq<bytes>, ghost i: nat) returns (q: nat)
    requires k < TWO64 && n < TWO64 && Writing(buf, p, parts, i)
    requires i + 1 < |parts| && parts[i] == Num(k) && parts[i + 1] == Num(n)
    modifies buf
    ensures Writing(buf, q, parts, i + 2)
  {
    hide *;
    q := PutUint(buf, p, k, parts, i);
    q := PutUint(buf, q, n, parts, i + 1);
  }

  /** `p = mp_encode_str(p, s, len)` */
  method PutStr(buf: array<byte>, p: nat, s: bytes, ghost parts: seq<bytes>, ghost i: nat) returns (q: nat)
    requires |s| < TWO32 && Writing(buf, p, parts, i) && i < |parts| && parts[i] == Txt(s)
    modifies buf
    ensures Writing(buf, q, parts, i + 1)
  {
    hide Bytes, Enc, Concat;
    ConcatPrefix(parts, i);
    ghost var was := buf[..p];
    q := EncodeStr(buf, p, s);
    assert buf[5..q] == was[5..] + Txt(s);
  }

  /** `p = mp_encode_map(p, n)` or `mp_encode_array` */
  method PutHead(buf: array<byte>, p: nat, k: Kind, n: nat, ghost parts: seq<bytes>, ghost i: nat) returns (q: nat)
    requires n < TWO32 && Writing(buf, p, parts, i) && i < |parts| && parts[i] == Hd(k, n)
    modifies buf
    ensures Writing(buf, q, parts, i + 1)
  {
    hide MinWidth, Head, Concat;
    ConcatPrefix(parts, i);
    ghost var was := buf[..p];
    q := EncodeHead(buf, p, k, n);
    assert buf[5..q] == was[5..] + Hd(k, n);
  }

  /** The pieces of a header map. */
  function HeaderParts(kind: nat, sync: nat): seq<bytes> {
    [Hd(MapK, 2), Num(REQUEST_TYPE), Num(kind), Num(SYNC), Num(sync)]
  }

  lemma HeaderBytes(kind: nat, sync: nat)
    ensures Bytes(Enc(Header(kind, sync))) == Concat(HeaderParts(kind, sync))
  {
    hide Concat, Bytes, Hd;
    var vs := [UInt(REQUEST_TYPE), UInt(kind), UInt(SYNC), UInt(sync)];
    DictBytes(vs);
    ItemsAt(vs);
    assert [Hd(MapK, 2)] + Items(vs) == HeaderParts(kind, sync);
  }

  /** The header map every request starts with: request type, then sync id. */
  method PackHeader(buf: array<byte>, kind: nat, sync: nat, ghost parts: seq<bytes>) returns (p: nat)
    requires kind < TWO64 && sync < TWO64
    requires HeaderParts(kind, sync) <= parts && 5 + |Concat(parts)| <= buf.Length
    modifies buf
    ensures Writing(buf, p, parts, 5)
  {
    ghost var h := HeaderParts(kind, sync);
    assert parts[0] == h[0] && parts[1] == h[1] && parts[2] == h[2] && parts[3] == h[3] && parts[4] == h[4];
    assert parts[..0] == [];
    assert buf[5..5] == [];
    p := 5;
    hide *;
    p := PutHead(buf, p, MapK, 2, parts, 0);
    p := PutUint(buf, p, REQUEST_TYPE, parts, 1);
    p := PutUint(buf, p, kind, parts, 2);
    p := PutUint(buf, p, SYNC, parts, 3);
    p := PutUint(buf, p, sync, parts, 4);
  }

  /** `finalize_packet`: the length prefix goes in front of the finished payload. */
  method FinalizePacket(buf: array<byte>, len: nat, ghost payload: bytes)
    requires 5 <= len <= buf.Length && len - 5 < TWO32 && buf[5..len] == payload
    modifies buf
    ensures buf[..len] == Frame(payload)
  {
    hide BE;
    var q := Put4(buf, 0, 0xce, len - 5);
    assert buf[5..len] == buf[5..][..len - 5];
    assert buf[..len] == buf[..5] + buf[5..len];
  }

  // ---------------------------------------------------------------- how long a packet gets

  /** The bytes a number takes. */
  function NumLen(n: nat): nat {
    if n <= 0x7f then 1 else if n <= 0xff then 2 else if n <= 0xffff then 3 else if n < TWO32 then 5 else 9
  }

  /** The bytes a string of length n takes. */
  function TxtLen(n: nat): nat {
    n + if n <= 31 then 1 else if n <= 0xff then 2 else if n <= 0xffff then 3 else 5
  }

  lemma NumLength(n: nat)
    requires n < TWO64
    ensures |Num(n)| == NumLen(n)
  {
  }

  lemma TxtLength(s: bytes)
    requires |s| < TWO32
    ensures |Txt(s)| == TxtLen(|s|)
  {
  }

  lemma NextPart(ps: seq<bytes>, i: nat)
    requires i < |ps|
    ensures |Concat(ps[..i + 1])| == |Concat(ps[..i])| + |ps[i]|
  {
    assert ps[..i + 1][..i] == ps[..i];
  }

  lemma FiveParts(ps: seq<bytes>, i: nat)
    requires i + 5 <= |ps|
    ensures |Concat(ps[..i + 5])| == |Concat(ps[..i])| + |ps[i]| + |ps[i + 1]| + |ps[i + 2]| + |ps[i + 3]| + |ps[i + 4]|
  {
    hide Concat;
    NextPart(ps, i);
    NextPart(ps, i + 1);
    NextPart(ps, i + 2);
    NextPart(ps, i + 3);
    NextPart(ps, i + 4);
  }

  lemma NoParts()
    ensures Concat<byte>([]) == []
  {
  }

  lemma HeadPartsAt(kind: nat, sync: nat, ps: seq<bytes>)
    requires HeaderParts(kind, sync) <= ps
    ensures |ps| >= 5 && ps[0] == Hd(MapK, 2) && ps[1] == Num(REQUEST_TYPE) && ps[2] == Num(kind)
    ensures ps[3] == Num(SYNC) && ps[4] == Num(sync)
  {
    hide Num, Hd;
    var h := HeaderParts(kind, sync);
    assert ps[0] == h[0] && ps[1] == h[1] && ps[2] == h[2] && ps[3] == h[3] && ps[4] == h[4];
  }
}
