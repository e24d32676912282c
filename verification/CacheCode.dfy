/** The OpenSIPS cache driver as its C code runs it: packet buffers filled through a moving offset,
    cursor loops over the reply, and a connection whose sync counter grows with every call. */
module CacheCode {
  import opened Wrappers
  import opened Msgpack
  import opened MsgpackCode
  import opened Iproto
  import opened IprotoCode
  import opened CacheDriver

  // ---------------------------------------------------------------- packets

  function BodyParts(op: Op, space: nat): seq<bytes> {
    var front, inner := BodyFront(op, space), BodyList(op);
    [Hd(MapK, (|front| + 1) / 2)] + Items(front) + ([Hd(ArrK, |inner|)] + Items(inner))
  }

  function Parts(op: Op, sync: nat, space: nat): seq<bytes> {
    HeaderParts(RequestKind(op), sync) + BodyParts(op, space)
  }

  /** The pieces written one after the other are the payload of the request. */
  lemma PartsPayload(op: Op, sync: nat, space: nat)
    ensures Concat(Parts(op, sync, space))
         == Bytes(Enc(Header(RequestKind(op), sync))) + Bytes(Enc(Dict(BodyValues(op, space))))
  {
    hide Concat, Bytes, Enc, HeaderParts, Items, Hd, BodyFront, BodyList;
    HeaderBytes(RequestKind(op), sync);
    DictListBytes(BodyFront(op, space), BodyList(op));
    PartsAppend(op, sync, space);
  }

  lemma PartsAppend(op: Op, sync: nat, space: nat)
    ensures Concat(Parts(op, sync, space)) == Concat(HeaderParts(RequestKind(op), sync)) + Concat(BodyParts(op, space))
  {
    hide Concat, BodyParts, HeaderParts, RequestKind;
    ConcatAppend(HeaderParts(RequestKind(op), sync), BodyParts(op, space));
  }

  /** Before packing: the pieces fit the buffer. */
  lemma PartsFit(op: Op, sync: nat, space: nat)
    requires Fits(op, sync, space)
    ensures 5 + |Concat(Parts(op, sync, space))| <= if op.Set? then 256 else 1024
  {
    hide Concat, Bytes, Enc, Parts;
    PartsPayload(op, sync, space);
  }

  lemma Ranges(op: Op, sync: nat, space: nat)
    requires Fits(op, sync, space)
    ensures sync < TWO64 && space < TWO32 && |op.key| < TWO32
    ensures op.Set? ==> |op.value| < TWO32 && op.now < TWO64 && Deadline(op.now, op.expires) < TWO64
  {
    hide Packet;
  }

  /** After packing: the length prefix completes the packet. */
  method Seal(buf: array<byte>, p: nat, ghost op: Op, ghost sync: nat, ghost space: nat) returns (len: nat)
    requires Fits(op, sync, space)
    requires Writing(buf, p, Parts(op, sync, space), |Parts(op, sync, space)|)
    modifies buf
    ensures len <= buf.Length && buf[..len] == Packet(op, sync, space)
  {
    hide Concat, Bytes, Enc, Parts, BodyValues;
    ghost var ps := Parts(op, sync, space);
    assert ps[..|ps|] == ps;
    PartsPayload(op, sync, space);
    assert |Packet(op, sync, space)| == 5 + |Concat(ps)|;
    FinalizePacket(buf, p, Concat(ps));
    len := p;
  }

  /** `pack_select_header` */
  method PackSelectHeader(buf: array<byte>, sync: nat, space: nat, ghost key: bytes) returns (p: nat)
    requires sync < TWO64 && space < TWO32 && 5 + |Concat(Parts(Get(key), sync, space))| <= buf.Length
    modifies buf
    ensures Writing(buf, p, Parts(Get(key), sync, space), 18)
  {
    ghost var parts := Parts(Get(key), sync, space);
    GetPartsAt(sync, space, key);
    hide Writing, Parts, HeaderParts, BodyParts, Concat, Num, Txt, Hd, Packet;
    p := PackHeader(buf, SELECT, sync, parts);
    p := PutHead(buf, p, MapK, 6, parts, 5);
    p := PutEntry(buf, p, SPACE_ID, space, parts, 6);
    p := PutEntry(buf, p, INDEX_ID, 0, parts, 8);
    p := PutEntry(buf, p, LIMIT, 1, parts, 10);
    p := PutEntry(buf, p, OFFSET, 0, parts, 12);
    p := PutEntry(buf, p, ITERATOR, 0, parts, 14);
    p := PutUint(buf, p, KEY, parts, 16);
    p := PutHead(buf, p, ArrK, 1, parts, 17);
  }

  /** The packet `tarantool_get` sends. */
  method PackGet(buf: array<byte>, sync: nat, space: nat, key: bytes) returns (len: nat)
    requires Fits(Get(key), sync, space) && buf.Length == 1024
    modifies buf
    ensures len <= buf.Length && buf[..len] == Packet(Get(key), sync, space)
  {
    hide Writing, Parts, HeaderParts, BodyParts, Concat, Num, Txt, Hd, Packet, Fits;
    Ranges(Get(key), sync, space);
    PartsFit(Get(key), sync, space);
    LookupTail(Get(key), sync, space);
    var p := PackSelectHeader(buf, sync, space, key);
    p := PutStr(buf, p, key, Parts(Get(key), sync, space), 18);
    len := Seal(buf, p, Get(key), sync, space);
  }

  lemma LookupTail(op: Op, sync: nat, space: nat)
    requires !op.Set?
    ensures var ps := Parts(op, sync, space); var n := if op.Get? then 18 else 12;
            |ps| == n + 1 && ps[n] == Txt(op.key)
  {
    hide Num, Hd, Txt, Items;
    Pieces(BodyFront(op, space));
    Pieces(BodyList(op));
  }

  lemma GetPartsAt(sync: nat, space: nat, key: bytes)
    ensures var ps := Parts(Get(key), sync, space);
            && |ps| == 19 && HeaderParts(SELECT, sync) <= ps
            && ps[5] == Hd(MapK, 6) && ps[6] == Num(SPACE_ID) && ps[7] == Num(space) && ps[8] == Num(INDEX_ID)
            && ps[9] == Num(0)
            && ps[10] == Num(LIMIT) && ps[11] == Num(1) && ps[12] == Num(OFFSET) && ps[13] == Num(0)
            && ps[14] == Num(ITERATOR) && ps[15] == Num(0) && ps[16] == Num(KEY) && ps[17] == Hd(ArrK, 1)
  {
    hide Num, Hd, Txt, Items;
    Pieces(BodyFront(Get(key), space));
    Pieces(BodyList(Get(key)));
  }

  /** `pack_delete_header` */
  method PackDeleteHeader(buf: array<byte>, sync: nat, space: nat, ghost key: bytes) returns (p: nat)
    requires sync < TWO64 && space < TWO32 && 5 + |Concat(Parts(Remove(key), sync, space))| <= buf.Length
    modifies buf
    ensures Writing(buf, p, Parts(Remove(key), sync, space), 12)
  {
    ghost var parts := Parts(Remove(key), sync, space);
    RemovePartsAt(sync, space, key);
    hide Writing, Parts, HeaderParts, BodyParts, Concat, Num, Txt, Hd, Packet;
    p := PackHeader(buf, DELETE, sync, parts);
    p := PutHead(buf, p, MapK, 3, parts, 5);
    p := PutEntry(buf, p, SPACE_ID, space, parts, 6);
    p := PutEntry(buf, p, INDEX_ID, 0, parts, 8);
    p := PutUint(buf, p, KEY, parts, 10);
    p := PutHead(buf, p, ArrK, 1, parts, 11);
  }

  /** The packet `tarantool_remove` sends. */
  method PackRemove(buf: array<byte>, sync: nat, space: nat, key: bytes) returns (len: nat)
    requires Fits(Remove(key), sync, space) && buf.Length == 1024
    modifies buf
    ensures len <= buf.Length && buf[..len] == Packet(Remove(key), sync, space)
  {
    hide Writing, Parts, HeaderParts, BodyParts, Concat, Num, Txt, Hd, Packet, Fits;
    Ranges(Remove(key), sync, space);
    PartsFit(Remove(key), sync, space);
    LookupTail(Remove(key), sync, space);
    var p := PackDeleteHeader(buf, sync, space, key);
    p := PutStr(buf, p, key, Parts(Remove(key), sync, space), 12);
    len := Seal(buf, p, Remove(key), sync, space);
  }

  lemma RemovePartsAt(sync: nat, space: nat, key: bytes)
    ensures var ps := Parts(Remove(key), sync, space);
            && |ps| == 13 && HeaderParts(DELETE, sync) <= ps
            && ps[5] == Hd(MapK, 3) && ps[6] == Num(SPACE_ID) && ps[7] == Num(space) && ps[8] == Num(INDEX_ID)
            && ps[9] == Num(0)
            && ps[10] == Num(KEY) && ps[11] == Hd(ArrK, 1)
  {
    hide Num, Hd, Txt, Items;
    Pieces(BodyFront(Remove(key), space));
    Pieces(BodyList(Remove(key)));
  }

  /** The request header and body of a set, up to its tuple. */
  method PackReplaceHeader(buf: array<byte>, sync: nat, space: nat, ghost op: Op) returns (p: nat)
    requires op.Set? && sync < TWO64 && space < TWO32 && 5 + |Concat(Parts(op, sync, space))| <= buf.Length
    modifies buf
    ensures Writing(buf, p, Parts(op, sync, space), 10)
  {
    hide Writing, Parts, HeaderParts, BodyParts, Concat, Num, Txt, Hd, Packet;
    ghost var parts := Parts(op, sync, space);
    SetPartsAt(op, sync, space);
    p := PackHeader(buf, REPLACE, sync, parts);
    p := PutHead(buf, p, MapK, 2, parts, 5);
    p := PutEntry(buf, p, SPACE_ID, space, parts, 6);
    p := PutUint(buf, p, TUPLE, parts, 8);
    p := PutHead(buf, p, ArrK, 7, parts, 9);
  }

  /** The seven fields of the tuple. */
  method PackTuple(buf: array<byte>, start: nat, key: bytes, value: bytes, now: nat, deadline: nat,
      ghost parts: seq<bytes>)
    returns (p: nat)
    requires Writing(buf, start, parts, 10) && |parts| == 17
    requires |key| < TWO32 && |value| < TWO32 && now < TWO64 && deadline < TWO64
    requires parts[10] == Txt(key) && parts[11] == Txt(NODE) && parts[12] == Txt(ACTIVE)
    requires parts[13] == Num(now) && parts[14] == Num(now) && parts[15] == Num(deadline) && parts[16] == Txt(value)
    modifies buf
    ensures Writing(buf, p, parts, 17)
  {
    assert |NODE| < TWO32 && |ACTIVE| < TWO32;
    hide Writing, Num, Txt, NODE, ACTIVE;
    p := PutStr(buf, start, key, parts, 10);
    p := PutStr(buf, p, NODE, parts, 11);
    p := PutStr(buf, p, ACTIVE, parts, 12);
    p := PutEntry(buf, p, now, now, parts, 13);
    p := PutUint(buf, p, deadline, parts, 15);
    p := PutStr(buf, p, value, parts, 16);
  }

  /** The packet `tarantool_set` sends. */
  method PackSet(buf: array<byte>, sync: nat, space: nat, key: bytes, value: bytes, now: nat, expires: int)
    returns (len: nat)
    requires Fits(Set(key, value, now, expires), sync, space) && buf.Length == 256
    modifies buf
    ensures len <= buf.Length && buf[..len] == Packet(Set(key, value, now, expires), sync, space)
  {
    hide Writing, Parts, HeaderParts, BodyParts, Concat, Num, Txt, Hd, Packet, Fits, NODE, ACTIVE;
    ghost var op := Set(key, value, now, expires);
    Ranges(op, sync, space);
    PartsFit(op, sync, space);
    TupleParts(op, sync, space);
    var p := PackReplaceHeader(buf, sync, space, op);
    p := PackTuple(buf, p, key, value, now, if expires > 0 then now + expires else now + 3600, Parts(op, sync, space));
    len := Seal(buf, p, op, sync, space);
  }

  lemma TupleParts(op: Op, sync: nat, space: nat)
    requires op.Set?
    ensures var ps := Parts(op, sync, space);
            && |ps| == 17 && ps[10] == Txt(op.key) && ps[11] == Txt(NODE) && ps[12] == Txt(ACTIVE)
            && ps[13] == Num(op.now) && ps[14] == Num(op.now)
            && ps[15] == Num(Deadline(op.now, op.expires)) && ps[16] == Txt(op.value)
  {
    hide Num, Hd, Txt, Items, NODE, ACTIVE;
    Pieces(BodyFront(op, space));
    Pieces(BodyList(op));
  }

  lemma SetPartsAt(op: Op, sync: nat, space: nat)
    requires op.Set?
    ensures var ps := Parts(op, sync, space);
            && |ps| == 17 && HeaderParts(REPLACE, sync) <= ps
            && ps[5] == Hd(MapK, 2) && ps[6] == Num(SPACE_ID) && ps[7] == Num(space) && ps[8] == Num(TUPLE)
            && ps[9] == Hd(ArrK, 7)
  {
    hide Num, Hd, Txt, Items;
    Pieces(BodyFront(op, space));
    Pieces(BodyList(op));
  }

  // ---------------------------------------------------------------- the 256-byte buffer

  /** The length of a set packet, from the lengths of its key and value and the sizes of its numbers. */
  lemma SetLength(op: Op, sync: nat, space: nat)
    requires op.Set? && InRange(op, sync, space)
    ensures |Packet(op, sync, space)| ==
            29 + NumLen(sync) + NumLen(space) + 2 * NumLen(op.now) + NumLen(Deadline(op.now, op.expires))
            + TxtLen(|op.key|) + TxtLen(|op.value|)
  {
    hide Concat, Bytes, Enc, Parts, Num, Txt, Hd, NumLen, TxtLen;
    var ps := Parts(op, sync, space);
    PartsPayload(op, sync, space);
    SetPartsAt(op, sync, space);
    TupleParts(op, sync, space);
    FiveParts(ps, 0);
    FiveParts(ps, 5);
    FiveParts(ps, 10);
    NextPart(ps, 15);
    NextPart(ps, 16);
    assert ps[..17] == ps && ps[..0] == [];
    HeadPartsAt(REPLACE, sync, ps);
    FixedLengths();
    NumLength(sync);
    NumLength(space);
    NumLength(op.now);
    NumLength(Deadline(op.now, op.expires));
    TxtLength(op.key);
    TxtLength(op.value);
    assert |Packet(op, sync, space)| == 5 + |Concat(ps)|;
    NoParts();
  }

  lemma FixedLengths()
    ensures |Hd(MapK, 2)| == 1 && |Hd(ArrK, 7)| == 1 && |Txt(NODE)| == 9 && |Txt(ACTIVE)| == 7
    ensures |Num(REQUEST_TYPE)| == 1 && |Num(REPLACE)| == 1 && |Num(SYNC)| == 1 && |Num(SPACE_ID)| == 1
            && |Num(TUPLE)| == 1
  {
    TxtLength(NODE);
    TxtLength(ACTIVE);
  }

  lemma LookupLength(op: Op, sync: nat, space: nat)
    requires !op.Set? && InRange(op, sync, space)
    ensures |Packet(op, sync, space)| == (if op.Get? then 21 else 15) + NumLen(sync) + NumLen(space) + TxtLen(|op.key|)
  {
    hide Concat, Bytes, Enc, Parts, Num, Txt, Hd, NumLen, TxtLen;
    PartsPayload(op, sync, space);
    LookupTail(op, sync, space);
    SmallLengths();
    NumLength(sync);
    NumLength(space);
    TxtLength(op.key);
    NoParts();
    if op.Get? { GetSum(op.key, sync, space); } else { RemoveSum(op.key, sync, space); }
    assert |Packet(op, sync, space)| == 5 + |Concat(Parts(op, sync, space))|;
  }

  lemma GetSum(key: bytes, sync: nat, space: nat)
    ensures |Concat(Parts(Get(key), sync, space))| == 16 + |Num(sync)| + |Num(space)| + |Txt(key)|
  {
    hide Concat, Parts, Num, Txt, Hd;
    var ps := Parts(Get(key), sync, space);
    GetPartsAt(sync, space, key);
    LookupTail(Get(key), sync, space);
    HeadPartsAt(SELECT, sync, ps);
    SmallLengths();
    NoParts();
    FiveParts(ps, 0);
    FiveParts(ps, 5);
    FiveParts(ps, 10);
    NextPart(ps, 15);
    NextPart(ps, 16);
    NextPart(ps, 17);
    NextPart(ps, 18);
    assert ps[..19] == ps && ps[..0] == [];
  }

  lemma RemoveSum(key: bytes, sync: nat, space: nat)
    ensures |Concat(Parts(Remove(key), sync, space))| == 10 + |Num(sync)| + |Num(space)| + |Txt(key)|
  {
    hide Concat, Parts, Num, Txt, Hd;
    var ps := Parts(Remove(key), sync, space);
    RemovePartsAt(sync, space, key);
    LookupTail(Remove(key), sync, space);
    HeadPartsAt(DELETE, sync, ps);
    SmallLengths();
    NoParts();
    FiveParts(ps, 0);
    FiveParts(ps, 5);
    NextPart(ps, 10);
    NextPart(ps, 11);
    NextPart(ps, 12);
    assert ps[..13] == ps && ps[..0] == [];
  }

  lemma SmallLengths()
    ensures |Hd(MapK, 2)| == 1 && |Hd(MapK, 3)| == 1 && |Hd(MapK, 6)| == 1 && |Hd(ArrK, 1)| == 1
    ensures |Num(REQUEST_TYPE)| == 1 && |Num(SELECT)| == 1 && |Num(DELETE)| == 1 && |Num(SYNC)| == 1
            && |Num(SPACE_ID)| == 1
    ensures |Num(INDEX_ID)| == 1 && |Num(0)| == 1 && |Num(1)| == 1 && |Num(LIMIT)| == 1 && |Num(OFFSET)| == 1
    ensures |Num(ITERATOR)| == 1 && |Num(KEY)| == 1
  {
  }

  /** `tarantool_get` and `tarantool_remove` stay inside their 1024-byte buffers if and only if the key and the two
      numbers take no more than 1003 and 1009 bytes. */
  lemma LookupFitsExactly(op: Op, sync: nat, space: nat)
    requires !op.Set? && InRange(op, sync, space)
    ensures Fits(op, sync, space) <==>
            NumLen(sync) + NumLen(space) + TxtLen(|op.key|) <= if op.Get? then 1003 else 1009
  {
    hide Packet;
    LookupLength(op, sync, space);
  }

  /** `tarantool_set` stays inside its 256-byte buffer if and only if the key, the value and the numbers take no
      more than 227 bytes; a key and a value of more than 220 bytes together never do. */
  lemma SetFitsExactly(op: Op, sync: nat, space: nat)
    requires op.Set? && InRange(op, sync, space)
    ensures Fits(op, sync, space) <==>
            NumLen(sync) + NumLen(space) + 2 * NumLen(op.now) + NumLen(Deadline(op.now, op.expires))
            + TxtLen(|op.key|) + TxtLen(|op.value|) <= 227
    ensures |op.key| + |op.value| > 220 ==> !Fits(op, sync, space)
  {
    hide Packet;
    SetLength(op, sync, space);
  }

  // ---------------------------------------------------------------- replies

  /** `check_iproto_status` */
  method CheckIprotoStatus(body: bytes, want: nat) returns (rc: int)
    requires CheckStatus(body, want).Some?
    ensures rc == CheckStatus(body, want).value
  {
    hide DecodeUint, Next, DecodeHead;
    if body == [] {
      return -1;
    }
    assert body[0..] == body;
    var n, p := DecodeHeadAt(MapK, body, 0);
    var i := 0;
    while i < n && p < |body|
      invariant 0 <= i <= n && p <= |body|
      invariant StatusLoop(body[p..], n - i, want) == CheckStatus(body, want)
    {
      assert body[p..] != [];
      var k;
      k, p := DecodeUintAt(body, p);
      if k == REQUEST_TYPE {
        var code;
        code, p := DecodeUintAt(body, p);
        if code != OK {
          return -1;
        }
      } else if k == SYNC {
        var sync;
        sync, p := DecodeUintAt(body, p);
        if sync != want {
          return -2;
        }
      } else {
        p := SkipAt(body, p);
      }
      i := i + 1;
    }
    return 0;
  }

  /** The decoding part of `tarantool_get`. */
  method DecodeGetAt(body: bytes) returns (found: Option<bytes>)
    requires DecodeGet(body).Some?
    ensures found == DecodeGet(body).value
  {
    hide DecodeUint, Next, DecodeHead, GetData;
    assert body[0..] == body;
    var h, p := DecodeHeadAt(MapK, body, 0);
    ghost var s1 := body[p..];
    var i := 0;
    while i < h
      invariant 0 <= i <= h && p <= |body|
      invariant SkipPairs(body[p..], h - i) == SkipPairs(s1, h)
    {
      var _, q := DecodeUintAt(body, p);
      p := SkipAt(body, q);
      i := i + 1;
    }
    var b;
    b, p := DecodeHeadAt(MapK, body, p);
    found := None;
    i := 0;
    while i < b
      invariant 0 <= i <= b && 0 <= p <= |body|
      invariant GetLoop(body[p..], b - i, found) == DecodeGet(body)
    {
      var k, q := DecodeUintAt(body, p);
      if k == DATA {
        found, p := GetDataAt(body, q, found);
      } else {
        p := SkipAt(body, q);
      }
      i := i + 1;
    }
  }

  /** The branch of that loop under the data key. */
  method GetDataAt(body: bytes, p: nat, was: Option<bytes>) returns (found: Option<bytes>, q: nat)
    requires p <= |body| && GetData(body[p..], was).Some?
    ensures q <= |body| && GetData(body[p..], was) == Some((found, body[q..]))
  {
    hide DecodeUint, DecodeStr, DecodeHead;
    found := was;
    var rows;
    rows, q := DecodeHeadAt(ArrK, body, p);
    if rows > 0 {
      var width, v;
      width, q := DecodeHeadAt(ArrK, body, q);
      if width >= 7 {
        var _, q1 := DecodeStrAt(body, q);
        var _, q2 := DecodeStrAt(body, q1);
        var _, q3 := DecodeStrAt(body, q2);
        var _, q4 := DecodeUintAt(body, q3);
        var _, q5 := DecodeUintAt(body, q4);
        var _, q6 := DecodeUintAt(body, q5);
        v, q := DecodeStrAt(body, q6);
        found := Some(v);
      } else if width >= 2 {
        var _, q1 := DecodeStrAt(body, q);
        v, q := DecodeStrAt(body, q1);
        found := Some(v);
      }
    }
  }

  /** `tnt_read_frame` over the bytes the socket will deliver. */
  method ReadFrameAt(stream: bytes) returns (body: Option<bytes>)
    ensures body == match ReadFrame(stream, FRAME_LIMIT) case None => None case Some(r) => Some(r.0)
  {
    if |stream| < 5 || stream[0] != 0xce {
      return None;
    }
    UnBE4(stream[1..5]);
    var blen := stream[1] as int * 0x100_0000 + stream[2] as int * 0x1_0000 + stream[3] as int * 0x100 + stream[4];
    if blen == 0 || blen > FRAME_LIMIT || 5 + blen > |stream| {
      return None;
    }
    return Some(stream[5..5 + blen]);
  }

  // ---------------------------------------------------------------- the calls

  /** What a call does with the bytes the socket delivers after its request went out. */
  function Receive(op: Op, stream: bytes, sync: nat): Option<Outcome> {
    match ReadFrame(stream, FRAME_LIMIT)
    case None => Some(Dropped)
    case Some((body, _)) => Finish(op, body, sync)
  }

  /** A call whose request the server answers honestly is a step of a run: its packet is served, and what
      `CacheConnection.Call` returns is the outcome of that step. */
  lemma CallIsStep(op: Op, st: State, conn: nat, skipped: nat, space: nat, r: Reply, more: bytes)
    requires conn < |st.counters|
    requires var sync := SyncOf(st, conn, skipped); var served := Serve(st.db, Packet(op, sync, space));
             && Fits(op, sync, space) && served.Some? && served.value.0 == sync && Honest(r, sync, served.value.2)
             && Receive(op, Frame(ReplyBytes(r)) + more, sync).Some?
    ensures var sync := SyncOf(st, conn, skipped);
            Step(st, space, Event(conn, skipped, op, r, Receive(op, Frame(ReplyBytes(r)) + more, sync).value))
            == Some(State(st.counters[conn := sync], Serve(st.db, Packet(op, sync, space)).value.1))
  {
    hide ReadFrame, Frame, ReplyBytes, Finish, Fits, Packet, Serve;
    var sync := SyncOf(st, conn, skipped);
    ReplyShort(r, sync, Serve(st.db, Packet(op, sync, space)).value.2);
    ReadFrameExact(ReplyBytes(r), more, FRAME_LIMIT);
    ReadFrameExact(ReplyBytes(r), [], FRAME_LIMIT);
    assert Frame(ReplyBytes(r)) + [] == Frame(ReplyBytes(r));
  }

  lemma ReplyShort(r: Reply, sync: nat, rows: seq<seq<Value>>)
    requires Honest(r, sync, rows)
    ensures 0 < |ReplyBytes(r)| <= FRAME_LIMIT
  {
    hide PairBytes, Accepts, Meaning, Valid, RowValues;
  }

  /** One pooled connection. Sending and receiving are parameters: whether the request went out whole, and
      the bytes the socket delivers afterwards. */
  class CacheConnection {
    var syncCounter: nat
    const spaceId: nat

    constructor (space: nat)
      ensures syncCounter == 0 && spaceId == space
    {
      syncCounter := 0;
      spaceId := space;
    }

    method ReadReply(op: Op, stream: bytes, sync: nat) returns (outcome: Outcome)
      requires Receive(op, stream, sync).Some?
      ensures outcome == Receive(op, stream, sync).value
    {
      var frame := ReadFrameAt(stream);
      if frame.None? {
        return Dropped;
      }
      var body := frame.value;
      var rc := CheckIprotoStatus(body, sync);
      if rc < 0 {
        return if rc == -2 then Dropped else Refused;
      }
      if op.Get? {
        var found := DecodeGetAt(body);
        return if found.Some? then Found(found.value) else Missing;
      }
      return Done;
    }

    /** `tarantool_get`, `tarantool_set` and `tarantool_remove`: the request carries a fresh sync id, and the
        outcome is what the reply with that id says. */
    method Call(op: Op, sent: bool, stream: bytes) returns (outcome: Outcome, request: bytes)
      requires Fits(op, NextSync(syncCounter), spaceId)
      requires sent ==> Receive(op, stream, NextSync(syncCounter)).Some?
      modifies this`syncCounter
      ensures syncCounter == NextSync(old(syncCounter))
      ensures request == Packet(op, syncCounter, spaceId)
      ensures outcome == if sent then Receive(op, stream, syncCounter).value else Dropped
    {
      hide Fits, Packet, Receive;
      syncCounter := NextSync(syncCounter);
      var sync := syncCounter;
      var len;
      match op {
        case Get(key) =>
          var buf := new byte[1024];
          len := PackGet(buf, sync, spaceId, key);
          request := buf[..len];
        case Remove(key) =>
          var buf := new byte[1024];
          len := PackRemove(buf, sync, spaceId, key);
          request := buf[..len];
        case Set(key, value, now, expires) =>
          var buf := new byte[256];
          len := PackSet(buf, sync, spaceId, key, value, now, expires);
          request := buf[..len];
      }
      if !sent {
        return Dropped, request;
      }
      outcome := ReadReply(op, stream, sync);
    }

    /** `tarantool_get_buf` */
    method GetBuf(key: bytes, buf: array<byte>, sent: bool, stream: bytes) returns (rc: int, vlen: nat, needed: nat)
      requires Fits(Get(key), NextSync(syncCounter), spaceId)
      requires sent ==> Receive(Get(key), stream, NextSync(syncCounter)).Some?
      modifies this`syncCounter, buf
      ensures syncCounter == NextSync(old(syncCounter))
      ensures var out := if sent then Receive(Get(key), stream, syncCounter).value else Dropped;
              match out
              case Found(v) =>
                if |v| > buf.Length then rc == -3 && needed == |v| && buf[..] == old(buf[..])
                else rc == 0 && vlen == |v| && buf[..vlen] == v && buf[vlen..] == old(buf[vlen..])
              case Missing => rc == -2 && buf[..] == old(buf[..])
              case _ => rc == -1 && buf[..] == old(buf[..])
    {
      hide Fits, Receive;
      var out, _ := Call(Get(key), sent, stream);
      vlen, needed := 0, 0;
      match out {
        case Found(v) =>
          if |v| > buf.Length {
            return -3, 0, |v|;
          }
          vlen := CopyBytes(buf, 0, v);
          rc := 0;
        case Missing => rc := -2;
        case _ => rc := -1;
      }
    }
  }
}
