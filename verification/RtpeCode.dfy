/** The RTPEngine driver as its C code runs it: packets filled in place, nested decode loops over a moving
    cursor, and a client whose socket, counters and breaker fields change step by step. */
module RtpeCode {
  import opened Wrappers
  import opened Msgpack
  import opened MsgpackCode
  import opened Iproto
  import opened IprotoCode
  import opened RtpeDriver
  import Breaker
  import RtpeRestore
  import RtpeRun

  // ---------------------------------------------------------------- packets

  function CallParts(sync: nat, name: bytes, n: nat): seq<bytes> {
    HeaderParts(CALL, sync) + [Hd(MapK, 2), Num(FUNCTION_NAME), Txt(name), Num(TUPLE), Hd(ArrK, n)]
  }

  lemma FrontPieces(name: bytes)
    ensures Items(CallFront(name)) == [Num(FUNCTION_NAME), Txt(name), Num(TUPLE)]
  {
    hide Items, Num, Txt;
    Pieces(CallFront(name));
  }

  function BodyParts(name: bytes, args: seq<Value>): seq<bytes> {
    [Hd(MapK, 2)] + Items(CallFront(name)) + ([Hd(ArrK, |args|)] + Items(args))
  }

  lemma CallPartsSplit(sync: nat, name: bytes, args: seq<Value>)
    ensures Concat(CallParts(sync, name, |args|) + Items(args))
            == Concat(HeaderParts(CALL, sync)) + Concat(BodyParts(name, args))
  {
    hide Concat, HeaderParts, Items, Hd, Num, Txt, CallFront;
    FrontPieces(name);
    Regroup(HeaderParts(CALL, sync), Hd(MapK, 2), Num(FUNCTION_NAME), Txt(name), Num(TUPLE), Hd(ArrK, |args|),
      Items(args));
    ConcatAppend(HeaderParts(CALL, sync), BodyParts(name, args));
  }

  lemma BodyBytes(name: bytes, args: seq<Value>)
    ensures Bytes(Enc(Dict(CallBody(name, args)))) == Concat(BodyParts(name, args))
  {
    FrontLength(name);
    hide Concat, Bytes, Enc, Items, Hd, CallFront;
    DictListBytes(CallFront(name), args);
  }

  /** The payload of a stored-procedure call, in pieces. */
  lemma CallPayload(sync: nat, name: bytes, args: seq<Value>)
    ensures Concat(CallParts(sync, name, |args|) + Items(args))
         == Bytes(Enc(Header(CALL, sync))) + Bytes(Enc(Dict(CallBody(name, args))))
  {
    hide *;
    HeaderBytes(CALL, sync);
    BodyBytes(name, args);
    CallPartsSplit(sync, name, args);
  }

  lemma FrontLength(name: bytes)
    ensures |CallFront(name)| == 3
  {
  }

  lemma Regroup(head: seq<bytes>, a: bytes, b: bytes, c: bytes, d: bytes, e: bytes, tail: seq<bytes>)
    ensures head + [a, b, c, d, e] + tail == head + ([a] + [b, c, d] + ([e] + tail))
  {
    assert [a, b, c, d, e] == [a] + [b, c, d] + [e];
  }

  /** The part of a request every stored-procedure call shares, up to its argument list. */
  method PackCallHead(buf: array<byte>, sync: nat, name: bytes, n: nat, ghost rest: seq<bytes>) returns (p: nat)
    requires sync < TWO64 && |name| < TWO32 && n < TWO32
    requires 5 + |Concat(CallParts(sync, name, n) + rest)| <= buf.Length
    modifies buf
    ensures Writing(buf, p, CallParts(sync, name, n) + rest, 10)
  {
    ghost var parts := CallParts(sync, name, n) + rest;
    CallPartsAt(sync, name, n, rest);
    hide Writing, HeaderParts, CallParts, Concat, Num, Txt, Hd;
    p := PackHeader(buf, CALL, sync, parts);
    p := PutHead(buf, p, MapK, 2, parts, 5);
    p := PutUint(buf, p, FUNCTION_NAME, parts, 6);
    p := PutStr(buf, p, name, parts, 7);
    p := PutUint(buf, p, TUPLE, parts, 8);
    p := PutHead(buf, p, ArrK, n, parts, 9);
  }

  /** The length prefix over a finished call. */
  method Seal(buf: array<byte>, p: nat, ghost sync: nat, ghost name: bytes, ghost args: seq<Value>,
      ghost parts: seq<bytes>)
    returns (len: nat)
    requires Writing(buf, p, parts, |parts|) && buf.Length < TWO32
    requires Concat(parts) == Concat(CallParts(sync, name, |args|) + Items(args))
    modifies buf
    ensures len <= buf.Length && buf[..len] == Request(CALL, sync, Dict(CallBody(name, args)))
  {
    hide Concat, Bytes, Enc, CallParts, CallBody, Items;
    assert parts[..|parts|] == parts;
    CallPayload(sync, name, args);
    FinalizePacket(buf, p, Concat(parts));
    len := p;
  }

  /** A call with one string argument: `rtpe_tarantool_pack_call_delete`, and the request of a restore. */
  method PackStringCall(buf: array<byte>, sync: nat, name: bytes, arg: bytes) returns (len: nat)
    requires sync < TWO64 && |name| < TWO32 && |arg| < TWO32 && buf.Length < TWO32
    requires |Request(CALL, sync, Dict(CallBody(name, [Text(arg)])))| <= buf.Length
    modifies buf
    ensures len <= buf.Length && buf[..len] == Request(CALL, sync, Dict(CallBody(name, [Text(arg)])))
  {
    hide Concat, Bytes, Enc, CallParts, CallBody, Writing, Txt;
    ghost var args := [Text(arg)];
    Pieces(args);
    CallPayload(sync, name, args);
    hide Items;
    ghost var parts := CallParts(sync, name, 1) + Items(args);
    CallPartsLength(sync, name, 1);
    var p := PackCallHead(buf, sync, name, 1, Items(args));
    p := PutStr(buf, p, arg, parts, 10);
    len := Seal(buf, p, sync, name, args, parts);
  }

  lemma CallPartsAt(sync: nat, name: bytes, n: nat, rest: seq<bytes>)
    ensures var parts := CallParts(sync, name, n) + rest;
            && |parts| >= 10 && HeaderParts(CALL, sync) <= parts
            && parts[5] == Hd(MapK, 2) && parts[6] == Num(FUNCTION_NAME) && parts[7] == Txt(name)
            && parts[8] == Num(TUPLE) && parts[9] == Hd(ArrK, n)
  {
    hide Txt, Num, Hd;
  }

  lemma CallPartsLength(sync: nat, name: bytes, n: nat)
    ensures |CallParts(sync, name, n)| == 10
  {
  }

  /** The pieces of an upsert's arguments, with the payload map opened. */
  function PayloadParts(info: Info): seq<bytes> {
    [Hd(MapK, 5),
     Txt(CALLER_IP), Txt(Or(info.callerIp, NO_IP)), Txt(CALLER_PORT), Num(Widen(info.callerPort)),
     Txt(CALLEE_IP), Txt(Or(info.calleeIp, NO_IP)), Txt(CALLEE_PORT), Num(Widen(info.calleePort)),
     Txt(SRTP_SUITE), Txt(Or(info.suite, NO_SUITE))]
  }

  function UpsertParts(sync: nat, info: Info, node: Option<bytes>): seq<bytes> {
    CallParts(sync, UPSERT, 4) +
    ([Txt(info.callId), Txt(Or(node, NO_NODE))] + PayloadParts(info) + [Num(Ttl(info))])
  }

  lemma PayloadBytes(info: Info)
    ensures Bytes(Enc(Dict(PayloadValues(info)))) == Concat(PayloadParts(info))
  {
    hide Concat, Bytes, Enc, Items, Hd, Num, Txt, CALLER_IP, CALLEE_IP, CALLER_PORT, CALLEE_PORT, SRTP_SUITE, NO_IP,
         NO_SUITE, Or, Widen;
    var vs := PayloadValues(info);
    DictBytes(vs);
    Pieces(vs);
    assert [Hd(MapK, 5)] + Items(vs) == PayloadParts(info);
  }

  /** A piece in the middle can be replaced by its own pieces. */
  lemma ReplaceMiddle(a: seq<bytes>, b: seq<bytes>, c: seq<bytes>)
    ensures Concat(a + [Concat(b)] + c) == Concat(a + (b + c))
  {
    hide Concat;
    ConcatAppend(a + [Concat(b)], c);
    ReplaceLast(a, b);
    ConcatAppend(a + b, c);
    assert a + (b + c) == (a + b) + c;
  }

  lemma UpsertPayload(sync: nat, info: Info, node: Option<bytes>)
    ensures Concat(UpsertParts(sync, info, node)) == Concat(CallParts(sync, UPSERT, 4) + Items(UpsertArgs(info, node)))
  {
    hide Concat, Bytes, Enc, CallParts, Items, Num, Txt, PayloadParts, PayloadValues, UPSERT, NO_NODE, Or, Ttl;
    var args := UpsertArgs(info, node);
    Pieces(args);
    ItemsAt(args);
    PayloadBytes(info);
    var a := CallParts(sync, UPSERT, 4) + [Txt(info.callId), Txt(Or(node, NO_NODE))];
    var c := [Num(Ttl(info))];
    assert CallParts(sync, UPSERT, 4) + Items(args) == a + [Concat(PayloadParts(info))] + c;
    ReplaceMiddle(a, PayloadParts(info), c);
    assert UpsertParts(sync, info, node) == a + (PayloadParts(info) + c);
  }

  /** What the C types hold, and the buffer's room. */
  predicate SaveFits(sync: nat, info: Info, node: Option<bytes>) {
    Ranged(sync, info, node) && |UpsertPacket(sync, info, node)| <= 2048
  }

  /** `rtpe_tarantool_pack_call_upsert` */
  method PackCallUpsert(buf: array<byte>, sync: nat, node: Option<bytes>, info: Info) returns (len: nat)
    requires SaveFits(sync, info, node) && buf.Length == 2048
    modifies buf
    ensures len <= buf.Length && buf[..len] == UpsertPacket(sync, info, node)
  {
    ghost var args := UpsertArgs(info, node);
    ghost var parts := UpsertParts(sync, info, node);
    UpsertRoom(sync, info, node);
    assert |UPSERT| < TWO32;
    hide Concat, Bytes, Enc, CallParts, Items, Writing, PayloadParts, UpsertPacket, SaveFits, UPSERT, NO_NODE, Or;
    UpsertPayload(sync, info, node);
    var p := PackCallHead(buf, sync, UPSERT, 4,
                          [Txt(info.callId), Txt(Or(node, NO_NODE))] + PayloadParts(info) + [Num(Ttl(info))]);
    p := PackUpsertArgs(buf, p, sync, info, node);
    len := Seal(buf, p, sync, UPSERT, args, parts);
    SameRequest(sync, info, node);
  }

  lemma SameRequest(sync: nat, info: Info, node: Option<bytes>)
    ensures UpsertPacket(sync, info, node) == Request(CALL, sync, Dict(CallBody(UPSERT, UpsertArgs(info, node))))
  {
  }

  lemma UpsertRoom(sync: nat, info: Info, node: Option<bytes>)
    requires SaveFits(sync, info, node)
    ensures 5 + |Concat(UpsertParts(sync, info, node))| <= 2048
    ensures sync < TWO64
    ensures |UpsertArgs(info, node)| == 4
  {
    hide Concat, Bytes, Enc, CallParts, Items, UpsertParts, NO_NODE, NO_IP, NO_SUITE, UPSERT;
    UpsertPayload(sync, info, node);
    CallPayload(sync, UPSERT, UpsertArgs(info, node));
  }

  /** The arguments: call id, node, the payload map and the time to live. */
  method PackUpsertArgs(buf: array<byte>, start: nat, ghost sync: nat, info: Info, node: Option<bytes>) returns (p: nat)
    requires SaveFits(sync, info, node) && Writing(buf, start, UpsertParts(sync, info, node), 10)
    modifies buf
    ensures Writing(buf, p, UpsertParts(sync, info, node), |UpsertParts(sync, info, node)|)
  {
    hide Concat, CallParts, Writing, UpsertParts, SaveFits, Num, Txt, Hd, PayloadParts, NO_NODE;
    ghost var parts := UpsertParts(sync, info, node);
    UpsertRanges(sync, info, node);
    UpsertAt(sync, info, node);
    p := PutStr(buf, start, info.callId, parts, 10);
    p := PutStr(buf, p, Or(node, NO_NODE), parts, 11);
    p := PackPayload(buf, p, info, parts);
    p := PutUint(buf, p, if info.ttl > 0 then info.ttl else 3600, parts, 23);
  }

  lemma UpsertAt(sync: nat, info: Info, node: Option<bytes>)
    ensures var parts := UpsertParts(sync, info, node);
            && |parts| == 24 && parts[10] == Txt(info.callId) && parts[11] == Txt(Or(node, NO_NODE))
            && parts[12..23] == PayloadParts(info) && parts[23] == Num(Ttl(info))
  {
    hide Txt, Num, Hd, CallParts, PayloadParts, NO_NODE, UPSERT, Or, Ttl;
    CallPartsLength(sync, UPSERT, 4);
    PayloadPartsLength(info);
    Joined(CallParts(sync, UPSERT, 4), Txt(info.callId), Txt(Or(node, NO_NODE)), PayloadParts(info), Num(Ttl(info)));
  }

  lemma PayloadPartsLength(info: Info)
    ensures |PayloadParts(info)| == 11
  {
    hide Txt, Num, Hd, NO_IP, NO_SUITE, Or;
  }

  lemma Joined(front: seq<bytes>, x: bytes, y: bytes, middle: seq<bytes>, z: bytes)
    requires |front| == 10 && |middle| == 11
    ensures var s := front + ([x, y] + middle + [z]);
            |s| == 24 && s[10] == x && s[11] == y && s[12..23] == middle && s[23] == z
  {
  }

  lemma UpsertRanges(sync: nat, info: Info, node: Option<bytes>)
    requires SaveFits(sync, info, node)
    ensures |info.callId| < TWO32 && |Or(node, NO_NODE)| < TWO32 && Ttl(info) < TWO64
    ensures |Or(info.callerIp, NO_IP)| < TWO32 && |Or(info.calleeIp, NO_IP)| < TWO32
            && |Or(info.suite, NO_SUITE)| < TWO32
  {
    hide UpsertPacket;
  }

  /** The five media attributes. */
  method PackPayload(buf: array<byte>, start: nat, info: Info, ghost parts: seq<bytes>) returns (p: nat)
    requires |parts| == 24 && parts[12..23] == PayloadParts(info) && Writing(buf, start, parts, 12)
    requires |Or(info.callerIp, NO_IP)| < TWO32 && |Or(info.calleeIp, NO_IP)| < TWO32
             && |Or(info.suite, NO_SUITE)| < TWO32
    modifies buf
    ensures Writing(buf, p, parts, 23)
  {
    ghost var ps := PayloadParts(info);
    assert forall i :: 0 <= i < 11 ==> parts[12 + i] == parts[12..23][i];
    assert parts[12] == ps[0] && parts[13] == ps[1] && parts[14] == ps[2] && parts[15] == ps[3] && parts[16] == ps[4]
        && parts[17] == ps[5] && parts[18] == ps[6] && parts[19] == ps[7] && parts[20] == ps[8] && parts[21] == ps[9]
        && parts[22] == ps[10];
    assert |CALLER_IP| < TWO32 && |CALLEE_IP| < TWO32 && |CALLER_PORT| < TWO32 && |CALLEE_PORT| < TWO32
           && |SRTP_SUITE| < TWO32;
    hide Concat, Writing, Num, Txt, Hd, CALLER_IP, CALLEE_IP, CALLER_PORT, CALLEE_PORT, SRTP_SUITE, NO_IP, NO_SUITE;
    p := PutHead(buf, start, MapK, 5, parts, 12);
    p := PutStr(buf, p, CALLER_IP, parts, 13);
    p := PutStr(buf, p, Or(info.callerIp, NO_IP), parts, 14);
    p := PutStr(buf, p, CALLER_PORT, parts, 15);
    p := PutUint(buf, p, Widen(info.callerPort), parts, 16);
    p := PutStr(buf, p, CALLEE_IP, parts, 17);
    p := PutStr(buf, p, Or(info.calleeIp, NO_IP), parts, 18);
    p := PutStr(buf, p, CALLEE_PORT, parts, 19);
    p := PutUint(buf, p, Widen(info.calleePort), parts, 20);
    p := PutStr(buf, p, SRTP_SUITE, parts, 21);
    p := PutStr(buf, p, Or(info.suite, NO_SUITE), parts, 22);
  }

  // ---------------------------------------------------------------- how long the packets get

  lemma CallHeadSum(sync: nat, name: bytes, n: nat, rest: seq<bytes>)
    requires n <= 15
    ensures var ps := CallParts(sync, name, n) + rest;
            |ps| >= 10 && |Concat(ps[..10])| == 8 + |Num(sync)| + |Txt(name)|
  {
    hide Concat, CallParts, Num, Txt, Hd;
    var ps := CallParts(sync, name, n) + rest;
    CallPartsAt(sync, name, n, rest);
    HeadPartsAt(CALL, sync, ps);
    HeadLengths(n);
    NoParts();
    FiveParts(ps, 0);
    FiveParts(ps, 5);
    assert ps[..0] == [];
  }

  lemma HeadLengths(n: nat)
    requires n <= 15
    ensures |Hd(MapK, 2)| == 1 && |Hd(MapK, 5)| == 1 && |Hd(ArrK, n)| == 1
    ensures |Num(REQUEST_TYPE)| == 1 && |Num(CALL)| == 1 && |Num(SYNC)| == 1 && |Num(FUNCTION_NAME)| == 1
            && |Num(TUPLE)| == 1
  {
  }

  /** The length of a call with one string. */
  lemma StringCallLength(sync: nat, name: bytes, arg: bytes)
    requires sync < TWO64 && |name| < TWO32 && |arg| < TWO32
    ensures |Request(CALL, sync, Dict(CallBody(name, [Text(arg)])))|
            == 13 + NumLen(sync) + TxtLen(|name|) + TxtLen(|arg|)
  {
    hide Concat, Bytes, Enc, CallParts, CallBody, Num, Txt, NumLen, TxtLen;
    var args := [Text(arg)];
    Pieces(args);
    CallPayload(sync, name, args);
    hide Items;
    var ps := CallParts(sync, name, 1) + Items(args);
    CallPartsLength(sync, name, 1);
    CallHeadSum(sync, name, 1, Items(args));
    NextPart(ps, 10);
    assert ps[..11] == ps;
    NumLength(sync);
    TxtLength(name);
    TxtLength(arg);
  }

  /** A delete stays inside its 1024 bytes, and a restore request inside its 512, if and only if the call id or the node
      name and the sync id take no more than 994 and 481 bytes. */
  lemma StringCallFitsExactly(sync: nat, arg: bytes)
    requires sync < TWO64 && |arg| < TWO32
    ensures |DeletePacket(sync, arg)| <= 1024 <==> NumLen(sync) + TxtLen(|arg|) <= 994
    ensures |RestorePacket(sync, arg)| <= 512 <==> NumLen(sync) + TxtLen(|arg|) <= 481
  {
    hide Request, NumLen;
    StringCallLength(sync, CALL_DELETE, arg);
    StringCallLength(sync, RESTORE, arg);
  }

  /** The length of an upsert. */
  function UpsertLen(sync: nat, info: Info, node: Option<bytes>): nat {
    86 + NumLen(sync) + TxtLen(|info.callId|) + TxtLen(|Or(node, NO_NODE)|)
    + TxtLen(|Or(info.callerIp, NO_IP)|) + NumLen(Widen(info.callerPort))
    + TxtLen(|Or(info.calleeIp, NO_IP)|) + NumLen(Widen(info.calleePort)) + TxtLen(|Or(info.suite, NO_SUITE)|)
      + NumLen(Ttl(info))
  }

  lemma NameLengths()
    ensures |Txt(UPSERT)| == 17 && |Txt(CALLER_IP)| == 10 && |Txt(CALLEE_IP)| == 10
    ensures |Txt(CALLER_PORT)| == 12 && |Txt(CALLEE_PORT)| == 12 && |Txt(SRTP_SUITE)| == 11
  {
    TxtLength(UPSERT);
    TxtLength(CALLER_IP);
    TxtLength(CALLEE_IP);
    TxtLength(CALLER_PORT);
    TxtLength(CALLEE_PORT);
    TxtLength(SRTP_SUITE);
  }

  lemma PayloadSum(info: Info, ps: seq<bytes>)
    requires |ps| == 24 && ps[12..23] == PayloadParts(info)
    ensures |Concat(ps[..23])| == |Concat(ps[..12])| + 56
            + |Txt(Or(info.callerIp, NO_IP))| + |Num(Widen(info.callerPort))| + |Txt(Or(info.calleeIp, NO_IP))|
            + |Num(Widen(info.calleePort))| + |Txt(Or(info.suite, NO_SUITE))|
  {
    hide Concat, Num, Txt, Hd, NO_IP, NO_SUITE, Or, Widen, CALLER_IP, CALLEE_IP, CALLER_PORT, CALLEE_PORT, SRTP_SUITE;
    var qs := PayloadParts(info);
    assert forall i :: 0 <= i < 11 ==> ps[12 + i] == qs[i] by {
      assert forall i :: 0 <= i < 11 ==> ps[12..23][i] == ps[12 + i];
    }
    HeadLengths(4);
    NameLengths();
    FiveParts(ps, 12);
    FiveParts(ps, 17);
    NextPart(ps, 22);
  }

  lemma UpsertLength(sync: nat, info: Info, node: Option<bytes>)
    requires Ranged(sync, info, node)
    ensures |UpsertPacket(sync, info, node)| == UpsertLen(sync, info, node)
  {
    hide Concat, Bytes, Enc, CallParts, CallBody, Num, Txt, Hd, NumLen, TxtLen, Items, UpsertArgs, PayloadParts,
         NO_NODE, NO_IP, NO_SUITE, UPSERT, Or, Widen, Ttl;
    var ps := UpsertParts(sync, info, node);
    UpsertPayload(sync, info, node);
    ArgsFour(info, node);
    CallPayload(sync, UPSERT, UpsertArgs(info, node));
    UpsertAt(sync, info, node);
    CallHeadSum(sync, UPSERT, 4, [Txt(info.callId), Txt(Or(node, NO_NODE))] + PayloadParts(info) + [Num(Ttl(info))]);
    NextPart(ps, 10);
    NextPart(ps, 11);
    PayloadSum(info, ps);
    NextPart(ps, 23);
    assert ps[..24] == ps;
    NameLengths();
    FieldLengths(sync, info, node);
  }

  lemma ArgsFour(info: Info, node: Option<bytes>)
    ensures |UpsertArgs(info, node)| == 4
  {
  }

  /** What the C types can hold. */
  predicate Ranged(sync: nat, info: Info, node: Option<bytes>) {
    && sync < TWO64 && |info.callId| < TWO32 && |Or(node, NO_NODE)| < TWO32
    && |Or(info.callerIp, NO_IP)| < TWO32 && |Or(info.calleeIp, NO_IP)| < TWO32 && |Or(info.suite, NO_SUITE)| < TWO32
    && info.ttl < TWO32
  }

  lemma FieldLengths(sync: nat, info: Info, node: Option<bytes>)
    requires Ranged(sync, info, node)
    ensures |Num(sync)| == NumLen(sync) && |Txt(info.callId)| == TxtLen(|info.callId|)
    ensures |Txt(Or(node, NO_NODE))| == TxtLen(|Or(node, NO_NODE)|) && |Num(Ttl(info))| == NumLen(Ttl(info))
    ensures |Txt(Or(info.callerIp, NO_IP))| == TxtLen(|Or(info.callerIp, NO_IP)|)
    ensures |Txt(Or(info.calleeIp, NO_IP))| == TxtLen(|Or(info.calleeIp, NO_IP)|)
    ensures |Txt(Or(info.suite, NO_SUITE))| == TxtLen(|Or(info.suite, NO_SUITE)|)
    ensures |Num(Widen(info.callerPort))| == NumLen(Widen(info.callerPort))
    ensures |Num(Widen(info.calleePort))| == NumLen(Widen(info.calleePort))
  {
    hide Txt, Num, NumLen, TxtLen, NO_NODE, NO_IP, NO_SUITE;
    NumLength(sync);
    NumLength(Ttl(info));
    NumLength(Widen(info.callerPort));
    NumLength(Widen(info.calleePort));
    TxtLength(info.callId);
    TxtLength(Or(node, NO_NODE));
    TxtLength(Or(info.callerIp, NO_IP));
    TxtLength(Or(info.calleeIp, NO_IP));
    TxtLength(Or(info.suite, NO_SUITE));
  }

  /** A save stays inside its 2048-byte buffer if and only if its fields take no more than 1962 bytes. */
  lemma SaveFitsExactly(sync: nat, info: Info, node: Option<bytes>)
    requires Ranged(sync, info, node)
    ensures SaveFits(sync, info, node) <==> UpsertLen(sync, info, node) <= 2048
  {
    hide UpsertPacket, UpsertLen, Or, NO_NODE, NO_IP, NO_SUITE;
    UpsertLength(sync, info, node);
  }

  // ---------------------------------------------------------------- decoding a restore reply

  method PayloadEntryAt(data: bytes, p: nat, was: Fields) returns (f: Fields, q: nat)
    requires p <= |data| && PayloadEntry(data[p..], was).Some?
    ensures q <= |data| && PayloadEntry(data[p..], was) == Some((f, data[q..]))
  {
    hide DecodeStr, DecodeUint, Next, Copy, Narrow, KeyIs;
    var k, b := DecodeStrAt(data, p);
    f := was;
    match SlotOf(k) {
      case CallerIp =>
        var v;
        v, q := DecodeStrAt(data, b);
        f := f.(callerIp := Copy(v, 64, f.callerIp));
      case CalleeIp =>
        var v;
        v, q := DecodeStrAt(data, b);
        f := f.(calleeIp := Copy(v, 64, f.calleeIp));
      case CallerPort =>
        var n;
        n, q := DecodeUintAt(data, b);
        f := f.(callerPort := Narrow(n));
      case CalleePort =>
        var n;
        n, q := DecodeUintAt(data, b);
        f := f.(calleePort := Narrow(n));
      case Suite =>
        var v;
        v, q := DecodeStrAt(data, b);
        f := f.(suite := Copy(v, 32, f.suite));
      case OtherSlot =>
        q := SkipAt(data, b);
    }
  }

  method PayloadLoopAt(data: bytes, p: nat, n: nat, was: Fields) returns (f: Fields, q: nat)
    requires p <= |data| && PayloadLoop(data[p..], n, was).Some?
    ensures q <= |data| && PayloadLoop(data[p..], n, was) == Some((f, data[q..]))
  {
    hide PayloadEntry;
    f, q := was, p;
    for i := 0 to n
      invariant q <= |data| && PayloadLoop(data[q..], n - i, f) == PayloadLoop(data[p..], n, was)
    {
      f, q := PayloadEntryAt(data, q, f);
    }
  }

  method RowEntryAt(data: bytes, p: nat, was: Fields) returns (f: Fields, q: nat)
    requires p <= |data| && RowEntry(data[p..], was).Some?
    ensures q <= |data| && RowEntry(data[p..], was) == Some((f, data[q..]))
  {
    hide DecodeStr, DecodeHead, Next, Copy, KeyIs, PayloadLoop;
    var k, b := DecodeStrAt(data, p);
    f := was;
    match RowKeyOf(k) {
      case CallIdKey =>
        var v;
        v, q := DecodeStrAt(data, b);
        f := f.(callId := Copy(v, 128, f.callId));
      case NodeIdKey =>
        var v;
        v, q := DecodeStrAt(data, b);
        f := f.(node := Copy(v, 64, f.node));
      case PayloadKey =>
        if 0x80 <= data[b] <= 0x8f {
          var n;
          n, q := DecodeHeadAt(MapK, data, b);
          f, q := PayloadLoopAt(data, q, n, f);
        } else {
          q := SkipAt(data, b);
        }
      case OtherKey =>
        q := SkipAt(data, b);
    }
  }

  method OneRowAt(data: bytes, p: nat) returns (f: Fields, q: nat)
    requires p <= |data| && OneRow(data[p..]).Some?
    ensures q <= |data| && OneRow(data[p..]) == Some((f, data[q..]))
  {
    hide DecodeHead, Next, RowEntry;
    f := NO_FIELDS;
    var tag := data[p];
    if IsMapTag(tag) {
      var n, b := DecodeHeadAt(MapK, data, p);
      q := b;
      for i := 0 to n
        invariant q <= |data| && RowLoop(data[q..], n - i, f) == RowLoop(data[b..], n, NO_FIELDS)
      {
        f, q := RowEntryAt(data, q, f);
      }
    } else {
      q := SkipAt(data, p);
    }
  }

  method RowsLoopAt(data: bytes, p: nat, n: nat, was: seq<Fields>, quota: nat) returns (got: seq<Fields>, q: nat)
    requires p <= |data| && RowsLoop(data[p..], n, was, quota).Some?
    ensures q <= |data| && RowsLoop(data[p..], n, was, quota) == Some((got, data[q..]))
  {
    hide OneRow;
    got, q := was, p;
    for i := 0 to n
      invariant q <= |data| && RowsLoop(data[q..], n - i, got, quota) == RowsLoop(data[p..], n, was, quota)
    {
      var f;
      f, q := OneRowAt(data, q);
      if f.callId != [] {
        got := got + [f];
        if |got| == quota {
          return;
        }
      }
    }
  }

  method ResultsLoopAt(data: bytes, p: nat, n: nat, was: seq<Fields>, quota: nat) returns (got: seq<Fields>, q: nat)
    requires p <= |data| && ResultsLoop(data[p..], n, was, quota).Some?
    ensures q <= |data| && ResultsLoop(data[p..], n, was, quota) == Some((got, data[q..]))
  {
    hide DecodeHead, Next, RowsLoop;
    got, q := was, p;
    for i := 0 to n
      invariant q <= |data| && ResultsLoop(data[q..], n - i, got, quota) == ResultsLoop(data[p..], n, was, quota)
    {
      var tag := data[q];
      if IsArrTag(tag) {
        var count;
        count, q := DecodeHeadAt(ArrK, data, q);
        got, q := RowsLoopAt(data, q, count, got, quota);
      } else {
        q := SkipAt(data, q);
      }
    }
  }

  method BodyLoopAt(data: bytes, p: nat, n: nat, quota: nat) returns (got: seq<Fields>)
    requires p <= |data| && BodyLoop(data[p..], n, [], quota).Some?
    ensures BodyLoop(data[p..], n, [], quota) == Some(got)
  {
    hide DecodeHead, DecodeUint, Next, ResultsLoop;
    got := [];
    var q: nat := p;
    for i := 0 to n
      invariant q <= |data| && BodyLoop(data[q..], n - i, got, quota) == BodyLoop(data[p..], n, [], quota)
    {
      var k;
      k, q := DecodeUintAt(data, q);
      if k == DATA {
        var count;
        count, q := DecodeHeadAt(ArrK, data, q);
        got, q := ResultsLoopAt(data, q, count, got, quota);
      } else {
        q := SkipAt(data, q);
      }
    }
  }

  method SyncLoopAt(data: bytes, p: nat, n: nat) returns (sync: nat, q: nat)
    requires p <= |data| && SyncLoop(data[p..], n, 0).Some?
    ensures q <= |data| && SyncLoop(data[p..], n, 0) == Some((sync, data[q..]))
  {
    hide DecodeUint, Next;
    sync, q := 0, p;
    for i := 0 to n
      invariant q <= |data| && SyncLoop(data[q..], n - i, sync) == SyncLoop(data[p..], n, 0)
    {
      var k;
      k, q := DecodeUintAt(data, q);
      if k == SYNC {
        sync, q := DecodeUintAt(data, q);
      } else {
        q := SkipAt(data, q);
      }
    }
  }

  /** The reading loop of `rtpe_tarantool_restore_calls`. */
  method ReadRepliesAt(stream: bytes, want: nat, quota: nat) returns (r: Restored)
    requires ReadReplies(stream, want, quota).Some?
    ensures ReadReplies(stream, want, quota) == Some(r)
  {
    hide ReadFrame, DecodeHead, SyncLoop, BodyLoop;
    var at := stream;
    while true
      invariant ReadReplies(at, want, quota) == ReadReplies(stream, want, quota)
      decreases |at|
    {
      var frame := ReadFrame(at, RESTORE_LIMIT);
      if frame.None? {
        return Failed;
      }
      var (body, more) := frame.value;
      assert body[0..] == body;
      var h, p := DecodeHeadAt(MapK, body, 0);
      var sync;
      sync, p := SyncLoopAt(body, p, h);
      if sync != want {
        at := more;
      } else {
        var b;
        b, p := DecodeHeadAt(MapK, body, p);
        var calls := BodyLoopAt(body, p, b, quota);
        return Delivered(calls);
      }
    }
  }

  // ---------------------------------------------------------------- the client

  /** What the network does during one call: how connecting goes if it is needed, whether the handshake sends
      an AUTH request, whether the request goes out, and the bytes readable afterwards. */
  datatype Net = Net(now: int, fd: nat, attempt: Breaker.Attempt, auth: bool, later: int, sends: bool, stream: bytes)

  /** The breaker's view of that call. */
  function AsCall(net: Net): Breaker.Call {
    Breaker.Call(net.now, net.attempt, net.later, net.sends)
  }

  class RtpeClient {
    const cfg: Breaker.Config
    const node: bytes
    const expiresSecs: nat
    const optional: bool
    var sockFd: int
    var state: Breaker.Phase
    var syncId: nat
    var consecutiveErrors: int
    var disabledUntil: int
    var totalSent: nat
    var totalErrors: nat

    /** `rtpe_tarantool_new_from_config` */
    constructor (cfg: Breaker.Config, node: bytes, expiresSecs: nat, optional: bool)
      ensures this.cfg
              == Breaker.Config(if cfg.allowed <= 0 then 3 else cfg.allowed,
                                if cfg.disableTime <= 0 then 10 else cfg.disableTime)
      ensures this.node == node && this.expiresSecs == (if expiresSecs == 0 then 3600 else expiresSecs)
              && this.optional == optional
      ensures AsConn() == Breaker.Conn(false, Breaker.Disconnected, 0, 0)
      ensures syncId == 1 && totalSent == 0 && totalErrors == 0
    {
      this.cfg := Breaker.Config(if cfg.allowed <= 0 then 3 else cfg.allowed,
                                 if cfg.disableTime <= 0 then 10 else cfg.disableTime);
      this.node := node;
      this.expiresSecs := if expiresSecs == 0 then 3600 else expiresSecs;
      this.optional := optional;
      sockFd, state := -1, Breaker.Disconnected;
      syncId, consecutiveErrors, disabledUntil, totalSent, totalErrors := 1, 0, 0, 0, 0;
    }

    function AsConn(): Breaker.Conn
      reads this
    {
      Breaker.Conn(sockFd >= 0, state, consecutiveErrors, disabledUntil)
    }

    predicate Ready()
      reads this
    {
      sockFd >= 0 && state == Breaker.Authenticated
    }

    /** `rtpe_tarantool_close` */
    method Close()
      modifies this`sockFd, this`state
      ensures AsConn() == Breaker.RtpeClose(old(AsConn()))
    {
      if sockFd >= 0 {
        sockFd := -1;
      }
      state := Breaker.Disconnected;
    }

    /** One more failure in a row; enough of them disable the client for a while. */
    method CountError(now: int)
      requires sockFd < 0
      modifies this`state, this`consecutiveErrors, this`disabledUntil, this`totalErrors
      ensures AsConn() == Breaker.Count(old(AsConn()), cfg, now) && totalErrors == old(totalErrors) + 1
    {
      totalErrors := totalErrors + 1;
      consecutiveErrors := consecutiveErrors + 1;
      if consecutiveErrors >= cfg.allowed {
        state := Breaker.Disabled;
        disabledUntil := now + cfg.disableTime;
      }
    }

    /** `rtpe_tarantool_connect`. The AUTH request bumps the counter before it takes its id. */
    method Connect(net: Net) returns (rc: int)
      modifies this
      ensures AsConn() == Breaker.RtpeConnect(old(AsConn()), cfg, net.now, net.attempt).0
      ensures syncId == if Bumps(old(AsConn()), net) then old(syncId) + 1 else old(syncId)
      ensures rc == 0 <==> Ready()
      ensures rc == 0 ==> syncId == old(syncId) + if net.auth then 1 else 0
      ensures totalSent == old(totalSent)
    {
      if state == Breaker.Disabled {
        if net.now < disabledUntil {
          return -1;
        }
        state := Breaker.Disconnected;
        consecutiveErrors := 0;
      }
      Close();
      state := Breaker.Connecting;
      if net.attempt != Breaker.NoSocket {
        sockFd := net.fd;
      }
      if net.auth && (net.attempt == Breaker.NoAuth || net.attempt == Breaker.Up) {
        syncId := syncId + 1;
      }
      if net.attempt == Breaker.Up {
        state := Breaker.Authenticated;
        consecutiveErrors := 0;
        return 0;
      }
      Close();
      state := Breaker.Error;
      CountError(net.now);
      return -1;
    }

    /** Whether connecting takes a sync id. */
    predicate Bumps(c: Breaker.Conn, net: Net) {
      Breaker.RtpeConnect(c, cfg, net.now, net.attempt).1 && net.auth
      && (net.attempt == Breaker.NoAuth || net.attempt == Breaker.Up)
    }

    /** The counter after a call that finds the connection in state c. */
    function After(c: Breaker.Conn, sync: nat, net: Net): nat {
      if !(c.open && c.phase == Breaker.Authenticated) && Bumps(c, net) then sync + 1 else sync
    }

    /** Whether a call that finds the connection in state c gets one that can be used. */
    predicate ComesUp(c: Breaker.Conn, net: Net) {
      || (c.open && c.phase == Breaker.Authenticated)
      || Breaker.RtpeConnect(c, cfg, net.now, net.attempt).0.phase == Breaker.Authenticated
    }

    /** The send of a save or a delete, connecting first if need be. */
    method Deliver(net: Net) returns (rc: int)
      modifies this
      ensures AsConn() == Breaker.RtpeCall(old(AsConn()), cfg, AsCall(net)).0
      ensures syncId == After(old(AsConn()), old(syncId), net)
      ensures totalSent == old(totalSent) + (if Ready() then 1 else 0)
      ensures rc == if Ready() || optional then 0 else -1
    {
      if sockFd < 0 || state != Breaker.Authenticated {
        var up := Connect(net);
        if up != 0 {
          return if optional then 0 else -1;
        }
      }
      if !net.sends {
        Close();
        CountError(net.later);
        return if optional then 0 else -1;
      }
      totalSent := totalSent + 1;
      consecutiveErrors := 0;
      return 0;
    }

    /** `rtpe_tarantool_save_call`: the id is taken before the connection is looked at. */
    method SaveCall(info: Info, net: Net) returns (rc: int, packet: bytes)
      requires SaveFits(syncId, RtpeRun.WithTtl(info, expiresSecs), Some(node))
      modifies this
      ensures packet == UpsertPacket(old(syncId), RtpeRun.WithTtl(info, expiresSecs), Some(node))
      ensures syncId == After(old(AsConn()), old(syncId) + 1, net)
      ensures AsConn() == Breaker.RtpeCall(old(AsConn()), cfg, AsCall(net)).0
      ensures rc == if Ready() || optional then 0 else -1
    {
      hide UpsertPacket, SaveFits;
      var sync := syncId;
      syncId := syncId + 1;
      var copy := if info.ttl > 0 then info else info.(ttl := expiresSecs);
      var buf := new byte[2048];
      var len := PackCallUpsert(buf, sync, Some(node), copy);
      packet := buf[..len];
      rc := Deliver(net);
    }

    /** `rtpe_tarantool_delete_call` */
    method DeleteCall(callId: bytes, net: Net) returns (rc: int, packet: bytes)
      requires syncId < TWO64 && |callId| < TWO32 && |DeletePacket(syncId, callId)| <= 1024
      modifies this
      ensures packet == DeletePacket(old(syncId), callId)
      ensures syncId == After(old(AsConn()), old(syncId) + 1, net)
      ensures AsConn() == Breaker.RtpeCall(old(AsConn()), cfg, AsCall(net)).0
      ensures rc == if Ready() || optional then 0 else -1
    {
      assert |CALL_DELETE| < TWO32;
      hide Request;
      var sync := syncId;
      syncId := syncId + 1;
      var buf := new byte[1024];
      var len := PackStringCall(buf, sync, CALL_DELETE, callId);
      packet := buf[..len];
      rc := Deliver(net);
    }

    /** `rtpe_tarantool_restore_calls`: here the id is taken after connecting. */
    method RestoreCalls(wanted: bytes, net: Net, quota: nat) returns (r: Restored, packet: bytes)
      requires var sync := After(AsConn(), syncId, net);
               ComesUp(AsConn(), net) ==>
                 && sync < TWO64 && |wanted| < TWO32 && |RestorePacket(sync, wanted)| <= 512
                 && (net.sends ==> ReadReplies(net.stream, sync, quota).Some?)
      modifies this
      ensures var c := old(AsConn()); var sync := After(c, old(syncId), net);
              var up := ComesUp(c, net);
              && (!up ==> r == Failed && packet == [] && syncId == sync)
              && (up ==> packet == RestorePacket(sync, wanted) && syncId == sync + 1)
              && (up && net.sends ==> ReadReplies(net.stream, sync, quota) == Some(r))
              && (up && !net.sends ==> r == Failed)
              && AsConn() == Breaker.RtpeRestore(c, cfg, AsCall(net).(works := net.sends && r.Delivered?)).0
    {
      assert |RESTORE| < TWO32;
      hide Request, ReadReplies;
      if sockFd < 0 || state != Breaker.Authenticated {
        var up := Connect(net);
        if up != 0 {
          return Failed, [];
        }
      }
      var sync := syncId;
      syncId := syncId + 1;
      var buf := new byte[512];
      var len := PackStringCall(buf, sync, RESTORE, wanted);
      packet := buf[..len];
      if !net.sends {
        Close();
        return Failed, packet;
      }
      r := ReadRepliesAt(net.stream, sync, quota);
      if r.Failed? {
        Close();
      }
    }

    // -------------------------------------------------------------- the calls are the steps of a run

    /** An open socket is an authenticated one. */
    predicate Settled(c: Breaker.Conn) {
      c.open <==> c.phase == Breaker.Authenticated
    }

    function LinkOf(c: Breaker.Conn, net: Net): RtpeRun.Link {
      if c.open && c.phase == Breaker.Authenticated then RtpeRun.Kept
      else if ComesUp(c, net) then RtpeRun.Opened(net.auth)
      else RtpeRun.Refused(Bumps(c, net))
    }

    /** What `SaveCall` does to counter, socket and packet is a save step, acknowledged under its id. */
    lemma SaveIsStep(c: Breaker.Conn, w: RtpeRun.World, info: Info, net: Net, now: nat, drained: nat,
        ack: RtpeRestore.Ack)
      requires Settled(c) && w.open == c.open && RtpeRestore.AckOk(ack) && ack.sync == w.syncId
      requires var copy := RtpeRun.WithTtl(info, expiresSecs);
               Sendable(CALL, w.syncId, Dict(CallBody(UPSERT, UpsertArgs(copy, Some(node)))))
      ensures var w' := RtpeRun.Step(w, node, expiresSecs,
                                     RtpeRun.Save(info, now, LinkOf(c, net), drained, net.sends, ack));
              var c' := Breaker.RtpeCall(c, cfg, AsCall(net)).0;
              && w'.Some? && w'.value.syncId == After(c, w.syncId + 1, net)
              && Settled(c') && w'.value.open == c'.open
    {
      hide RtpeRestore.AckOk, Sendable, CallBody, UpsertArgs, UpsertPacket, ReadMessage,
           Perform, Ttl, RtpeRestore.RowOf, RtpeRun.WithTtl;
      var copy := RtpeRun.WithTtl(info, expiresSecs);
      RtpeRestore.SaveExact(w.db, w.syncId, copy, Some(node), now);
    }

    /** The same for `DeleteCall`. */
    lemma DeleteIsStep(c: Breaker.Conn, w: RtpeRun.World, callId: bytes, net: Net, now: nat, drained: nat,
        ack: RtpeRestore.Ack)
      requires Settled(c) && w.open == c.open && RtpeRestore.AckOk(ack) && ack.sync == w.syncId
      requires Sendable(CALL, w.syncId, Dict(CallBody(CALL_DELETE, [Text(callId)])))
      ensures var w' := RtpeRun.Step(w, node, expiresSecs,
                                     RtpeRun.Delete(callId, now, LinkOf(c, net), drained, net.sends, ack));
              var c' := Breaker.RtpeCall(c, cfg, AsCall(net)).0;
              && w'.Some? && w'.value.syncId == After(c, w.syncId + 1, net)
              && Settled(c') && w'.value.open == c'.open
    {
      hide RtpeRestore.AckOk, Sendable, CallBody, DeletePacket, ReadMessage, Perform;
      RtpeRestore.DeleteExact(w.db, w.syncId, callId, now);
    }

    /** The same for `Connect`, in any state. */
    lemma ConnectIsStep(c: Breaker.Conn, w: RtpeRun.World, net: Net)
      requires Settled(c) && w.open == c.open
      ensures var c' := Breaker.RtpeConnect(c, cfg, net.now, net.attempt).0;
              var w' := RtpeRun.Step(w, node, expiresSecs, RtpeRun.Connect(c'.open, Bumps(c, net)));
              && w'.Some? && w'.value.syncId == (if Bumps(c, net) then w.syncId + 1 else w.syncId)
              && Settled(c') && w'.value.open == c'.open
    {
    }

    /** The same for `RestoreCalls`, when the unread acknowledgements and the answer stand on the socket; and
        what it returns is the outcome of the run. */
    lemma RestoreIsStep(c: Breaker.Conn, w: RtpeRun.World, wanted: bytes, net: Net, now: nat, drained: nat,
                        answer: RtpeRestore.Answer, quota: nat, r: Restored)
      requires Settled(c) && w.open == c.open
      requires !ComesUp(c, net) || !net.sends ==> r == Failed
      requires ComesUp(c, net) && net.sends ==>
                 && r.Delivered? && ReadReplies(net.stream, After(c, w.syncId, net), quota) == Some(r)
                 && var unread := if c.open then w.unread else [];
                    var left := if drained <= |unread| then unread[drained..] else [];
                    net.stream == RtpeRestore.AckStream(left) + (Frame(RtpeRestore.AnswerBytes(answer)) + [])
      ensures var e := RtpeRun.Restore(wanted, now, LinkOf(c, net), drained, net.sends, answer);
              var w' := RtpeRun.Step(w, node, expiresSecs, e);
              var c' := Breaker.RtpeRestore(c, cfg, AsCall(net).(works := net.sends && r.Delivered?)).0;
              && w'.Some? && RtpeRun.Relink(w, e.link).Some?
              && w'.value.syncId == After(c, w.syncId, net) + (if ComesUp(c, net) then 1 else 0)
              && Settled(c') && w'.value.open == c'.open
              && (ComesUp(c, net) && net.sends ==> RtpeRun.Outcome(w, e, quota) == Some(r))
    {
      hide ReadReplies, Frame, RtpeRestore.AckStream, RtpeRestore.AnswerBytes;
    }
  }
}
