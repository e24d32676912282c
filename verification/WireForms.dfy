/** The bytes themselves: every MessagePack form the codec knows, and every request of both drivers, byte for
    byte as the encoders write them. */
module WireForms {
  import opened Wrappers
  import opened Msgpack
  import opened Iproto
  import opened IprotoCode
  import opened CacheDriver
  import opened RtpeDriver
  import CacheCode
  import RtpeCode
  import RtpeSaved

  // ---------------------------------------------------------------- MessagePack

  lemma TwoBytes(n: nat)
    ensures BE(n, 1) == [n % 256] && BE(n, 2) == [n / 256 % 256, n % 256]
  {
    assert BE(n / 256, 1) == BE(n / 256 / 256, 0) + [n / 256 % 256];
  }

  lemma FourBytes(n: nat)
    ensures BE(n, 4) == [n / 0x100_0000 % 256, n / 0x1_0000 % 256, n / 0x100 % 256, n % 256]
  {
    hide BE;
    TwoBytes(n / 256 / 256);
    LastBytes(n);
  }

  lemma LastBytes(n: nat)
    ensures BE(n, 4) == BE(n / 256 / 256, 2) + [n / 256 % 256, n % 256]
  {
    assert BE(n, 4) == BE(n / 256, 3) + [n % 256];
    assert BE(n / 256, 3) == BE(n / 256 / 256, 2) + [n / 256 % 256];
  }

  /** The head of a string, blob, array or map, in each of its forms. */
  lemma HeadForms(n: nat)
    ensures n <= 31 ==> Head(StrK, 0, n) == [0xa0 + n]
    ensures n <= 15 ==> Head(ArrK, 0, n) == [0x90 + n] && Head(MapK, 0, n) == [0x80 + n]
    ensures n < 0x100 ==> Head(StrK, 1, n) == [0xd9, n] && Head(BinK, 1, n) == [0xc4, n]
    ensures n < 0x1_0000 ==> var hi, lo := n / 256, n % 256;
              && Head(StrK, 2, n) == [0xda, hi, lo] && Head(BinK, 2, n) == [0xc5, hi, lo]
              && Head(ArrK, 2, n) == [0xdc, hi, lo] && Head(MapK, 2, n) == [0xde, hi, lo]
    ensures n < 0x1_0000_0000 ==>
              var len := [n / 0x100_0000, n / 0x1_0000 % 256, n / 0x100 % 256, n % 256];
              && Head(StrK, 4, n) == [0xdb] + len && Head(BinK, 4, n) == [0xc6] + len
              && Head(ArrK, 4, n) == [0xdd] + len && Head(MapK, 4, n) == [0xdf] + len
  {
    hide BE;
    TwoBytes(n);
    FourBytes(n);
  }

  /** Which scalars there are, and how many bytes follow each tag: nil, the two booleans, small numbers of both
      signs, and numbers of one, two, four and eight bytes, unsigned and signed. */
  lemma ScalarForms(tag: byte, body: bytes)
    ensures Valid(Scalar(tag, body)) <==>
              || (body == [] && (tag <= 0x7f || tag >= 0xe0 || tag == 0xc0 || tag == 0xc2 || tag == 0xc3))
              || (|body| == 1 && (tag == 0xcc || tag == 0xd0))
              || (|body| == 2 && (tag == 0xcd || tag == 0xd1))
              || (|body| == 4 && (tag == 0xce || tag == 0xd2))
              || (|body| == 8 && (tag == 0xcf || tag == 0xd3))
  {
  }

  /** What the scalars of up to four bytes mean. */
  lemma ScalarMeanings(a: byte, b: byte, c: byte, d: byte)
    ensures Meaning(Scalar(0xc0, [])) == Nil
            && Meaning(Scalar(0xc2, [])) == Bool(false) && Meaning(Scalar(0xc3, [])) == Bool(true)
    ensures a <= 0x7f ==> Meaning(Scalar(a, [])) == UInt(a)
    ensures a >= 0xe0 ==> Meaning(Scalar(a, [])) == SInt(a - 0x100)
    ensures Meaning(Scalar(0xcc, [a])) == UInt(a) && Meaning(Scalar(0xcd, [a, b])) == UInt(a * 256 + b)
    ensures Meaning(Scalar(0xce, [a, b, c, d])) == UInt(a * 0x100_0000 + b * 0x1_0000 + c * 0x100 + d)
    ensures Meaning(Scalar(0xd0, [a])) == SInt(if a < 0x80 then a else a - 0x100)
    ensures Meaning(Scalar(0xd1, [a, b])) == SInt(if a < 0x80 then a * 256 + b else a * 256 + b - 0x1_0000)
  {
    Caps();
    UnBE1([a]);
    UnBE2([a, b]);
    UnBE4([a, b, c, d]);
    hide UnBE, Cap;
  }

  /** What `mp_encode_uint` writes. */
  lemma NumberForms(n: nat)
    ensures n <= 0x7f ==> Num(n) == [n]
    ensures 0x80 <= n <= 0xff ==> Num(n) == [0xcc, n]
    ensures 0x100 <= n <= 0xffff ==> Num(n) == [0xcd, n / 256, n % 256]
    ensures 0x1_0000 <= n <= 0xffff_ffff ==>
              Num(n) == [0xce, n / 0x100_0000, n / 0x1_0000 % 256, n / 0x100 % 256, n % 256]
    ensures 0x1_0000_0000 <= n ==> Num(n) == [0xcf] + BE(n, 8)
  {
    hide BE;
    TwoBytes(n);
    FourBytes(n);
  }

  /** What `mp_encode_str` writes. */
  lemma TextForms(s: bytes)
    ensures |s| <= 31 ==> Txt(s) == [0xa0 + |s|] + s
    ensures 32 <= |s| <= 0xff ==> Txt(s) == [0xd9, |s|] + s
    ensures 0x100 <= |s| <= 0xffff ==> Txt(s) == [0xda, |s| / 256, |s| % 256] + s
    ensures 0x1_0000 <= |s| <= 0xffff_ffff ==>
              Txt(s) == [0xdb, |s| / 0x100_0000, |s| / 0x1_0000 % 256, |s| / 0x100 % 256, |s| % 256] + s
  {
    hide Head;
    HeadForms(|s|);
  }

  // ---------------------------------------------------------------- requests

  /** A frame: the tag of a four-byte number, the length, the payload. */
  lemma FrameForm(payload: bytes)
    requires |payload| < 0x1_0000_0000
    ensures var n := |payload|;
            Frame(payload) == [0xce, n / 0x100_0000, n / 0x1_0000 % 256, n / 0x100 % 256, n % 256] + payload
  {
    hide BE;
    FourBytes(|payload|);
  }

  lemma Small(n: nat)
    requires n <= 0x7f
    ensures Num(n) == [n]
  {
  }

  lemma SmallHeads(n: nat)
    requires n <= 15
    ensures Hd(MapK, n) == [0x80 + n] && Hd(ArrK, n) == [0x90 + n]
  {
  }

  lemma HeaderForm(kind: nat, sync: nat)
    requires kind <= 0x7f
    ensures HeaderParts(kind, sync) == [[0x82], [0x00], [kind], [0x01], Num(sync)]
  {
    Small(0); Small(1); Small(kind);
    SmallHeads(2);
    hide Num, Hd;
  }

  lemma PacketForm(op: Op, sync: nat, space: nat)
    ensures Packet(op, sync, space) == Frame(Concat(CacheCode.Parts(op, sync, space)))
  {
    hide Concat, Bytes, Enc, BodyValues, Frame, CacheCode.Parts;
    CacheCode.PartsPayload(op, sync, space);
  }

  /** The request of a get: a select by the primary key, at most one row, from the first on, equal keys only. */
  lemma GetPacket(key: bytes, sync: nat, space: nat)
    ensures Packet(Get(key), sync, space) == Frame(Concat(
              [[0x82], [0x00], [0x01], [0x01], Num(sync),
               [0x86], [0x10], Num(space), [0x11], [0x00], [0x12], [0x01], [0x13], [0x00], [0x14], [0x00], [0x20],
               [0x91], Txt(key)]))
  {
    hide *;
    PacketForm(Get(key), sync, space);
    GetPieces(key, sync, space);
  }

  lemma GetPieces(key: bytes, sync: nat, space: nat)
    ensures CacheCode.Parts(Get(key), sync, space)
            == [[0x82], [0x00], [0x01], [0x01], Num(sync),
                [0x86], [0x10], Num(space), [0x11], [0x00], [0x12], [0x01], [0x13], [0x00], [0x14], [0x00], [0x20],
                [0x91], Txt(key)]
  {
    hide Concat, Frame, Num, Txt, Hd, Packet, HeaderParts, CacheCode.Parts;
    CacheCode.GetPartsAt(sync, space, key);
    CacheCode.LookupTail(Get(key), sync, space);
    HeaderForm(1, sync);
    SmallNumbers();
    SmallHeads(6); SmallHeads(1);
  }

  lemma SmallNumbers()
    ensures Num(0) == [0x00] && Num(1) == [0x01] && Num(SPACE_ID) == [0x10] && Num(INDEX_ID) == [0x11]
    ensures Num(LIMIT) == [0x12] && Num(OFFSET) == [0x13] && Num(ITERATOR) == [0x14]
    ensures Num(KEY) == [0x20] && Num(TUPLE) == [0x21] && Num(FUNCTION_NAME) == [0x22]
  {
    Small(0); Small(1); Small(SPACE_ID); Small(INDEX_ID); Small(LIMIT); Small(OFFSET); Small(ITERATOR);
    Small(KEY); Small(TUPLE); Small(FUNCTION_NAME);
    hide Num;
  }

  /** The request of a remove. */
  lemma RemovePacket(key: bytes, sync: nat, space: nat)
    ensures Packet(Remove(key), sync, space) == Frame(Concat(
              [[0x82], [0x00], [0x05], [0x01], Num(sync),
               [0x83], [0x10], Num(space), [0x11], [0x00], [0x20], [0x91], Txt(key)]))
  {
    hide *;
    PacketForm(Remove(key), sync, space);
    RemovePieces(key, sync, space);
  }

  lemma RemovePieces(key: bytes, sync: nat, space: nat)
    ensures CacheCode.Parts(Remove(key), sync, space)
            == [[0x82], [0x00], [0x05], [0x01], Num(sync),
                [0x83], [0x10], Num(space), [0x11], [0x00], [0x20], [0x91], Txt(key)]
  {
    hide Concat, Frame, Num, Txt, Hd, Packet, HeaderParts, CacheCode.Parts;
    CacheCode.RemovePartsAt(sync, space, key);
    CacheCode.LookupTail(Remove(key), sync, space);
    HeaderForm(5, sync);
    SmallNumbers();
    SmallHeads(3); SmallHeads(1);
  }

  /** The request of a set: a replace of the seven fields, the sixth of which is when the row expires. */
  lemma SetPacket(key: bytes, value: bytes, now: nat, expires: int, sync: nat, space: nat)
    ensures Packet(Set(key, value, now, expires), sync, space) == Frame(Concat(
              [[0x82], [0x00], [0x03], [0x01], Num(sync),
               [0x82], [0x10], Num(space), [0x21], [0x97],
               Txt(key), Txt(Ascii("opensips")), Txt(Ascii("active")), Num(now), Num(now),
               Num(if expires > 0 then now + expires else now + 3600), Txt(value)]))
  {
    hide *;
    PacketForm(Set(key, value, now, expires), sync, space);
    SetPieces(key, value, now, expires, sync, space);
  }

  lemma SetPieces(key: bytes, value: bytes, now: nat, expires: int, sync: nat, space: nat)
    ensures CacheCode.Parts(Set(key, value, now, expires), sync, space)
            == [[0x82], [0x00], [0x03], [0x01], Num(sync),
                [0x82], [0x10], Num(space), [0x21], [0x97],
                Txt(key), Txt(Ascii("opensips")), Txt(Ascii("active")), Num(now), Num(now),
                Num(if expires > 0 then now + expires else now + 3600), Txt(value)]
  {
    hide Concat, Frame, Num, Txt, Hd, Packet, HeaderParts, CacheCode.Parts, Ascii, NODE, ACTIVE;
    var op := Set(key, value, now, expires);
    CacheCode.SetPartsAt(op, sync, space);
    CacheCode.TupleParts(op, sync, space);
    HeaderForm(3, sync);
    SmallNumbers();
    SmallHeads(2); SmallHeads(7);
    Names();
  }

  // ---------------------------------------------------------------- stored-procedure calls

  lemma CallForm(sync: nat, name: bytes, n: nat)
    requires n <= 15
    ensures RtpeCode.CallParts(sync, name, n)
            == [[0x82], [0x00], [0x06], [0x01], Num(sync), [0x82], [0x22], Txt(name), [0x21], [0x90 + n]]
  {
    HeaderForm(6, sync);
    SmallNumbers();
    SmallHeads(2); SmallHeads(n);
    hide Num, Txt, Hd, HeaderParts;
  }

  lemma OneArgument(sync: nat, name: bytes, arg: bytes)
    ensures Request(CALL, sync, Dict(CallBody(name, [Text(arg)]))) == Frame(Concat(
              [[0x82], [0x00], [0x06], [0x01], Num(sync), [0x82], [0x22], Txt(name), [0x21], [0x91], Txt(arg)]))
  {
    hide Concat, Frame, Num, Txt, Bytes, Enc, Items, CallBody, RtpeCode.CallParts;
    Pieces([Text(arg)]);
    CallForm(sync, name, 1);
    RtpeCode.CallPayload(sync, name, [Text(arg)]);
    assert RtpeCode.CallParts(sync, name, 1) + Items([Text(arg)])
        == [[0x82], [0x00], [0x06], [0x01], Num(sync), [0x82], [0x22], Txt(name), [0x21], [0x91], Txt(arg)];
  }

  /** The requests of a delete and of a restore. */
  lemma StringCalls(sync: nat, arg: bytes)
    ensures DeletePacket(sync, arg) == Frame(Concat(
              [[0x82], [0x00], [0x06], [0x01], Num(sync),
               [0x82], [0x22], Txt(Ascii("rtpe_call_delete")), [0x21], [0x91], Txt(arg)]))
    ensures RestorePacket(sync, arg) == Frame(Concat(
              [[0x82], [0x00], [0x06], [0x01], Num(sync),
               [0x82], [0x22], Txt(Ascii("rtpe_call_restore")), [0x21], [0x91], Txt(arg)]))
  {
    hide Concat, Frame, Num, Txt, Request, Ascii, CALL_DELETE, RESTORE;
    RtpeSaved.SpelledCalls();
    OneArgument(sync, CALL_DELETE, arg);
    OneArgument(sync, RESTORE, arg);
  }

  /** The request of a save: call id, node, the five attributes of the payload in order, and the lifetime. */
  lemma UpsertForm(sync: nat, info: Info, node: Option<bytes>)
    ensures UpsertPacket(sync, info, node) == Frame(Concat(
              [[0x82], [0x00], [0x06], [0x01], Num(sync),
               [0x82], [0x22], Txt(Ascii("rtpe_call_upsert")), [0x21], [0x94],
               Txt(info.callId), Txt(if node.Some? then node.value else Ascii("rtpe-01")), [0x85],
               Txt(Ascii("caller_ip")), Txt(if info.callerIp.Some? then info.callerIp.value else Ascii("0.0.0.0")),
               Txt(Ascii("caller_port")), Num(info.callerPort % 0x1_0000_0000_0000_0000),
               Txt(Ascii("callee_ip")), Txt(if info.calleeIp.Some? then info.calleeIp.value else Ascii("0.0.0.0")),
               Txt(Ascii("callee_port")), Num(info.calleePort % 0x1_0000_0000_0000_0000),
               Txt(Ascii("srtp_suite")), Txt(if info.suite.Some? then info.suite.value else Ascii("NONE")),
               Num(if info.ttl > 0 then info.ttl else 3600)]))
  {
    hide *;
    RtpeCode.UpsertPayload(sync, info, node);
    UpsertRequest(sync, info, node);
    UpsertPieces(sync, info, node);
  }

  lemma UpsertPieces(sync: nat, info: Info, node: Option<bytes>)
    ensures RtpeCode.UpsertParts(sync, info, node) ==
              [[0x82], [0x00], [0x06], [0x01], Num(sync),
               [0x82], [0x22], Txt(Ascii("rtpe_call_upsert")), [0x21], [0x94],
               Txt(info.callId), Txt(if node.Some? then node.value else Ascii("rtpe-01")), [0x85],
               Txt(Ascii("caller_ip")), Txt(if info.callerIp.Some? then info.callerIp.value else Ascii("0.0.0.0")),
               Txt(Ascii("caller_port")), Num(info.callerPort % 0x1_0000_0000_0000_0000),
               Txt(Ascii("callee_ip")), Txt(if info.calleeIp.Some? then info.calleeIp.value else Ascii("0.0.0.0")),
               Txt(Ascii("callee_port")), Num(info.calleePort % 0x1_0000_0000_0000_0000),
               Txt(Ascii("srtp_suite")), Txt(if info.suite.Some? then info.suite.value else Ascii("NONE")),
               Num(if info.ttl > 0 then info.ttl else 3600)]
  {
    hide Num, Txt, Hd, Ascii, RtpeCode.CallParts, CALLER_IP, CALLEE_IP, CALLER_PORT, CALLEE_PORT, SRTP_SUITE, UPSERT,
         NO_IP, NO_SUITE, NO_NODE;
    RtpeSaved.Spelled();
    RtpeSaved.SpelledSlots();
    RtpeSaved.SpelledCalls();
    CallForm(sync, UPSERT, 4);
    SmallHeads(5);
  }

  lemma UpsertRequest(sync: nat, info: Info, node: Option<bytes>)
    ensures UpsertPacket(sync, info, node) == Frame(Concat(
              RtpeCode.CallParts(sync, UPSERT, 4) + Items(UpsertArgs(info, node))))
  {
    hide Concat, Frame, Bytes, Enc, Items, CallBody, RtpeCode.CallParts, UPSERT, PayloadValues;
    RtpeCode.CallPayload(sync, UPSERT, UpsertArgs(info, node));
  }
}
