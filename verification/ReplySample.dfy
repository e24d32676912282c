/** Replies of a real server, byte for byte, and what both drivers make of them. */
module ReplySample {
  import opened Wrappers
  import opened Msgpack
  import opened Iproto
  import opened CacheDriver
  import opened RtpeDriver
  import RtpeRestore
  import RtpeSaved

  /** A short string on the wire. */
  function Tx(t: bytes): bytes
    requires |t| <= 31
  {
    [0xa0 + |t|] + t
  }

  lemma ReadByte(c: byte, s: bytes)
    ensures c <= 0x7f ==> DecodeUint([c] + s) == Some((c as nat, s))
    ensures 0x80 <= c <= 0x8f ==> DecodeHead(MapK, [c] + s) == Some(((c - 0x80) as nat, s))
    ensures 0x90 <= c <= 0x9f ==> DecodeHead(ArrK, [c] + s) == Some(((c - 0x90) as nat, s))
  {
    assert ([c] + s)[1..] == s;
  }

  lemma StepByte(c: byte, s: bytes)
    requires c <= 0x7f
    ensures Next([c] + s) == Some(s)
  {
    assert ([c] + s)[1..] == s;
  }

  lemma ReadText(t: bytes, s: bytes)
    requires |t| <= 31
    ensures DecodeStr(Tx(t) + s) == Some((t, s))
  {
    var all := Tx(t) + s;
    assert all[1..] == t + s;
    assert (t + s)[..|t|] == t && (t + s)[|t|..] == s;
  }

  // ---------------------------------------------------------------- the cache driver

  /** The status under 0x00 and the sync id under 0x01 decide what becomes of a reply. */
  lemma StatusRead(status: byte, sync: byte, want: nat, rest: bytes)
    requires status <= 0x7f && sync <= 0x7f
    ensures CheckStatus([0x82, 0x00, status, 0x01, sync] + rest, want)
            == Some(if status != 0 then -1 else if sync != want then -2 else 0)
  {
    hide DecodeUint, DecodeHead;
    var s3 := [sync] + rest;
    var s2 := [0x01] + s3;
    var s1 := [status] + s2;
    var s0 := [0x00] + s1;
    assert [0x82, 0x00, status, 0x01, sync] + rest == [0x82] + s0;
    ReadByte(0x82, s0); ReadByte(0x00, s1); ReadByte(status, s2); ReadByte(0x01, s3); ReadByte(sync, rest);
    assert StatusLoop(rest, 0, want) == Some(0);
    assert StatusLoop(s2, 1, want) == Some(if sync != want then -2 else 0);
  }

  lemma HeaderSkipped(sync: byte, rest: bytes)
    requires sync <= 0x7f
    ensures SkipPairs([0x00, 0x00, 0x01, sync] + rest, 2) == Some(rest)
  {
    hide DecodeUint, Next;
    var s3 := [sync] + rest;
    var s2 := [0x01] + s3;
    var s1 := [0x00] + s2;
    assert [0x00, 0x00, 0x01, sync] + rest == [0x00] + s1;
    ReadByte(0x00, s1); StepByte(0x00, s2); ReadByte(0x01, s3); StepByte(sync, rest);
    assert SkipPairs(rest, 0) == Some(rest);
    assert SkipPairs(s2, 1) == Some(rest);
  }

  lemma DataRead(data: bytes, found: Option<bytes>, rest: bytes)
    requires GetData(data, None) == Some((found, rest))
    ensures GetLoop([0x30] + data, 1, None) == Some(found)
  {
    hide DecodeUint, GetData;
    ReadByte(0x30, data);
    assert GetLoop(rest, 0, found) == Some(found);
  }

  lemma BodyRead(sync: byte, data: bytes, found: Option<bytes>, rest: bytes)
    requires sync <= 0x7f && GetData(data, None) == Some((found, rest))
    ensures var body := [0x82, 0x00, 0x00, 0x01, sync] + ([0x81, 0x30] + data);
            && DecodeGet(body) == Some(found)
            && (forall key :: Finish(Get(key), body, sync as nat)
                  == Some(if found.Some? then Found(found.value) else Missing))
  {
    hide DecodeUint, DecodeHead, GetData, GetLoop, SkipPairs, StatusLoop, CheckStatus;
    var entries := [0x30] + data;
    var tail := [0x81] + entries;
    assert [0x82, 0x00, 0x00, 0x01, sync] + ([0x81, 0x30] + data) == [0x82] + ([0x00, 0x00, 0x01, sync] + tail);
    assert [0x81, 0x30] + data == tail;
    ReadByte(0x82, [0x00, 0x00, 0x01, sync] + tail);
    HeaderSkipped(sync, tail);
    ReadByte(0x81, entries);
    DataRead(data, found, rest);
    StatusRead(0, sync, sync as nat, tail);
  }

  lemma RowRead(key: bytes, node: bytes, state: bytes, a: byte, b: byte, c: byte, value: bytes)
    requires |key| <= 31 && |node| <= 31 && |state| <= 31 && |value| <= 31 && a <= 0x7f && b <= 0x7f && c <= 0x7f
    ensures GetPayload(Tx(key) + (Tx(node) + (Tx(state) + ([a] + ([b] + ([c] + (Tx(value) + [])))))))
            == Some((value, []))
  {
    hide DecodeUint, DecodeStr, Tx;
    ReadText(value, []);
    ReadByte(c, Tx(value) + []);
    ReadByte(b, [c] + (Tx(value) + []));
    ReadByte(a, [b] + ([c] + (Tx(value) + [])));
    ReadText(state, [a] + ([b] + ([c] + (Tx(value) + []))));
    ReadText(node, Tx(state) + ([a] + ([b] + ([c] + (Tx(value) + [])))));
    ReadText(key, Tx(node) + (Tx(state) + ([a] + ([b] + ([c] + (Tx(value) + []))))));
  }

  /** A reply with one row of seven fields under 0x30 is a value; one with none is a missing key. */
  lemma GetReplies(sync: byte, key: bytes, node: bytes, state: bytes, a: byte, b: byte, c: byte, value: bytes)
    requires sync <= 0x7f && |key| <= 31 && |node| <= 31 && |state| <= 31 && |value| <= 31
    requires a <= 0x7f && b <= 0x7f && c <= 0x7f
    ensures var row := Tx(key) + (Tx(node) + (Tx(state) + ([a] + ([b] + ([c] + (Tx(value) + []))))));
            Finish(Get(key), [0x82, 0x00, 0x00, 0x01, sync] + ([0x81, 0x30] + ([0x91] + ([0x97] + row))), sync as nat)
            == Some(Found(value))
    ensures Finish(Get(key), [0x82, 0x00, 0x00, 0x01, sync] + ([0x81, 0x30] + [0x90]), sync as nat) == Some(Missing)
  {
    hide DecodeHead, GetPayload, Finish, DecodeGet, Tx, DecodeStr;
    var row := Tx(key) + (Tx(node) + (Tx(state) + ([a] + ([b] + ([c] + (Tx(value) + []))))));
    ReadByte(0x91, [0x97] + row);
    ReadByte(0x97, row);
    RowRead(key, node, state, a, b, c, value);
    BodyRead(sync, [0x91] + ([0x97] + row), Some(value), []);
    ReadByte(0x90, []);
    assert [0x90] + [] == [0x90];
    BodyRead(sync, [0x90], None, []);
  }

  /** The largest frames the two drivers read: 16 MB and 1 MB. */
  lemma FrameLimits(payload: bytes, more: bytes)
    requires |payload| < TWO32
    ensures ReadFrame(Frame(payload) + more, FRAME_LIMIT)
            == if 0 < |payload| <= 16777216 then Some((payload, more)) else None
    ensures ReadFrame(Frame(payload) + more, RESTORE_LIMIT)
            == if 0 < |payload| <= 1048576 then Some((payload, more)) else None
  {
    hide ReadFrame, Frame;
    ReadFrameExact(payload, more, FRAME_LIMIT);
    ReadFrameExact(payload, more, RESTORE_LIMIT);
  }

  // ---------------------------------------------------------------- the RTPEngine driver

  lemma Copied(v: bytes, cap: nat, was: bytes)
    requires |v| < cap && 0 !in v
    ensures Copy(v, cap, was) == v
  {
    RtpeRestore.CStrExact(v);
  }

  lemma TextEntry(k: bytes, v: bytes, rest: bytes, f: Fields)
    requires |k| <= 31 && |v| <= 31 && 0 !in v
    ensures SlotOf(k) == CallerIp ==> PayloadEntry(Tx(k) + (Tx(v) + rest), f) == Some((f.(callerIp := v), rest))
    ensures SlotOf(k) == CalleeIp ==> PayloadEntry(Tx(k) + (Tx(v) + rest), f) == Some((f.(calleeIp := v), rest))
    ensures SlotOf(k) == Suite ==> PayloadEntry(Tx(k) + (Tx(v) + rest), f) == Some((f.(suite := v), rest))
  {
    hide DecodeStr, SlotOf, Tx, Copy;
    ReadText(k, Tx(v) + rest);
    ReadText(v, rest);
    Copied(v, 64, f.callerIp); Copied(v, 64, f.calleeIp); Copied(v, 32, f.suite);
  }

  lemma NumberEntry(k: bytes, n: byte, rest: bytes, f: Fields)
    requires |k| <= 31 && n <= 0x7f
    ensures SlotOf(k) == CallerPort ==> PayloadEntry(Tx(k) + ([n] + rest), f) == Some((f.(callerPort := n), rest))
    ensures SlotOf(k) == CalleePort ==> PayloadEntry(Tx(k) + ([n] + rest), f) == Some((f.(calleePort := n), rest))
  {
    hide DecodeStr, DecodeUint, SlotOf, Tx;
    ReadText(k, [n] + rest);
    ReadByte(n, rest);
  }

  /** The payload of a stored call on the wire. */
  function PayloadWire(c: Fields, rest: bytes): bytes
    requires Plain(c)
  {
    Tx(Ascii("caller_ip")) + (Tx(c.callerIp) + (Tx(Ascii("caller_port")) + ([c.callerPort] +
    (Tx(Ascii("callee_ip")) + (Tx(c.calleeIp) + (Tx(Ascii("callee_port")) + ([c.calleePort] +
    (Tx(Ascii("srtp_suite")) + (Tx(c.suite) + rest)))))))))
  }

  /** Short fields without a NUL, and small ports. */
  predicate Plain(c: Fields) {
    && 0 < |c.callId| <= 31 && |c.node| <= 31 && |c.callerIp| <= 31 && |c.calleeIp| <= 31 && |c.suite| <= 31
    && 0 !in c.callId && 0 !in c.node && 0 !in c.callerIp && 0 !in c.calleeIp && 0 !in c.suite
    && 0 <= c.callerPort <= 0x7f && 0 <= c.calleePort <= 0x7f
  }

  lemma Loop1(s: bytes, n: nat, f: Fields, g: Fields, t: bytes)
    requires n > 0 && PayloadEntry(s, f) == Some((g, t))
    ensures PayloadLoop(s, n, f) == PayloadLoop(t, n - 1, g)
  {
    hide PayloadEntry;
  }

  lemma PayloadRead(c: Fields, rest: bytes, f: Fields)
    requires Plain(c)
    ensures PayloadLoop(PayloadWire(c, rest), 5, f)
            == Some((c.(callId := f.callId, node := f.node), rest))
  {
    hide PayloadEntry, PayloadLoop, Tx, Ascii, SlotOf, CALLER_IP, CALLER_PORT, CALLEE_IP, CALLEE_PORT, SRTP_SUITE;
    RtpeSaved.SpelledSlots();
    RtpeRestore.Slots();
    var s5 := Tx(Ascii("srtp_suite")) + (Tx(c.suite) + rest);
    var s4 := Tx(Ascii("callee_port")) + ([c.calleePort] + s5);
    var s3 := Tx(Ascii("callee_ip")) + (Tx(c.calleeIp) + s4);
    var s2 := Tx(Ascii("caller_port")) + ([c.callerPort] + s3);
    var s1 := Tx(Ascii("caller_ip")) + (Tx(c.callerIp) + s2);
    assert PayloadWire(c, rest) == s1;
    var f1 := f.(callerIp := c.callerIp);
    var f2 := f1.(callerPort := c.callerPort);
    var f3 := f2.(calleeIp := c.calleeIp);
    var f4 := f3.(calleePort := c.calleePort);
    var f5 := f4.(suite := c.suite);
    TextEntry(Ascii("caller_ip"), c.callerIp, s2, f); Loop1(s1, 5, f, f1, s2);
    NumberEntry(Ascii("caller_port"), c.callerPort, s3, f1); Loop1(s2, 4, f1, f2, s3);
    TextEntry(Ascii("callee_ip"), c.calleeIp, s4, f2); Loop1(s3, 3, f2, f3, s4);
    NumberEntry(Ascii("callee_port"), c.calleePort, s5, f3); Loop1(s4, 2, f3, f4, s5);
    TextEntry(Ascii("srtp_suite"), c.suite, rest, f4); Loop1(s5, 1, f4, f5, rest);
    LoopEnd(rest, f5);
  }

  lemma LoopEnd(s: bytes, f: Fields)
    ensures PayloadLoop(s, 0, f) == Some((f, s)) && RowLoop(s, 0, f) == Some((f, s))
  {
  }

  /** The row of a stored call on the wire: a map of its id, its node and its payload. */
  function RowWire(c: Fields, rest: bytes): bytes
    requires Plain(c)
  {
    [0x83] + (Tx(Ascii("call_id")) + (Tx(c.callId) + (Tx(Ascii("node_id")) + (Tx(c.node) +
    (Tx(Ascii("payload")) + ([0x85] + PayloadWire(c, rest)))))))
  }

  lemma Loop2(s: bytes, n: nat, f: Fields, g: Fields, t: bytes)
    requires n > 0 && RowEntry(s, f) == Some((g, t))
    ensures RowLoop(s, n, f) == RowLoop(t, n - 1, g)
  {
    hide RowEntry;
  }

  lemma NameEntry(k: bytes, v: bytes, rest: bytes, f: Fields)
    requires |k| <= 31 && |v| <= 31 && 0 !in v
    ensures RowKeyOf(k) == CallIdKey ==> RowEntry(Tx(k) + (Tx(v) + rest), f) == Some((f.(callId := v), rest))
    ensures RowKeyOf(k) == NodeIdKey ==> RowEntry(Tx(k) + (Tx(v) + rest), f) == Some((f.(node := v), rest))
  {
    hide DecodeStr, RowKeyOf, Tx, Copy;
    ReadText(k, Tx(v) + rest);
    ReadText(v, rest);
    Copied(v, 128, f.callId); Copied(v, 64, f.node);
  }

  lemma PayloadField(k: bytes, c: Fields, rest: bytes, f: Fields)
    requires |k| <= 31 && RowKeyOf(k) == PayloadKey && Plain(c)
    ensures RowEntry(Tx(k) + ([0x85] + PayloadWire(c, rest)), f)
            == Some((c.(callId := f.callId, node := f.node), rest))
  {
    hide DecodeStr, DecodeHead, RowKeyOf, Tx, PayloadWire, PayloadLoop;
    ReadText(k, [0x85] + PayloadWire(c, rest));
    ReadByte(0x85, PayloadWire(c, rest));
    PayloadRead(c, rest, f);
  }

  lemma RowWireRead(c: Fields, rest: bytes)
    requires Plain(c)
    ensures OneRow(RowWire(c, rest)) == Some((c, rest))
  {
    hide RowEntry, RowLoop, Tx, Ascii, RowKeyOf, DecodeHead, PayloadWire, CALL_ID, NODE_ID, PAYLOAD, NO_IP, NO_SUITE;
    RtpeSaved.Spelled();
    RtpeRestore.RowKeys();
    var s3 := Tx(Ascii("payload")) + ([0x85] + PayloadWire(c, rest));
    var s2 := Tx(Ascii("node_id")) + (Tx(c.node) + s3);
    var s1 := Tx(Ascii("call_id")) + (Tx(c.callId) + s2);
    assert RowWire(c, rest) == [0x83] + s1;
    ReadByte(0x83, s1);
    var f0 := NO_FIELDS;
    var f1 := f0.(callId := c.callId);
    var f2 := f1.(node := c.node);
    NameEntry(Ascii("call_id"), c.callId, s2, f0); Loop2(s1, 3, f0, f1, s2);
    NameEntry(Ascii("node_id"), c.node, s3, f1); Loop2(s2, 2, f1, f2, s3);
    PayloadField(Ascii("payload"), c, rest, f2); Loop2(s3, 1, f2, c, rest);
    LoopEnd(rest, c);
  }

  /** The answer to a restore with one call in it. */
  function AnswerWire(sync: byte, c: Fields): bytes
    requires Plain(c) && sync <= 0x7f
  {
    [0x82] + ([0x00] + ([0x00] + ([0x01] + ([sync] + ([0x81] + ([0x30] + ([0x91] + ([0x91] + RowWire(c, [])))))))))
  }

  lemma ResultsRead(c: Fields)
    requires Plain(c)
    ensures ResultsLoop([0x91] + RowWire(c, []), 1, [], 0) == Some(([c], []))
  {
    hide OneRow, RowWire, DecodeHead;
    ReadByte(0x91, RowWire(c, []));
    RowWireRead(c, []);
    assert RowsLoop([], 0, [c], 0) == Some(([c], []));
    assert [] + [c] == [c];
    assert RowsLoop(RowWire(c, []), 1, [], 0) == Some(([c], []));
  }

  lemma SyncRead(sync: byte, rest: bytes)
    requires sync <= 0x7f
    ensures SyncLoop([0x00] + ([0x00] + ([0x01] + ([sync] + rest))), 2, 0) == Some((sync as nat, rest))
  {
    hide DecodeUint, Next;
    ReadByte(0x00, [0x00] + ([0x01] + ([sync] + rest)));
    StepByte(0x00, [0x01] + ([sync] + rest));
    ReadByte(0x01, [sync] + rest);
    ReadByte(sync, rest);
    assert SyncLoop(rest, 0, sync as nat) == Some((sync as nat, rest));
    assert SyncLoop([0x01] + ([sync] + rest), 1, 0) == Some((sync as nat, rest));
  }

  lemma DataEntry(c: Fields)
    requires Plain(c)
    ensures BodyLoop([0x30] + ([0x91] + ([0x91] + RowWire(c, []))), 1, [], 0) == Some([c])
  {
    hide DecodeUint, DecodeHead, ResultsLoop, RowWire;
    ReadByte(0x30, [0x91] + ([0x91] + RowWire(c, [])));
    ReadByte(0x91, [0x91] + RowWire(c, []));
    ResultsRead(c);
    assert BodyLoop([], 0, [c], 0) == Some([c]);
  }

  /** A restore reads the call back from the bytes of the answer: id, node, addresses, ports and suite. */
  lemma RestoreReply(sync: byte, c: Fields)
    requires Plain(c) && sync <= 0x7f
    ensures |AnswerWire(sync, c)| < 1000
    ensures ReadReplies(Frame(AnswerWire(sync, c)), sync as nat, 0) == Some(Delivered([c]))
  {
    AnswerShort(sync, c);
    hide DecodeHead, SyncLoop, BodyLoop, RowWire, ReadFrame, Frame;
    var body := AnswerWire(sync, c);
    ReadFrameExact(body, [], RESTORE_LIMIT);
    assert Frame(body) + [] == Frame(body);
    var data := [0x30] + ([0x91] + ([0x91] + RowWire(c, [])));
    ReadByte(0x82, [0x00] + ([0x00] + ([0x01] + ([sync] + ([0x81] + data)))));
    SyncRead(sync, [0x81] + data);
    ReadByte(0x81, data);
    DataEntry(c);
  }

  lemma AnswerShort(sync: byte, c: Fields)
    requires Plain(c) && sync <= 0x7f
    ensures 0 < |AnswerWire(sync, c)| < 1000
  {
    hide Ascii;
  }
}
