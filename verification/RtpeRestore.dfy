/** Saves and restores meet: what the stored procedures read out of a save is what the restore callback
    is handed back, for any number of rows and any order of keys in the returned maps. */
module RtpeRestore {
  import opened Wrappers
  import opened Msgpack
  import opened Iproto
  import opened RtpeDriver

  // ---------------------------------------------------------------- the save side

  /** The payload of a call as the table the server keeps. */
  function TableOf(info: Info): map<bytes, Value>
  {
    map[CALLER_IP := Text(Or(info.callerIp, NO_IP))] +
    (map[CALLER_PORT := UInt(Widen(info.callerPort))] +
     (map[CALLEE_IP := Text(Or(info.calleeIp, NO_IP))] +
      (map[CALLEE_PORT := UInt(Widen(info.calleePort))] +
       map[SRTP_SUITE := Text(Or(info.suite, NO_SUITE))])))
  }

  lemma NamesDiffer()
    ensures CALLER_IP != CALLER_PORT && CALLER_IP != CALLEE_IP && CALLER_IP != CALLEE_PORT && CALLER_IP != SRTP_SUITE
    ensures CALLER_PORT != CALLEE_IP && CALLER_PORT != CALLEE_PORT && CALLER_PORT != SRTP_SUITE
    ensures CALLEE_IP != CALLEE_PORT && CALLEE_IP != SRTP_SUITE && CALLEE_PORT != SRTP_SUITE
    ensures UPSERT != CALL_DELETE
  {
    assert CALLER_IP[5] != CALLEE_IP[5];
    assert CALLER_PORT[5] != CALLEE_PORT[5];
    assert UPSERT[10] != CALL_DELETE[10];
  }

  lemma TableStep(k: bytes, v: Value, vs: seq<Value>)
    requires Table(vs).Some?
    ensures Table([Text(k), v] + vs) == Some(map[k := v] + Table(vs).value)
  {
    assert ([Text(k), v] + vs)[2..] == vs;
  }

  lemma TableExact(info: Info)
    ensures Table(PayloadValues(info)) == Some(TableOf(info))
  {
    var vs := PayloadValues(info);
    hide CALLER_IP, CALLER_PORT, CALLEE_IP, CALLEE_PORT, SRTP_SUITE, Table, Widen, Or;
    var e: seq<Value> := [];
    assert Table(e) == Some(map[]) by { TableEmpty(); }
    TableStep(SRTP_SUITE, vs[9], e);
    var v5 := [Text(SRTP_SUITE), vs[9]] + e;
    assert map[SRTP_SUITE := vs[9]] + map[] == map[SRTP_SUITE := vs[9]];
    TableStep(CALLEE_PORT, vs[7], v5);
    var v4 := [Text(CALLEE_PORT), vs[7]] + v5;
    TableStep(CALLEE_IP, vs[5], v4);
    var v3 := [Text(CALLEE_IP), vs[5]] + v4;
    TableStep(CALLER_PORT, vs[3], v3);
    var v2 := [Text(CALLER_PORT), vs[3]] + v3;
    TableStep(CALLER_IP, vs[1], v2);
    assert vs == [Text(CALLER_IP), vs[1]] + v2;
  }

  lemma TableEmpty()
    ensures Table([]) == Some(map[])
  {
  }

  /** The row a save leaves behind. */
  function RowOf(db: Calls, info: Info, node: Option<bytes>, now: nat): Stored
  {
    Stored(Or(node, NO_NODE), if info.callId in db then db[info.callId].created else now,
           now, now + Ttl(info), TableOf(info))
  }

  lemma BodyUnder(name: bytes, args: seq<Value>)
    ensures TextUnder(CallBody(name, args), FUNCTION_NAME) == Some(name)
    ensures ListUnder(CallBody(name, args), TUPLE) == Some(args)
  {
    UnderAt(CallBody(name, args), FUNCTION_NAME, 0);
    UnderAt(CallBody(name, args), TUPLE, 1);
  }

  /** The server reads the driver's save bytes as one upsert of exactly that call. */
  lemma SaveExact(db: Calls, sync: nat, info: Info, node: Option<bytes>, now: nat)
    requires Sendable(CALL, sync, Dict(CallBody(UPSERT, UpsertArgs(info, node))))
    ensures ReadMessage(UpsertPacket(sync, info, node)).Some?
    ensures var m := ReadMessage(UpsertPacket(sync, info, node)).value;
            m.sync == sync && Perform(db, m, now) == Some(db[info.callId := RowOf(db, info, node, now)])
  {
    hide ReadMessage, Table, Bytes, Enc, PayloadValues, Under, UPSERT;
    ReadMessageExact(CALL, sync, CallBody(UPSERT, UpsertArgs(info, node)));
    BodyUnder(UPSERT, UpsertArgs(info, node));
    TableExact(info);
  }

  /** The server reads the driver's delete bytes as one delete of exactly that call. */
  lemma DeleteExact(db: Calls, sync: nat, callId: bytes, now: nat)
    requires Sendable(CALL, sync, Dict(CallBody(CALL_DELETE, [Text(callId)])))
    ensures ReadMessage(DeletePacket(sync, callId)).Some?
    ensures var m := ReadMessage(DeletePacket(sync, callId)).value;
            m.sync == sync && Perform(db, m, now) == Some(db - {callId})
  {
    NamesDiffer();
    hide ReadMessage, Table, Bytes, Enc, Under, CALL_DELETE, UPSERT;
    ReadMessageExact(CALL, sync, CallBody(CALL_DELETE, [Text(callId)]));
    BodyUnder(CALL_DELETE, [Text(callId)]);
  }

  // ---------------------------------------------------------------- payload maps, in any order

  /** The effect of one payload entry. */
  function Assign(f: Fields, k: bytes, v: Value): Fields {
    match SlotOf(k)
    case CallerIp => if v.Text? then f.(callerIp := Copy(v.s, 64, f.callerIp)) else f
    case CalleeIp => if v.Text? then f.(calleeIp := Copy(v.s, 64, f.calleeIp)) else f
    case CallerPort => if v.UInt? then f.(callerPort := Narrow(v.n)) else f
    case CalleePort => if v.UInt? then f.(calleePort := Narrow(v.n)) else f
    case Suite => if v.Text? then f.(suite := Copy(v.s, 32, f.suite)) else f
    case OtherSlot => f
  }

  function Fold(f: Fields, qs: seq<Pair>): Fields
    requires forall i :: 0 <= i < |qs| ==> qs[i].k.Str?
    decreases |qs|
  {
    if qs == [] then f else Fold(Assign(f, qs[0].k.data, Meaning(qs[0].v)), qs[1..])
  }

  /** An entry with a string key and any value the skipper handles, of the type its slot needs. */
  predicate GoodEntry(p: Pair) {
    && p.k.Str? && Valid(p.k) && Valid(p.v) && !Wide(p.v)
    && match SlotOf(p.k.data)
       case CallerPort => Meaning(p.v).UInt?
       case CalleePort => Meaning(p.v).UInt?
       case OtherSlot => true
       case _ => Meaning(p.v).Text?
  }

  predicate GoodEntries(qs: seq<Pair>) {
    forall i :: 0 <= i < |qs| ==> GoodEntry(qs[i])
  }

  lemma StrKey(p: Pair)
    requires GoodEntry(p)
    ensures p.k.Str?
  {
  }

  lemma PayloadEntryExact(p: Pair, rest: bytes, f: Fields)
    requires GoodEntry(p)
    ensures PayloadEntry(Bytes(p.k) + (Bytes(p.v) + rest), f) == Some((Assign(f, p.k.data, Meaning(p.v)), rest))
  {
    hide DecodeStr, DecodeUint, Next, Bytes, SlotOf, Copy, Narrow;
    DecodeStrExact(p.k, Bytes(p.v) + rest);
    match SlotOf(p.k.data)
    case CallerPort => DecodeUintExact(p.v, rest);
    case CalleePort => DecodeUintExact(p.v, rest);
    case OtherSlot => NextExact(p.v, rest);
    case _ => DecodeStrExact(p.v, rest);
  }

  lemma {:induction false} PayloadLoopExact(qs: seq<Pair>, rest: bytes, f: Fields)
    requires GoodEntries(qs)
    ensures PayloadLoop(PairBytes(qs) + rest, |qs|, f) == Some((Fold(f, qs), rest))
    decreases |qs|
  {
    hide PayloadEntry, Assign, Bytes, GoodEntry, Meaning;
    if qs == [] {
      assert PairBytes(qs) + rest == rest;
    } else {
      hide PairBytes;
      PairStep(qs, rest);
      PayloadEntryExact(qs[0], PairBytes(qs[1..]) + rest, f);
      assert qs[0].k.Str? by { StrKey(qs[0]); }
      PayloadLoopExact(qs[1..], rest, Assign(f, qs[0].k.data, Meaning(qs[0].v)));
    }
  }

  /** The content of one slot, as a value. */
  function Read(f: Fields, slot: Slot): Value {
    match slot
    case CallerIp => Text(f.callerIp)
    case CalleeIp => Text(f.calleeIp)
    case CallerPort => SInt(f.callerPort)
    case CalleePort => SInt(f.calleePort)
    case Suite => Text(f.suite)
    case OtherSlot => Nil
  }

  /** A fold does not touch a slot none of its entries is for. */
  lemma {:induction false} FoldUntouched(f: Fields, qs: seq<Pair>, slot: Slot)
    requires GoodEntries(qs)
    requires forall i :: 0 <= i < |qs| ==> SlotOf(qs[i].k.data) != slot
    ensures Read(Fold(f, qs), slot) == Read(f, slot)
    ensures Fold(f, qs).callId == f.callId && Fold(f, qs).node == f.node
    decreases |qs|
  {
    hide SlotOf, Copy, Narrow, Valid, Wide, Meaning;
    if qs != [] {
      FoldUntouched(Assign(f, qs[0].k.data, Meaning(qs[0].v)), qs[1..], slot);
    }
  }

  /** A value of the slot's type. */
  predicate ForSlot(slot: Slot, v: Value) {
    match slot
    case CallerPort => v.UInt?
    case CalleePort => v.UInt?
    case OtherSlot => false
    case _ => v.Text?
  }

  /** What the value leaves in the slot: a text that does not fit leaves what was there. */
  function Content(slot: Slot, v: Value, f: Fields): Value
    requires ForSlot(slot, v)
  {
    match slot
    case CallerIp => Text(Copy(v.s, 64, f.callerIp))
    case CalleeIp => Text(Copy(v.s, 64, f.calleeIp))
    case Suite => Text(Copy(v.s, 32, f.suite))
    case _ => SInt(Narrow(v.n))
  }

  /** The one entry for a slot decides it, wherever it stands. */
  lemma {:induction false} FoldDecided(f: Fields, qs: seq<Pair>, slot: Slot, i: nat)
    requires GoodEntries(qs) && i < |qs|
    requires SlotOf(qs[i].k.data) == slot && ForSlot(slot, Meaning(qs[i].v))
    requires forall j :: 0 <= j < |qs| && j != i ==> SlotOf(qs[j].k.data) != slot
    ensures Read(Fold(f, qs), slot) == Content(slot, Meaning(qs[i].v), f)
    ensures Fold(f, qs).callId == f.callId && Fold(f, qs).node == f.node
    decreases |qs|
  {
    hide SlotOf, Narrow, Valid, Wide, Meaning, Copy;
    var f1 := Assign(f, qs[0].k.data, Meaning(qs[0].v));
    if i == 0 {
      FoldUntouched(f1, qs[1..], slot);
    } else {
      FoldDecided(f1, qs[1..], slot, i - 1);
    }
  }

  /** The entries list exactly the table, each key once, in any order and in any encoding. */
  predicate Lists(qs: seq<Pair>, t: map<bytes, Value>) {
    && (forall i :: 0 <= i < |qs| ==>
          && qs[i].k.Str? && Valid(qs[i].k) && Valid(qs[i].v) && !Wide(qs[i].v)
          && qs[i].k.data in t && Meaning(qs[i].v) == t[qs[i].k.data])
    && (forall i, j :: 0 <= i < j < |qs| ==> qs[i].k.data != qs[j].k.data)
    && (forall k :: k in t ==> exists i :: 0 <= i < |qs| && qs[i].k.data == k)
  }

  predicate NoNul(s: bytes) {
    forall i :: 0 <= i < |s| ==> s[i] != 0
  }

  /** The size limits of the buffers a call is restored into, for C strings. */
  predicate Restorable(info: Info, node: Option<bytes>) {
    && IntPorts(info)
    && 0 < |info.callId| < 128 && NoNul(info.callId)
    && |Or(node, NO_NODE)| < 64 && NoNul(Or(node, NO_NODE))
    && |Or(info.callerIp, NO_IP)| < 64 && NoNul(Or(info.callerIp, NO_IP))
    && |Or(info.calleeIp, NO_IP)| < 64 && NoNul(Or(info.calleeIp, NO_IP))
    && |Or(info.suite, NO_SUITE)| < 32 && NoNul(Or(info.suite, NO_SUITE))
  }

  /** What the callback must be given for a saved call. */
  function Expected(info: Info, node: Option<bytes>): Fields {
    Fields(info.callId, Or(node, NO_NODE), Or(info.callerIp, NO_IP), info.callerPort,
           Or(info.calleeIp, NO_IP), info.calleePort, Or(info.suite, NO_SUITE))
  }

  /** The fields with the media attributes of a call put in: what does not fit its buffer is passed over. */
  function Loaded(f: Fields, info: Info): Fields {
    f.(callerIp := Copy(Or(info.callerIp, NO_IP), 64, f.callerIp), callerPort := Narrow(Widen(info.callerPort)),
       calleeIp := Copy(Or(info.calleeIp, NO_IP), 64, f.calleeIp), calleePort := Narrow(Widen(info.calleePort)),
       suite := Copy(Or(info.suite, NO_SUITE), 32, f.suite))
  }

  /** What is read for a saved call, whatever its fields hold. Without a call id it is not delivered. */
  function Got(info: Info, node: Option<bytes>): Fields {
    Loaded(NO_FIELDS.(callId := Copy(info.callId, 128, []), node := Copy(Or(node, NO_NODE), 64, [])), info)
  }

  /** A C string is the whole text exactly when there is no NUL in it. */
  lemma {:induction false} CStrExact(s: bytes)
    ensures CStr(s) == s <==> NoNul(s)
    ensures |CStr(s)| <= |s|
  {
    if s != [] {
      CStrExact(s[1..]);
      assert s == [s[0]] + s[1..];
      assert s[0] != 0 && NoNul(s[1..]) ==> NoNul(s) by {
        assert forall i :: 1 <= i < |s| ==> s[i] == s[1..][i - 1];
      }
      assert NoNul(s) ==> NoNul(s[1..]);
      if CStr(s) == s {
        assert CStr(s)[1..] == CStr(s[1..]);
      }
    }
  }

  lemma NarrowOfWiden(port: int)
    ensures Narrow(Widen(port)) == port <==> -0x8000_0000 <= port < 0x8000_0000
  {
  }

  /** A text comes back from a buffer that holds something else exactly when it fits and has no NUL in it. */
  lemma CopyExact(s: bytes, cap: nat, was: bytes)
    requires |was| < cap && NoNul(was)
    ensures Copy(s, cap, was) == s <==> |s| < cap && NoNul(s)
  {
    hide CStr;
    CStrExact(s);
  }

  /** A call is delivered with everything its saver passed if and only if its fields are within the limits. */
  lemma ComesBackExactly(info: Info, node: Option<bytes>)
    ensures Got(info, node) == Expected(info, node) && Got(info, node).callId != [] <==> Restorable(info, node)
  {
    DefaultsFit();
    hide Copy, NoNul, Narrow, Widen, Or, NO_NODE, NO_IP, NO_SUITE;
    CopyExact(info.callId, 128, []);
    CopyExact(Or(node, NO_NODE), 64, []);
    CopyExact(Or(info.callerIp, NO_IP), 64, NO_IP);
    CopyExact(Or(info.calleeIp, NO_IP), 64, NO_IP);
    CopyExact(Or(info.suite, NO_SUITE), 32, NO_SUITE);
    NarrowOfWiden(info.callerPort);
    NarrowOfWiden(info.calleePort);
  }

  lemma DefaultsFit()
    ensures NoNul([]) && NoNul(NO_IP) && |NO_IP| < 64 && NoNul(NO_SUITE) && |NO_SUITE| < 32
  {
  }

  /** Outside of them: a call id of 128 bytes or more, or one that starts with a NUL, is never delivered, and a node, an
      address or a suite that is too long comes back as nothing or as the default. */
  lemma OverlongLost(info: Info, node: Option<bytes>)
    ensures Got(info, node).callId == [] <==> info.callId == [] || |info.callId| >= 128 || info.callId[0] == 0
    ensures |Or(node, NO_NODE)| >= 64 ==> Got(info, node).node == []
    ensures |Or(info.callerIp, NO_IP)| >= 64 ==> Got(info, node).callerIp == NO_IP
    ensures |Or(info.calleeIp, NO_IP)| >= 64 ==> Got(info, node).calleeIp == NO_IP
    ensures |Or(info.suite, NO_SUITE)| >= 32 ==> Got(info, node).suite == NO_SUITE
  {
    hide Narrow, Widen, Or, NO_NODE, NO_IP, NO_SUITE;
  }

  lemma Slots()
    ensures SlotOf(CALLER_IP) == CallerIp && SlotOf(CALLER_PORT) == CallerPort
    ensures SlotOf(CALLEE_IP) == CalleeIp && SlotOf(CALLEE_PORT) == CalleePort && SlotOf(SRTP_SUITE) == Suite
  {
    assert CALLER_PORT[7] != CALLER_IP[7];
    assert CALLEE_IP[5] != CALLER_IP[5];
    assert CALLER_PORT[5] != CALLEE_IP[5];
    assert CALLEE_PORT[5] != CALLER_IP[5] && CALLEE_PORT[7] != CALLEE_IP[7] && CALLEE_PORT[5] != CALLER_PORT[5];
    assert SRTP_SUITE[0] != CALLER_IP[0] && SRTP_SUITE[0] != CALLEE_IP[0] && SRTP_SUITE[0] != CALLER_PORT[0]
           && SRTP_SUITE[0] != CALLEE_PORT[0];
  }

  /** Which key of the saved table fills a slot. */
  function KeyFor(slot: Slot): bytes
    requires slot != OtherSlot
  {
    match slot
    case CallerIp => CALLER_IP
    case CalleeIp => CALLEE_IP
    case CallerPort => CALLER_PORT
    case CalleePort => CALLEE_PORT
    case Suite => SRTP_SUITE
  }

  lemma OnlyKeyFor(info: Info, k: bytes, slot: Slot)
    requires k in TableOf(info) && slot != OtherSlot
    ensures SlotOf(k) == slot <==> k == KeyFor(slot)
  {
    Slots();
    hide SlotOf, CALLER_IP, CALLER_PORT, CALLEE_IP, CALLEE_PORT, SRTP_SUITE;
  }

  /** The saved value of a slot, and that it fits. */
  function Saved(info: Info, slot: Slot): Value
    requires slot != OtherSlot
  {
    match slot
    case CallerIp => Text(Or(info.callerIp, NO_IP))
    case CalleeIp => Text(Or(info.calleeIp, NO_IP))
    case CallerPort => UInt(Widen(info.callerPort))
    case CalleePort => UInt(Widen(info.calleePort))
    case Suite => Text(Or(info.suite, NO_SUITE))
  }

  lemma SavedAt(info: Info, slot: Slot)
    requires slot != OtherSlot
    ensures KeyFor(slot) in TableOf(info) && TableOf(info)[KeyFor(slot)] == Saved(info, slot)
  {
    NamesDiffer();
    hide CALLER_IP, CALLER_PORT, CALLEE_IP, CALLEE_PORT, SRTP_SUITE, Widen;
  }

  lemma SlotFilled(f: Fields, qs: seq<Pair>, info: Info, slot: Slot)
    requires Lists(qs, TableOf(info)) && GoodEntries(qs) && slot != OtherSlot
    ensures ForSlot(slot, Saved(info, slot))
    ensures Read(Fold(f, qs), slot) == Content(slot, Saved(info, slot), f)
    ensures Fold(f, qs).callId == f.callId && Fold(f, qs).node == f.node
  {
    hide SlotOf, KeyFor, Fold, Read, GoodEntry, Copy, Narrow, Valid, Wide, Meaning, TableOf, Widen;
    SavedAt(info, slot);
    var i :| 0 <= i < |qs| && qs[i].k.data == KeyFor(slot);
    forall j | 0 <= j < |qs|
      ensures SlotOf(qs[j].k.data) == slot <==> j == i
    {
      OnlyKeyFor(info, qs[j].k.data, slot);
    }
    FoldDecided(f, qs, slot, i);
  }

  lemma ListsGood(qs: seq<Pair>, info: Info)
    requires Lists(qs, TableOf(info))
    ensures GoodEntries(qs)
  {
    hide SlotOf, TableOf, KeyFor, Valid, Wide, Meaning, Widen;
    forall i | 0 <= i < |qs|
      ensures GoodEntry(qs[i])
    {
      var slot := SlotOf(qs[i].k.data);
      if slot != OtherSlot {
        OnlyKeyFor(info, qs[i].k.data, slot);
        SavedAt(info, slot);
      }
    }
  }

  /** Whatever order the table's entries come in, the five media fields come out as they were saved, up to what the
      buffers take. */
  lemma PayloadAnyOrder(f: Fields, qs: seq<Pair>, info: Info)
    requires Lists(qs, TableOf(info))
    ensures GoodEntries(qs)
    ensures Fold(f, qs) == Loaded(f, info)
  {
    ListsGood(qs, info);
    hide SlotOf, Fold, Lists, GoodEntries, Narrow, Widen, Copy, TableOf, NO_IP, NO_SUITE;
    SlotFilled(f, qs, info, CallerIp);
    SlotFilled(f, qs, info, CalleeIp);
    SlotFilled(f, qs, info, CallerPort);
    SlotFilled(f, qs, info, CalleePort);
    SlotFilled(f, qs, info, Suite);
  }

  // ---------------------------------------------------------------- rows, in any order

  /** One returned row: a map with the three row keys, and the entries of its payload map. */
  datatype RowReply = RowReply(width: nat, entries: seq<Pair>, inner: seq<Pair>)

  /** An entry of the row of call `id` of `node`, whose payload table is t. */
  predicate RowPair(p: Pair, inner: seq<Pair>, id: bytes, node: bytes, t: map<bytes, Value>) {
    && p.k.Str? && Valid(p.k)
    && (   (p.k.data == CALL_ID && Valid(p.v) && Meaning(p.v) == Text(id))
        || (p.k.data == NODE_ID && Valid(p.v) && Meaning(p.v) == Text(node))
        || (p.k.data == PAYLOAD && p.v == Map(0, Flat(inner)) && |inner| <= 15 && Lists(inner, t)))
  }

  /** The row of call `id`: its three entries in any order, each in any encoding; the payload map, which
      the server writes in its smallest form, lists the table in any order. */
  predicate RowFor(r: RowReply, id: bytes, node: bytes, t: map<bytes, Value>) {
    && |r.entries| == 3 && HeadOk(MapK, r.width, 3)
    && RowPair(r.entries[0], r.inner, id, node, t)
    && RowPair(r.entries[1], r.inner, id, node, t)
    && RowPair(r.entries[2], r.inner, id, node, t)
    && r.entries[0].k.data != r.entries[1].k.data
    && r.entries[0].k.data != r.entries[2].k.data
    && r.entries[1].k.data != r.entries[2].k.data
  }

  function RowBytes(r: RowReply): bytes {
    Head(MapK, r.width, 3) + PairBytes(r.entries)
  }

  lemma RowKeys()
    ensures RowKeyOf(CALL_ID) == CallIdKey && RowKeyOf(NODE_ID) == NodeIdKey && RowKeyOf(PAYLOAD) == PayloadKey
    ensures CALL_ID != NODE_ID && CALL_ID != PAYLOAD && NODE_ID != PAYLOAD
  {
    assert CALL_ID[0] != NODE_ID[0] && CALL_ID[0] != PAYLOAD[0] && NODE_ID[0] != PAYLOAD[0];
  }

  /** The effect of one row entry. */
  function AssignRow(f: Fields, k: bytes, info: Info, node: Option<bytes>): Fields {
    if k == CALL_ID then f.(callId := Copy(info.callId, 128, f.callId))
    else if k == NODE_ID then f.(node := Copy(Or(node, NO_NODE), 64, f.node))
    else Loaded(f, info)
  }

  lemma RowEntryExact(p: Pair, inner: seq<Pair>, info: Info, node: Option<bytes>, rest: bytes, f: Fields)
    requires RowPair(p, inner, info.callId, Or(node, NO_NODE), TableOf(info))
    ensures RowEntry(Bytes(p.k) + (Bytes(p.v) + rest), f) == Some((AssignRow(f, p.k.data, info, node), rest))
  {
    RowKeys();
    hide DecodeStr, Next, RowKeyOf, Lists, TableOf, Copy, CALL_ID, NODE_ID, PAYLOAD, NO_NODE, NO_IP, NO_SUITE,
         PayloadLoop, DecodeHead, Valid, Meaning, Loaded;
    DecodeStrExact(p.k, Bytes(p.v) + rest);
    if p.k.data == CALL_ID {
      TextValue(p.v, info.callId, rest);
    } else if p.k.data == NODE_ID {
      TextValue(p.v, Or(node, NO_NODE), rest);
    } else {
      PayloadValue(inner, info, rest, f);
    }
  }

  lemma TextValue(w: Wire, s: bytes, rest: bytes)
    requires Valid(w) && Meaning(w) == Text(s)
    ensures DecodeStr(Bytes(w) + rest) == Some((s, rest))
  {
    hide DecodeStr, Bytes;
    DecodeStrExact(w, rest);
  }

  lemma PayloadValue(inner: seq<Pair>, info: Info, rest: bytes, f: Fields)
    requires Lists(inner, TableOf(info)) && |inner| <= 15
    ensures var s := Bytes(Map(0, Flat(inner))) + rest;
            && s != [] && 0x80 <= s[0] <= 0x8f
            && DecodeHead(MapK, s) == Some((|inner|, PairBytes(inner) + rest))
            && PayloadLoop(PairBytes(inner) + rest, |inner|, f) == Some((Loaded(f, info), rest))
  {
    hide DecodeHead, PayloadLoop, Lists, TableOf, Fold, Loaded, GoodEntries, Bytes, PairBytes, Head, KindOf, Flat;
    PayloadAnyOrder(f, inner, info);
    PayloadLoopExact(inner, rest, f);
    FixMapSplit(inner, rest);
    FixMapTag(|inner|, PairBytes(inner) + rest);
    HeadRoundTrip(MapK, 0, |inner|, PairBytes(inner) + rest);
  }

  lemma FixMapSplit(ps: seq<Pair>, rest: bytes)
    ensures Bytes(Map(0, Flat(ps))) + rest == Head(MapK, 0, |ps|) + (PairBytes(ps) + rest)
  {
    hide Head, Bytes, PairBytes, Flat;
    FixMapBytes(ps);
  }

  lemma FixMapBytes(ps: seq<Pair>)
    ensures Bytes(Map(0, Flat(ps))) == Head(MapK, 0, |ps|) + PairBytes(ps)
  {
    hide Head, BytesAll, Flat;
  }

  lemma FixMapTag(n: nat, rest: bytes)
    requires n <= 15
    ensures var s := Head(MapK, 0, n) + rest; s != [] && 0x80 <= s[0] <= 0x8f
  {
  }

  lemma ThreePairs(es: seq<Pair>, rest: bytes)
    requires |es| == 3
    ensures PairBytes(es) + rest
         == Bytes(es[0].k)
           + (Bytes(es[0].v) + (Bytes(es[1].k) + (Bytes(es[1].v) + (Bytes(es[2].k) + (Bytes(es[2].v) + rest)))))
  {
    hide Bytes, PairBytes;
    PairStep(es, rest);
    PairStep(es[1..], rest);
    PairStep(es[2..], rest);
    assert es[1..][1..] == es[2..] && es[2..][1..] == [];
    assert PairBytes([]) + rest == rest by { NoPairs(); }
  }

  lemma NoPairs()
    ensures PairBytes([]) == []
  {
  }

  /** Three successive entries. */
  lemma RowLoopThree(e0: Pair, e1: Pair, e2: Pair, inner: seq<Pair>, info: Info, node: Option<bytes>, rest: bytes,
      f: Fields)
    requires RowPair(e0, inner, info.callId, Or(node, NO_NODE), TableOf(info))
    requires RowPair(e1, inner, info.callId, Or(node, NO_NODE), TableOf(info))
    requires RowPair(e2, inner, info.callId, Or(node, NO_NODE), TableOf(info))
    ensures RowLoop(Bytes(e0.k) +
                    (Bytes(e0.v) + (Bytes(e1.k) + (Bytes(e1.v) + (Bytes(e2.k) + (Bytes(e2.v) + rest))))), 3, f)
         == Some((AssignRow(AssignRow(AssignRow(f, e0.k.data, info, node), e1.k.data, info, node),
                            e2.k.data, info, node), rest))
  {
    hide RowEntry, RowPair, AssignRow, TableOf, Bytes, Or;
    var s2 := Bytes(e2.k) + (Bytes(e2.v) + rest);
    var s1 := Bytes(e1.k) + (Bytes(e1.v) + s2);
    RowPairStr(e0, inner, info.callId, Or(node, NO_NODE), TableOf(info));
    RowPairStr(e1, inner, info.callId, Or(node, NO_NODE), TableOf(info));
    RowPairStr(e2, inner, info.callId, Or(node, NO_NODE), TableOf(info));
    var f1 := AssignRow(f, e0.k.data, info, node);
    var f2 := AssignRow(f1, e1.k.data, info, node);
    RowEntryExact(e0, inner, info, node, s1, f);
    RowEntryExact(e1, inner, info, node, s2, f1);
    RowEntryExact(e2, inner, info, node, rest, f2);
  }

  lemma RowPairStr(p: Pair, inner: seq<Pair>, id: bytes, node: bytes, t: map<bytes, Value>)
    requires RowPair(p, inner, id, node, t)
    ensures p.k.Str? && p.k.data in {CALL_ID, NODE_ID, PAYLOAD}
  {
    hide Lists, Valid, Meaning;
  }

  /** A returned row is decoded to what the buffers take of the call that was saved, whatever order its keys come in. */
  lemma RowExact(r: RowReply, info: Info, node: Option<bytes>, rest: bytes)
    requires RowFor(r, info.callId, Or(node, NO_NODE), TableOf(info))
    ensures OneRow(RowBytes(r) + rest) == Some((Got(info, node), rest))
  {
    hide DecodeHead, RowLoop, RowPair, TableOf, Bytes, PairBytes, Or, Head, CALL_ID, NODE_ID, PAYLOAD;
    var es := r.entries;
    HeadRoundTrip(MapK, r.width, 3, PairBytes(es) + rest);
    assert RowBytes(r) + rest == Head(MapK, r.width, 3) + (PairBytes(es) + rest);
    MapTag(r.width, 3, PairBytes(es) + rest);
    ThreePairs(es, rest);
    RowLoopThree(es[0], es[1], es[2], r.inner, info, node, rest, NO_FIELDS);
    RowPairStr(es[0], r.inner, info.callId, Or(node, NO_NODE), TableOf(info));
    RowPairStr(es[1], r.inner, info.callId, Or(node, NO_NODE), TableOf(info));
    RowPairStr(es[2], r.inner, info.callId, Or(node, NO_NODE), TableOf(info));
    AnyOrder(es[0].k.data, es[1].k.data, es[2].k.data, info, node);
  }

  lemma MapTag(w: nat, n: nat, rest: bytes)
    requires HeadOk(MapK, w, n)
    ensures var s := Head(MapK, w, n) + rest; s != [] && IsMapTag(s[0])
  {
  }

  lemma ArrTag(w: nat, n: nat, rest: bytes)
    requires HeadOk(ArrK, w, n)
    ensures var s := Head(ArrK, w, n) + rest; s != [] && IsArrTag(s[0])
  {
  }

  lemma AnyOrder(k0: bytes, k1: bytes, k2: bytes, info: Info, node: Option<bytes>)
    requires k0 in {CALL_ID, NODE_ID, PAYLOAD} && k1 in {CALL_ID, NODE_ID, PAYLOAD} && k2 in {CALL_ID, NODE_ID, PAYLOAD}
    requires k0 != k1 && k0 != k2 && k1 != k2
    ensures AssignRow(AssignRow(AssignRow(NO_FIELDS, k0, info, node), k1, info, node), k2, info, node)
            == Got(info, node)
  {
    RowKeys();
    hide Copy, CALL_ID, NODE_ID, PAYLOAD, NO_NODE, NO_IP, NO_SUITE, Or;
  }

  // ---------------------------------------------------------------- replies

  /** A saved call: what was passed to the save, and the driver's node name. */
  datatype Source = Source(info: Info, node: Option<bytes>)

  /** The row renders the saved call. */
  predicate Renders(r: RowReply, c: Source) {
    RowFor(r, c.info.callId, Or(c.node, NO_NODE), TableOf(c.info))
  }

  predicate RenderAll(rs: seq<RowReply>, cs: seq<Source>) {
    |rs| == |cs| && forall i :: 0 <= i < |rs| ==> Renders(rs[i], cs[i])
  }

  function RowsBytes(rs: seq<RowReply>): bytes {
    if rs == [] then [] else RowBytes(rs[0]) + RowsBytes(rs[1..])
  }

  function GotOf(c: Source): Fields {
    Got(c.info, c.node)
  }

  /** The calls that are delivered: those for which a call id is read. */
  function Handed(cs: seq<Source>): (fs: seq<Fields>)
    ensures |fs| <= |cs|
  {
    if cs == [] then []
    else (if GotOf(cs[0]).callId == [] then [] else [GotOf(cs[0])]) + Handed(cs[1..])
  }

  function ExpectedAll(cs: seq<Source>): (fs: seq<Fields>)
    ensures |fs| == |cs|
    ensures forall i :: 0 <= i < |cs| ==> fs[i] == Expected(cs[i].info, cs[i].node)
  {
    seq(|cs|, i requires 0 <= i < |cs| => Expected(cs[i].info, cs[i].node))
  }

  /** Within the limits every call is delivered, as it was saved. */
  lemma {:induction false} HandedWithin(cs: seq<Source>)
    requires forall i :: 0 <= i < |cs| ==> Restorable(cs[i].info, cs[i].node)
    ensures Handed(cs) == ExpectedAll(cs)
  {
    hide Got, Expected, Restorable;
    if cs != [] {
      ComesBackExactly(cs[0].info, cs[0].node);
      HandedWithin(cs[1..]);
    }
  }

  /** Whatever the others are, a call within the limits is delivered as it was saved. */
  lemma {:induction false} HandedHas(cs: seq<Source>, i: nat)
    requires i < |cs| && Restorable(cs[i].info, cs[i].node)
    ensures Expected(cs[i].info, cs[i].node) in Handed(cs)
    decreases i
  {
    hide Got, Expected, Restorable;
    if i == 0 {
      ComesBackExactly(cs[0].info, cs[0].node);
    } else {
      HandedHas(cs[1..], i - 1);
    }
  }

  /** The callback's share of the calls. */
  function Cut(fs: seq<Fields>, quota: nat): seq<Fields> {
    if quota == 0 || |fs| <= quota then fs else fs[..quota]
  }

  /** How many rows are read when `got` calls were delivered before: all, or up to the one the callback stops at. */
  function Taken(cs: seq<Source>, got: nat, quota: nat): (d: nat)
    ensures d <= |cs|
  {
    if cs == [] then 0
    else if GotOf(cs[0]).callId == [] then 1 + Taken(cs[1..], got, quota)
    else if got + 1 == quota then 1
    else 1 + Taken(cs[1..], got + 1, quota)
  }

  /** Every row for which a call id is read is delivered, in the server's order, up to the one the callback stops at,
      and the cursor ends behind the last row read. */
  lemma {:induction false} RowsLoopExact(rs: seq<RowReply>, cs: seq<Source>, rest: bytes, got: seq<Fields>, quota: nat)
    requires RenderAll(rs, cs) && (quota == 0 || |got| < quota)
    ensures RowsLoop(RowsBytes(rs) + rest, |rs|, got, quota)
         == Some((Cut(got + Handed(cs), quota), RowsBytes(rs[Taken(cs, |got|, quota)..]) + rest))
    decreases |rs|
  {
    hide OneRow, RowBytes, Renders, GotOf, RowsLoop, Cut;
    if rs == [] {
      assert RowsBytes(rs) + rest == rest;
      assert got + Handed(cs) == got;
      RowsLoopDone(rest, got, quota);
    } else {
      var f := GotOf(cs[0]);
      var tail := RowsBytes(rs[1..]) + rest;
      RowsStep(rs, rest);
      RenderExact(rs[0], cs[0], tail);
      RowsLoopNext(RowBytes(rs[0]) + tail, |rs|, got, quota, f, tail);
      if f.callId == [] {
        assert Handed(cs) == Handed(cs[1..]);
        RowsLoopExact(rs[1..], cs[1..], rest, got, quota);
        assert rs[1..][Taken(cs[1..], |got|, quota)..] == rs[Taken(cs, |got|, quota)..];
      } else {
        assert got + Handed(cs) == (got + [f]) + Handed(cs[1..]);
        if |got| + 1 != quota {
          RowsLoopExact(rs[1..], cs[1..], rest, got + [f], quota);
          assert rs[1..][Taken(cs[1..], |got| + 1, quota)..] == rs[Taken(cs, |got|, quota)..];
        } else {
          CutAt(got + [f], Handed(cs[1..]), quota);
        }
      }
    }
  }

  lemma RowsLoopDone(s: bytes, got: seq<Fields>, quota: nat)
    requires quota == 0 || |got| < quota
    ensures RowsLoop(s, 0, got, quota) == Some((Cut(got, quota), s))
  {
  }

  lemma RowsLoopNext(s: bytes, n: nat, got: seq<Fields>, quota: nat, f: Fields, s1: bytes)
    requires n > 0 && OneRow(s) == Some((f, s1))
    ensures RowsLoop(s, n, got, quota) ==
            if f.callId == [] then RowsLoop(s1, n - 1, got, quota)
            else if |got| + 1 == quota then Some((got + [f], s1))
            else RowsLoop(s1, n - 1, got + [f], quota)
  {
    hide OneRow;
  }

  lemma CutAt(fs: seq<Fields>, more: seq<Fields>, quota: nat)
    requires |fs| == quota > 0
    ensures Cut(fs + more, quota) == fs
  {
  }

  lemma RenderExact(r: RowReply, c: Source, rest: bytes)
    requires Renders(r, c)
    ensures OneRow(RowBytes(r) + rest) == Some((GotOf(c), rest))
  {
    hide OneRow, RowBytes, RowFor, TableOf, Got;
    RowExact(r, c.info, c.node, rest);
  }

  /** A callback that takes at least as many calls as there are rows never stops before the last one. */
  lemma {:induction false} TakenAll(cs: seq<Source>, got: nat, quota: nat)
    requires quota == 0 || got + |cs| <= quota
    ensures Taken(cs, got, quota) == |cs|
  {
    hide GotOf;
    if cs != [] {
      TakenAll(cs[1..], got, quota);
      TakenAll(cs[1..], got + 1, quota);
    }
  }

  /** Where a call id is read for every row, the callback stops at the row of its number. */
  lemma {:induction false} TakenAt(cs: seq<Source>, got: nat, quota: nat)
    requires got < quota <= got + |cs| && forall i :: 0 <= i < |cs| ==> GotOf(cs[i]).callId != []
    ensures Taken(cs, got, quota) == quota - got
  {
    hide GotOf;
    if got + 1 < quota {
      TakenAt(cs[1..], got + 1, quota);
    }
  }

  /** A restore reply: header, other body entries, and the result array holding one array of rows. */
  datatype Answer = Answer(
    hw: nat, header: seq<Pair>, bw: nat, before: seq<Pair>, key: Wire, outer: nat, count: nat, rows: seq<RowReply>,
    after: seq<Pair>)

  predicate OtherKeys(ps: seq<Pair>) {
    GoodPairs(ps) && forall i :: 0 <= i < |ps| ==> Meaning(ps[i].k) != UInt(DATA)
  }

  /** The header carries sync id `sync` and nothing else under that key. */
  predicate HeaderSays(ps: seq<Pair>, sync: nat) {
    && HeaderPairs(ps)
    && (forall i :: 0 <= i < |ps| && Meaning(ps[i].k) == UInt(SYNC) ==> Meaning(ps[i].v) == UInt(sync))
    && (exists i :: 0 <= i < |ps| && Meaning(ps[i].k) == UInt(SYNC))
  }

  predicate AnswerOk(a: Answer, sync: nat) {
    && HeaderSays(a.header, sync) && HeadOk(MapK, a.hw, |a.header|)
    && HeadOk(MapK, a.bw, |a.before| + 1 + |a.after|)
    && OtherKeys(a.before) && OtherKeys(a.after)
    && Valid(a.key) && Meaning(a.key) == UInt(DATA)
    && HeadOk(ArrK, a.outer, 1) && HeadOk(ArrK, a.count, |a.rows|)
  }

  function DataBytes(a: Answer): bytes {
    Head(ArrK, a.outer, 1) + (Head(ArrK, a.count, |a.rows|) + RowsBytes(a.rows))
  }

  function AnswerBytes(a: Answer): bytes {
    Head(MapK, a.hw, |a.header|) + (PairBytes(a.header) +
    (Head(MapK, a.bw, |a.before| + 1 + |a.after|)
      + (PairBytes(a.before) + (Bytes(a.key) + (DataBytes(a) + PairBytes(a.after))))))
  }

  lemma {:induction false} BodyLoopSkips(ps: seq<Pair>, n: nat, rest: bytes, got: seq<Fields>, quota: nat)
    requires OtherKeys(ps) && |ps| <= n
    ensures BodyLoop(PairBytes(ps) + rest, n, got, quota) == BodyLoop(rest, n - |ps|, got, quota)
    decreases |ps|
  {
    hide DecodeUint, Next, Bytes, Valid, Wide, Meaning, ResultsLoop;
    if ps == [] {
      assert PairBytes(ps) + rest == rest;
    } else {
      hide PairBytes;
      PairStep(ps, rest);
      var tail := PairBytes(ps[1..]) + rest;
      DecodeUintExact(ps[0].k, Bytes(ps[0].v) + tail);
      NextExact(ps[0].v, tail);
      BodyLoopSkips(ps[1..], n - 1, rest, got, quota);
    }
  }

  /** The result array: its one element is the array of rows. */
  lemma DataExact(a: Answer, cs: seq<Source>, sync: nat, rest: bytes, quota: nat)
    requires AnswerOk(a, sync) && RenderAll(a.rows, cs)
    ensures DecodeHead(ArrK, DataBytes(a) + rest).Some?
    ensures var (n, s) := DecodeHead(ArrK, DataBytes(a) + rest).value;
            && ResultsLoop(s, n, [], quota).Some?
            && ResultsLoop(s, n, [], quota)
               == Some((Cut(Handed(cs), quota), RowsBytes(a.rows[Taken(cs, 0, quota)..]) + rest))
  {
    hide DecodeHead, RowsLoop, Head, Renders, OtherKeys, HeaderSays, Valid, Meaning, IsArrTag;
    var rows := RowsBytes(a.rows) + rest;
    var inner := Head(ArrK, a.count, |a.rows|) + rows;
    assert DataBytes(a) + rest == Head(ArrK, a.outer, 1) + inner;
    HeadRoundTrip(ArrK, a.outer, 1, inner);
    HeadRoundTrip(ArrK, a.count, |a.rows|, rows);
    ArrTag(a.count, |a.rows|, rows);
    RowsLoopExact(a.rows, cs, rest, [], quota);
    assert [] + Handed(cs) == Handed(cs);
  }

  /** What a stop of the callback does no harm to: it comes with the last row or later, or at most one entry
      follows the result array. */
  predicate StopsWell(a: Answer, cs: seq<Source>, quota: nat) {
    Taken(cs, 0, quota) == |cs| || |a.after| <= 1
  }

  /** A caller can tell from the number of rows. */
  lemma NeverStops(a: Answer, cs: seq<Source>, quota: nat)
    requires quota == 0 || |cs| <= quota
    ensures StopsWell(a, cs, quota)
  {
    TakenAll(cs, 0, quota);
  }

  /** The loop over the body entries, up to where the result array was left. */
  lemma BodyReaches(a: Answer, cs: seq<Source>, sync: nat, quota: nat)
    requires AnswerOk(a, sync) && RenderAll(a.rows, cs)
    ensures BodyLoop(PairBytes(a.before) + (Bytes(a.key) + (DataBytes(a) + PairBytes(a.after))),
                     |a.before| + 1 + |a.after|, [], quota)
         == BodyLoop(RowsBytes(a.rows[Taken(cs, 0, quota)..]) + PairBytes(a.after), |a.after|,
                     Cut(Handed(cs), quota), quota)
  {
    hide DecodeHead, DecodeUint, ResultsLoop, DataBytes, PairBytes, Bytes, RenderAll, Valid, Meaning, HeaderSays,
         Handed, Cut, Taken, RowsBytes;
    var n := 1 + |a.after|;
    SameCount(a.rows, cs);
    BodyLoopSkips(a.before, |a.before| + n, Bytes(a.key) + (DataBytes(a) + PairBytes(a.after)), [], quota);
    DecodeUintExact(a.key, DataBytes(a) + PairBytes(a.after));
    DataExact(a, cs, sync, PairBytes(a.after), quota);
  }

  /** The body of an answer delivers its rows, up to where the callback stops. */
  lemma BodyExact(a: Answer, cs: seq<Source>, sync: nat, quota: nat)
    requires AnswerOk(a, sync) && RenderAll(a.rows, cs) && StopsWell(a, cs, quota)
    ensures BodyLoop(PairBytes(a.before) + (Bytes(a.key) + (DataBytes(a) + PairBytes(a.after))),
                     |a.before| + 1 + |a.after|, [], quota)
         == Some(Cut(Handed(cs), quota))
  {
    hide BodyLoop, DataBytes, PairBytes, Bytes, RenderAll, Valid, Meaning, HeaderSays, Handed, Cut, Taken,
         RowsBytes;
    SameCount(a.rows, cs);
    BodyReaches(a, cs, sync, quota);
    var fs := Cut(Handed(cs), quota);
    var d := Taken(cs, 0, quota);
    BodyLoopEnd(fs, quota);
    if d == |a.rows| {
      assert a.rows[d..] == [];
      NoRows(PairBytes(a.after));
      BodyLoopSkips(a.after, |a.after|, [], fs, quota);
      assert PairBytes(a.after) + [] == PairBytes(a.after);
    } else if |a.after| == 1 {
      Renderable(a.rows, cs, d);
      StrayEntry(a.rows[d..], cs[d], PairBytes(a.after), fs, quota);
    }
  }

  lemma NoRows(rest: bytes)
    ensures RowsBytes([]) + rest == rest
  {
  }

  lemma SameCount(rs: seq<RowReply>, cs: seq<Source>)
    requires RenderAll(rs, cs)
    ensures |rs| == |cs|
  {
  }

  lemma Renderable(rs: seq<RowReply>, cs: seq<Source>, i: nat)
    requires RenderAll(rs, cs) && i < |rs|
    ensures |cs| == |rs| && Renders(rs[i], cs[i])
  {
  }

  /** One entry read among the rows that were not delivered is read as no result array and stepped over. */
  lemma StrayEntry(rs: seq<RowReply>, c: Source, rest: bytes, fs: seq<Fields>, quota: nat)
    requires rs != [] && Renders(rs[0], c)
    ensures BodyLoop(RowsBytes(rs) + rest, 1, fs, quota) == Some(fs)
  {
    hide RowBytes, Renders, Next, DecodeUint, ResultsLoop;
    var tail := RowsBytes(rs[1..]) + rest;
    assert RowsBytes(rs) + rest == RowBytes(rs[0]) + tail;
    StrayRow(rs[0], c, tail);
  }

  /** The head of a row reads as the number 0, and what follows can be stepped over. */
  lemma StrayRow(r: RowReply, c: Source, tail: bytes)
    requires Renders(r, c)
    ensures var s := RowBytes(r) + tail; s != [] && DecodeUint(s) == Some((0, s[1..])) && Next(s[1..]).Some?
  {
    hide Head, PairBytes, Next, DecodeUint, Bytes, Lists, Restorable, Valid, Meaning, TableOf, CALL_ID, NODE_ID,
         PAYLOAD;
    var entries := PairBytes(r.entries) + tail;
    assert RowBytes(r) + tail == Head(MapK, r.width, 3) + entries;
    MapHead(r.width, entries);
    if r.width == 0 {
      PairStep(r.entries, tail);
      var key := r.entries[0].k;
      KeyNarrow(r.entries[0], r.inner, c.info.callId, Or(c.node, NO_NODE), TableOf(c.info));
      NextExact(key, Bytes(r.entries[0].v) + (PairBytes(r.entries[1..]) + tail));
    }
  }

  lemma KeyNarrow(p: Pair, inner: seq<Pair>, id: bytes, node: bytes, t: map<bytes, Value>)
    requires RowPair(p, inner, id, node, t)
    ensures Valid(p.k) && !Wide(p.k)
  {
    hide Lists, Meaning;
    RowPairStr(p, inner, id, node, t);
  }

  lemma MapHead(width: nat, rest: bytes)
    requires HeadOk(MapK, width, 3)
    ensures var s := Head(MapK, width, 3) + rest;
            s != [] && DecodeUint(s) == Some((0, s[1..])) && (width == 0 ==> s[1..] == rest)
              && (width != 0 ==> Next(s[1..]).Some?)
  {
    hide Next, BE;
    var s := Head(MapK, width, 3) + rest;
    if width != 0 {
      ThreeWide();
      assert s[1..][0] == 0;
      ZeroByte(s[1..]);
    }
  }

  lemma ThreeWide()
    ensures |BE(3, 2)| == 2 && BE(3, 2)[0] == 0 && |BE(3, 4)| == 4 && BE(3, 4)[0] == 0
  {
    assert BE(3, 2) == BE(0, 1) + [3] && BE(0, 1) == BE(0, 0) + [0];
    assert BE(3, 4) == BE(0, 3) + [3] && BE(0, 3) == BE(0, 2) + [0] && BE(0, 2) == BE(0, 1) + [0];
  }

  lemma ZeroByte(s: bytes)
    requires s != [] && s[0] == 0
    ensures Next(s).Some?
  {
    hide NextN;
  }

  lemma BodyLoopEnd(fs: seq<Fields>, quota: nat)
    ensures forall s: bytes :: BodyLoop(s, 0, fs, quota) == Some(fs)
  {
  }

  /** The sync id read from a header is the one it carries. */
  lemma {:induction false} SyncLoopExact(ps: seq<Pair>, rest: bytes, sync: nat, was: nat)
    requires HeaderPairs(ps)
    requires forall i :: 0 <= i < |ps| && Meaning(ps[i].k) == UInt(SYNC) ==> Meaning(ps[i].v) == UInt(sync)
    ensures SyncLoop(PairBytes(ps) + rest, |ps|, was)
         == Some((if exists i :: 0 <= i < |ps| && Meaning(ps[i].k) == UInt(SYNC) then sync else was, rest))
    decreases |ps|
  {
    hide DecodeUint, Next, Bytes, Valid, Wide, Meaning;
    if ps == [] {
      assert PairBytes(ps) + rest == rest;
    } else {
      hide PairBytes;
      PairStep(ps, rest);
      var tail := PairBytes(ps[1..]) + rest;
      DecodeUintExact(ps[0].k, Bytes(ps[0].v) + tail);
      if Meaning(ps[0].k) == UInt(SYNC) {
        DecodeUintExact(ps[0].v, tail);
        SyncLoopExact(ps[1..], rest, sync, sync);
      } else {
        NextExact(ps[0].v, tail);
        SyncLoopExact(ps[1..], rest, sync, was);
        if i :| 0 <= i < |ps| && Meaning(ps[i].k) == UInt(SYNC) {
          assert ps[1..][i - 1] == ps[i];
        }
      }
    }
  }

  /** An acknowledgement nobody read: a header with its sync id and whatever body follows. */
  datatype Ack = Ack(hw: nat, header: seq<Pair>, body: bytes, sync: nat)

  function AckBytes(k: Ack): bytes {
    Head(MapK, k.hw, |k.header|) + (PairBytes(k.header) + k.body)
  }

  predicate AckOk(k: Ack) {
    HeaderSays(k.header, k.sync) && HeadOk(MapK, k.hw, |k.header|) && |AckBytes(k)| <= RESTORE_LIMIT
  }

  function AckStream(ks: seq<Ack>): bytes {
    if ks == [] then [] else Frame(AckBytes(ks[0])) + AckStream(ks[1..])
  }

  lemma AckSkipped(k: Ack, more: bytes, want: nat, quota: nat)
    requires AckOk(k) && k.sync != want
    ensures ReadReplies(Frame(AckBytes(k)) + more, want, quota) == ReadReplies(more, want, quota)
  {
    hide ReadFrame, DecodeHead, SyncLoop, PairBytes, Head, BodyLoop, Frame, Meaning, HeaderPairs;
    ReadFrameExact(AckBytes(k), more, RESTORE_LIMIT);
    HeadRoundTrip(MapK, k.hw, |k.header|, PairBytes(k.header) + k.body);
    SyncLoopExact(k.header, k.body, k.sync, 0);
  }

  /** However many unread acknowledgements stand in front, the loop skips every one and delivers exactly
      the calls of its own answer. */
  lemma {:induction false} RestoreExact(ks: seq<Ack>, a: Answer, cs: seq<Source>, want: nat, more: bytes, quota: nat)
    requires forall i :: 0 <= i < |ks| ==> AckOk(ks[i]) && ks[i].sync != want
    requires AnswerOk(a, want) && RenderAll(a.rows, cs) && |AnswerBytes(a)| <= RESTORE_LIMIT
    requires StopsWell(a, cs, quota)
    ensures ReadReplies(AckStream(ks) + (Frame(AnswerBytes(a)) + more), want, quota)
         == Some(Delivered(Cut(Handed(cs), quota)))
    decreases |ks|
  {
    hide ReadReplies, AckBytes, AckOk, AnswerOk, AnswerBytes, Frame, Cut, Handed, RenderAll, StopsWell;
    if ks == [] {
      assert AckStream(ks) + (Frame(AnswerBytes(a)) + more) == Frame(AnswerBytes(a)) + more;
      OwnAnswer(a, cs, want, more, quota);
    } else {
      var tail := AckStream(ks[1..]) + (Frame(AnswerBytes(a)) + more);
      assert AckStream(ks) + (Frame(AnswerBytes(a)) + more) == Frame(AckBytes(ks[0])) + tail;
      AckSkipped(ks[0], tail, want, quota);
      RestoreExact(ks[1..], a, cs, want, more, quota);
    }
  }

  /** The reply with the wanted id is the one whose body is read. */
  lemma OwnBody(a: Answer, want: nat, more: bytes, quota: nat)
    requires AnswerOk(a, want) && |AnswerBytes(a)| <= RESTORE_LIMIT
    ensures var calls := BodyLoop(PairBytes(a.before) + (Bytes(a.key) + (DataBytes(a) + PairBytes(a.after))),
                                  |a.before| + 1 + |a.after|, [], quota);
            ReadReplies(Frame(AnswerBytes(a)) + more, want, quota)
              == if calls.Some? then Some(Delivered(calls.value)) else None
  {
    hide ReadFrame, DecodeHead, SyncLoop, PairBytes, Head, BodyLoop, Frame, DataBytes, Bytes, OtherKeys, Valid, Meaning,
         HeaderPairs;
    var body := PairBytes(a.before) + (Bytes(a.key) + (DataBytes(a) + PairBytes(a.after)));
    var n := |a.before| + 1 + |a.after|;
    ReadFrameExact(AnswerBytes(a), more, RESTORE_LIMIT);
    HeadRoundTrip(MapK, a.hw, |a.header|, PairBytes(a.header) + (Head(MapK, a.bw, n) + body));
    SyncLoopExact(a.header, Head(MapK, a.bw, n) + body, want, 0);
    HeadRoundTrip(MapK, a.bw, n, body);
  }

  lemma OwnAnswer(a: Answer, cs: seq<Source>, want: nat, more: bytes, quota: nat)
    requires AnswerOk(a, want) && RenderAll(a.rows, cs) && |AnswerBytes(a)| <= RESTORE_LIMIT
    requires StopsWell(a, cs, quota)
    ensures ReadReplies(Frame(AnswerBytes(a)) + more, want, quota) == Some(Delivered(Cut(Handed(cs), quota)))
  {
    hide ReadReplies, PairBytes, BodyLoop, Frame, DataBytes, Bytes, Cut, Handed, RenderAll, AnswerOk, AnswerBytes,
         StopsWell;
    OwnBody(a, want, more, quota);
    BodyExact(a, cs, want, quota);
  }

  // ---------------------------------------------------------------- a stop that does harm

  /** The byte that opens a string with a four-byte length. */
  const STR32: byte := 0xdb

  /** A row whose first value is a call id that itself reads as the head of a string longer than any reply. */
  predicate Trap(r: RowReply) {
    && r.width == 0 && r.entries != [] && r.entries[0].k.Str? && Valid(r.entries[0].k) && !Wide(r.entries[0].k)
    && r.entries[0].v.Str? && r.entries[0].v.width == 0 && Valid(r.entries[0].v)
    && var id := r.entries[0].v.data;
       5 <= |id| && id[0] == STR32 && RESTORE_LIMIT <= UnBE(id[1..5]) && UnBE(id[1..5]) + 4 < TWO32
  }

  /** A callback that stops in front of such a row, with two or more entries behind the result array, makes
      the loop step over a length taken from the call id, outside the reply. */
  lemma StopReadsOutside(a: Answer, cs: seq<Source>, want: nat, more: bytes, quota: nat)
    requires AnswerOk(a, want) && RenderAll(a.rows, cs) && |AnswerBytes(a)| <= RESTORE_LIMIT
    requires Taken(cs, 0, quota) < |a.rows| && 2 <= |a.after| && Trap(a.rows[Taken(cs, 0, quota)])
    ensures !StopsWell(a, cs, quota)
    ensures ReadReplies(Frame(AnswerBytes(a)) + more, want, quota) == None
  {
    hide BodyLoop, ReadReplies, AnswerOk, RenderAll, Trap, RowsBytes, PairBytes, Frame, DataBytes, AnswerBytes, Cut,
         Handed, Taken;
    var fs, d := Cut(Handed(cs), quota), Taken(cs, 0, quota);
    var rest := PairBytes(a.after);
    SameCount(a.rows, cs);
    BodyReaches(a, cs, want, quota);
    RowsInside(a, want, d);
    RowsStep(a.rows[d..], rest);
    TrapRead(a.rows[d], RowsBytes(a.rows[d..][1..]) + rest, |a.after|, fs, quota);
    OwnBody(a, want, more, quota);
  }

  lemma RowsStep(rs: seq<RowReply>, rest: bytes)
    requires rs != []
    ensures RowsBytes(rs) + rest == RowBytes(rs[0]) + (RowsBytes(rs[1..]) + rest)
  {
    hide RowBytes;
  }

  lemma {:induction false} RowsShrink(rs: seq<RowReply>, d: nat)
    requires d <= |rs|
    ensures |RowsBytes(rs[d..])| <= |RowsBytes(rs)|
    decreases d
  {
    hide RowBytes;
    if d == 0 {
      assert rs[0..] == rs;
    } else {
      assert rs[1..][d - 1..] == rs[d..];
      RowsShrink(rs[1..], d - 1);
    }
  }

  lemma RowsInside(a: Answer, sync: nat, d: nat)
    requires AnswerOk(a, sync) && d <= |a.rows|
    ensures |RowsBytes(a.rows[d..]) + PairBytes(a.after)| <= |AnswerBytes(a)|
  {
    hide Head, PairBytes, Bytes, RowsBytes, AnswerOk;
    RowsShrink(a.rows, d);
  }

  /** The first entry is the row's head and its first key, the second the head of the call id and what the
      id says. */
  lemma TrapRead(r: RowReply, tail: bytes, n: nat, fs: seq<Fields>, quota: nat)
    requires Trap(r) && 2 <= n && |RowBytes(r) + tail| <= RESTORE_LIMIT
    ensures BodyLoop(RowBytes(r) + tail, n, fs, quota) == None
  {
    hide Next, DecodeUint, DecodeHead, ResultsLoop, Head, PairBytes, Bytes, Valid, Wide, UnBE;
    var es := r.entries;
    var t := PairBytes(es[1..]) + tail;
    PairStep(es, tail);
    TrapHead(es, tail);
    NextExact(es[0].k, Bytes(es[0].v) + t);
    TrapId(es[0].v, t);
    assert |es[0].v.data + t| <= RESTORE_LIMIT;
    TrapNext(es[0].v.data, t);
  }

  lemma TrapHead(es: seq<Pair>, tail: bytes)
    ensures var s := (Head(MapK, 0, 3) + PairBytes(es)) + tail;
            s != [] && DecodeUint(s) == Some((0, PairBytes(es) + tail))
  {
    hide PairBytes;
    var s := (Head(MapK, 0, 3) + PairBytes(es)) + tail;
    assert s[0] == 0x83 && s[1..] == PairBytes(es) + tail;
  }

  lemma TrapId(w: Wire, tail: bytes)
    requires w.Str? && w.width == 0 && Valid(w)
    ensures DecodeUint(Bytes(w) + tail) == Some((0, w.data + tail)) && |Bytes(w)| == 1 + |w.data|
  {
    var s := Bytes(w) + tail;
    assert s[0] == 0xa0 + |w.data| && s[1..] == w.data + tail;
  }

  lemma TrapNext(id: bytes, tail: bytes)
    requires 5 <= |id| && id[0] == STR32 && |id + tail| <= RESTORE_LIMIT
    requires RESTORE_LIMIT <= UnBE(id[1..5]) && UnBE(id[1..5]) + 4 < TWO32
    ensures Next(id + tail) == None
  {
    hide NextN, UnBE;
    var s := id + tail;
    assert s[0] == 0xdb && s[1..5] == id[1..5];
    assert DecodeHead(StrK, s) == Some((UnBE(id[1..5]), s[5..]));
  }
}
