/** The run theorems of the two drivers are not empty: plain servers, which encode everything in the shortest way,
    meet what the theorems ask of a server. */
module Witnesses {
  import opened Wrappers
  import opened Msgpack
  import opened Iproto
  import Cache = CacheDriver
  import opened RtpeDriver
  import opened RtpeRestore
  import Run = RtpeRun

  /** Status OK and the sync id. */
  function PlainHeader(sync: nat): seq<Pair> {
    [Pair(UintWire(REQUEST_TYPE), UintWire(OK)), Pair(UintWire(SYNC), UintWire(sync))]
  }

  lemma UintGood(n: nat)
    requires n < TWO64
    ensures Valid(UintWire(n)) && Meaning(UintWire(n)) == UInt(n) && !Wide(UintWire(n)) && |Bytes(UintWire(n))| <= 9
  {
    UintWireExact(n);
    DecodeUintExact(UintWire(n), []);
  }

  lemma PlainHeaderGood(sync: nat)
    requires sync < TWO64
    ensures HeaderSays(PlainHeader(sync), sync) && Accepts(PlainHeader(sync), sync)
  {
    hide UintWire, Valid, Wide, Meaning, Bytes;
    UintGood(REQUEST_TYPE);
    UintGood(OK);
    UintGood(SYNC);
    UintGood(sync);
    var ps := PlainHeader(sync);
    assert Meaning(ps[1].k) == UInt(SYNC);
  }

  lemma PlainHeaderShort(sync: nat)
    requires sync < TWO64
    ensures |PairBytes(PlainHeader(sync))| <= 36
  {
    hide UintWire, Valid, Wide, Meaning, Bytes, PairBytes;
    UintGood(REQUEST_TYPE);
    UintGood(OK);
    UintGood(SYNC);
    UintGood(sync);
    var ps := PlainHeader(sync);
    PairStep(ps, []);
    PairStep(ps[1..], []);
    assert ps[1..][1..] == [];
    NoPairs();
    assert PairBytes(ps) + [] == PairBytes(ps) && PairBytes(ps[1..]) + [] == PairBytes(ps[1..]);
  }

  // ---------------------------------------------------------------- the cache driver's server

  function PlainReply(sync: nat, rows: seq<seq<Value>>): Cache.Reply {
    Cache.Reply(0, PlainHeader(sync), 0, [], Pair(UintWire(DATA), Enc(List(Cache.RowValues(rows)))), [])
  }

  /** Every answer that can be encoded within the frame limit has an honest reply. */
  lemma ReplyExists(sync: nat, rows: seq<seq<Value>>)
    requires sync < TWO64 && Encodable(List(Cache.RowValues(rows)))
    requires |Bytes(Enc(List(Cache.RowValues(rows))))| + 64 <= FRAME_LIMIT
    ensures Cache.Honest(PlainReply(sync, rows), sync, rows)
  {
    hide UintWire, Valid, Wide, Meaning, Bytes, PairBytes, Enc, Encodable;
    var r := PlainReply(sync, rows);
    PlainHeaderGood(sync);
    PlainHeaderShort(sync);
    UintGood(DATA);
    EncExact(List(Cache.RowValues(rows)));
    ShortNarrow(Enc(List(Cache.RowValues(rows))));
    assert Cache.ReplyEntries(r) == [r.data];
    OnePair(r.data);
  }

  lemma OnePair(p: Pair)
    ensures |PairBytes([p])| == |Bytes(p.k)| + |Bytes(p.v)|
  {
    hide Bytes, PairBytes;
    PairStep([p], []);
    assert [p][1..] == [];
    NoPairs();
    assert PairBytes([p]) + [] == PairBytes([p]);
  }

  /** So every call that fits can happen, in every state the driver and the server can be in. */
  lemma CallHappens(st: Cache.State, conn: nat, skipped: nat, space: nat, op: Cache.Op, m: map<bytes, bytes>)
    requires space in st.db && Cache.Abstracts(st.db[space], m)
    requires conn < |st.counters| && Cache.Fits(op, Cache.SyncOf(st, conn, skipped), space)
    requires var vs := List(Cache.RowValues(Cache.Meant(st.db, op, space).1));
             Encodable(vs) && |Bytes(Enc(vs))| + 64 <= FRAME_LIMIT
    ensures exists r, out :: Cache.Step(st, space, Cache.Event(conn, skipped, op, r, out)).Some?
  {
    hide Cache.Step, Cache.Fits, Cache.Honest, Encodable, Enc, Bytes, Cache.Meant;
    var sync := Cache.SyncOf(st, conn, skipped);
    var rows := Cache.Meant(st.db, op, space).1;
    ReplyExists(sync, rows);
    Cache.StepEnabled(st, space, conn, skipped, op, PlainReply(sync, rows), m);
    var out :| Cache.Step(st, space, Cache.Event(conn, skipped, op, PlainReply(sync, rows), out)).Some?;
  }

  // ---------------------------------------------------------------- the RTPEngine driver's server

  function PlainAck(sync: nat): Ack {
    Ack(0, PlainHeader(sync), [], sync)
  }

  lemma AckExists(sync: nat)
    requires sync < TWO64
    ensures AckOk(PlainAck(sync)) && PlainAck(sync).sync == sync
  {
    hide UintWire, HeaderSays, PairBytes;
    PlainHeaderGood(sync);
    PlainHeaderShort(sync);
  }

  function Entry(k: bytes, v: Value): Pair {
    Pair(Enc(Text(k)), Enc(v))
  }

  function SlotEntry(info: Info, slot: Slot): Pair
    requires slot != OtherSlot
  {
    Entry(KeyFor(slot), Saved(info, slot))
  }

  /** The payload table, one entry per field. */
  function PlainTable(info: Info): seq<Pair> {
    [SlotEntry(info, CallerIp), SlotEntry(info, CallerPort), SlotEntry(info, CalleeIp), SlotEntry(info, CalleePort),
     SlotEntry(info, Suite)]
  }

  function PlainRow(info: Info, node: Option<bytes>): RowReply {
    RowReply(0, [Entry(CALL_ID, Text(info.callId)), Entry(NODE_ID, Text(Or(node, NO_NODE))),
                 Pair(Enc(Text(PAYLOAD)), Map(0, Flat(PlainTable(info))))], PlainTable(info))
  }

  lemma EntryGood(k: bytes, v: Value)
    requires |k| < TWO32 && Encodable(v) && Skippable(v)
    ensures var p := Entry(k, v);
            p.k.Str? && p.k.data == k && Valid(p.k) && Valid(p.v) && !Wide(p.v) && Meaning(p.v) == v
  {
    EncExact(Text(k));
    EncExact(v);
  }

  /** What MessagePack strings can hold. */
  predicate Storable(info: Info, node: Option<bytes>) {
    && |info.callId| + 4 < TWO32 && |Or(node, NO_NODE)| + 4 < TWO32
    && |Or(info.callerIp, NO_IP)| + 4 < TWO32 && |Or(info.calleeIp, NO_IP)| + 4 < TWO32
    && |Or(info.suite, NO_SUITE)| + 4 < TWO32
  }

  lemma WithinIsStorable(info: Info, node: Option<bytes>)
    requires Restorable(info, node)
    ensures Storable(info, node)
  {
  }

  lemma SlotEntryGood(info: Info, node: Option<bytes>, slot: Slot)
    requires Storable(info, node) && slot != OtherSlot
    ensures var p := SlotEntry(info, slot);
            && p.k.Str? && Valid(p.k) && Valid(p.v) && !Wide(p.v)
            && p.k.data == KeyFor(slot) && p.k.data in TableOf(info) && Meaning(p.v) == TableOf(info)[p.k.data]
  {
    SavedAt(info, slot);
    assert |KeyFor(slot)| < TWO32 && Encodable(Saved(info, slot)) && Skippable(Saved(info, slot));
    hide TableOf, Valid, Wide, Meaning, Storable, Encodable, Skippable;
    EntryGood(KeyFor(slot), Saved(info, slot));
  }

  lemma TableKeys(info: Info)
    ensures TableOf(info).Keys
            == {KeyFor(CallerIp), KeyFor(CallerPort), KeyFor(CalleeIp), KeyFor(CalleePort), KeyFor(Suite)}
  {
  }

  lemma TableListed(info: Info, node: Option<bytes>)
    requires Storable(info, node)
    ensures Lists(PlainTable(info), TableOf(info))
  {
    hide TableOf, SlotEntry, Valid, Wide, Meaning, Storable, CALLER_IP, CALLER_PORT, CALLEE_IP, CALLEE_PORT,
         SRTP_SUITE;
    var qs := PlainTable(info);
    NamesDiffer();
    TableKeys(info);
    SlotEntryGood(info, node, CallerIp);
    SlotEntryGood(info, node, CallerPort);
    SlotEntryGood(info, node, CalleeIp);
    SlotEntryGood(info, node, CalleePort);
    SlotEntryGood(info, node, Suite);
    assert qs[0].k.data == CALLER_IP && qs[1].k.data == CALLER_PORT && qs[2].k.data == CALLEE_IP
        && qs[3].k.data == CALLEE_PORT && qs[4].k.data == SRTP_SUITE;
  }

  lemma TextPair(k: bytes, s: bytes, inner: seq<Pair>, id: bytes, node: bytes, t: map<bytes, Value>)
    requires |k| < TWO32 && |s| + 4 < TWO32 && ((k == CALL_ID && s == id) || (k == NODE_ID && s == node))
    ensures RowPair(Entry(k, Text(s)), inner, id, node, t) && Entry(k, Text(s)).k.data == k
  {
    hide Lists, Valid, Wide, Meaning, CALL_ID, NODE_ID, PAYLOAD, Entry;
    EntryGood(k, Text(s));
  }

  lemma PayloadPair(info: Info, node: Option<bytes>)
    requires Storable(info, node)
    ensures var p := Pair(Enc(Text(PAYLOAD)), Map(0, Flat(PlainTable(info))));
            RowPair(p, PlainTable(info), info.callId, Or(node, NO_NODE), TableOf(info)) && p.k.data == PAYLOAD
  {
    hide TableOf, Lists, Valid, Wide, Meaning, Storable, CALL_ID, NODE_ID, PAYLOAD, SlotEntry;
    TableListed(info, node);
    PayloadKeyGood();
  }

  lemma Short(info: Info, node: Option<bytes>)
    requires Storable(info, node)
    ensures |Or(node, NO_NODE)| + 4 < TWO32 && |info.callId| + 4 < TWO32 && |CALL_ID| < TWO32 && |NODE_ID| < TWO32
  {
  }

  /** Every call a server can store has a row it can return. */
  lemma RowExists(info: Info, node: Option<bytes>)
    requires Storable(info, node)
    ensures RowFor(PlainRow(info, node), info.callId, Or(node, NO_NODE), TableOf(info))
  {
    hide TableOf, Lists, Valid, Wide, Meaning, PlainTable, Storable, CALL_ID, NODE_ID, PAYLOAD, Entry, RowKeyOf,
         RowPair, Or, Flat;
    Short(info, node);
    RowKeys();
    TextPair(CALL_ID, info.callId, PlainTable(info), info.callId, Or(node, NO_NODE), TableOf(info));
    TextPair(NODE_ID, Or(node, NO_NODE), PlainTable(info), info.callId, Or(node, NO_NODE), TableOf(info));
    PayloadPair(info, node);
  }

  lemma PayloadKeyGood()
    ensures var w := Enc(Text(PAYLOAD)); w.Str? && w.data == PAYLOAD && Valid(w)
  {
    EncExact(Text(PAYLOAD));
  }

  function PlainAnswer(sync: nat, rows: seq<RowReply>): Answer {
    Answer(0, PlainHeader(sync), 0, [], UintWire(DATA), 0, MinWidth(ArrK, |rows|), rows, [])
  }

  lemma AnswerExists(sync: nat, rows: seq<RowReply>)
    requires sync < TWO64 && |rows| < TWO32
    ensures AnswerOk(PlainAnswer(sync, rows), sync)
  {
    hide UintWire, HeaderSays, Valid, Meaning;
    PlainHeaderGood(sync);
    UintGood(DATA);
  }

  // ---------------------------------------------------------------- a save and a restore

  function SaveEvent(info0: Info, now: nat): Run.Event {
    Run.Save(info0, now, Run.Opened(true), 0, true, PlainAck(1))
  }

  /** The world after the first save of a fresh client that had to authenticate. */
  function AfterSave(info: Info, node: bytes, now: nat): Run.World {
    Run.World(3, true, [PlainAck(1)], map[info.callId := RowOf(map[], info, Some(node), now)],
              map[info.callId := Run.SavedCall(Source(info, Some(node)), now + Ttl(info))], [1])
  }

  lemma SaveRuns(info0: Info, node: bytes, expiresSecs: nat, now: nat)
    requires var info := Run.WithTtl(info0, expiresSecs);
             Sendable(CALL, 1, Dict(CallBody(UPSERT, UpsertArgs(info, Some(node)))))
    ensures Run.Run(Run.START, node, expiresSecs, [SaveEvent(info0, now)])
            == Some(AfterSave(Run.WithTtl(info0, expiresSecs), node, now))
  {
    hide Sendable, CallBody, UpsertArgs, UpsertPacket, ReadMessage, Perform, AckOk, RowOf, PlainAck, Ttl,
         Run.WithTtl;
    var info := Run.WithTtl(info0, expiresSecs);
    SaveExact(map[], 1, info, Some(node), now);
    AckExists(1);
    var es := [SaveEvent(info0, now)];
    assert es[1..] == [];
    var db: Calls, row := map[], RowOf(map[], info, Some(node), now);
    assert db[info.callId := row] == map[info.callId := row];
    var saved: map<bytes, Run.SavedCall>, c := map[], Run.SavedCall(Source(info, Some(node)), now + Ttl(info));
    assert saved[info.callId := c] == map[info.callId := c];
    var w1 := Run.World(3, true, [], map[], map[], []);
    assert Run.Drain(w1, 0) == w1;
    var m := ReadMessage(UpsertPacket(1, info, Some(node))).value;
    assert w1.db == db;
    assert Perform(w1.db, m, now) == Some(map[info.callId := row]);
    assert AckOk(PlainAck(1)) && PlainAck(1).sync == m.sync;
    assert w1.unread + [PlainAck(1)] == [PlainAck(1)] && w1.issued + [1] == [1];
    assert Run.Post(w1, 1, UpsertPacket(1, info, Some(node)), now, PlainAck(1)) ==
           Some(Run.World(3, true, [PlainAck(1)], map[info.callId := row], map[], [1]));
    assert Run.Step(Run.START, node, expiresSecs, es[0]) == Some(AfterSave(info, node, now));
  }

  function RestoreEvent(info: Info, node: bytes, later: nat): Run.Event {
    Run.Restore(node, later, Run.Kept, 0, true, PlainAnswer(3, [PlainRow(info, Some(node))]))
  }

  lemma RestoreAsked(info: Info, node: bytes, now: nat, later: nat)
    requires Storable(info, Some(node)) && later < now + Ttl(info)
    requires Sendable(CALL, 3, Dict(CallBody(RESTORE, [Text(node)])))
    requires |AnswerBytes(PlainAnswer(3, [PlainRow(info, Some(node))]))| <= RESTORE_LIMIT
    ensures Run.Asks(AfterSave(info, node, now), RestoreEvent(info, node, later), [info.callId])
  {
    hide Storable, Sendable, CallBody, ReadMessage, AnswerOk, AnswerBytes, PlainRow, RowFor, TableOf, TextUnder,
         ListUnder, Ttl, PlainAck;
    var w := AfterSave(info, node, now);
    RowExists(info, Some(node));
    AnswerExists(3, [PlainRow(info, Some(node))]);
    ReadMessageExact(CALL, 3, CallBody(RESTORE, [Text(node)]));
    BodyUnder(RESTORE, [Text(node)]);
    assert Selected(w.db, node, later) == {info.callId};
  }

  /** Every call can be saved by a fresh client and restored before it expires, with the acknowledgement of the save
      still unread, and what the buffers take of it comes back, if a call id is read at all. */
  lemma SaveThenRestore(info0: Info, node: bytes, expiresSecs: nat, now: nat, later: nat)
    requires var info := Run.WithTtl(info0, expiresSecs);
             && Storable(info, Some(node)) && Sendable(CALL, 1, Dict(CallBody(UPSERT, UpsertArgs(info, Some(node)))))
             && Sendable(CALL, 3, Dict(CallBody(RESTORE, [Text(node)]))) && later < now + Ttl(info)
             && |AnswerBytes(PlainAnswer(3, [PlainRow(info, Some(node))]))| <= RESTORE_LIMIT
    ensures var info := Run.WithTtl(info0, expiresSecs); var f := Got(info, Some(node));
            && Run.Run(Run.START, node, expiresSecs, [SaveEvent(info0, now)]) == Some(AfterSave(info, node, now))
            && Run.Outcome(AfterSave(info, node, now), RestoreEvent(info, node, later), 0)
               == Some(Delivered(if f.callId == [] then [] else [f]))
  {
    hide Storable, Sendable, CallBody, UpsertArgs, AnswerBytes, PlainAnswer, PlainRow, Got, Run.Run, Run.Asks,
         Run.Outcome, Ttl, Run.WithTtl, Run.StopsFor;
    var info := Run.WithTtl(info0, expiresSecs);
    var w, e := AfterSave(info, node, now), RestoreEvent(info, node, later);
    SaveRuns(info0, node, expiresSecs, now);
    RestoreAsked(info, node, now, later);
    StopsForAll(w, e, [info.callId]);
    Run.RestoreBringsBack(node, expiresSecs, [SaveEvent(info0, now)], w, e, [info.callId], 0);
    assert Run.SourcesOf(w.saved, [info.callId]) == [Source(info, Some(node))];
    OneHanded(Source(info, Some(node)));
  }

  lemma StopsForAll(w: Run.World, e: Run.Event, ids: seq<bytes>)
    requires e.Restore?
    ensures Run.StopsFor(w, e, ids, 0)
  {
    hide StopsWell;
    if forall i :: 0 <= i < |ids| ==> ids[i] in w.saved {
      NeverStops(e.answer, Run.SourcesOf(w.saved, ids), 0);
    }
  }

  lemma OneHanded(c: Source)
    ensures Handed([c]) == if GotOf(c).callId == [] then [] else [GotOf(c)]
  {
    hide GotOf;
    assert [c][1..] == [];
  }

  /** So a call id of 128 bytes or more is stored, and the restore that follows delivers nothing. */
  lemma OverlongSaved(info0: Info, node: bytes, expiresSecs: nat, now: nat, later: nat)
    requires var info := Run.WithTtl(info0, expiresSecs);
             && Storable(info, Some(node)) && Sendable(CALL, 1, Dict(CallBody(UPSERT, UpsertArgs(info, Some(node)))))
             && Sendable(CALL, 3, Dict(CallBody(RESTORE, [Text(node)]))) && later < now + Ttl(info)
             && |AnswerBytes(PlainAnswer(3, [PlainRow(info, Some(node))]))| <= RESTORE_LIMIT
    requires |info0.callId| >= 128
    ensures var w := AfterSave(Run.WithTtl(info0, expiresSecs), node, now);
            && info0.callId in Run.Live(w.saved, node, later)
            && Run.Outcome(w, RestoreEvent(Run.WithTtl(info0, expiresSecs), node, later), 0) == Some(Delivered([]))
  {
    hide Storable, Sendable, CallBody, UpsertArgs, AnswerBytes, PlainAnswer, PlainRow, Got, Run.Run, Run.Outcome, Ttl;
    SaveThenRestore(info0, node, expiresSecs, now, later);
    OverlongLost(Run.WithTtl(info0, expiresSecs), Some(node));
  }

  // ---------------------------------------------------------------- an early stop

  lemma {:induction false} PairsShort(ps: seq<Pair>, most: nat)
    requires forall p :: p in ps ==> |Bytes(p.k)| + |Bytes(p.v)| <= most
    ensures |PairBytes(ps)| <= most * |ps|
    decreases |ps|
  {
    hide Bytes, PairBytes;
    if ps == [] {
      NoPairs();
    } else {
      PairStep(ps, []);
      PairsShort(ps[1..], most);
      assert PairBytes(ps) + [] == PairBytes(ps) && PairBytes(ps[1..]) + [] == PairBytes(ps[1..]);
      assert most * |ps| == most + most * (|ps| - 1);
    }
  }

  lemma TextShort(s: bytes)
    requires |s| < 128
    ensures |Bytes(Enc(Text(s)))| <= 130
  {
  }

  lemma SlotShort(info: Info, node: Option<bytes>, slot: Slot)
    requires Restorable(info, node) && slot != OtherSlot
    ensures var p := SlotEntry(info, slot); |Bytes(p.k)| + |Bytes(p.v)| <= 260
  {
    hide Bytes, UintWire, NoNul;
    TextShort(KeyFor(slot));
    match slot
    case CallerIp => TextShort(Or(info.callerIp, NO_IP));
    case CalleeIp => TextShort(Or(info.calleeIp, NO_IP));
    case CallerPort => UintGood(Widen(info.callerPort));
    case CalleePort => UintGood(Widen(info.calleePort));
    case Suite => TextShort(Or(info.suite, NO_SUITE));
  }

  lemma TableShort(info: Info, node: Option<bytes>)
    requires Restorable(info, node)
    ensures |Bytes(Map(0, Flat(PlainTable(info))))| <= 1301
  {
    hide Bytes, PairBytes, SlotEntry, Restorable, Head, Flat;
    SlotShort(info, node, CallerIp);
    SlotShort(info, node, CallerPort);
    SlotShort(info, node, CalleeIp);
    SlotShort(info, node, CalleePort);
    SlotShort(info, node, Suite);
    PairsShort(PlainTable(info), 260);
    FixMapBytes(PlainTable(info));
  }

  /** A row of a call within the limits stays far below the frame limit. */
  lemma RowShort(info: Info, node: Option<bytes>)
    requires Restorable(info, node)
    ensures |RowBytes(PlainRow(info, node))| <= 4501
  {
    hide Bytes, PairBytes, NoNul, Flat, PlainTable;
    TextShort(CALL_ID);
    TextShort(NODE_ID);
    TextShort(PAYLOAD);
    TextShort(info.callId);
    TextShort(Or(node, NO_NODE));
    TableShort(info, node);
    PairsShort(PlainRow(info, node).entries, 1500);
  }

  /** A call id that reads as the head of a string of 0x61616161 bytes. */
  const TRAP_ID: bytes := [STR32, 0x61, 0x61, 0x61, 0x61]

  function Extra(): seq<Pair> {
    [Pair(UintWire(OK), UintWire(OK)), Pair(UintWire(OK), UintWire(OK))]
  }

  /** The two rows, and two more body entries behind the result array. */
  function StopAnswer(sync: nat, first: Info, second: Info, node: Option<bytes>): Answer {
    PlainAnswer(sync, [PlainRow(first, node), PlainRow(second, node)]).(after := Extra())
  }

  lemma ExtraGood()
    ensures |Extra()| == 2 && OtherKeys(Extra()) && |PairBytes(Extra())| <= 36
  {
    hide Bytes, PairBytes, Valid, Wide, Meaning, UintWire;
    UintGood(OK);
    PairsShort(Extra(), 18);
  }

  lemma StopAnswerGood(sync: nat, first: Info, second: Info, node: Option<bytes>)
    requires sync < TWO64 && Restorable(first, node) && Restorable(second, node)
    ensures AnswerOk(StopAnswer(sync, first, second, node), sync)
    ensures RenderAll(StopAnswer(sync, first, second, node).rows, [Source(first, node), Source(second, node)])
  {
    hide UintWire, HeaderSays, Valid, Meaning, Restorable, Storable, PlainRow, RowFor, Extra, OtherKeys, TableOf;
    AnswerExists(sync, [PlainRow(first, node), PlainRow(second, node)]);
    ExtraGood();
    WithinIsStorable(first, node);
    WithinIsStorable(second, node);
    RowExists(first, node);
    RowExists(second, node);
  }

  lemma StopAnswerShort(sync: nat, first: Info, second: Info, node: Option<bytes>)
    requires sync < TWO64 && Restorable(first, node) && Restorable(second, node)
    ensures |AnswerBytes(StopAnswer(sync, first, second, node))| <= RESTORE_LIMIT
  {
    hide UintWire, Restorable, PlainRow, RowBytes, Extra, PairBytes, Bytes, RowsBytes;
    var a := StopAnswer(sync, first, second, node);
    PlainHeaderShort(sync);
    UintGood(DATA);
    ExtraGood();
    RowShort(first, node);
    RowShort(second, node);
    RowsStep(a.rows, []);
    RowsStep(a.rows[1..], []);
    assert a.rows[1..][1..] == [];
    NoRows([]);
    NoPairs();
    assert RowsBytes(a.rows) + [] == RowsBytes(a.rows) && RowsBytes(a.rows[1..]) + [] == RowsBytes(a.rows[1..]);
    assert |RowsBytes(a.rows)| <= 9002;
  }

  lemma TrapRow(info: Info, node: Option<bytes>)
    requires Restorable(info, node) && info.callId == TRAP_ID
    ensures Trap(PlainRow(info, node))
  {
    hide PlainTable, Flat, UnBE;
    EncExact(Text(CALL_ID));
    TrapLength();
    assert TRAP_ID[1..5] == [0x61, 0x61, 0x61, 0x61];
  }

  lemma TrapLength()
    ensures UnBE([0x61, 0x61, 0x61, 0x61]) == 0x61616161
  {
    var s: bytes := [0x61, 0x61, 0x61, 0x61];
    assert s[..3] == [0x61, 0x61, 0x61] && s[..3][..2] == [0x61, 0x61] && s[..3][..2][..1] == [0x61];
    assert UnBE(s[..3][..2][..1]) == 0x61;
    assert UnBE(s[..3][..2]) == 0x6161;
    assert UnBE(s[..3]) == 0x616161;
  }

  /** A callback that takes one call of two, with the second call's id as above and two more body entries,
      sends the loop outside the reply. */
  lemma EarlyStopFails(sync: nat, first: Info, second: Info, node: Option<bytes>, more: bytes)
    requires sync < TWO64 && Restorable(first, node) && Restorable(second, node) && second.callId == TRAP_ID
    ensures ReadReplies(Frame(AnswerBytes(StopAnswer(sync, first, second, node))) + more, sync, 1) == None
  {
    hide ReadReplies, Frame, AnswerBytes, AnswerOk, RenderAll, Trap, Restorable, PlainRow, Got, Expected, Taken;
    StopAnswerGood(sync, first, second, node);
    StopAnswerShort(sync, first, second, node);
    TrapRow(second, node);
    ComesBackExactly(first, node);
    ComesBackExactly(second, node);
    TakenAt([Source(first, node), Source(second, node)], 0, 1);
    StopReadsOutside(StopAnswer(sync, first, second, node), [Source(first, node), Source(second, node)], sync, more, 1);
  }

  // ---------------------------------------------------------------- the counts decide

  /** A call whose texts are empty. */
  function TinyInfo(id: bytes): Info {
    Info(id, Some([]), 0, Some([]), 0, Some([]), 1)
  }

  /** All calls are alike but the one at position q. */
  function TinySource(q: nat, i: nat): Source {
    Source(TinyInfo(if i == q then TRAP_ID else [1]), Some([]))
  }

  function TinyRow(q: nat, i: nat): RowReply {
    PlainRow(TinySource(q, i).info, Some([]))
  }

  function TinySources(q: nat, n: nat): (cs: seq<Source>)
    ensures |cs| == n && forall i :: 0 <= i < n ==> cs[i] == TinySource(q, i)
  {
    seq(n, (i: nat) => TinySource(q, i))
  }

  function TinyRows(q: nat, n: nat): (rs: seq<RowReply>)
    ensures |rs| == n && forall i :: 0 <= i < n ==> rs[i] == TinyRow(q, i)
  {
    seq(n, (i: nat) => TinyRow(q, i))
  }

  const ZERO_PAIR := Pair(UintWire(OK), UintWire(OK))

  function TinyAnswer(sync: nat, q: nat, n: nat, m: nat): Answer {
    Answer(0, PlainHeader(sync), MinWidth(MapK, 1 + m), [], UintWire(DATA), 0, MinWidth(ArrK, n), TinyRows(q, n),
           seq(m, _ => ZERO_PAIR))
  }

  lemma ShortText(s: bytes)
    requires |s| <= 31
    ensures |Bytes(Enc(Text(s)))| == 1 + |s|
  {
  }

  lemma ZeroByteLong()
    ensures |Bytes(UintWire(0))| == 1 && |Bytes(Enc(UInt(0)))| == 1 && |Bytes(UintWire(DATA))| == 1
  {
  }

  lemma TinySlot(id: bytes, slot: Slot)
    requires slot != OtherSlot
    ensures var p := SlotEntry(TinyInfo(id), slot); |Bytes(p.k)| + |Bytes(p.v)| == 2 + |KeyFor(slot)|
  {
    hide Bytes, Enc;
    ShortText([]);
    ZeroByteLong();
    ShortText(KeyFor(slot));
    assert Widen(0) == 0;
  }

  lemma TinyTable(id: bytes)
    ensures |PairBytes(PlainTable(TinyInfo(id)))| == 60
  {
    hide PairBytes, SlotEntry, Bytes;
    var ps := PlainTable(TinyInfo(id));
    TinySlot(id, CallerIp);
    TinySlot(id, CallerPort);
    TinySlot(id, CalleeIp);
    TinySlot(id, CalleePort);
    TinySlot(id, Suite);
    var p1 := ps[1..];
    var p2 := p1[1..];
    var p3 := p2[1..];
    var p4 := p3[1..];
    assert p1[0] == ps[1] && p2[0] == ps[2] && p3[0] == ps[3] && p4[0] == ps[4] && p4[1..] == [];
    FirstPair(ps);
    FirstPair(p1);
    FirstPair(p2);
    FirstPair(p3);
    FirstPair(p4);
    NoPairs();
  }

  lemma FirstPair(ps: seq<Pair>)
    requires ps != []
    ensures |PairBytes(ps)| == |Bytes(ps[0].k)| + |Bytes(ps[0].v)| + |PairBytes(ps[1..])|
  {
    hide Bytes, PairBytes;
    PairStep(ps, []);
    assert PairBytes(ps) + [] == PairBytes(ps) && PairBytes(ps[1..]) + [] == PairBytes(ps[1..]);
  }

  lemma TinyRowShort(q: nat, i: nat)
    ensures |RowBytes(TinyRow(q, i))| <= 93
  {
    hide Bytes, PairBytes, Enc, Flat, PlainTable, Head;
    var id := TinySource(q, i).info.callId;
    var es := TinyRow(q, i).entries;
    ShortText(CALL_ID);
    ShortText(NODE_ID);
    ShortText(PAYLOAD);
    ShortText(id);
    ShortText([]);
    TinyTable(id);
    FixMapBytes(PlainTable(TinyInfo(id)));
    assert TinySource(q, i).info == TinyInfo(id) && |id| <= 5 && |es| == 3;
    assert es[1..][0] == es[1] && es[1..][1..][0] == es[2] && es[1..][1..][1..] == [];
    assert |Bytes(es[0].k)| + |Bytes(es[0].v)| <= 14;
    assert |Bytes(es[1].k)| + |Bytes(es[1].v)| == 9;
    assert |Bytes(es[2].k)| + |Bytes(es[2].v)| == 69;
    FirstPair(es);
    FirstPair(es[1..]);
    FirstPair(es[1..][1..]);
    NoPairs();
  }

  lemma {:induction false} RowsAtMost(rs: seq<RowReply>, most: nat)
    requires forall i :: 0 <= i < |rs| ==> |RowBytes(rs[i])| <= most
    ensures |RowsBytes(rs)| <= most * |rs|
    decreases |rs|
  {
    hide RowBytes;
    if rs != [] {
      RowsAtMost(rs[1..], most);
      assert most * |rs| == most + most * (|rs| - 1);
    }
  }

  lemma TinyRestorable(q: nat, i: nat)
    ensures Restorable(TinySource(q, i).info, Some([]))
  {
  }

  lemma TinyRenders(q: nat, n: nat)
    ensures RenderAll(TinyRows(q, n), TinySources(q, n))
  {
    hide Restorable, Storable, RowFor, TableOf, PlainRow, Or, TinyInfo;
    forall i | 0 <= i < n
      ensures Renders(TinyRows(q, n)[i], TinySources(q, n)[i])
    {
      TinyRestorable(q, i);
      WithinIsStorable(TinySource(q, i).info, Some([]));
      RowExists(TinySource(q, i).info, Some([]));
    }
  }

  /** An answer of n rows and m further entries that stays within the frame limit. */
  predicate RoomFor(n: nat, m: nat) {
    n * 93 + m * 2 + 64 <= RESTORE_LIMIT
  }

  lemma TinyAnswerGood(sync: nat, q: nat, n: nat, m: nat)
    requires sync < TWO64 && RoomFor(n, m)
    ensures AnswerOk(TinyAnswer(sync, q, n, m), sync)
  {
    hide UintWire, HeaderSays, Valid, Wide, Meaning, TinyRows;
    PlainHeaderGood(sync);
    UintGood(DATA);
    UintGood(OK);
  }

  lemma TinyAnswerShort(sync: nat, q: nat, n: nat, m: nat)
    requires sync < TWO64 && RoomFor(n, m)
    ensures |AnswerBytes(TinyAnswer(sync, q, n, m))| <= RESTORE_LIMIT
  {
    hide UintWire, PairBytes, Bytes, RowsBytes, RowBytes, TinyRow;
    var a := TinyAnswer(sync, q, n, m);
    PlainHeaderShort(sync);
    ZeroByteLong();
    NoPairs();
    PairsShort(a.after, 2);
    forall i | 0 <= i < n
      ensures |RowBytes(a.rows[i])| <= 93
    {
      TinyRowShort(q, i);
    }
    RowsAtMost(a.rows, 93);
  }

  /** Every answer with n rows and m entries behind the result array is delivered up to where the callback stops,
      whatever it holds. */
  ghost predicate AllDelivered(sync: nat, n: nat, m: nat, quota: nat) {
    forall a: Answer, cs: seq<Source>, more: bytes ::
      AnswerOk(a, sync) && RenderAll(a.rows, cs) && |AnswerBytes(a)| <= RESTORE_LIMIT && |a.rows| == n
        && |a.after| == m ==>
        ReadReplies(Frame(AnswerBytes(a)) + more, sync, quota) == Some(Delivered(Cut(Handed(cs), quota)))
  }

  /** The counts decide: the callback never stops before the last row, or at most one entry follows. */
  lemma StopDecides(sync: nat, n: nat, m: nat, quota: nat)
    requires sync < TWO64 && RoomFor(n, m)
    ensures AllDelivered(sync, n, m, quota) <==> quota == 0 || n <= quota || m <= 1
  {
    hide ReadReplies, Frame, AnswerBytes, AnswerOk, RenderAll, Cut, Handed;
    if quota == 0 || n <= quota || m <= 1 {
      forall a: Answer, cs: seq<Source>, more: bytes |
          AnswerOk(a, sync) && RenderAll(a.rows, cs) && |AnswerBytes(a)| <= RESTORE_LIMIT && |a.rows| == n
            && |a.after| == m
        ensures ReadReplies(Frame(AnswerBytes(a)) + more, sync, quota) == Some(Delivered(Cut(Handed(cs), quota)))
      {
        SameCount(a.rows, cs);
        if m > 1 {
          NeverStops(a, cs, quota);
        }
        OwnAnswer(a, cs, sync, more, quota);
      }
    } else {
      StopLoses(sync, n, m, quota);
    }
  }

  lemma TinyTaken(q: nat, n: nat)
    requires 0 < q < n
    ensures Taken(TinySources(q, n), 0, q) == q
  {
    hide Restorable, Expected, Got, TinySource;
    var cs := TinySources(q, n);
    forall i | 0 <= i < n
      ensures GotOf(cs[i]).callId != []
    {
      TinyRestorable(q, i);
      ComesBackExactly(cs[i].info, cs[i].node);
      assert cs[i].node == Some([]) by { TinyNode(q, i); }
    }
    TakenAt(cs, 0, q);
  }

  lemma TinyNode(q: nat, i: nat)
    ensures TinySource(q, i).node == Some([])
  {
  }

  lemma StopLoses(sync: nat, n: nat, m: nat, quota: nat)
    requires sync < TWO64 && RoomFor(n, m) && 0 < quota < n && 2 <= m
    ensures !AllDelivered(sync, n, m, quota)
  {
    hide ReadReplies, Frame, AnswerBytes, AnswerOk, RenderAll, Cut, Handed, Trap, PlainRow, RoomFor;
    var a, cs := TinyAnswer(sync, quota, n, m), TinySources(quota, n);
    TinyAnswerGood(sync, quota, n, m);
    TinyAnswerShort(sync, quota, n, m);
    TinyRenders(quota, n);
    TinyRestorable(quota, quota);
    TrapRow(TinySource(quota, quota).info, Some([]));
    TinyTaken(quota, n);
    StopReadsOutside(a, cs, sync, [], quota);
    assert |a.rows| == n && |a.after| == m;
    assert ReadReplies(Frame(AnswerBytes(a)) + [], sync, quota) != Some(Delivered(Cut(Handed(cs), quota)));
  }
}
