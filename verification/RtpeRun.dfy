/** Whole runs of the RTPEngine driver: saves and deletes whose acknowledgements stay unread, reconnects
    with or without authentication, other drivers on the same database, and restores. */
module RtpeRun {
  import opened Wrappers
  import opened Msgpack
  import opened Iproto
  import opened RtpeDriver
  import opened RtpeRestore

  /** A live call as its saver meant it. */
  datatype SavedCall = SavedCall(source: Source, expires: nat)

  /** The client's counter and socket, the acknowledgements waiting on it, the server's table, the calls the
      callers believe saved, and the sync ids of all CALL requests sent so far. */
  datatype World = World(
    syncId: nat, open: bool, unread: seq<Ack>, db: Calls, saved: map<bytes, SavedCall>, issued: seq<nat>)

  /** How a call finds the connection: as it is, freshly opened, or refused. Authentication, when the
      handshake gets that far, takes a sync id of its own. */
  datatype Link = Kept | Opened(auth: bool) | Refused(auth: bool)

  datatype Event =
    | Save(info: Info, now: nat, link: Link, drained: nat, sent: bool, ack: Ack)
    | Delete(callId: bytes, now: nat, link: Link, drained: nat, sent: bool, ack: Ack)
    | Restore(wanted: bytes, now: nat, link: Link, drained: nat, sent: bool, answer: Answer)
    | OtherSave(source: Source, now: nat)
    | OtherDelete(callId: bytes)
    | Close
    | Connect(up: bool, auth: bool)

  function Relink(w: World, link: Link): Option<World> {
    match link
    case Kept => if w.open then Some(w) else None
    case Opened(auth) =>
      if w.open then None else Some(w.(open := true, unread := [], syncId := if auth then w.syncId + 1 else w.syncId))
    case Refused(auth) =>
      if w.open then None else Some(w.(syncId := if auth then w.syncId + 1 else w.syncId))
  }

  /** Discarding what has arrived, a whole number of frames. */
  function Drain(w: World, drained: nat): World {
    w.(unread := if drained <= |w.unread| then w.unread[drained..] else [])
  }

  function Hangup(w: World): World {
    w.(open := false, unread := [])
  }

  /** `expires_secs` stands in for a missing time to live. */
  function WithTtl(info: Info, expiresSecs: nat): Info {
    if info.ttl > 0 then info else info.(ttl := expiresSecs)
  }

  /** A request that reaches the server: performed in order, and acknowledged under the sync id it carries. */
  function Post(w: World, sync: nat, packet: bytes, now: nat, ack: Ack): Option<World> {
    var m :- ReadMessage(packet);
    var db :- Perform(w.db, m, now);
    if !AckOk(ack) || ack.sync != m.sync then None
    else Some(w.(db := db, unread := w.unread + [ack], issued := w.issued + [sync]))
  }

  /** The server's choice of rows for a restore: each selected call once, in any order. */
  predicate HonestRows(db: Calls, wanted: bytes, now: nat, rows: seq<RowReply>, ids: seq<bytes>) {
    && |rows| == |ids|
    && (forall i :: 0 <= i < |ids| ==> ids[i] in Selected(db, wanted, now))
    && (forall i, j :: 0 <= i < j < |ids| ==> ids[i] != ids[j])
    && (forall id :: id in Selected(db, wanted, now) ==> id in ids)
    && (forall i :: 0 <= i < |rows| ==> ids[i] in db && RowFor(rows[i], ids[i], db[ids[i]].node, db[ids[i]].payload))
  }

  /** The reply to a restore request, as the server reads it. */
  predicate HonestAnswer(db: Calls, packet: bytes, now: nat, a: Answer, ids: seq<bytes>) {
    && ReadMessage(packet).Some?
    && var m := ReadMessage(packet).value;
       && AnswerOk(a, m.sync) && |AnswerBytes(a)| <= RESTORE_LIMIT
       && TextUnder(m.body, FUNCTION_NAME) == Some(RESTORE)
       && ListUnder(m.body, TUPLE).Some? && |ListUnder(m.body, TUPLE).value| == 1
          && ListUnder(m.body, TUPLE).value[0].Text?
       && HonestRows(db, ListUnder(m.body, TUPLE).value[0].s, now, a.rows, ids)
  }

  /** One event of a run; None when it is not a possible behaviour of the driver and an in-order server. */
  function Step(w: World, node: bytes, expiresSecs: nat, e: Event): Option<World> {
    match e
    case Save(info0, now, link, drained, sent, ack) =>
      var info := WithTtl(info0, expiresSecs);
      var sync := w.syncId;
      if !Sendable(CALL, sync, Dict(CallBody(UPSERT, UpsertArgs(info, Some(node))))) then None
      else
        var w1 :- Relink(w.(syncId := sync + 1), link);
        if link.Refused? then Some(w1)
        else
          var w2 := Drain(w1, drained);
          if !sent then Some(Hangup(w2))
          else
            var w3 :- Post(w2, sync, UpsertPacket(sync, info, Some(node)), now, ack);
            Some(w3.(saved := w3.saved[info.callId := SavedCall(Source(info, Some(node)), now + Ttl(info))]))
    case Delete(callId, now, link, drained, sent, ack) =>
      var sync := w.syncId;
      if !Sendable(CALL, sync, Dict(CallBody(CALL_DELETE, [Text(callId)]))) then None
      else
        var w1 :- Relink(w.(syncId := sync + 1), link);
        if link.Refused? then Some(w1)
        else
          var w2 := Drain(w1, drained);
          if !sent then Some(Hangup(w2))
          else
            var w3 :- Post(w2, sync, DeletePacket(sync, callId), now, ack);
            Some(w3.(saved := w3.saved - {callId}))
    case Restore(wanted, now, link, drained, sent, answer) =>
      var w1 :- Relink(w, link);
      if link.Refused? then Some(w1)
      else
        var sync := w1.syncId;
        var w2 := Drain(w1, drained).(syncId := sync + 1);
        if !sent then Some(Hangup(w2))
        else Some(w2.(unread := [], issued := w2.issued + [sync]))
    case OtherSave(source, now) =>
      var id := source.info.callId;
      Some(w.(db := w.db[id := RowOf(w.db, source.info, source.node, now)],
              saved := w.saved[id := SavedCall(source, now + Ttl(source.info))]))
    case OtherDelete(callId) => Some(w.(db := w.db - {callId}, saved := w.saved - {callId}))
    case Close => Some(Hangup(w))
    // a connect in any state closes the socket first
    case Connect(up, auth) => Some(Hangup(w).(open := up, syncId := if auth then w.syncId + 1 else w.syncId))
  }

  function Run(w: World, node: bytes, expiresSecs: nat, es: seq<Event>): Option<World>
    decreases |es|
  {
    if es == [] then Some(w)
    else
      var w1 :- Step(w, node, expiresSecs, es[0]);
      Run(w1, node, expiresSecs, es[1..])
  }

  /** A fresh client against an empty table. */
  const START := World(1, false, [], map[], map[], [])

  // ---------------------------------------------------------------- what every run keeps

  predicate Increasing(s: seq<nat>) {
    forall i, j :: 0 <= i < j < |s| ==> s[i] < s[j]
  }

  /** The server's row is the one its saver meant. */
  predicate Agrees(row: Stored, id: bytes, c: SavedCall) {
    && c.source.info.callId == id
    && row.node == Or(c.source.node, NO_NODE)
    && row.expires == c.expires
    && row.payload == TableOf(c.source.info)
  }

  predicate Abstracts(db: Calls, saved: map<bytes, SavedCall>) {
    db.Keys == saved.Keys && forall id :: id in db ==> Agrees(db[id], id, saved[id])
  }

  predicate Inv(w: World) {
    && Increasing(w.issued)
    && (forall i :: 0 <= i < |w.issued| ==> w.issued[i] < w.syncId)
    && (forall i :: 0 <= i < |w.unread| ==> AckOk(w.unread[i]) && w.unread[i].sync < w.syncId)
    && Abstracts(w.db, w.saved)
  }

  /** Posting under a fresh id keeps ids increasing and every waiting acknowledgement below the counter. */
  lemma PostKeeps(w: World, sync: nat, packet: bytes, now: nat, ack: Ack)
    requires Increasing(w.issued) && (forall i :: 0 <= i < |w.issued| ==> w.issued[i] < sync)
    requires forall i :: 0 <= i < |w.unread| ==> AckOk(w.unread[i]) && w.unread[i].sync < w.syncId
    requires sync < w.syncId
    requires Post(w, sync, packet, now, ack).Some? && ReadMessage(packet).Some?
             && ReadMessage(packet).value.sync == sync
    ensures var w' := Post(w, sync, packet, now, ack).value;
            && Increasing(w'.issued) && (forall i :: 0 <= i < |w'.issued| ==> w'.issued[i] < w'.syncId)
            && (forall i :: 0 <= i < |w'.unread| ==> AckOk(w'.unread[i]) && w'.unread[i].sync < w'.syncId)
            && Perform(w.db, ReadMessage(packet).value, now) == Some(w'.db)
            && w'.saved == w.saved
  {
    hide ReadMessage, Perform, AckOk;
  }

  lemma SaveAgrees(db: Calls, saved: map<bytes, SavedCall>, source: Source, now: nat)
    requires Abstracts(db, saved)
    ensures var id := source.info.callId;
            Abstracts(db[id := RowOf(db, source.info, source.node, now)],
              saved[id := SavedCall(source, now + Ttl(source.info))])
  {
    hide TableOf, Or, Ttl;
  }

  lemma DeleteAgrees(db: Calls, saved: map<bytes, SavedCall>, id: bytes)
    requires Abstracts(db, saved)
    ensures Abstracts(db - {id}, saved - {id})
  {
    hide Agrees;
  }

  lemma SaveKeeps(w: World, node: bytes, expiresSecs: nat, e: Event)
    requires e.Save? && Inv(w) && Step(w, node, expiresSecs, e).Some?
    ensures Inv(Step(w, node, expiresSecs, e).value)
  {
    hide Sendable, Post, AckOk, Increasing, Abstracts, UpsertPacket, UpsertArgs, RowOf, ReadMessage,
         Perform;
    var info := WithTtl(e.info, expiresSecs);
    var sync := w.syncId;
    var w1 := Relink(w.(syncId := sync + 1), e.link).value;
    if !e.link.Refused? && e.sent {
      var w2 := Drain(w1, e.drained);
      SaveExact(w2.db, sync, info, Some(node), e.now);
      PostKeeps(w2, sync, UpsertPacket(sync, info, Some(node)), e.now, e.ack);
      SaveAgrees(w2.db, w2.saved, Source(info, Some(node)), e.now);
    }
  }

  lemma DeleteKeeps(w: World, node: bytes, expiresSecs: nat, e: Event)
    requires e.Delete? && Inv(w) && Step(w, node, expiresSecs, e).Some?
    ensures Inv(Step(w, node, expiresSecs, e).value)
  {
    hide Sendable, Post, AckOk, Increasing, Abstracts, DeletePacket, ReadMessage, Perform;
    var sync := w.syncId;
    var w1 := Relink(w.(syncId := sync + 1), e.link).value;
    if !e.link.Refused? && e.sent {
      var w2 := Drain(w1, e.drained);
      DeleteExact(w2.db, sync, e.callId, e.now);
      PostKeeps(w2, sync, DeletePacket(sync, e.callId), e.now, e.ack);
      DeleteAgrees(w2.db, w2.saved, e.callId);
    }
  }

  lemma RestoreKeeps(w: World, node: bytes, expiresSecs: nat, e: Event)
    requires e.Restore? && Inv(w) && Step(w, node, expiresSecs, e).Some?
    ensures Inv(Step(w, node, expiresSecs, e).value)
  {
    hide Abstracts, AckOk;
  }

  lemma OtherKeeps(w: World, node: bytes, expiresSecs: nat, e: Event)
    requires (e.OtherSave? || e.OtherDelete? || e.Close? || e.Connect?) && Inv(w) && Step(w, node, expiresSecs, e).Some?
    ensures Inv(Step(w, node, expiresSecs, e).value)
  {
    hide Abstracts, AckOk, Increasing, Restorable, RowOf;
    match e
    case OtherSave(source, now) => SaveAgrees(w.db, w.saved, source, now);
    case OtherDelete(callId) => DeleteAgrees(w.db, w.saved, callId);
    case _ =>
  }

  /** One event keeps: CALL ids strictly increasing and below the counter, every unread acknowledgement older
      than the counter, and the server's table equal to the calls saved and not deleted. */
  lemma StepKeeps(w: World, node: bytes, expiresSecs: nat, e: Event)
    requires Inv(w) && Step(w, node, expiresSecs, e).Some?
    ensures Inv(Step(w, node, expiresSecs, e).value)
  {
    hide Step, Inv;
    match e
    case Save(_, _, _, _, _, _) => SaveKeeps(w, node, expiresSecs, e);
    case Delete(_, _, _, _, _, _) => DeleteKeeps(w, node, expiresSecs, e);
    case Restore(_, _, _, _, _, _) => RestoreKeeps(w, node, expiresSecs, e);
    case _ => OtherKeeps(w, node, expiresSecs, e);
  }

  lemma {:induction false} RunKeeps(w: World, node: bytes, expiresSecs: nat, es: seq<Event>)
    requires Inv(w) && Run(w, node, expiresSecs, es).Some?
    ensures Inv(Run(w, node, expiresSecs, es).value)
    decreases |es|
  {
    hide Inv, Step;
    if es != [] {
      StepKeeps(w, node, expiresSecs, es[0]);
      RunKeeps(Step(w, node, expiresSecs, es[0]).value, node, expiresSecs, es[1..]);
    }
  }

  /** In every run the sync ids of CALL requests strictly increase, although authentication also takes ids. */
  lemma SyncIdsIncrease(node: bytes, expiresSecs: nat, es: seq<Event>)
    requires Run(START, node, expiresSecs, es).Some?
    ensures Increasing(Run(START, node, expiresSecs, es).value.issued)
  {
    StartInv();
    RunKeeps(START, node, expiresSecs, es);
  }

  /** The calls a restore must bring back. */
  function Live(saved: map<bytes, SavedCall>, wanted: bytes, now: nat): set<bytes> {
    set id | id in saved && (wanted == [] || Or(saved[id].source.node, NO_NODE) == wanted) && saved[id].expires > now
  }

  function SourcesOf(saved: map<bytes, SavedCall>, ids: seq<bytes>): (cs: seq<Source>)
    requires forall i :: 0 <= i < |ids| ==> ids[i] in saved
    ensures |cs| == |ids|
    ensures forall i :: 0 <= i < |cs| ==> cs[i] == saved[ids[i]].source
  {
    seq(|ids|, i requires 0 <= i < |ids| => saved[ids[i]].source)
  }

  /** The request a restore sends, and the bytes that then stand on the socket. */
  predicate Asks(w: World, e: Event, ids: seq<bytes>)
    requires e.Restore?
  {
    && Relink(w, e.link).Some? && !e.link.Refused? && e.sent
    && var w1 := Relink(w, e.link).value;
       && Sendable(CALL, w1.syncId, Dict(CallBody(RESTORE, [Text(e.wanted)])))
       && HonestAnswer(w.db, RestorePacket(w1.syncId, e.wanted), e.now, e.answer, ids)
  }

  /** What `restore_calls` returns then. */
  function Outcome(w: World, e: Event, quota: nat): Option<Restored>
    requires e.Restore? && Relink(w, e.link).Some?
  {
    var w1 := Relink(w, e.link).value;
    ReadReplies(AckStream(Drain(w1, e.drained).unread) + (Frame(AnswerBytes(e.answer)) + []), w1.syncId, quota)
  }

  lemma AnswerRead(w: World, e: Event, ids: seq<bytes>)
    requires e.Restore? && Asks(w, e, ids)
    ensures AnswerOk(e.answer, Relink(w, e.link).value.syncId) && |AnswerBytes(e.answer)| <= RESTORE_LIMIT
    ensures HonestRows(w.db, e.wanted, e.now, e.answer.rows, ids)
  {
    hide AnswerOk, HonestRows, AnswerBytes, ReadMessage, Under, Bytes, Enc, Encodable;
    var sync := Relink(w, e.link).value.syncId;
    ReadMessageExact(CALL, sync, CallBody(RESTORE, [Text(e.wanted)]));
    BodyUnder(RESTORE, [Text(e.wanted)]);
  }

  lemma RowsRender(w: World, wanted: bytes, now: nat, rows: seq<RowReply>, ids: seq<bytes>)
    requires Abstracts(w.db, w.saved) && HonestRows(w.db, wanted, now, rows, ids)
    ensures forall i :: 0 <= i < |ids| ==> ids[i] in w.saved
    ensures RenderAll(rows, SourcesOf(w.saved, ids))
    ensures (set id | id in ids) == Live(w.saved, wanted, now)
    ensures forall i, j :: 0 <= i < j < |ids| ==> ids[i] != ids[j]
  {
    hide RowFor, TableOf, Or;
    forall i | 0 <= i < |rows|
      ensures ids[i] in w.saved && Renders(rows[i], w.saved[ids[i]].source)
    {
      assert Agrees(w.db[ids[i]], ids[i], w.saved[ids[i]]);
    }
  }

  /** The callback's stop, if it stops, does no harm. */
  predicate StopsFor(w: World, e: Event, ids: seq<bytes>, quota: nat)
    requires e.Restore?
  {
    (forall i :: 0 <= i < |ids| ==> ids[i] in w.saved) ==> StopsWell(e.answer, SourcesOf(w.saved, ids), quota)
  }

  /** A restore in any state the invariant allows. */
  lemma RestoreInState(w: World, e: Event, ids: seq<bytes>, quota: nat)
    requires Inv(w) && e.Restore? && Asks(w, e, ids)
    requires StopsFor(w, e, ids, quota)
    ensures forall i :: 0 <= i < |ids| ==> ids[i] in w.saved
    ensures (set id | id in ids) == Live(w.saved, e.wanted, e.now)
    ensures forall i, j :: 0 <= i < j < |ids| ==> ids[i] != ids[j]
    ensures Outcome(w, e, quota) == Some(Delivered(Cut(Handed(SourcesOf(w.saved, ids)), quota)))
  {
    hide Abstracts, AckOk, AnswerOk, AnswerBytes, HonestRows, Cut, Handed, RenderAll, Live, ReadReplies,
         Increasing, AckStream, Frame, HonestAnswer, Sendable, StopsWell;
    AnswerRead(w, e, ids);
    RowsRender(w, e.wanted, e.now, e.answer.rows, ids);
    RowsCount(w.db, e.wanted, e.now, e.answer.rows, ids);
    var w1 := Relink(w, e.link).value;
    var acks := Drain(w1, e.drained).unread;
    assert forall i :: 0 <= i < |acks| ==> AckOk(acks[i]) && acks[i].sync != w1.syncId;
    RestoreExact(acks, e.answer, SourcesOf(w.saved, ids), w1.syncId, [], quota);
  }

  lemma RowsCount(db: Calls, wanted: bytes, now: nat, rows: seq<RowReply>, ids: seq<bytes>)
    requires HonestRows(db, wanted, now, rows, ids)
    ensures |rows| == |ids|
  {
    hide RowFor;
  }

  lemma StartInv()
    ensures Inv(START)
  {
  }

  /** In every run, a restore delivers exactly those live calls of the node for which a call id is read, each once and
      as far as the buffers take its fields, however many acknowledgements were left unread. Whatever its neighbours
      are, a call within the limits is among them with the call id, node, addresses, ports and suite its saver
      passed. */
  lemma RestoreBringsBack(node: bytes, expiresSecs: nat, es: seq<Event>, w: World, e: Event, ids: seq<bytes>,
      quota: nat)
    requires Run(START, node, expiresSecs, es) == Some(w) && e.Restore? && Asks(w, e, ids)
    requires StopsFor(w, e, ids, quota)
    ensures forall i :: 0 <= i < |ids| ==> ids[i] in w.saved
    ensures (set id | id in ids) == Live(w.saved, e.wanted, e.now)
    ensures forall i, j :: 0 <= i < j < |ids| ==> ids[i] != ids[j]
    ensures Outcome(w, e, quota) == Some(Delivered(Cut(Handed(SourcesOf(w.saved, ids)), quota)))
    ensures forall id :: id in Live(w.saved, e.wanted, e.now) ==>
              var c := w.saved[id].source;
              Restorable(c.info, c.node) ==> Expected(c.info, c.node) in Handed(SourcesOf(w.saved, ids))
    ensures (forall i :: 0 <= i < |ids| ==> Restorable(w.saved[ids[i]].source.info, w.saved[ids[i]].source.node)) ==>
              Handed(SourcesOf(w.saved, ids)) == ExpectedAll(SourcesOf(w.saved, ids))
  {
    hide *;
    StartInv();
    RunKeeps(START, node, expiresSecs, es);
    RestoreInState(w, e, ids, quota);
    if forall i :: 0 <= i < |ids| ==> Restorable(w.saved[ids[i]].source.info, w.saved[ids[i]].source.node) {
      HandedWithin(SourcesOf(w.saved, ids));
    }
    forall id | id in Live(w.saved, e.wanted, e.now)
      ensures id in w.saved
      ensures var c := w.saved[id].source;
              Restorable(c.info, c.node) ==> Expected(c.info, c.node) in Handed(SourcesOf(w.saved, ids))
    {
      var i :| 0 <= i < |ids| && ids[i] == id;
      if Restorable(w.saved[id].source.info, w.saved[id].source.node) {
        HandedHas(SourcesOf(w.saved, ids), i);
      }
    }
  }
}
