/** What a save comes to, in names and numbers: the row it leaves in the server's table, how long the call is
    restored, and what the restore callback is then given. */
module RtpeSaved {
  import opened Wrappers
  import opened Msgpack
  import opened Iproto
  import opened RtpeDriver
  import opened RtpeRestore
  import opened RtpeRun

  /** The seconds a call lives: its own, else those of the client, else an hour. */
  function Lifetime(ttl: nat, expiresSecs: nat): nat {
    if ttl > 0 then ttl else if expiresSecs > 0 then expiresSecs else 3600
  }

  lemma Spelled()
    ensures CALL_ID == Ascii("call_id") && NODE_ID == Ascii("node_id") && PAYLOAD == Ascii("payload")
    ensures NO_IP == Ascii("0.0.0.0") && NO_SUITE == Ascii("NONE") && NO_NODE == Ascii("rtpe-01")
  {
  }

  lemma SpelledSlots()
    ensures CALLER_IP == Ascii("caller_ip") && CALLEE_IP == Ascii("callee_ip") && SRTP_SUITE == Ascii("srtp_suite")
    ensures CALLER_PORT == Ascii("caller_port") && CALLEE_PORT == Ascii("callee_port")
  {
  }

  /** The stored procedures the driver calls. */
  lemma SpelledCalls()
    ensures UPSERT == Ascii("rtpe_call_upsert")
    ensures CALL_DELETE == Ascii("rtpe_call_delete")
    ensures RESTORE == Ascii("rtpe_call_restore")
  {
    SpelledUpsert();
    SpelledRestore();
  }

  lemma SpelledUpsert()
    ensures UPSERT == Ascii("rtpe_call_upsert")
  {
  }

  lemma SpelledRestore()
    ensures RESTORE == Ascii("rtpe_call_restore")
  {
  }

  /** A save whose bytes reach the server. */
  predicate Arrives(e: Event) {
    e.Save? && !e.link.Refused? && e.sent
  }

  /** The payload of a call as the server keeps it: both addresses and ports and the suite under their names, with
      defaults for what is missing. */
  predicate Kept(t: map<bytes, Value>, info: Info)
    requires IntPorts(info)
  {
    && t.Keys == {Ascii("caller_ip"), Ascii("caller_port"), Ascii("callee_ip"), Ascii("callee_port"),
                  Ascii("srtp_suite")}
    && t[Ascii("caller_ip")] == Text(if info.callerIp.Some? then info.callerIp.value else Ascii("0.0.0.0"))
    && t[Ascii("callee_ip")] == Text(if info.calleeIp.Some? then info.calleeIp.value else Ascii("0.0.0.0"))
    && t[Ascii("srtp_suite")] == Text(if info.suite.Some? then info.suite.value else Ascii("NONE"))
    && t[Ascii("caller_port")]
       == UInt(if info.callerPort >= 0 then info.callerPort else 0x1_0000_0000_0000_0000 + info.callerPort)
    && t[Ascii("callee_port")]
       == UInt(if info.calleePort >= 0 then info.calleePort else 0x1_0000_0000_0000_0000 + info.calleePort)
  }

  lemma TableKept(info: Info)
    requires IntPorts(info)
    ensures Kept(TableOf(info), info)
  {
    hide Ascii;
    Spelled();
    SpelledSlots();
    NamesDiffer();
    Widened(info.callerPort);
    Widened(info.calleePort);
    hide Widen, CALLER_IP, CALLEE_IP, CALLER_PORT, CALLEE_PORT, SRTP_SUITE;
  }

  lemma Widened(port: int)
    requires -0x8000_0000 <= port < 0x8000_0000
    ensures Widen(port) == if port >= 0 then port else 0x1_0000_0000_0000_0000 + port
  {
  }

  /** The row a save leaves: of the client's node, created when the call was first saved, expiring a lifetime from
      now, with the payload under its names; every other row stays. */
  lemma SaveLeavesRow(w: World, node: bytes, expiresSecs: nat, e: Event)
    requires Arrives(e) && IntPorts(e.info) && Step(w, node, expiresSecs, e).Some?
    ensures var db := Step(w, node, expiresSecs, e).value.db; var id := e.info.callId;
            && db.Keys == w.db.Keys + {id}
            && (forall other :: other in w.db && other != id ==> db[other] == w.db[other])
            && db[id].node == node && db[id].updated == e.now
            && db[id].created == (if id in w.db then w.db[id].created else e.now)
            && db[id].expires == e.now + Lifetime(e.info.ttl, expiresSecs)
            && Kept(db[id].payload, e.info)
  {
    hide Sendable, AckOk, UpsertPacket, UpsertArgs, ReadMessage, Perform, Kept, TableOf, Drain;
    var info := WithTtl(e.info, expiresSecs);
    var w1 := Relink(w.(syncId := w.syncId + 1), e.link).value;
    DrainKeeps(w1, e.drained);
    SaveExact(w.db, w.syncId, info, Some(node), e.now);
    TableKept(e.info);
    SamePayload(e.info, info.ttl);
  }

  lemma DrainKeeps(w: World, drained: nat)
    ensures Drain(w, drained).db == w.db && Drain(w, drained).saved == w.saved
  {
  }

  lemma SamePayload(info: Info, ttl: nat)
    ensures TableOf(info.(ttl := ttl)) == TableOf(info)
  {
  }

  /** The event changes what is saved under the id. */
  predicate Touches(e: Event, id: bytes) {
    match e
    case Save(info, _, link, _, sent, _) => !link.Refused? && sent && info.callId == id
    case Delete(callId, _, link, _, sent, _) => !link.Refused? && sent && callId == id
    case OtherSave(source, _) => source.info.callId == id
    case OtherDelete(callId) => callId == id
    case _ => false
  }

  lemma Untouched(w: World, node: bytes, expiresSecs: nat, e: Event, id: bytes)
    requires Step(w, node, expiresSecs, e).Some? && !Touches(e, id) && id in w.saved
    ensures var saved := Step(w, node, expiresSecs, e).value.saved; id in saved && saved[id] == w.saved[id]
  {
    hide Sendable, AckOk, UpsertPacket, UpsertArgs, DeletePacket, ReadMessage, Perform, RowOf, Ttl;
  }

  lemma {:induction false} StaysSaved(w: World, node: bytes, expiresSecs: nat, es: seq<Event>, id: bytes)
    requires Run(w, node, expiresSecs, es).Some? && id in w.saved
    requires forall j :: 0 <= j < |es| ==> !Touches(es[j], id)
    ensures var saved := Run(w, node, expiresSecs, es).value.saved; id in saved && saved[id] == w.saved[id]
    decreases |es|
  {
    hide Step, Touches;
    if es != [] {
      Untouched(w, node, expiresSecs, es[0], id);
      StaysSaved(Step(w, node, expiresSecs, es[0]).value, node, expiresSecs, es[1..], id);
    }
  }

  lemma SavedAs(w: World, node: bytes, expiresSecs: nat, e: Event)
    requires Arrives(e) && Step(w, node, expiresSecs, e).Some?
    ensures var saved := Step(w, node, expiresSecs, e).value.saved; var id := e.info.callId;
            && id in saved && saved[id].source.node == Some(node)
            && saved[id].source.info == e.info.(ttl := saved[id].source.info.ttl)
            && saved[id].expires == e.now + Lifetime(e.info.ttl, expiresSecs)
  {
    hide Sendable, AckOk, UpsertPacket, UpsertArgs, ReadMessage, Perform;
  }

  /** The last save of a call in a run. */
  predicate LastSave(es: seq<Event>, i: nat) {
    i < |es| && Arrives(es[i]) && forall j :: i < j < |es| ==> !Touches(es[j], es[i].info.callId)
  }

  lemma {:induction false} SavedLast(w: World, node: bytes, expiresSecs: nat, es: seq<Event>, i: nat)
    requires Run(w, node, expiresSecs, es).Some? && LastSave(es, i)
    ensures var saved := Run(w, node, expiresSecs, es).value.saved; var id := es[i].info.callId;
            && id in saved && saved[id].source.node == Some(node)
            && saved[id].source.info == es[i].info.(ttl := saved[id].source.info.ttl)
            && saved[id].expires == es[i].now + Lifetime(es[i].info.ttl, expiresSecs)
    decreases |es|
  {
    hide Step, Touches, Arrives;
    var next := Step(w, node, expiresSecs, es[0]).value;
    if i == 0 {
      IsSave(es[0]);
      SavedAs(w, node, expiresSecs, es[0]);
      StaysSaved(next, node, expiresSecs, es[1..], es[0].info.callId);
    } else {
      assert forall j :: 0 <= j < |es| - 1 ==> es[1..][j] == es[j + 1];
      SavedLast(next, node, expiresSecs, es[1..], i - 1);
    }
  }

  lemma IsSave(e: Event)
    requires Arrives(e)
    ensures e.Save?
  {
  }

  /** A call saved and not touched since is restored, to its own node or to all, up to the second its lifetime ends
      and not from then on; the server's row says the same. */
  lemma LiveUntil(node: bytes, expiresSecs: nat, es: seq<Event>, i: nat, wanted: bytes, now: nat)
    requires Run(START, node, expiresSecs, es).Some? && LastSave(es, i)
    ensures var w := Run(START, node, expiresSecs, es).value; var id := es[i].info.callId;
            var ends := es[i].now + Lifetime(es[i].info.ttl, expiresSecs);
            && (id in Live(w.saved, wanted, now) <==> (wanted == [] || wanted == node) && now < ends)
            && id in w.db && w.db[id].node == node && w.db[id].expires == ends
  {
    hide Run, Arrives, Touches, TableOf, Increasing, AckOk;
    StartInv();
    RunKeeps(START, node, expiresSecs, es);
    SavedLast(START, node, expiresSecs, es, i);
  }

  /** What the buffers of a restore take: C strings below their sizes, and a call id. */
  predicate Fitting(info: Info, node: bytes) {
    && IntPorts(info) && 0 < |info.callId| < 128 && 0 !in info.callId && |node| < 64 && 0 !in node
    && (info.callerIp.Some? ==> |info.callerIp.value| < 64 && 0 !in info.callerIp.value)
    && (info.calleeIp.Some? ==> |info.calleeIp.value| < 64 && 0 !in info.calleeIp.value)
    && (info.suite.Some? ==> |info.suite.value| < 32 && 0 !in info.suite.value)
  }

  /** The callback's arguments for a call: what its saver passed, in its place, with defaults for what was missing. */
  predicate GivenBack(f: Fields, info: Info, node: bytes) {
    f == Fields(
      info.callId, node,
      if info.callerIp.Some? then info.callerIp.value else Ascii("0.0.0.0"), info.callerPort,
      if info.calleeIp.Some? then info.calleeIp.value else Ascii("0.0.0.0"), info.calleePort,
      if info.suite.Some? then info.suite.value else Ascii("NONE"))
  }

  lemma FittingRestorable(info: Info, node: bytes, ttl: nat)
    requires Fitting(info, node)
    ensures Restorable(info.(ttl := ttl), Some(node)) && GivenBack(Expected(info.(ttl := ttl), Some(node)), info, node)
  {
    Spelled();
    hide Ascii;
  }

  /** After any run, a call saved and not touched since comes back from a restore within its lifetime with
      everything its saver passed, whatever else was saved, left unread or restored in between. */
  lemma SavedComesBack(node: bytes, expiresSecs: nat, es: seq<Event>, i: nat, w: World, e: Event, ids: seq<bytes>)
    requires Run(START, node, expiresSecs, es) == Some(w) && LastSave(es, i) && Fitting(es[i].info, node)
    requires e.Restore? && Asks(w, e, ids)
    requires (e.wanted == [] || e.wanted == node) && e.now < es[i].now + Lifetime(es[i].info.ttl, expiresSecs)
    ensures var r := Outcome(w, e, 0);
            && r.Some? && r.value.Delivered?
            && exists k :: 0 <= k < |r.value.calls| && GivenBack(r.value.calls[k], es[i].info, node)
  {
    var id := es[i].info.callId;
    hide *;
    EveryStop(w, e, ids);
    RestoreBringsBack(node, expiresSecs, es, w, e, ids, 0);
    LiveUntil(node, expiresSecs, es, i, e.wanted, e.now);
    SavedLast(START, node, expiresSecs, es, i);
    var c := w.saved[id].source;
    FittingRestorable(es[i].info, node, c.info.ttl);
    WholeCut(Handed(SourcesOf(w.saved, ids)));
    var k :| 0 <= k < |Handed(SourcesOf(w.saved, ids))|
             && Handed(SourcesOf(w.saved, ids))[k] == Expected(c.info, c.node);
  }

  lemma WholeCut(fs: seq<Fields>)
    ensures Cut(fs, 0) == fs
  {
  }

  lemma EveryStop(w: World, e: Event, ids: seq<bytes>)
    requires e.Restore?
    ensures StopsFor(w, e, ids, 0)
  {
    if forall i :: 0 <= i < |ids| ==> ids[i] in w.saved {
      NeverStops(e.answer, SourcesOf(w.saved, ids), 0);
    }
  }
}
