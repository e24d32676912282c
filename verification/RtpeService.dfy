/** The stored procedures of the RTPEngine service over spaces updated in place. */
module RtpeService {
  import opened Wrappers
  import opened Msgpack
  import opened RtpeDriver

  /** What a restore returns for one call. */
  datatype Leg = Leg(callId: bytes, node: bytes, payload: map<bytes, Value>)

  datatype Node = Node(address: bytes, active: bool, calls: nat, lastPing: int)

  /** A node that may be chosen: active and heard of within ten seconds. */
  predicate Eligible(nodes: map<bytes, Node>, id: bytes, now: int) {
    id in nodes && nodes[id].active && now - nodes[id].lastPing < 10
  }

  /** The legs of a set of calls, each once. */
  predicate LegsOf(legs: seq<Leg>, calls: Calls, ids: set<bytes>) {
    && ids <= calls.Keys
    && (forall i :: 0 <= i < |legs| ==>
          legs[i].callId in ids
            && legs[i] == Leg(legs[i].callId, calls[legs[i].callId].node, calls[legs[i].callId].payload))
    && (forall i, j :: 0 <= i < j < |legs| ==> legs[i].callId != legs[j].callId)
    && (forall id :: id in ids ==> exists i :: 0 <= i < |legs| && legs[i].callId == id)
  }

  lemma LegAdded(legs: seq<Leg>, calls: Calls, ids: set<bytes>, id: bytes)
    requires LegsOf(legs, calls, ids) && id in calls && id !in ids
    ensures LegsOf(legs + [Leg(id, calls[id].node, calls[id].payload)], calls, ids + {id})
  {
    var more := legs + [Leg(id, calls[id].node, calls[id].payload)];
    assert more[|legs|].callId == id;
    forall x | x in ids
      ensures exists i :: 0 <= i < |more| && more[i].callId == x
    {
      var i :| 0 <= i < |legs| && legs[i].callId == x;
      assert more[i].callId == x;
    }
  }

  lemma NoLegs(calls: Calls, now: nat)
    ensures LegsOf([], calls, Unexpired(calls, {}, now))
  {
  }

  lemma RestoreSelects(calls: Calls, node: bytes, now: nat)
    ensures var all := if node != [] then set c | c in calls && calls[c].node == node else calls.Keys;
            Unexpired(calls, all, now) == Selected(calls, node, now)
  {
  }

  function Unexpired(calls: Calls, ids: set<bytes>, now: nat): set<bytes> {
    set c | c in ids && c in calls && calls[c].expires > now
  }

  lemma UnexpiredNext(calls: Calls, all: set<bytes>, rest: set<bytes>, c: bytes, now: nat)
    requires c in rest && rest <= all && c in calls
    ensures Unexpired(calls, all - (rest - {c}), now)
         == Unexpired(calls, all - rest, now) + if calls[c].expires > now then {c} else {}
    ensures c !in Unexpired(calls, all - rest, now)
  {
  }

  class Service {
    var calls: Calls
    var nodes: map<bytes, Node>

    constructor ()
      ensures calls == map[] && nodes == map[]
    {
      calls, nodes := map[], map[];
    }

    /** `call_upsert` */
    method CallUpsert(id: bytes, node: Option<bytes>, payload: map<bytes, Value>, ttl: int, now: nat)
      returns (expires: int)
      modifies this`calls
      ensures calls == Upserted(old(calls), id, node, payload, ttl, now)
      ensures expires == now + (if ttl > 0 then ttl else 3600) && calls[id].expires == expires
      ensures calls[id].node == if node.Some? then node.value else Ascii("default-node")
    {
      var t := if ttl > 0 then ttl else 3600;
      expires := now + t;
      var n := if node.Some? then node.value else DEFAULT_NODE;
      assert DEFAULT_NODE == Ascii("default-node");
      if id !in calls {
        calls := calls[id := Stored(n, now, now, expires, payload)];
      } else {
        calls := calls[id := Stored(n, calls[id].created, now, expires, payload)];
      }
    }

    /** `call_delete` */
    method CallDelete(id: bytes) returns (deleted: bool)
      modifies this`calls
      ensures calls == old(calls) - {id} && (deleted <==> id in old(calls))
    {
      deleted := id in calls;
      calls := calls - {id};
    }

    /** `call_restore`: through the node index, or over the whole space when no node is named. */
    method CallRestore(node: bytes, now: nat) returns (legs: seq<Leg>)
      ensures LegsOf(legs, calls, Selected(calls, node, now))
    {
      hide LegsOf, Unexpired, Selected;
      legs := [];
      var all := if node != [] then set c | c in calls && calls[c].node == node else calls.Keys;
      var rest := all;
      NoLegs(calls, now);
      assert all - rest == {};
      while rest != {}
        invariant rest <= all <= calls.Keys
        invariant LegsOf(legs, calls, Unexpired(calls, all - rest, now))
        decreases |rest|
      {
        var c :| c in rest;
        UnexpiredNext(calls, all, rest, c, now);
        if calls[c].expires > now {
          LegAdded(legs, calls, Unexpired(calls, all - rest, now), c);
          legs := legs + [Leg(c, calls[c].node, calls[c].payload)];
        }
        rest := rest - {c};
      }
      assert all - rest == all;
      RestoreSelects(calls, node, now);
    }

    /** `select_optimal_node`: an eligible node with the fewest calls, or none when none is eligible. */
    method SelectOptimalNode(now: int) returns (best: Option<bytes>)
      ensures best.Some? ==> Eligible(nodes, best.value, now)
      ensures best.Some? ==> forall id :: Eligible(nodes, id, now) ==> nodes[best.value].calls <= nodes[id].calls
      ensures best.None? ==> forall id :: !Eligible(nodes, id, now)
    {
      best := None;
      var minCalls: Option<nat> := None;
      var rest := nodes.Keys;
      while rest != {}
        invariant rest <= nodes.Keys && (best.None? <==> minCalls.None?)
        invariant best.Some? ==> Eligible(nodes, best.value, now) && minCalls == Some(nodes[best.value].calls)
        invariant forall id :: Eligible(nodes, id, now) && id !in rest ==>
                    minCalls.Some? && minCalls.value <= nodes[id].calls
        decreases |rest|
      {
        var id :| id in rest;
        if nodes[id].active && now - nodes[id].lastPing < 10 {
          if minCalls.None? || nodes[id].calls < minCalls.value {
            minCalls := Some(nodes[id].calls);
            best := Some(id);
          }
        }
        rest := rest - {id};
      }
    }

    /** `node_heartbeat` */
    method NodeHeartbeat(id: bytes, address: bytes, active: int, now: int)
      modifies this`nodes
      ensures nodes == old(nodes)[id := Node(address, true, if active >= 0 then active else 0, now)]
      ensures Eligible(nodes, id, now)
    {
      var n := if active >= 0 then active else 0;
      nodes := nodes[id := Node(address, true, n, now)];
    }
  }
}
