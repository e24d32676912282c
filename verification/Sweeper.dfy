/**
 The TTL sweeper: it deletes expired rows in batches through the expiry index and hands over to other fibers
 after every batch. Other fibers run only at that explicit yield.
 */
module Sweeper {
  import opened Wrappers
  import Billing

  type Key = string

  /** A row with its deadline; `created` and `data` stand for the remaining fields. */
  datatype Row = Row(expires: int, created: int, data: string)

  type Rows = map<Key, Row>

  const BATCH: nat := 500

  // ---------------------------------------------------------------- what other fibers do

  /** One operation of another fiber: a call stored or refreshed, a dialog registered or refreshed, a row
      deleted, or the sweeper told to stop. */
  datatype Op =
    | SaveCall(key: Key, clock: int, ttl: int, data: string)
    | SaveDialog(key: Key, clock: int, expires: int, data: string)
    | Remove(key: Key)
    | Stop

  const DEFAULT_TTL: int := 3600

  /** `call_upsert`: a refreshed call keeps its creation time and gets new data. */
  function UpsertCall(rows: Rows, key: Key, clock: int, ttl: int, data: string): Rows {
    var expires := clock + if ttl > 0 then ttl else DEFAULT_TTL;
    rows[key := Row(expires, if key in rows then rows[key].created else clock, data)]
  }

  /** The dialog upsert of `authorize_call`: a known dialog only gets a new deadline. */
  function UpsertDialog(rows: Rows, key: Key, clock: int, expires: int, data: string): Rows {
    rows[key := if key in rows then rows[key].(expires := expires) else Row(expires, clock, data)]
  }

  function Apply(rows: Rows, op: Op): Rows {
    match op
    case SaveCall(key, clock, ttl, data) => UpsertCall(rows, key, clock, ttl, data)
    case SaveDialog(key, clock, expires, data) => UpsertDialog(rows, key, clock, expires, data)
    case Remove(key) => rows - {key}
    case Stop => rows
  }

  function ApplyAll(rows: Rows, ops: seq<Op>): Rows {
    if ops == [] then rows else Apply(ApplyAll(rows, ops[..|ops| - 1]), ops[|ops| - 1])
  }

  /** What the operations of the first n hand-overs leave when nobody sweeps. */
  function Unswept(rows: Rows, others: nat -> seq<Op>, n: nat): Rows {
    if n == 0 then rows else ApplyAll(Unswept(rows, others, n - 1), others(n - 1))
  }

  /** The clock of the other fibers is not behind the sweep, and dialogs are registered for the future. */
  predicate Timely(op: Op, now: int) {
    && (op.SaveCall? ==> op.clock >= now)
    && (op.SaveDialog? ==> op.clock >= now && op.expires > op.clock)
  }

  function Expired(rows: Rows, now: int): set<Key> {
    set k | k in rows && rows[k].expires <= now
  }

  /** The rely condition: what is expired at `now` was there before, unchanged. */
  predicate Rely(before: Rows, after: Rows, now: int) {
    forall k :: k in Expired(after, now) ==> k in before && after[k] == before[k]
  }

  /** Every operation of the services meets the rely condition. */
  lemma ApplyMeetsRely(rows: Rows, op: Op, now: int)
    requires Timely(op, now)
    ensures Rely(rows, Apply(rows, op), now)
  {
  }

  lemma {:induction false} AllMeetRely(rows: Rows, ops: seq<Op>, now: int)
    requires forall i :: 0 <= i < |ops| ==> Timely(ops[i], now)
    ensures Rely(rows, ApplyAll(rows, ops), now)
  {
    if ops != [] {
      var front := ops[..|ops| - 1];
      AllMeetRely(rows, front, now);
      ApplyMeetsRely(ApplyAll(rows, front), ops[|ops| - 1], now);
    }
  }

  /** An authorized dialog is registered for the future: at least ten seconds are granted, and the deadline is
      five minutes after them. */
  lemma AuthorizedIsTimely(b: Billing.Book, caller: string, callee: string, callId: string, clock: real, indexed: bool,
      now: int, data: string)
    requires clock >= now as real
    requires Billing.Authorize(b, caller, callee, callId, clock, indexed).1.Allowed?
    ensures var b' := Billing.Authorize(b, caller, callee, callId, clock, indexed).0;
            callId in b'.dialogs
              && Timely(SaveDialog(callId, Billing.Floor(clock), b'.dialogs[callId].expires, data), now)
  {
    hide Billing.ActiveCalls, Billing.Match;
    var t := Billing.Match(b.tariffs, callee);
    GrantsTenSeconds(b.subs[caller].balance, t);
  }

  lemma GrantsTenSeconds(balance: real, t: Billing.Tariff)
    requires balance >= t.fee + t.rate / 6.0
    ensures Billing.Granted(balance, t) >= 10
  {
    Billing.DivMul(balance - t.fee, t.rate);
    var minutes := (balance - t.fee) / t.rate;
    if minutes < 1.0 / 6.0 {
      Billing.MulLess(minutes, 1.0 / 6.0, t.rate);
    }
  }

  // ---------------------------------------------------------------- with and without sweeping

  /** Sweeping takes the removed rows away and nothing else: every other row is there exactly if it is there
      without sweeping, and is the same; a removed one is back, with the deadline it has without sweeping,
      unless it is expired. */
  predicate SweptFrom(rows: Rows, unswept: Rows, removed: set<Key>, now: int) {
    && (forall k :: k in unswept && k !in removed ==> k in rows)
    && (forall k :: k in rows ==> k in unswept && rows[k].expires == unswept[k].expires)
    && (forall k :: k in rows && k !in removed ==> rows[k] == unswept[k])
    && (forall k :: k in unswept && unswept[k].expires > now ==> k in rows)
  }

  lemma ApplySwept(rows: Rows, unswept: Rows, removed: set<Key>, op: Op, now: int)
    requires SweptFrom(rows, unswept, removed, now) && Timely(op, now)
    ensures SweptFrom(Apply(rows, op), Apply(unswept, op), removed, now)
  {
  }

  lemma {:induction false} AllSwept(rows: Rows, unswept: Rows, removed: set<Key>, ops: seq<Op>, now: int)
    requires SweptFrom(rows, unswept, removed, now) && forall i :: 0 <= i < |ops| ==> Timely(ops[i], now)
    ensures SweptFrom(ApplyAll(rows, ops), ApplyAll(unswept, ops), removed, now)
    decreases |ops|
  {
    hide SweptFrom, Apply;
    if ops != [] {
      var front := ops[..|ops| - 1];
      AllSwept(rows, unswept, removed, front, now);
      ApplySwept(ApplyAll(rows, front), ApplyAll(unswept, front), removed, ops[|ops| - 1], now);
    }
  }

  lemma DeleteSwept(rows: Rows, unswept: Rows, removed: set<Key>, keys: set<Key>, now: int)
    requires SweptFrom(rows, unswept, removed, now) && keys <= Expired(rows, now)
    ensures SweptFrom(rows - keys, unswept, removed + keys, now)
    ensures Expired(rows - keys, now) == Expired(rows, now) - keys
  {
  }

  // ---------------------------------------------------------------- the rounds of a sweep

  /** The rows after the rounds of a sweep: a batch is deleted, then the other fibers have their turn. */
  function Swept(rows: Rows, others: nat -> seq<Op>, log: seq<set<Key>>): Rows {
    if log == [] then rows
    else ApplyAll(Swept(rows, others, log[..|log| - 1]) - log[|log| - 1], others(|log| - 1))
  }

  /** A batch: expired rows only, as many as there are up to 500, and at least one; no row left out has a
      later deadline than one taken. */
  predicate IsBatch(rows: Rows, gone: set<Key>, now: int) {
    && gone != {} && gone <= Expired(rows, now) && |gone| == Min(500, |Expired(rows, now)|)
    && (forall k, x :: k in Expired(rows, now) && k !in gone && x in gone ==> rows[k].expires <= rows[x].expires)
  }

  /** Every round deleted a batch of the rows it found. */
  predicate Batches(rows: Rows, others: nat -> seq<Op>, log: seq<set<Key>>, now: int) {
    forall i :: 0 <= i < |log| ==> IsBatch(Swept(rows, others, log[..i]), log[i], now)
  }

  /** All rows deleted, one count per deletion. */
  function Deletions(log: seq<set<Key>>): nat {
    if log == [] then 0 else Deletions(log[..|log| - 1]) + |log[|log| - 1]|
  }

  function Union(log: seq<set<Key>>): set<Key> {
    if log == [] then {} else Union(log[..|log| - 1]) + log[|log| - 1]
  }

  lemma OneRound(rows: Rows, others: nat -> seq<Op>, log: seq<set<Key>>, gone: set<Key>, now: int)
    requires Batches(rows, others, log, now) && IsBatch(Swept(rows, others, log), gone, now)
    ensures var more := log + [gone];
            && Swept(rows, others, more) == ApplyAll(Swept(rows, others, log) - gone, others(|log|))
            && Batches(rows, others, more, now)
            && Deletions(more) == Deletions(log) + |gone| && Union(more) == Union(log) + gone
  {
    hide ApplyAll, IsBatch;
    var more := log + [gone];
    assert more[..|log|] == log;
    forall i | 0 <= i < |more|
      ensures IsBatch(Swept(rows, others, more[..i]), more[i], now)
    {
      if i < |log| {
        assert more[..i] == log[..i];
      }
    }
  }

  /** A finite set of rows has one with the latest deadline. */
  lemma {:induction false} LatestExists(rows: Rows, keys: set<Key>)
    requires keys != {} && keys <= rows.Keys
    ensures exists k :: k in keys && forall x :: x in keys ==> rows[x].expires <= rows[k].expires
    decreases |keys|
  {
    var k :| k in keys;
    if keys == {k} {
    } else {
      LatestExists(rows, keys - {k});
      var m :| m in keys - {k} && forall x :: x in keys - {k} ==> rows[x].expires <= rows[m].expires;
      if rows[m].expires <= rows[k].expires {
        assert forall x :: x in keys ==> rows[x].expires <= rows[k].expires;
      } else {
        assert forall x :: x in keys ==> rows[x].expires <= rows[m].expires;
      }
    }
  }

  // ---------------------------------------------------------------- the fiber

  class Space {
    var rows: Rows
    var running: bool

    constructor (rows: Rows)
      ensures this.rows == rows && running
    {
      this.rows, running := rows, true;
    }

    /** The index walk: at most 500 keys, latest deadline first. */
    method Batch(now: int) returns (keys: seq<Key>)
      ensures forall i, j :: 0 <= i < j < |keys| ==> keys[i] != keys[j]
      ensures forall i :: 0 <= i < |keys| ==> keys[i] in Expired(rows, now)
      ensures |keys| == Min(500, |Expired(rows, now)|)
      ensures forall i, k :: 0 <= i < |keys| && k in Expired(rows, now) && k !in keys ==>
                rows[k].expires <= rows[keys[i]].expires
    {
      keys := [];
      var rest := Expired(rows, now);
      while rest != {} && |keys| < BATCH
        invariant rest <= Expired(rows, now)
        invariant forall k :: k in Expired(rows, now) ==> (k in rest <==> k !in keys)
        invariant forall i :: 0 <= i < |keys| ==> keys[i] in Expired(rows, now) && keys[i] !in rest
        invariant forall i, j :: 0 <= i < j < |keys| ==> keys[i] != keys[j]
        invariant forall i, k :: 0 <= i < |keys| && k in rest ==> rows[k].expires <= rows[keys[i]].expires
        invariant |keys| + |rest| == |Expired(rows, now)| && |keys| <= BATCH
        decreases |rest|
      {
        LatestExists(rows, rest);
        var k :| k in rest && forall x :: x in rest ==> rows[x].expires <= rows[k].expires;
        keys := keys + [k];
        rest := rest - {k};
      }
    }

    method DeleteAll(keys: seq<Key>)
      modifies this`rows
      ensures rows == old(rows) - (set k | k in keys)
    {
      for i := 0 to |keys|
        invariant rows == old(rows) - (set k | k in keys[..i])
      {
        rows := rows - {keys[i]};
        assert keys[..i + 1] == keys[..i] + [keys[i]];
      }
      assert keys[..|keys|] == keys;
    }

    /** Hand-over: the operations other fibers run meanwhile. */
    method Yield(ops: seq<Op>)
      modifies this
      ensures rows == ApplyAll(old(rows), ops)
      ensures running <==> old(running) && Stop !in ops
    {
      for i := 0 to |ops|
        invariant rows == ApplyAll(old(rows), ops[..i])
        invariant running <==> old(running) && Stop !in ops[..i]
      {
        assert ops[..i + 1][..i] == ops[..i];
        rows := Apply(rows, ops[i]);
        if ops[i].Stop? {
          running := false;
        }
      }
      assert ops[..|ops|] == ops;
    }

    /** `drain_space`: whatever the other fibers do at the hand-overs, the sweep comes to an end. Every round
        deletes a batch of what it finds, and the count is the number of rows deleted; each of them was an
        expired row of the start, deleted once. Everything else is left as the other fibers' work alone would
        leave it, and no expired row remains unless the sweeper was stopped. */
    method Drain(now: int, others: nat -> seq<Op>) returns (purged: nat, ghost log: seq<set<Key>>)
      requires forall n, i :: 0 <= i < |others(n)| ==> Timely(others(n)[i], now)
      modifies this
      ensures rows == Swept(old(rows), others, log) && Batches(old(rows), others, log, now)
      ensures purged == Deletions(log) == |Union(log)| && Union(log) <= Expired(old(rows), now)
      ensures SweptFrom(rows, Unswept(old(rows), others, |log|), Union(log), now)
      ensures forall k :: k in Union(log) ==> k !in Expired(rows, now)
      ensures running <==> old(running) && forall i :: 0 <= i < |log| ==> Stop !in others(i)
      ensures running ==> Expired(rows, now) == {} && forall k :: k in rows ==> rows[k].expires > now
      ensures forall k :: k in Union(log) ==> k in old(rows) && old(rows)[k].expires <= now
      ensures !old(running) ==> log == []
    {
      hide Rely, SweptFrom, Expired, ApplyAll, Timely, Unswept, Sweeping, Swept, Batches, IsBatch, Deletions, Union;
      purged, log := 0, [];
      var turns := 0;
      SweepStarts(rows, others, now);
      while running
        invariant turns == |log| && purged == Deletions(log) == |Union(log)|
        invariant rows == Swept(old(rows), others, log) && Batches(old(rows), others, log, now)
        invariant Sweeping(old(rows), rows, Unswept(old(rows), others, turns), Union(log), now)
        invariant running <==> old(running) && forall i :: 0 <= i < |log| ==> Stop !in others(i)
        invariant !old(running) ==> log == []
        decreases |Expired(rows, now)|
      {
        var keys := Batch(now);
        if |keys| == 0 {
          NoneExpired(rows, now);
          break;
        }
        ghost var gone := set k | k in keys;
        BatchOf(rows, keys, now);
        Round(old(rows), rows, Unswept(old(rows), others, turns), Union(log), gone, others(turns), now);
        OneRound(old(rows), others, log, gone, now);
        UnsweptNext(old(rows), others, turns);
        DeleteAll(keys);
        purged := purged + |keys|;
        log := log + [gone];
        Yield(others(turns));
        turns := turns + 1;
      }
      SweepEnds(old(rows), rows, Unswept(old(rows), others, turns), Union(log), now);
    }
  }

  lemma NoneExpired(rows: Rows, now: int)
    ensures Min(500, |Expired(rows, now)|) == 0 ==> Expired(rows, now) == {}
    ensures Expired(rows, now) == {} ==> forall k :: k in rows ==> rows[k].expires > now
  {
    if Expired(rows, now) == {} {
      forall k | k in rows
        ensures rows[k].expires > now
      {
        assert k !in Expired(rows, now);
      }
    }
  }

  /** The keys the index walk found make a batch. */
  lemma BatchOf(rows: Rows, keys: seq<Key>, now: int)
    requires keys != [] && (forall i, j :: 0 <= i < j < |keys| ==> keys[i] != keys[j])
    requires (forall i :: 0 <= i < |keys| ==> keys[i] in Expired(rows, now))
             && |keys| == Min(500, |Expired(rows, now)|)
    requires forall i, k :: 0 <= i < |keys| && k in Expired(rows, now) && k !in keys ==>
               rows[k].expires <= rows[keys[i]].expires
    ensures var gone := set k | k in keys; IsBatch(rows, gone, now) && |gone| == |keys|
  {
    KeysCounted(keys);
    var gone := set k | k in keys;
    assert keys[0] in gone;
  }

  lemma UnsweptNext(rows: Rows, others: nat -> seq<Op>, n: nat)
    ensures Unswept(rows, others, n + 1) == ApplyAll(Unswept(rows, others, n), others(n))
  {
  }

  lemma SweepEnds(start: Rows, rows: Rows, unswept: Rows, removed: set<Key>, now: int)
    requires Sweeping(start, rows, unswept, removed, now)
    ensures removed <= Expired(start, now) && SweptFrom(rows, unswept, removed, now)
    ensures forall k :: k in removed ==> k !in Expired(rows, now)
    ensures forall k :: k in removed ==> k in start && start[k].expires <= now
  {
  }

  /** The state of a sweep: expired rows are as they were at the start, the removed ones stay away, and only
      removed rows are missing. */
  predicate Sweeping(start: Rows, rows: Rows, unswept: Rows, removed: set<Key>, now: int) {
    && removed <= Expired(start, now) && Rely(start, rows, now)
    && (forall k :: k in removed ==> k !in Expired(rows, now))
    && SweptFrom(rows, unswept, removed, now)
  }

  lemma SweepStarts(rows: Rows, others: nat -> seq<Op>, now: int)
    ensures Sweeping(rows, rows, Unswept(rows, others, 0), Union([]), now)
    ensures Swept(rows, others, []) == rows && Batches(rows, others, [], now) && Deletions([]) == |Union([])| == 0
  {
  }

  /** One batch and one hand-over keep that state and leave fewer expired rows. */
  lemma Round(start: Rows, rows: Rows, unswept: Rows, removed: set<Key>, gone: set<Key>, ops: seq<Op>, now: int)
    requires Sweeping(start, rows, unswept, removed, now) && IsBatch(rows, gone, now)
    requires forall i :: 0 <= i < |ops| ==> Timely(ops[i], now)
    ensures Sweeping(start, ApplyAll(rows - gone, ops), ApplyAll(unswept, ops), removed + gone, now)
    ensures |removed + gone| == |removed| + |gone|
    ensures |Expired(ApplyAll(rows - gone, ops), now)| < |Expired(rows, now)|
  {
    hide ApplyAll, SweptFrom;
    var mid := rows - gone;
    var after := ApplyAll(mid, ops);
    DeleteSwept(rows, unswept, removed, gone, now);
    AllMeetRely(mid, ops, now);
    AllSwept(mid, unswept, removed + gone, ops, now);
    FewerExpired(rows, mid, after, gone, now);
    assert removed !! gone;
  }

  lemma {:induction false} KeysCounted(keys: seq<Key>)
    requires forall i, j :: 0 <= i < j < |keys| ==> keys[i] != keys[j]
    ensures |set k | k in keys| == |keys|
  {
    if keys != [] {
      var n := |keys| - 1;
      KeysCounted(keys[..n]);
      assert (set k | k in keys) == (set k | k in keys[..n]) + {keys[n]};
    }
  }

  /** Every batch leaves fewer expired rows, whatever happens at the hand-over. */
  lemma FewerExpired(before: Rows, mid: Rows, after: Rows, gone: set<Key>, now: int)
    requires gone != {} && gone <= Expired(before, now) && mid == before - gone && Rely(mid, after, now)
    ensures |Expired(after, now)| < |Expired(before, now)|
    ensures Expired(after, now) <= Expired(before, now) - gone
  {
    Billing.SubsetSize(Expired(after, now), Expired(before, now) - gone);
  }
}
