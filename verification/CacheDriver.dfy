/**
 The OpenSIPS cache driver: request bytes, reply decoding and, through them, the claim that the
 driver in front of an in-order server behaves like a plain map.
 */
module CacheDriver {
  import opened Wrappers
  import opened Msgpack
  import opened Iproto

  // ---------------------------------------------------------------- requests

  datatype Op =
    | Set(key: bytes, value: bytes, now: nat, expires: int)
    | Remove(key: bytes)
    | Get(key: bytes)

  const NODE: bytes := [0x6f, 0x70, 0x65, 0x6e, 0x73, 0x69, 0x70, 0x73]  // "opensips"
  const ACTIVE: bytes := [0x61, 0x63, 0x74, 0x69, 0x76, 0x65]            // "active"

  function Deadline(now: nat, expires: int): nat {
    if expires > 0 then now + expires else now + 3600
  }

  function RequestKind(op: Op): nat {
    match op case Set(_, _, _, _) => REPLACE case Remove(_) => DELETE case Get(_) => SELECT
  }

  /** The seven fields `tarantool_set` writes: call id, node, state, three clock readings and the payload. */
  function Row(key: bytes, value: bytes, now: nat, deadline: nat): seq<Value> {
    [Text(key), Text(NODE), Text(ACTIVE), UInt(now), UInt(now), UInt(deadline), Text(value)]
  }

  /** The request body: numbered entries, the last of which holds a list. */
  function BodyValues(op: Op, space: nat): seq<Value> {
    BodyFront(op, space) + [List(BodyList(op))]
  }

  function BodyFront(op: Op, space: nat): seq<Value> {
    match op
    case Set(_, _, _, _) => [UInt(SPACE_ID), UInt(space), UInt(TUPLE)]
    case Remove(_) => [UInt(SPACE_ID), UInt(space), UInt(INDEX_ID), UInt(0), UInt(KEY)]
    case Get(_) =>
      [UInt(SPACE_ID), UInt(space), UInt(INDEX_ID), UInt(0), UInt(LIMIT), UInt(1), UInt(OFFSET), UInt(0),
       UInt(ITERATOR), UInt(0), UInt(KEY)]
  }

  function BodyList(op: Op): seq<Value> {
    match op
    case Set(key, value, now, expires) => Row(key, value, now, Deadline(now, expires))
    case Remove(key) => [Text(key)]
    case Get(key) => [Text(key)]
  }

  /** What the C types can hold: 31-bit string lengths, a 32-bit space id and 64-bit numbers. */
  predicate InRange(op: Op, sync: nat, space: nat) {
    && sync < TWO64 && space < TWO32 && |op.key| < 0x8000_0000
    && (op.Set? ==> |op.value| < 0x8000_0000 && op.now < TWO64 && Deadline(op.now, op.expires) < TWO64)
  }

  /** `set` builds its packet in 256 bytes; `get` and `remove` in 1024. */
  predicate Fits(op: Op, sync: nat, space: nat) {
    InRange(op, sync, space) && |Packet(op, sync, space)| <= if op.Set? then 256 else 1024
  }

  lemma FitsSendable(op: Op, sync: nat, space: nat)
    requires Fits(op, sync, space)
    ensures Sendable(RequestKind(op), sync, Dict(BodyValues(op, space)))
  {
    hide Bytes, Enc, BodyFront, BodyList;
    FrontEncodable(op, space);
    ListEncodable(op);
    var vs := BodyValues(op, space);
    assert Encodable(List(BodyList(op)));
    assert AllEncodable(vs);
    HeaderEncodable(RequestKind(op), sync);
    assert Packet(op, sync, space) == Frame(Bytes(Enc(Header(RequestKind(op), sync))) + Bytes(Enc(Dict(vs))));
  }

  lemma HeaderEncodable(kind: nat, sync: nat)
    requires kind < TWO64 && sync < TWO64
    ensures Encodable(Header(kind, sync))
  {
    var vs := Header(kind, sync).vs;
    assert AllEncodable(vs);
  }

  lemma FrontEncodable(op: Op, space: nat)
    requires space < TWO32
    ensures AllEncodable(BodyFront(op, space)) && |BodyFront(op, space)| % 2 == 1 && |BodyFront(op, space)| < 12
  {
  }

  lemma ListEncodable(op: Op)
    requires InRange(op, 0, 0)
    ensures AllEncodable(BodyList(op)) && |BodyList(op)| < 8
  {
  }

  function Packet(op: Op, sync: nat, space: nat): bytes {
    Request(RequestKind(op), sync, Dict(BodyValues(op, space)))
  }

  // ---------------------------------------------------------------- reply decoding

  /** The loop of `check_iproto_status`. */
  function StatusLoop(s: bytes, n: nat, want: nat): Option<int>
    decreases n
  {
    if n == 0 || s == [] then Some(0)
    else
      var (k, s1) :- DecodeUint(s);
      if k == REQUEST_TYPE then
        var (code, s2) :- DecodeUint(s1);
        if code != OK then Some(-1) else StatusLoop(s2, n - 1, want)
      else if k == SYNC then
        var (sync, s2) :- DecodeUint(s1);
        if sync != want then Some(-2) else StatusLoop(s2, n - 1, want)
      else
        var s2 :- Next(s1);
        StatusLoop(s2, n - 1, want)
  }

  function CheckStatus(body: bytes, want: nat): Option<int> {
    if body == [] then Some(-1)
    else
      var (n, s) :- DecodeHead(MapK, body);
      StatusLoop(s, n, want)
  }

  /** The loop of `tarantool_get` that steps over the header it has already checked. */
  function SkipPairs(s: bytes, n: nat): Option<bytes>
    decreases n
  {
    if n == 0 then Some(s)
    else
      var (_, s1) :- DecodeUint(s);
      var s2 :- Next(s1);
      SkipPairs(s2, n - 1)
  }

  /** The seven-field row: call id, node id and state, three clock readings, payload. */
  function GetPayload(s: bytes): Option<(bytes, bytes)> {
    var (_, s1) :- DecodeStr(s);
    var (_, s2) :- DecodeStr(s1);
    var (_, s3) :- DecodeStr(s2);
    var (_, s4) :- DecodeUint(s3);
    var (_, s5) :- DecodeUint(s4);
    var (_, s6) :- DecodeUint(s5);
    DecodeStr(s6)
  }

  /** The value under the data key: the payload field of the first row, when there is one. */
  function GetData(s: bytes, found: Option<bytes>): Option<(Option<bytes>, bytes)> {
    var (rows, s1) :- DecodeHead(ArrK, s);
    if rows == 0 then Some((found, s1))
    else
      var (width, s2) :- DecodeHead(ArrK, s1);
      if width >= 7 then
        var (v, s3) :- GetPayload(s2);
        Some((Some(v), s3))
      else if width >= 2 then
        var (_, s3) :- DecodeStr(s2);
        var (v, s4) :- DecodeStr(s3);
        Some((Some(v), s4))
      else Some((found, s2))
  }

  function GetLoop(s: bytes, n: nat, found: Option<bytes>): Option<Option<bytes>>
    decreases n
  {
    if n == 0 then Some(found)
    else
      var (k, s1) :- DecodeUint(s);
      if k == DATA then
        var (found', s2) :- GetData(s1, found);
        GetLoop(s2, n - 1, found')
      else
        var s2 :- Next(s1);
        GetLoop(s2, n - 1, found)
  }

  function DecodeGet(body: bytes): Option<Option<bytes>> {
    var (h, s1) :- DecodeHead(MapK, body);
    var s2 :- SkipPairs(s1, h);
    var (b, s3) :- DecodeHead(MapK, s2);
    GetLoop(s3, b, None)
  }

  /** What a call returns: 0, 0 with a value, -2 for a missing key, -1 with or without a dropped connection. */
  datatype Outcome = Done | Found(value: bytes) | Missing | Refused | Dropped

  /** The part of each call after its reply frame has been read. */
  function Finish(op: Op, body: bytes, sync: nat): Option<Outcome> {
    var rc :- CheckStatus(body, sync);
    if rc == -2 then Some(Dropped)
    else if rc < 0 then Some(Refused)
    else if op.Get? then
      var found :- DecodeGet(body);
      Some(if found.Some? then Found(found.value) else Missing)
    else Some(Done)
  }

  // ---------------------------------------------------------------- replies an honest server may send

  /** A reply body: a header map, then a body map with its data entry somewhere inside. Widths, extra
      entries and their order are free. */
  datatype Reply = Reply(hw: nat, header: seq<Pair>, bw: nat, before: seq<Pair>, data: Pair, after: seq<Pair>)

  function ReplyEntries(r: Reply): seq<Pair> {
    r.before + [r.data] + r.after
  }

  predicate WellFormed(r: Reply) {
    && HeaderPairs(r.header) && HeadOk(MapK, r.hw, |r.header|)
    && GoodPairs(ReplyEntries(r)) && HeadOk(MapK, r.bw, |ReplyEntries(r)|)
    && Meaning(r.data.k) == UInt(DATA)
    && (forall i :: 0 <= i < |r.before| ==> Meaning(r.before[i].k) != UInt(DATA))
    && (forall i :: 0 <= i < |r.after| ==> Meaning(r.after[i].k) != UInt(DATA))
  }

  function ReplyBytes(r: Reply): bytes {
    Head(MapK, r.hw, |r.header|) + PairBytes(r.header) +
    (Head(MapK, r.bw, |ReplyEntries(r)|) + PairBytes(ReplyEntries(r)))
  }

  /** The reply answers request `sync` with these rows, each field in any encoding of its value. */
  predicate Honest(r: Reply, sync: nat, rows: seq<seq<Value>>) {
    && WellFormed(r) && Accepts(r.header, sync)
    && Meaning(r.data.v) == List(RowValues(rows))
    && |ReplyBytes(r)| <= FRAME_LIMIT
  }

  function RowValues(rows: seq<seq<Value>>): (vs: seq<Value>)
    ensures |vs| == |rows|
  {
    seq(|rows|, i requires 0 <= i < |rows| => List(rows[i]))
  }

  // ---------------------------------------------------------------- decoding honest replies

  /** A reply header passes the status check exactly when every status is OK and every sync id is the
      one asked for; -2 means some sync id differs and -1 means some status is an error. */
  lemma {:induction false} StatusLoopExact(ps: seq<Pair>, rest: bytes, want: nat)
    requires HeaderPairs(ps)
    ensures StatusLoop(PairBytes(ps) + rest, |ps|, want).Some?
    ensures var rc := StatusLoop(PairBytes(ps) + rest, |ps|, want).value;
            && (rc == 0 || rc == -1 || rc == -2)
            && (rc == 0 <==> Accepts(ps, want))
            && (rc == -2 ==>
                 exists i :: 0 <= i < |ps| && Meaning(ps[i].k) == UInt(SYNC) && Meaning(ps[i].v) != UInt(want))
            && (rc == -1 ==>
                 exists i :: 0 <= i < |ps| && Meaning(ps[i].k) == UInt(REQUEST_TYPE) && Meaning(ps[i].v) != UInt(OK))
  {
    hide DecodeUint, Next, Bytes, Valid, Wide, Meaning, PairBytes;
    if ps != [] {
      PairStep(ps, rest);
      var tail := PairBytes(ps[1..]) + rest;
      DecodeUintExact(ps[0].k, Bytes(ps[0].v) + tail);
      if Meaning(ps[0].v).UInt? {
        DecodeUintExact(ps[0].v, tail);
      }
      NextExact(ps[0].v, tail);
      StatusLoopExact(ps[1..], rest, want);
      var rest0 := ps[1..];
      assert forall i :: 0 < i < |ps| ==> ps[i] == rest0[i - 1];
      assert forall i :: 0 <= i < |rest0| ==> rest0[i] == ps[i + 1];
    }
  }

  lemma {:induction false} SkipPairsExact(ps: seq<Pair>, rest: bytes)
    requires GoodPairs(ps)
    ensures SkipPairs(PairBytes(ps) + rest, |ps|) == Some(rest)
  {
    hide DecodeUint, Next, Bytes, Valid, Wide, Meaning;
    if ps == [] {
      assert PairBytes(ps) + rest == rest;
    } else {
      hide PairBytes;
      PairStep(ps, rest);
      var tail := PairBytes(ps[1..]) + rest;
      DecodeUintExact(ps[0].k, Bytes(ps[0].v) + tail);
      NextExact(ps[0].v, tail);
      SkipPairsExact(ps[1..], rest);
    }
  }

  /** Entries under other keys are stepped over. */
  lemma {:induction false} GetLoopSkips(ps: seq<Pair>, n: nat, rest: bytes, found: Option<bytes>)
    requires GoodPairs(ps) && |ps| <= n
    requires forall i :: 0 <= i < |ps| ==> Meaning(ps[i].k) != UInt(DATA)
    ensures GetLoop(PairBytes(ps) + rest, n, found) == GetLoop(rest, n - |ps|, found)
  {
    hide DecodeUint, Next, Bytes, Valid, Wide, Meaning;
    if ps == [] {
      assert PairBytes(ps) + rest == rest;
    } else {
      hide PairBytes, GetData;
      PairStep(ps, rest);
      var tail := PairBytes(ps[1..]) + rest;
      DecodeUintExact(ps[0].k, Bytes(ps[0].v) + tail);
      NextExact(ps[0].v, tail);
      GetLoopSkips(ps[1..], n - 1, rest, found);
    }
  }

  /** A row as the driver reads it. */
  predicate CacheRow(row: seq<Value>) {
    && |row| == 7
    && row[0].Text? && row[1].Text? && row[2].Text?
    && row[3].UInt? && row[4].UInt? && row[5].UInt?
    && row[6].Text?
  }

  /** At most one row, readable by the driver. */
  predicate Readable(rows: seq<seq<Value>>) {
    |rows| <= 1 && (|rows| == 1 ==> CacheRow(rows[0]))
  }

  /** The answer the rows stand for. */
  function Answer(rows: seq<seq<Value>>, otherwise: Option<bytes>): Option<bytes>
    requires Readable(rows)
  {
    if rows == [] then otherwise else Some(rows[0][6].s)
  }

  lemma FieldStep(fs: seq<Wire>, i: nat, rest: bytes)
    requires i < |fs|
    ensures BytesAll(fs[i..]) + rest == Bytes(fs[i]) + (BytesAll(fs[i + 1..]) + rest)
  {
    hide Bytes, Valid;
    var here := fs[i..];
    assert here[0] == fs[i] && here[1..] == fs[i + 1..];
    assert BytesAll(here) == Bytes(here[0]) + BytesAll(here[1..]);
  }

  lemma TextStep(fs: seq<Wire>, i: nat, rest: bytes)
    requires AllValid(fs) && i < |fs| && Meaning(fs[i]).Text?
    ensures DecodeStr(BytesAll(fs[i..]) + rest) == Some((Meaning(fs[i]).s, BytesAll(fs[i + 1..]) + rest))
  {
    hide DecodeStr, Bytes, BytesAll;
    FieldStep(fs, i, rest);
    DecodeStrExact(fs[i], BytesAll(fs[i + 1..]) + rest);
  }

  lemma UintStep(fs: seq<Wire>, i: nat, rest: bytes)
    requires AllValid(fs) && i < |fs| && Meaning(fs[i]).UInt?
    ensures DecodeUint(BytesAll(fs[i..]) + rest) == Some((Meaning(fs[i]).n, BytesAll(fs[i + 1..]) + rest))
  {
    hide DecodeUint, Bytes, BytesAll;
    FieldStep(fs, i, rest);
    DecodeUintExact(fs[i], BytesAll(fs[i + 1..]) + rest);
  }

  /** The data array of a reply yields the payload of its single row, or leaves the answer alone when empty. */
  lemma GetDataExact(d: Wire, rows: seq<seq<Value>>, rest: bytes, found: Option<bytes>)
    requires Valid(d) && Meaning(d) == List(RowValues(rows)) && Readable(rows)
    ensures GetData(Bytes(d) + rest, found) == Some((Answer(rows, found), rest))
  {
    hide DecodeHead, DecodeStr, DecodeUint, Bytes, GetPayload, BytesAll;
    DecodeArrExact(d, rest);
    assert |d.items| == |rows|;
    if rows == [] {
      NoItems(rest);
    } else {
      var r := d.items[0];
      assert Meaning(r) == RowValues(rows)[0];
      OneItem(d.items, rest);
      DecodeArrExact(r, rest);
      RowFields(r.items, rows[0], rest);
    }
  }

  lemma NoItems(rest: bytes)
    ensures BytesAll([]) + rest == rest
  {
  }

  lemma OneItem(ws: seq<Wire>, rest: bytes)
    requires |ws| == 1
    ensures BytesAll(ws) + rest == Bytes(ws[0]) + rest
  {
    hide Bytes;
    assert ws[1..] == [];
    assert BytesAll(ws) == Bytes(ws[0]) + [];
  }

  /** The seventh field, with the fields behind it left unread. */
  lemma PayloadOf(fs: seq<Wire>, row: seq<Value>, rest: bytes)
    requires AllValid(fs) && Meanings(fs) == row && |row| >= 7 && CacheRow(row[..7])
    ensures GetPayload(BytesAll(fs) + rest) == Some((row[6].s, BytesAll(fs[7..]) + rest))
  {
    hide DecodeStr, DecodeUint, Bytes, Valid, Meaning, BytesAll;
    assert fs[0..] == fs;
    assert forall i :: 0 <= i < 7 ==> Meaning(fs[i]) == row[i] && row[i] == row[..7][i];
    hide Meanings, AllValid;
    TextStep(fs, 0, rest); TextStep(fs, 1, rest); TextStep(fs, 2, rest);
    UintStep(fs, 3, rest); UintStep(fs, 4, rest); UintStep(fs, 5, rest);
    TextStep(fs, 6, rest);
  }

  lemma RowFields(fs: seq<Wire>, row: seq<Value>, rest: bytes)
    requires AllValid(fs) && Meanings(fs) == row && CacheRow(row)
    ensures GetPayload(BytesAll(fs) + rest) == Some((row[6].s, rest))
  {
    hide DecodeStr, DecodeUint, Bytes, Valid, Meaning, BytesAll, GetPayload;
    assert row[..7] == row && fs[7..] == [];
    PayloadOf(fs, row, rest);
    NoItems(rest);
  }

  /** Decoding an honest reply gives the payload of its row, or nothing when there is no row,
      whatever widths, extra entries and entry order it uses. */
  lemma DecodeGetExact(r: Reply, rows: seq<seq<Value>>)
    requires WellFormed(r) && Meaning(r.data.v) == List(RowValues(rows))
    requires Readable(rows)
    ensures DecodeGet(ReplyBytes(r)) == Some(Answer(rows, None))
  {
    hide DecodeHead, DecodeUint, GetData, Head, PairBytes, Meaning, Valid, Wide, Bytes;
    var body := Head(MapK, r.bw, |ReplyEntries(r)|) + PairBytes(ReplyEntries(r));
    assert ReplyBytes(r) == Head(MapK, r.hw, |r.header|) + (PairBytes(r.header) + body);
    HeadRoundTrip(MapK, r.hw, |r.header|, PairBytes(r.header) + body);
    SkipPairsExact(r.header, body);
    HeadRoundTrip(MapK, r.bw, |ReplyEntries(r)|, PairBytes(ReplyEntries(r)));
    BodyLoopExact(r, rows);
  }

  /** What becomes of a row of any width when its entry is the last of the reply: the seventh field of seven or
      more, the second of two to six, and nothing for a row of one field or none. */
  lemma DecodeGetAnyWidth(r: Reply, row: seq<Value>)
    requires WellFormed(r) && Meaning(r.data.v) == List([List(row)]) && r.after == []
    requires if |row| >= 7 then CacheRow(row[..7]) else |row| >= 2 ==> row[0].Text? && row[1].Text?
    ensures DecodeGet(ReplyBytes(r)) == Some(
              if |row| >= 7 then Some(row[6].s) else if |row| >= 2 then Some(row[1].s) else None)
  {
    hide DecodeHead, DecodeUint, DecodeStr, GetData, Head, PairBytes, Meaning, Valid, Wide, Bytes, CacheRow;
    var es := ReplyEntries(r);
    var body := Head(MapK, r.bw, |es|) + PairBytes(es);
    assert ReplyBytes(r) == Head(MapK, r.hw, |r.header|) + (PairBytes(r.header) + body);
    HeadRoundTrip(MapK, r.hw, |r.header|, PairBytes(r.header) + body);
    SkipPairsExact(r.header, body);
    HeadRoundTrip(MapK, r.bw, |es|, PairBytes(es));
    AnyWidthLoop(r, row);
  }

  lemma AnyWidthLoop(r: Reply, row: seq<Value>)
    requires WellFormed(r) && Meaning(r.data.v) == List([List(row)]) && r.after == []
    requires if |row| >= 7 then CacheRow(row[..7]) else |row| >= 2 ==> row[0].Text? && row[1].Text?
    ensures GetLoop(PairBytes(ReplyEntries(r)), |ReplyEntries(r)|, None) == Some(
              if |row| >= 7 then Some(row[6].s) else if |row| >= 2 then Some(row[1].s) else None)
  {
    hide DecodeHead, DecodeUint, DecodeStr, GetData, GetLoop, Head, PairBytes, Meaning, Valid, Wide, Bytes, CacheRow;
    var es := ReplyEntries(r);
    assert es == r.before + [r.data];
    assert forall i :: 0 <= i < |r.before| ==> r.before[i] == es[i];
    assert r.data == es[|r.before|];
    PairBytesAppend(r.before, [r.data]);
    GetLoopSkips(r.before, |es|, PairBytes([r.data]), None);
    OneEntry(r.data);
    LastEntry(r.data, row);
  }

  lemma OneEntry(p: Pair)
    ensures PairBytes([p]) == Bytes(p.k) + (Bytes(p.v) + [])
  {
    hide Bytes;
    PairStep([p], []);
    assert PairBytes([p][1..]) == [];
  }

  lemma LastEntry(p: Pair, row: seq<Value>)
    requires GoodPair(p) && Meaning(p.k) == UInt(DATA) && Meaning(p.v) == List([List(row)])
    requires if |row| >= 7 then CacheRow(row[..7]) else |row| >= 2 ==> row[0].Text? && row[1].Text?
    ensures GetLoop(Bytes(p.k) + (Bytes(p.v) + []), 1, None) == Some(
              if |row| >= 7 then Some(row[6].s) else if |row| >= 2 then Some(row[1].s) else None)
  {
    hide DecodeUint, GetData, Meaning, Valid, Wide, Bytes, CacheRow;
    DecodeUintExact(p.k, Bytes(p.v) + []);
    GetDataAny(p.v, row, []);
  }

  lemma GetDataAny(d: Wire, row: seq<Value>, rest: bytes)
    requires Valid(d) && Meaning(d) == List([List(row)])
    requires if |row| >= 7 then CacheRow(row[..7]) else |row| >= 2 ==> row[0].Text? && row[1].Text?
    ensures GetData(Bytes(d) + rest, None).Some?
    ensures GetData(Bytes(d) + rest, None).value.0
            == if |row| >= 7 then Some(row[6].s) else if |row| >= 2 then Some(row[1].s) else None
  {
    hide DecodeHead, DecodeStr, DecodeUint, Bytes, GetPayload, BytesAll, CacheRow;
    DecodeArrExact(d, rest);
    var r := d.items[0];
    assert Meaning(r) == Meanings(d.items)[0];
    OneItem(d.items, rest);
    DecodeArrExact(r, rest);
    var fs := r.items;
    hide Meaning, Valid;
    if |row| >= 7 {
      PayloadOf(fs, row, rest);
    } else if |row| >= 2 {
      assert fs[0..] == fs && Meaning(fs[0]) == row[0] && Meaning(fs[1]) == row[1];
      TextStep(fs, 0, rest);
      TextStep(fs, 1, rest);
    }
  }

  lemma BodyLoopExact(r: Reply, rows: seq<seq<Value>>)
    requires WellFormed(r) && Meaning(r.data.v) == List(RowValues(rows))
    requires Readable(rows)
    ensures GetLoop(PairBytes(ReplyEntries(r)), |ReplyEntries(r)|, None)
         == Some(Answer(rows, None))
  {
    hide DecodeHead, DecodeUint, GetData, Head, PairBytes, Meaning, Valid, Wide, Bytes, GetLoop;
    var tail := [r.data] + r.after;
    var n := |ReplyEntries(r)|;
    var found := Answer(rows, None);
    assert ReplyEntries(r) == r.before + tail;
    assert forall i :: 0 <= i < |r.before| ==> r.before[i] == ReplyEntries(r)[i];
    assert forall i :: 0 <= i < |tail| ==> tail[i] == ReplyEntries(r)[|r.before| + i];
    PairBytesAppend(r.before, tail);
    GetLoopSkips(r.before, n, PairBytes(tail), None);
    assert tail[1..] == r.after;
    PairStep(tail, []);
    assert PairBytes(tail) + [] == PairBytes(tail);
    assert PairBytes(r.after) + [] == PairBytes(r.after);
    DataStep(r.data, rows, PairBytes(r.after), 1 + |r.after|);
    GetLoopSkips(r.after, |r.after|, [], found);
    GetLoopEnd(found);
  }

  lemma GetLoopEnd(found: Option<bytes>)
    ensures GetLoop([], 0, found) == Some(found)
  {
  }

  lemma DataStep(p: Pair, rows: seq<seq<Value>>, rest: bytes, n: nat)
    requires GoodPair(p) && Meaning(p.k) == UInt(DATA) && Meaning(p.v) == List(RowValues(rows))
    requires Readable(rows)
    requires n > 0
    ensures GetLoop(Bytes(p.k) + (Bytes(p.v) + rest), n, None)
         == GetLoop(rest, n - 1, Answer(rows, None))
  {
    hide DecodeUint, GetData, Meaning, Valid, Wide, Bytes;
    DecodeUintExact(p.k, Bytes(p.v) + rest);
    GetDataExact(p.v, rows, rest, None);
  }

  lemma PairBytesAppend(a: seq<Pair>, b: seq<Pair>)
    ensures PairBytes(a + b) == PairBytes(a) + PairBytes(b)
  {
    hide Bytes, BytesAll;
    FlatAppend(a, b);
    BytesAllAppend(Flat(a), Flat(b));
  }

  lemma {:induction false} FlatAppend(a: seq<Pair>, b: seq<Pair>)
    ensures Flat(a + b) == Flat(a) + Flat(b)
  {
    if a == [] {
      assert a + b == b;
    } else {
      assert (a + b)[1..] == a[1..] + b;
      FlatAppend(a[1..], b);
    }
  }

  // ---------------------------------------------------------------- the server

  /** The spaces of the database: rows under their primary key. */
  type Space = map<bytes, seq<Value>>
  type Db = map<nat, Space>

  /** What the server does with a request it has read: the new database and the rows it returns. */
  function Apply(db: Db, m: Message): Option<(Db, seq<seq<Value>>)> {
    var id :- UintUnder(m.body, SPACE_ID);
    if id !in db then None
    else if m.kind == REPLACE then
      var row :- ListUnder(m.body, TUPLE);
      if row == [] || !row[0].Text? then None
      else Some((db[id := db[id][row[0].s := row]], [row]))
    else if m.kind == DELETE then
      var key :- PrimaryKey(m.body);
      Some((db[id := db[id] - {key}], Stored(db[id], key)))
    else if m.kind == SELECT then
      var key :- PrimaryKey(m.body);
      var limit :- UintUnder(m.body, LIMIT);
      var offset :- UintUnder(m.body, OFFSET);
      var order :- UintUnder(m.body, ITERATOR);
      if order != 0 then None
      else Some((db, if offset == 0 && limit > 0 then Stored(db[id], key) else []))
    else None
  }

  /** The single string key of a lookup in the primary index. */
  function PrimaryKey(body: seq<Value>): Option<bytes> {
    var index :- UintUnder(body, INDEX_ID);
    var key :- ListUnder(body, KEY);
    if index == 0 && |key| == 1 && key[0].Text? then Some(key[0].s) else None
  }

  function Stored(sp: Space, key: bytes): seq<seq<Value>> {
    if key in sp then [sp[key]] else []
  }

  /** The server's whole step on a packet: its sync id, the new database and the rows to return. */
  function Serve(db: Db, packet: bytes): Option<(nat, Db, seq<seq<Value>>)> {
    var m :- ReadMessage(packet);
    var (db', rows) :- Apply(db, m);
    Some((m.sync, db', rows))
  }

  /** What the caller meant: the effect on the space and the rows it concerns. */
  function Meant(db: Db, op: Op, space: nat): (Db, seq<seq<Value>>)
    requires space in db
  {
    match op
    case Set(k, v, now, e) => (var row := Row(k, v, now, Deadline(now, e)); (db[space := db[space][k := row]], [row]))
    case Remove(k) => (db[space := db[space] - {k}], Stored(db[space], k))
    case Get(k) => (db, Stored(db[space], k))
  }

  lemma ApplySet(db: Db, op: Op, sync: nat, space: nat)
    requires op.Set? && space in db
    ensures Apply(db, Message(REPLACE, sync, BodyValues(op, space))) == Some(Meant(db, op, space))
  {
    hide Under;
    var vs := BodyValues(op, space);
    UnderAt(vs, SPACE_ID, 0);
    UnderAt(vs, TUPLE, 1);
  }

  lemma ApplyRemove(db: Db, op: Op, sync: nat, space: nat)
    requires op.Remove? && space in db
    ensures Apply(db, Message(DELETE, sync, BodyValues(op, space))) == Some(Meant(db, op, space))
  {
    hide Under;
    var vs := BodyValues(op, space);
    UnderAt(vs, SPACE_ID, 0);
    UnderAt(vs, INDEX_ID, 1);
    UnderAt(vs, KEY, 2);
  }

  lemma ApplyGet(db: Db, op: Op, sync: nat, space: nat)
    requires op.Get? && space in db
    ensures Apply(db, Message(SELECT, sync, BodyValues(op, space))) == Some(Meant(db, op, space))
  {
    hide Under;
    var vs := BodyValues(op, space);
    UnderAt(vs, SPACE_ID, 0);
    UnderAt(vs, INDEX_ID, 1);
    UnderAt(vs, LIMIT, 2);
    UnderAt(vs, OFFSET, 3);
    UnderAt(vs, ITERATOR, 4);
    UnderAt(vs, KEY, 5);
  }

  /** The server reads back from the driver's bytes exactly the operation that was asked for. */
  lemma ServeExact(db: Db, op: Op, sync: nat, space: nat)
    requires Fits(op, sync, space) && space in db
    ensures Serve(db, Packet(op, sync, space)) == Some((sync, Meant(db, op, space).0, Meant(db, op, space).1))
  {
    hide ReadMessage, Apply, Meant, BodyValues, Bytes, Enc, Fits, Sendable;
    FitsSendable(op, sync, space);
    ReadMessageExact(RequestKind(op), sync, BodyValues(op, space));
    match op
    case Set(_, _, _, _) => ApplySet(db, op, sync, space);
    case Remove(_) => ApplyRemove(db, op, sync, space);
    case Get(_) => ApplyGet(db, op, sync, space);
  }

  // ---------------------------------------------------------------- driver plus server is a map

  /** The space holds one readable row for each key of the map, carrying its value. */
  predicate Abstracts(sp: Space, m: map<bytes, bytes>) {
    && sp.Keys == m.Keys
    && forall k :: k in sp ==> CacheRow(sp[k]) && sp[k][6] == Text(m[k])
  }

  function MapStep(m: map<bytes, bytes>, op: Op): (map<bytes, bytes>, Outcome) {
    match op
    case Set(k, v, _, _) => (m[k := v], Done)
    case Remove(k) => (m - {k}, Done)
    case Get(k) => (m, if k in m then Found(m[k]) else Missing)
  }

  /** One call: the pooled connection it goes through, how many ids that connection used for other requests since its
      last call (space lookups after a reconnect), what was asked, the reply the server chose, and what the driver
      returned. */
  datatype Event = Event(conn: nat, skipped: nat, op: Op, reply: Reply, outcome: Outcome)

  /** The counter of every connection in the pool, and the server's database. */
  datatype State = State(counters: seq<nat>, db: Db)

  /** `++conn->sync_counter` in 64 bits. */
  function NextSync(counter: nat): (n: nat)
    ensures n < TWO64
  {
    (counter + 1) % TWO64
  }

  /** The id a call through a connection carries. */
  function SyncOf(st: State, conn: nat, skipped: nat): (n: nat)
    requires conn < |st.counters|
    ensures n < TWO64
  {
    NextSync(st.counters[conn] + skipped)
  }

  /** The state after one call, when the packet goes to the server, the server answers with the
      event's reply, and the driver decodes it to the event's outcome. */
  function Step(st: State, space: nat, e: Event): Option<State> {
    if e.conn >= |st.counters| then None
    else
      var sync := SyncOf(st, e.conn, e.skipped);
      if !Fits(e.op, sync, space) then None
      else
        var (got, db', rows) :- Serve(st.db, Packet(e.op, sync, space));
        if got != sync || !Honest(e.reply, sync, rows) then None
        else
          var (body, _) :- ReadFrame(Frame(ReplyBytes(e.reply)), FRAME_LIMIT);
          var outcome :- Finish(e.op, body, sync);
          if outcome != e.outcome then None else Some(State(st.counters[e.conn := sync], db'))
  }

  predicate Run(st: State, space: nat, events: seq<Event>)
    decreases |events|
  {
    events == [] || (Step(st, space, events[0]).Some? && Run(Step(st, space, events[0]).value, space, events[1..]))
  }

  /** What the driver makes of an honest reply, whatever its encoding. */
  lemma FinishExact(op: Op, r: Reply, sync: nat, rows: seq<seq<Value>>)
    requires Honest(r, sync, rows) && Readable(rows)
    ensures ReadFrame(Frame(ReplyBytes(r)), FRAME_LIMIT) == Some((ReplyBytes(r), []))
    ensures Finish(op, ReplyBytes(r), sync) == Some(
              if !op.Get? then Done else if rows == [] then Missing else Found(rows[0][6].s))
  {
    hide ReadFrame, DecodeGet, StatusLoop, DecodeHead, PairBytes, Head;
    ReadFrameExact(ReplyBytes(r), [], FRAME_LIMIT);
    assert Frame(ReplyBytes(r)) + [] == Frame(ReplyBytes(r));
    DecodeGetExact(r, rows);
    StatusExact(r, sync);
  }

  lemma StatusExact(r: Reply, want: nat)
    requires WellFormed(r)
    ensures CheckStatus(ReplyBytes(r), want).Some? && CheckStatus(ReplyBytes(r), want).value in {0, -1, -2}
    ensures CheckStatus(ReplyBytes(r), want).value == 0 <==> Accepts(r.header, want)
  {
    hide StatusLoop, DecodeHead, PairBytes, Head, Valid, Wide, Meaning;
    var body := Head(MapK, r.bw, |ReplyEntries(r)|) + PairBytes(ReplyEntries(r));
    assert ReplyBytes(r) == Head(MapK, r.hw, |r.header|) + (PairBytes(r.header) + body);
    HeadRoundTrip(MapK, r.hw, |r.header|, PairBytes(r.header) + body);
    StatusLoopExact(r.header, body, want);
  }

  /** A reply that names another request is never taken for an answer: the call returns -1. */
  lemma StaleReplyRefused(op: Op, r: Reply, want: nat)
    requires WellFormed(r)
    requires exists i ::
               0 <= i < |r.header| && Meaning(r.header[i].k) == UInt(SYNC) && Meaning(r.header[i].v) != UInt(want)
    ensures Finish(op, ReplyBytes(r), want) == Some(Dropped) || Finish(op, ReplyBytes(r), want) == Some(Refused)
  {
    hide CheckStatus, DecodeGet, PairBytes, Head, Valid, Wide, Meaning;
    StatusExact(r, want);
  }

  /** One call keeps the abstraction and answers as the map does. */
  lemma StepRefines(st: State, space: nat, e: Event, m: map<bytes, bytes>)
    requires space in st.db && Abstracts(st.db[space], m) && Step(st, space, e).Some?
    ensures var st' := Step(st, space, e).value; var (m', out) := MapStep(m, e.op);
            space in st'.db && Abstracts(st'.db[space], m') && e.outcome == out
  {
    hide Serve, Finish, Honest, Fits, Packet, ReadFrame, ReplyBytes;
    var sync := SyncOf(st, e.conn, e.skipped);
    ServeExact(st.db, e.op, sync, space);
    var (_, db', rows) := Serve(st.db, Packet(e.op, sync, space)).value;
    FinishExact(e.op, e.reply, sync, rows);
  }

  /** The row a set is to leave behind: it expires `expires` seconds from now, or in an hour when none is given. */
  predicate Written(row: seq<Value>, op: Op)
    requires op.Set?
  {
    row == [Text(op.key), Text(Ascii("opensips")), Text(Ascii("active")), UInt(op.now), UInt(op.now),
            UInt(if op.expires > 0 then op.now + op.expires else op.now + 3600), Text(op.value)]
  }

  lemma Names()
    ensures NODE == Ascii("opensips") && ACTIVE == Ascii("active")
  {
  }

  /** What one call does to the rows: a set leaves its row under its key, a remove leaves none, and every other
      row, and every other space, stays. */
  lemma StepRows(st: State, space: nat, e: Event)
    requires space in st.db && Step(st, space, e).Some?
    ensures var db' := Step(st, space, e).value.db; var k := e.op.key;
            && db'.Keys == st.db.Keys
            && (e.op.Set? ==> k in db'[space] && Written(db'[space][k], e.op))
            && (e.op.Remove? ==> k !in db'[space])
            && (e.op.Get? ==> db' == st.db)
            && (forall other :: other != k ==>
                  && (other in db'[space] <==> other in st.db[space])
                  && (other in st.db[space] ==> db'[space][other] == st.db[space][other]))
            && (forall id :: id in st.db && id != space ==> db'[id] == st.db[id])
  {
    hide Serve, Finish, Honest, Fits, Packet, ReadFrame, ReplyBytes, Ascii;
    Names();
    ServeExact(st.db, e.op, SyncOf(st, e.conn, e.skipped), space);
  }

  /** The state after a run. */
  function Final(st: State, space: nat, events: seq<Event>): State
    requires Run(st, space, events)
    decreases |events|
  {
    if events == [] then st else Final(Step(st, space, events[0]).value, space, events[1..])
  }

  /** After any run the row under a key is the one its last set wrote, to the second it expires. */
  lemma {:induction false} LastSetStays(st: State, space: nat, events: seq<Event>, i: nat)
    requires space in st.db && Run(st, space, events) && i < |events| && events[i].op.Set?
    requires forall j :: i < j < |events| && events[j].op.key == events[i].op.key ==> events[j].op.Get?
    ensures var db := Final(st, space, events).db;
            && space in db && events[i].op.key in db[space]
            && Written(db[space][events[i].op.key], events[i].op)
    decreases |events|
  {
    hide Step, Written;
    var next := Step(st, space, events[0]).value;
    StepRows(st, space, events[0]);
    if i == 0 {
      RowStays(next, space, events[1..], events[0].op.key);
    } else {
      assert forall j :: 0 <= j < |events| - 1 ==> events[1..][j] == events[j + 1];
      LastSetStays(next, space, events[1..], i - 1);
    }
  }

  lemma {:induction false} RowStays(st: State, space: nat, events: seq<Event>, k: bytes)
    requires space in st.db && Run(st, space, events) && k in st.db[space]
    requires forall j :: 0 <= j < |events| && events[j].op.key == k ==> events[j].op.Get?
    ensures var db := Final(st, space, events).db; space in db && k in db[space] && db[space][k] == st.db[space][k]
    decreases |events|
  {
    hide Step, Written;
    if events != [] {
      StepRows(st, space, events[0]);
      RowStays(Step(st, space, events[0]).value, space, events[1..], k);
    }
  }

  /** No call can get stuck: the server understands every request that fits, and every honest reply to it is decoded. */
  lemma StepEnabled(st: State, space: nat, conn: nat, skipped: nat, op: Op, r: Reply, m: map<bytes, bytes>)
    requires space in st.db && Abstracts(st.db[space], m) && conn < |st.counters|
             && Fits(op, SyncOf(st, conn, skipped), space)
    requires Honest(r, SyncOf(st, conn, skipped), Meant(st.db, op, space).1)
    ensures exists out :: Step(st, space, Event(conn, skipped, op, r, out)).Some?
  {
    hide Serve, Finish, Accepts, WellFormed, Fits, Packet, ReadFrame, ReplyBytes;
    var sync := SyncOf(st, conn, skipped);
    ServeExact(st.db, op, sync, space);
    FinishExact(op, r, sync, Meant(st.db, op, space).1);
    var out := Finish(op, ReplyBytes(r), sync).value;
    assert Step(st, space, Event(conn, skipped, op, r, out)).Some?;
  }

  /** What a plain map answers to the calls of a run. */
  function MapRun(m: map<bytes, bytes>, events: seq<Event>): (outs: seq<Outcome>)
    ensures |outs| == |events|
    decreases |events|
  {
    if events == [] then []
    else
      var (m', out) := MapStep(m, events[0].op);
      [out] + MapRun(m', events[1..])
  }

  /** In every run of set, remove and get against an in-order server, spread over any connections of the pool, each call
      returns what a plain map returns: the last value set for the key, or nothing after a remove. */
  lemma {:induction false} RunIsMap(st: State, space: nat, events: seq<Event>, m: map<bytes, bytes>)
    requires space in st.db && Abstracts(st.db[space], m) && Run(st, space, events)
    ensures forall i :: 0 <= i < |events| ==> events[i].outcome == MapRun(m, events)[i]
    decreases |events|
  {
    hide Step;
    if events != [] {
      StepRefines(st, space, events[0], m);
      RunIsMap(Step(st, space, events[0]).value, space, events[1..], MapStep(m, events[0].op).0);
    }
  }
}
