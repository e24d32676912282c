/**
 The RTPEngine driver: what a save puts on the wire, what the stored procedures keep, and what
 `restore_calls` hands back after skipping the acknowledgements nobody read.
 */
module RtpeDriver {
  import opened Wrappers
  import opened Msgpack
  import opened Iproto

  // ---------------------------------------------------------------- names on the wire

  const CALL_ID: bytes := [0x63, 0x61, 0x6c, 0x6c, 0x5f, 0x69, 0x64]
  const NODE_ID: bytes := [0x6e, 0x6f, 0x64, 0x65, 0x5f, 0x69, 0x64]
  const PAYLOAD: bytes := [0x70, 0x61, 0x79, 0x6c, 0x6f, 0x61, 0x64]
  const CALLER_IP: bytes := [0x63, 0x61, 0x6c, 0x6c, 0x65, 0x72, 0x5f, 0x69, 0x70]
  const CALLEE_IP: bytes := [0x63, 0x61, 0x6c, 0x6c, 0x65, 0x65, 0x5f, 0x69, 0x70]
  const CALLER_PORT: bytes := [0x63, 0x61, 0x6c, 0x6c, 0x65, 0x72, 0x5f, 0x70, 0x6f, 0x72, 0x74]
  const CALLEE_PORT: bytes := [0x63, 0x61, 0x6c, 0x6c, 0x65, 0x65, 0x5f, 0x70, 0x6f, 0x72, 0x74]
  const SRTP_SUITE: bytes := [0x73, 0x72, 0x74, 0x70, 0x5f, 0x73, 0x75, 0x69, 0x74, 0x65]
  const UPSERT: bytes := [0x72, 0x74, 0x70, 0x65, 0x5f, 0x63, 0x61, 0x6c, 0x6c, 0x5f, 0x75, 0x70, 0x73, 0x65, 0x72,
    0x74]
  const CALL_DELETE: bytes := [0x72, 0x74, 0x70, 0x65, 0x5f, 0x63, 0x61, 0x6c, 0x6c, 0x5f, 0x64, 0x65, 0x6c, 0x65, 0x74,
    0x65]
  const RESTORE: bytes := [0x72, 0x74, 0x70, 0x65, 0x5f, 0x63, 0x61, 0x6c, 0x6c, 0x5f, 0x72, 0x65, 0x73, 0x74, 0x6f,
    0x72, 0x65]
  const NO_IP: bytes := [0x30, 0x2e, 0x30, 0x2e, 0x30, 0x2e, 0x30]
  const NO_SUITE: bytes := [0x4e, 0x4f, 0x4e, 0x45]
  const NO_NODE: bytes := [0x72, 0x74, 0x70, 0x65, 0x2d, 0x30, 0x31]

  // ---------------------------------------------------------------- what a save sends

  /** The media attributes of a call; a null pointer is None. */
  datatype Info = Info(
    callId: bytes, callerIp: Option<bytes>, callerPort: int,
    calleeIp: Option<bytes>, calleePort: int, suite: Option<bytes>, ttl: nat)

  function Or(s: Option<bytes>, default: bytes): bytes {
    if s.Some? then s.value else default
  }

  /** `(uint64_t)port` for a C int. */
  function Widen(port: int): nat {
    port % TWO64
  }

  /** `(int)value` for a 64-bit number. */
  function Narrow(n: nat): int {
    var low := n % TWO32;
    if low < 0x8000_0000 then low else low - TWO32
  }

  predicate IntPorts(info: Info) {
    && -0x8000_0000 <= info.callerPort < 0x8000_0000
    && -0x8000_0000 <= info.calleePort < 0x8000_0000
  }

  function PayloadValues(info: Info): seq<Value>
  {
    [Text(CALLER_IP), Text(Or(info.callerIp, NO_IP)),
     Text(CALLER_PORT), UInt(Widen(info.callerPort)),
     Text(CALLEE_IP), Text(Or(info.calleeIp, NO_IP)),
     Text(CALLEE_PORT), UInt(Widen(info.calleePort)),
     Text(SRTP_SUITE), Text(Or(info.suite, NO_SUITE))]
  }

  function Ttl(info: Info): nat {
    if info.ttl > 0 then info.ttl else 3600
  }

  function UpsertArgs(info: Info, node: Option<bytes>): seq<Value>
  {
    [Text(info.callId), Text(Or(node, NO_NODE)), Dict(PayloadValues(info)), UInt(Ttl(info))]
  }

  /** The body of a stored-procedure call. */
  function CallBody(name: bytes, args: seq<Value>): seq<Value> {
    CallFront(name) + [List(args)]
  }

  function CallFront(name: bytes): seq<Value> {
    [UInt(FUNCTION_NAME), Text(name), UInt(TUPLE)]
  }

  function UpsertPacket(sync: nat, info: Info, node: Option<bytes>): bytes
  {
    Request(CALL, sync, Dict(CallBody(UPSERT, UpsertArgs(info, node))))
  }

  function DeletePacket(sync: nat, callId: bytes): bytes {
    Request(CALL, sync, Dict(CallBody(CALL_DELETE, [Text(callId)])))
  }

  function RestorePacket(sync: nat, node: bytes): bytes {
    Request(CALL, sync, Dict(CallBody(RESTORE, [Text(node)])))
  }

  // ---------------------------------------------------------------- the stored procedures

  /** "default-node" */
  const DEFAULT_NODE: bytes := [100, 101, 102, 97, 117, 108, 116, 45, 110, 111, 100, 101]

  /** One row of rtpe_calls; the payload is a Lua table. */
  datatype Stored = Stored(node: bytes, created: nat, updated: nat, expires: nat, payload: map<bytes, Value>)
  type Calls = map<bytes, Stored>

  /** A map value as a Lua table; a later entry overrides an earlier one. */
  function Table(vs: seq<Value>): Option<map<bytes, Value>> {
    if |vs| < 2 then Some(map[])
    else if !vs[0].Text? then None
    else
      var rest :- Table(vs[2..]);
      Some(map[vs[0].s := vs[1]] + rest)
  }

  /** `call_upsert`: a known call keeps its creation time. */
  function Upserted(db: Calls, id: bytes, node: Option<bytes>, payload: map<bytes, Value>, ttl: int, now: nat): Calls {
    var created := if id in db then db[id].created else now;
    db[id := Stored(Or(node, DEFAULT_NODE), created, now, now + (if ttl > 0 then ttl else 3600), payload)]
  }

  /** The stored procedures a request can name, at clock reading `now`. */
  function Perform(db: Calls, m: Message, now: nat): Option<Calls> {
    var name :- TextUnder(m.body, FUNCTION_NAME);
    var args :- ListUnder(m.body, TUPLE);
    if m.kind != CALL then None
    else if name == UPSERT && |args| == 4 && args[0].Text? && args[2].Dict? then
      var table :- Table(args[2].vs);
      var ttl := if args[3].UInt? then args[3].n else 0;
      Some(Upserted(db, args[0].s, if args[1].Text? then Some(args[1].s) else None, table, ttl, now))
    else if name == CALL_DELETE && |args| == 1 && args[0].Text? then
      Some(db - {args[0].s})
    else None
  }

  /** The calls `call_restore` selects: unexpired, and of the node unless the name is empty. */
  function Selected(db: Calls, node: bytes, now: nat): set<bytes> {
    set c | c in db && (node == [] || db[c].node == node) && db[c].expires > now
  }

  // ---------------------------------------------------------------- decoding a restore reply

  /** What the restore callback is given. */
  datatype Fields = Fields(
    callId: bytes, node: bytes, callerIp: bytes, callerPort: int, calleeIp: bytes, calleePort: int, suite: bytes)

  const NO_FIELDS := Fields([], [], NO_IP, 0, NO_IP, 0, NO_SUITE)

  /** `strncmp(key, name, |key|) == 0`: the key is a prefix of the name, or goes on behind a zero byte. */
  predicate KeyIs(k: bytes, name: bytes) {
    k <= name || (name < k && k[|name|] == 0)
  }

  datatype RowKey = CallIdKey | NodeIdKey | PayloadKey | OtherKey

  function RowKeyOf(k: bytes): RowKey {
    if KeyIs(k, CALL_ID) then CallIdKey
    else if KeyIs(k, NODE_ID) then NodeIdKey
    else if KeyIs(k, PAYLOAD) then PayloadKey
    else OtherKey
  }

  datatype Slot = CallerIp | CalleeIp | CallerPort | CalleePort | Suite | OtherSlot

  function SlotOf(k: bytes): Slot {
    if KeyIs(k, CALLER_IP) then CallerIp
    else if KeyIs(k, CALLEE_IP) then CalleeIp
    else if KeyIs(k, CALLER_PORT) then CallerPort
    else if KeyIs(k, CALLEE_PORT) then CalleePort
    else if KeyIs(k, SRTP_SUITE) then Suite
    else OtherSlot
  }

  /** The C string a byte string reads as. */
  function CStr(s: bytes): bytes {
    if s == [] || s[0] == 0 then [] else [s[0]] + CStr(s[1..])
  }

  /** A guarded `memcpy` into a buffer of `cap` bytes, as the string it leaves there. */
  function Copy(s: bytes, cap: nat, was: bytes): bytes {
    if |s| < cap then CStr(s) else was
  }

  /** One entry of the payload map. */
  function PayloadEntry(s: bytes, f: Fields): Option<(Fields, bytes)> {
    var (k, s1) :- DecodeStr(s);
    match SlotOf(k)
    case CallerIp => (var (v, s2) :- DecodeStr(s1); Some((f.(callerIp := Copy(v, 64, f.callerIp)), s2)))
    case CalleeIp => (var (v, s2) :- DecodeStr(s1); Some((f.(calleeIp := Copy(v, 64, f.calleeIp)), s2)))
    case CallerPort => (var (n, s2) :- DecodeUint(s1); Some((f.(callerPort := Narrow(n)), s2)))
    case CalleePort => (var (n, s2) :- DecodeUint(s1); Some((f.(calleePort := Narrow(n)), s2)))
    case Suite => (var (v, s2) :- DecodeStr(s1); Some((f.(suite := Copy(v, 32, f.suite)), s2)))
    case OtherSlot => (var s2 :- Next(s1); Some((f, s2)))
  }

  function PayloadLoop(s: bytes, n: nat, f: Fields): Option<(Fields, bytes)>
    decreases n
  {
    if n == 0 then Some((f, s))
    else
      var (f1, s1) :- PayloadEntry(s, f);
      PayloadLoop(s1, n - 1, f1)
  }

  /** One entry of a row map; only a fix-form map is taken for a payload. */
  function RowEntry(s: bytes, f: Fields): Option<(Fields, bytes)> {
    var (k, s1) :- DecodeStr(s);
    match RowKeyOf(k)
    case CallIdKey => (var (v, s2) :- DecodeStr(s1); Some((f.(callId := Copy(v, 128, f.callId)), s2)))
    case NodeIdKey => (var (v, s2) :- DecodeStr(s1); Some((f.(node := Copy(v, 64, f.node)), s2)))
    case PayloadKey =>
      if s1 == [] then None
      else if 0x80 <= s1[0] <= 0x8f then
        var (n, s2) :- DecodeHead(MapK, s1);
        PayloadLoop(s2, n, f)
      else
        var s2 :- Next(s1);
        Some((f, s2))
    case OtherKey => (var s2 :- Next(s1); Some((f, s2)))
  }

  function RowLoop(s: bytes, n: nat, f: Fields): Option<(Fields, bytes)>
    decreases n
  {
    if n == 0 then Some((f, s))
    else
      var (f1, s1) :- RowEntry(s, f);
      RowLoop(s1, n - 1, f1)
  }

  predicate IsMapTag(c: byte) { 0x80 <= c <= 0x8f || c == 0xde || c == 0xdf }

  predicate IsArrTag(c: byte) { 0x90 <= c <= 0x9f || c == 0xdc || c == 0xdd }

  function OneRow(s: bytes): Option<(Fields, bytes)> {
    if s == [] then None
    else if IsMapTag(s[0]) then
      var (n, s1) :- DecodeHead(MapK, s);
      RowLoop(s1, n, NO_FIELDS)
    else
      var s1 :- Next(s);
      Some((NO_FIELDS, s1))
  }

  /** The rows of one result array. The callback stops the loop once `quota` calls were delivered;
      a quota of 0 means it never does. */
  function RowsLoop(s: bytes, n: nat, got: seq<Fields>, quota: nat): Option<(seq<Fields>, bytes)>
    decreases n
  {
    if n == 0 then Some((got, s))
    else
      var (f, s1) :- OneRow(s);
      if f.callId == [] then RowsLoop(s1, n - 1, got, quota)
      else if |got| + 1 == quota then Some((got + [f], s1))
      else RowsLoop(s1, n - 1, got + [f], quota)
  }

  function ResultsLoop(s: bytes, n: nat, got: seq<Fields>, quota: nat): Option<(seq<Fields>, bytes)>
    decreases n
  {
    if n == 0 then Some((got, s))
    else if s == [] then None
    else if IsArrTag(s[0]) then
      var (count, s1) :- DecodeHead(ArrK, s);
      var (got1, s2) :- RowsLoop(s1, count, got, quota);
      ResultsLoop(s2, n - 1, got1, quota)
    else
      var s1 :- Next(s);
      ResultsLoop(s1, n - 1, got, quota)
  }

  function BodyLoop(s: bytes, n: nat, got: seq<Fields>, quota: nat): Option<seq<Fields>>
    decreases n
  {
    if n == 0 then Some(got)
    else
      var (k, s1) :- DecodeUint(s);
      if k == DATA then
        var (count, s2) :- DecodeHead(ArrK, s1);
        var (got1, s3) :- ResultsLoop(s2, count, got, quota);
        BodyLoop(s3, n - 1, got1, quota)
      else
        var s2 :- Next(s1);
        BodyLoop(s2, n - 1, got, quota)
  }

  /** The sync id a header carries, 0 when it carries none. */
  function SyncLoop(s: bytes, n: nat, sync: nat): Option<(nat, bytes)>
    decreases n
  {
    if n == 0 then Some((sync, s))
    else
      var (k, s1) :- DecodeUint(s);
      if k == SYNC then
        var (sync1, s2) :- DecodeUint(s1);
        SyncLoop(s2, n - 1, sync1)
      else
        var s2 :- Next(s1);
        SyncLoop(s2, n - 1, sync)
  }

  const RESTORE_LIMIT: nat := 1048576

  /** What `restore_calls` returns: -1, or the calls it delivered. */
  datatype Restored = Failed | Delivered(calls: seq<Fields>)

  /** The reading loop: frames are skipped until one carries the wanted sync id. */
  function ReadReplies(stream: bytes, want: nat, quota: nat): Option<Restored>
    decreases |stream|
  {
    match ReadFrame(stream, RESTORE_LIMIT)
    case None => Some(Failed)
    case Some((body, more)) =>
      var (h, s) :- DecodeHead(MapK, body);
      var (sync, s1) :- SyncLoop(s, h, 0);
      if sync != want then ReadReplies(more, want, quota)
      else
        var (b, s2) :- DecodeHead(MapK, s1);
        var calls :- BodyLoop(s2, b, [], quota);
        Some(Delivered(calls))
  }
}
