/** IProto framing and the two halves every conversation shares: the wires a client sends,
    and a server that reads requests back with the reference parser. */
module Iproto {
  import opened Wrappers
  import opened Msgpack

  const REQUEST_TYPE: nat := 0x00
  const SYNC: nat := 0x01
  const SPACE_ID: nat := 0x10
  const INDEX_ID: nat := 0x11
  const LIMIT: nat := 0x12
  const OFFSET: nat := 0x13
  const ITERATOR: nat := 0x14
  const KEY: nat := 0x20
  const TUPLE: nat := 0x21
  const FUNCTION_NAME: nat := 0x22
  const DATA: nat := 0x30

  const OK: nat := 0
  const SELECT: nat := 1
  const REPLACE: nat := 3
  const DELETE: nat := 5
  const CALL: nat := 6

  const FRAME_LIMIT: nat := 16 * 1024 * 1024

  /** The 5-byte length prefix and the payload. */
  function Frame(payload: bytes): (f: bytes)
    ensures |f| == 5 + |payload|
  {
    [0xce] + BE(|payload|, 4) + payload
  }

  /** `tnt_read_frame` and the read loop of `restore_calls`: None is any of their error exits. */
  function ReadFrame(stream: bytes, limit: nat): (r: Option<(bytes, bytes)>)
    ensures r.Some? ==> |r.value.1| < |stream| && r.value.0 != []
  {
    if |stream| < 5 || stream[0] != 0xce then None
    else
      var n := UnBE(stream[1..5]);
      if n == 0 || n > limit || 5 + n > |stream| then None
      else Some((stream[5..5 + n], stream[5 + n..]))
  }

  /** A frame is read back, with whatever follows left alone, exactly when its payload is
      nonempty and within the reader's limit. */
  lemma ReadFrameExact(payload: bytes, more: bytes, limit: nat)
    requires |payload| < TWO32
    ensures ReadFrame(Frame(payload) + more, limit) ==
            if 0 < |payload| <= limit then Some((payload, more)) else None
  {
    hide UnBE, BE;
    var s := Frame(payload) + more;
    Caps();
    UnBEofBE(|payload|, 4);
    assert s[1..5] == BE(|payload|, 4);
    if 0 < |payload| <= limit {
      assert s[5..5 + |payload|] == payload;
      assert s[5 + |payload|..] == more;
    }
  }

  // ---------------------------------------------------------------- what a client sends

  function Header(kind: nat, sync: nat): Value {
    Dict([UInt(REQUEST_TYPE), UInt(kind), UInt(SYNC), UInt(sync)])
  }

  /** A request: the frame of a header map and a body map. */
  predicate Sendable(kind: nat, sync: nat, body: Value) {
    && Encodable(Header(kind, sync)) && Encodable(body)
    && |Bytes(Enc(Header(kind, sync)))| + |Bytes(Enc(body))| < TWO32
  }

  function Request(kind: nat, sync: nat, body: Value): bytes {
    Frame(Bytes(Enc(Header(kind, sync))) + Bytes(Enc(body)))
  }

  // ---------------------------------------------------------------- what a server reads

  /** The value under the first occurrence of unsigned key k. */
  function Under(vs: seq<Value>, k: nat): Option<Value> {
    if |vs| < 2 then None
    else if vs[0] == UInt(k) then Some(vs[1])
    else Under(vs[2..], k)
  }

  function UintUnder(vs: seq<Value>, k: nat): Option<nat> {
    var v :- Under(vs, k);
    if v.UInt? then Some(v.n) else None
  }

  function ListUnder(vs: seq<Value>, k: nat): Option<seq<Value>> {
    var v :- Under(vs, k);
    if v.List? then Some(v.vs) else None
  }

  function TextUnder(vs: seq<Value>, k: nat): Option<bytes> {
    var v :- Under(vs, k);
    if v.Text? then Some(v.s) else None
  }

  lemma {:induction false} UnderAt(vs: seq<Value>, k: nat, j: nat)
    requires 2 * j + 1 < |vs| && vs[2 * j] == UInt(k)
    requires forall i :: 0 <= i < j ==> vs[2 * i] != UInt(k)
    ensures Under(vs, k) == Some(vs[2 * j + 1])
  {
    if j > 0 {
      assert vs[2 * 0] != UInt(k);
      forall i | 0 <= i < j - 1
        ensures vs[2..][2 * i] != UInt(k)
      {
        assert vs[2..][2 * i] == vs[2 * (i + 1)];
      }
      UnderAt(vs[2..], k, j - 1);
    }
  }

  datatype Message = Message(kind: nat, sync: nat, body: seq<Value>)

  /** One whole request: a frame holding a header map and a body map and nothing else. */
  function ReadMessage(packet: bytes): Option<Message> {
    var (payload, more) :- ReadFrame(packet, TWO32);
    var (header, s1) :- Parse(payload);
    var (body, s2) :- Parse(s1);
    if more != [] || s2 != [] || !header.Map? || !body.Map? then None
    else
      var kind :- UintUnder(Meanings(header.items), REQUEST_TYPE);
      var sync :- UintUnder(Meanings(header.items), SYNC);
      Some(Message(kind, sync, Meanings(body.items)))
  }

  /** Every request a client frames is read back as its kind, its sync id and its body map. */
  lemma ReadMessageExact(kind: nat, sync: nat, body: seq<Value>)
    requires Sendable(kind, sync, Dict(body))
    ensures ReadMessage(Request(kind, sync, Dict(body))) == Some(Message(kind, sync, body))
  {
    hide Parse, ReadFrame, Bytes, Enc, Encodable, Under;
    EncExact(Header(kind, sync));
    EncExact(Dict(body));
    var header, tail := Enc(Header(kind, sync)), Enc(Dict(body));
    var payload := Bytes(header) + Bytes(tail);
    ReadFrameExact(payload, [], TWO32);
    assert Frame(payload) + [] == Frame(payload);
    ParseBytes(header, Bytes(tail));
    ParseBytes(tail, []);
    assert Bytes(tail) + [] == Bytes(tail);
    var vs := [UInt(REQUEST_TYPE), UInt(kind), UInt(SYNC), UInt(sync)];
    UnderAt(vs, REQUEST_TYPE, 0);
    UnderAt(vs, SYNC, 1);
  }

  // ---------------------------------------------------------------- what a server answers

  /** One entry of a map. */
  datatype Pair = Pair(k: Wire, v: Wire)

  function Flat(ps: seq<Pair>): (items: seq<Wire>)
    ensures |items| == 2 * |ps|
  {
    if ps == [] then [] else [ps[0].k, ps[0].v] + Flat(ps[1..])
  }

  /** An entry with a valid unsigned key, of any width, and any valid value the skipper handles. */
  predicate GoodPair(p: Pair) {
    Valid(p.k) && Valid(p.v) && !Wide(p.v) && Meaning(p.k).UInt?
  }

  predicate GoodPairs(ps: seq<Pair>) {
    forall i :: 0 <= i < |ps| ==> GoodPair(ps[i])
  }

  /** The bytes of a map's entries, without its head. */
  function PairBytes(ps: seq<Pair>): bytes {
    BytesAll(Flat(ps))
  }

  lemma PairStep(ps: seq<Pair>, rest: bytes)
    requires ps != []
    ensures PairBytes(ps) + rest == Bytes(ps[0].k) + (Bytes(ps[0].v) + (PairBytes(ps[1..]) + rest))
  {
    hide Bytes;
    var items := Flat(ps);
    assert items == [ps[0].k] + ([ps[0].v] + Flat(ps[1..]));
    assert items[1..] == [ps[0].v] + Flat(ps[1..]);
    assert items[1..][1..] == Flat(ps[1..]);
    assert BytesAll(items) == Bytes(ps[0].k) + BytesAll(items[1..]);
    assert BytesAll(items[1..]) == Bytes(ps[0].v) + BytesAll(Flat(ps[1..]));
  }

  /** A header the clients can read: a map of good pairs with unsigned status and sync values. */
  predicate HeaderPairs(ps: seq<Pair>) {
    && GoodPairs(ps)
    && forall i :: 0 <= i < |ps| && (Meaning(ps[i].k) == UInt(REQUEST_TYPE) || Meaning(ps[i].k) == UInt(SYNC))
         ==> Meaning(ps[i].v).UInt?
  }

  /** Every status in the header says OK and every sync id is `sync`. */
  predicate Accepts(ps: seq<Pair>, sync: nat) {
    forall i :: 0 <= i < |ps| ==>
      && (Meaning(ps[i].k) == UInt(REQUEST_TYPE) ==> Meaning(ps[i].v) == UInt(OK))
      && (Meaning(ps[i].k) == UInt(SYNC) ==> Meaning(ps[i].v) == UInt(sync))
  }
}
