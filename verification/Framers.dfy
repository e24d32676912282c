/**
 The reply counters of the benchmark client. Each looks for one reply at the front of a buffer; the worker
 reads the socket in arbitrary pieces, counts what is complete and moves the rest to the front.
 */
module Framers {
  import opened Wrappers
  import opened Msgpack
  import opened Text
  import opened ReplyHeader

  /** The front of a buffer: not a whole reply yet, a frame (its length, how many replies and errors it stands
      for), or bytes that cannot start one. */
  datatype Next = Wait | Frame(len: nat, replies: nat, errs: nat) | Broken

  datatype Tally = Tally(replies: nat, errs: nat, used: nat, broken: bool)

  /** The counting loop common to the four protocols. */
  function Count(next: bytes -> Next, buf: bytes): (t: Tally)
    ensures t.used <= |buf|
  {
    match next(buf)
    case Wait => Tally(0, 0, 0, false)
    case Broken => Tally(0, 1, |buf|, true)
    case Frame(len, replies, errs) =>
      if 0 < len <= |buf| then
        var t := Count(next, buf[len..]);
        Tally(replies + t.replies, errs + t.errs, len + t.used, t.broken)
      else Tally(0, 0, 0, false)
  }

  /** Frames lie within the buffer, and bytes that arrive later do not change what was seen. */
  ghost predicate Sound(next: bytes -> Next) {
    && (forall a: bytes :: next(a).Frame? ==> 0 < next(a).len <= |a|)
    && (forall a: bytes, b: bytes :: next(a) != Wait ==> next(a + b) == next(a))
  }

  lemma More(next: bytes -> Next, a: bytes, b: bytes)
    requires Sound(next)
    ensures next(a).Frame? ==> 0 < next(a).len <= |a|
    ensures next(a) != Wait ==> next(a + b) == next(a)
  {
  }

  lemma CountStep(next: bytes -> Next, buf: bytes)
    ensures next(buf) == Wait ==> Count(next, buf) == Tally(0, 0, 0, false)
    ensures next(buf) == Broken ==> Count(next, buf) == Tally(0, 1, |buf|, true)
    ensures next(buf).Frame? && 0 < next(buf).len <= |buf| ==>
              var f := next(buf);
              var t := Count(next, buf[f.len..]);
              Count(next, buf) == Tally(f.replies + t.replies, f.errs + t.errs, f.len + t.used, t.broken)
  {
  }

  lemma Cut(a: bytes, i: nat, j: nat)
    requires i + j <= |a|
    ensures a[i..][j..] == a[i + j..]
  {
  }

  /** Counting a buffer and then its leftover with more bytes is counting everything at once. */
  lemma {:induction false} CountSplit(next: bytes -> Next, a: bytes, b: bytes)
    requires Sound(next) && !Count(next, a).broken
    ensures var t := Count(next, a);
            var u := Count(next, a[t.used..] + b);
            Count(next, a + b) == Tally(t.replies + u.replies, t.errs + u.errs, t.used + u.used, u.broken)
    decreases |a|
  {
    hide Sound, Count;
    More(next, a, b);
    CountStep(next, a);
    match next(a) {
      case Wait => assert a[0..] + b == a + b;
      case Broken =>
      case Frame(len, _, _) =>
        CountStep(next, a + b);
        assert (a + b)[len..] == a[len..] + b;
        CountSplit(next, a[len..], b);
        Cut(a, len, Count(next, a[len..]).used);
    }
  }

  /** A desynchronized stream stays so. */
  lemma {:induction false} BrokenStays(next: bytes -> Next, a: bytes, b: bytes)
    requires Sound(next) && Count(next, a).broken
    ensures Count(next, a + b).broken
    decreases |a|
  {
    hide Sound;
    More(next, a, b);
    if next(a).Frame? {
      var len := next(a).len;
      assert (a + b)[len..] == a[len..] + b;
      BrokenStays(next, a[len..], b);
    }
  }

  /** One reply as the server sends it, with what it counts for. */
  datatype Item = Item(wire: bytes, replies: nat, errs: nat)

  function Stream(items: seq<Item>): bytes {
    if items == [] then [] else items[0].wire + Stream(items[1..])
  }

  function Replies(items: seq<Item>): nat {
    if items == [] then 0 else items[0].replies + Replies(items[1..])
  }

  function Errors(items: seq<Item>): nat {
    if items == [] then 0 else items[0].errs + Errors(items[1..])
  }

  ghost predicate Framed(next: bytes -> Next, x: Item) {
    && x.wire != []
    && forall rest: bytes :: next(x.wire + rest) == Frame(|x.wire|, x.replies, x.errs)
  }

  /** A stream of whole replies is counted reply by reply, to its end. */
  lemma {:induction false} StreamCounts(next: bytes -> Next, items: seq<Item>)
    requires next([]) == Wait && forall i :: 0 <= i < |items| ==> Framed(next, items[i])
    ensures Count(next, Stream(items)) == Tally(Replies(items), Errors(items), |Stream(items)|, false)
  {
    if items != [] {
      var x, rest := items[0], Stream(items[1..]);
      assert Framed(next, x);
      assert next(x.wire + rest) == Frame(|x.wire|, x.replies, x.errs);
      assert (x.wire + rest)[|x.wire|..] == rest;
      StreamCounts(next, items[1..]);
    }
  }

  // ---------------------------------------------------------------- searching

  predicate Within(h: bytes, nd: bytes) {
    exists i :: 0 <= i <= |h| && nd <= h[i..]
  }

  const NL: byte := 10
  const ERROR_WORD: bytes := [34, 101, 114, 114, 111, 114, 34]

  // ---------------------------------------------------------------- the four protocols

  /** Lines of text; a reply with "error" in it is an error. */
  function NextPerf(buf: bytes): Next {
    var nl := IndexOf(buf, NL);
    if nl == |buf| then Wait else Frame(nl + 1, 1, if Within(buf[..nl], ERROR_WORD) then 1 else 0)
  }

  /** Little-endian 32 bits. */
  function LE32(s: bytes): nat
    requires |s| >= 4
  {
    s[0] as nat + s[1] as nat * 0x100 + s[2] as nat * 0x1_0000 + s[3] as nat * 0x100_0000
  }

  const MAGIC: byte := 0x9E

  /** 16-byte headers with a payload length; responses have type 2, bit 0 of the flags marks an error. */
  function NextBin(buf: bytes): Next {
    if |buf| < 16 then Wait
    else if buf[0] != MAGIC then Broken
    else if |buf| < 16 + LE32(buf[4..8]) then Wait
    else
      var reply := buf[2] == 2;
      Frame(16 + LE32(buf[4..8]), if reply then 1 else 0, if reply && buf[3] % 2 == 1 then 1 else 0)
  }

  /** The Redis protocol: `$` bulk strings with a length line, everything else one line. A bulk header without a
      number is taken as 0 here; what the client makes of one depends on the bytes behind it. */
  function NextResp(buf: bytes): Next {
    var nl := IndexOf(buf, NL);
    if nl == |buf| then Wait
    else if buf[0] == 36 then
      var len := Strtol(buf[1..nl]);
      if len < 0 then Frame(nl + 1, 1, 0)
      else if nl + 1 + len + 2 > |buf| then Wait
      else Frame(nl + 1 + len + 2, 1, 0)
    else Frame(nl + 1, 1, if buf[0] == 45 then 1 else 0)
  }

  /** IProto frames behind a five-byte length; bytes that cannot start one are passed over, an error each. The errors
      of a frame are those it shows whatever is behind it. */
  function NextTnt(buf: bytes): Next {
    if |buf| < 5 then Wait
    else if buf[0] != 0xCE then
      var n := NextTnt(buf[1..]);
      if n.Frame? then Frame(1 + n.len, n.replies, 1 + n.errs) else Wait
    else if 5 + UnBE(buf[1..5]) > |buf| then Wait
    else Frame(5 + UnBE(buf[1..5]), 1, BodyErrs(buf[5..5 + UnBE(buf[1..5])]))
  }

  /** The bytes passed over in front of a frame that is not complete. They are counted, but not used up. */
  function Noise(buf: bytes): nat {
    if |buf| < 5 || buf[0] == 0xCE then 0 else 1 + Noise(buf[1..])
  }

  lemma PerfSound()
    ensures Sound(NextPerf)
  {
    forall a: bytes, b: bytes | NextPerf(a) != Wait
      ensures NextPerf(a + b) == NextPerf(a)
    {
      IndexOfMore(a, b, NL);
      var nl := IndexOf(a, NL);
      assert (a + b)[..nl] == a[..nl];
    }
  }

  lemma BinSound()
    ensures Sound(NextBin)
  {
    forall a: bytes, b: bytes | NextBin(a) != Wait
      ensures NextBin(a + b) == NextBin(a)
    {
      assert (a + b)[4..8] == a[4..8];
    }
  }

  lemma RespMore(a: bytes, b: bytes)
    requires NextResp(a) != Wait
    ensures NextResp(a + b) == NextResp(a)
  {
    hide Strtol, IndexOf;
    IndexOfMore(a, b, NL);
    var nl := IndexOf(a, NL);
    assert (a + b)[0] == a[0];
    if a[0] == 36 {
      assert 1 <= nl <= |a|;
      assert (a + b)[1..nl] == a[1..nl];
    }
  }

  lemma RespSound()
    ensures Sound(NextResp)
  {
    forall a: bytes, b: bytes | NextResp(a) != Wait
      ensures NextResp(a + b) == NextResp(a)
    {
      RespMore(a, b);
    }
    hide Strtol, IndexOf;
  }

  lemma {:induction false} TntFrame(a: bytes)
    ensures NextTnt(a).Frame? ==> 0 < NextTnt(a).len <= |a| && NextTnt(a).replies == 1
    ensures !NextTnt(a).Broken?
  {
    if |a| >= 5 && a[0] != 0xCE {
      TntFrame(a[1..]);
    }
  }

  lemma TntStep(buf: bytes)
    ensures |buf| < 5 ==> NextTnt(buf) == Wait
    ensures |buf| >= 5 && buf[0] != 0xCE ==>
              var n := NextTnt(buf[1..]);
              NextTnt(buf) == if n.Frame? then Frame(1 + n.len, n.replies, 1 + n.errs) else Wait
    ensures |buf| >= 5 && buf[0] == 0xCE ==>
              var len := UnBE(buf[1..5]);
              NextTnt(buf) == if 5 + len > |buf| then Wait else Frame(5 + len, 1, BodyErrs(buf[5..5 + len]))
  {
    hide UnBE, BodyErrs;
  }

  lemma {:induction false} TntMore(a: bytes, b: bytes)
    requires NextTnt(a) != Wait
    ensures NextTnt(a + b) == NextTnt(a)
    decreases |a|
  {
    hide UnBE, NextTnt, BodyErrs;
    TntStep(a);
    TntStep(a + b);
    if a[0] != 0xCE {
      assert (a + b)[1..] == a[1..] + b;
      TntMore(a[1..], b);
    } else {
      assert (a + b)[1..5] == a[1..5];
      assert (a + b)[5..5 + UnBE(a[1..5])] == a[5..5 + UnBE(a[1..5])];
    }
  }

  lemma TntSound()
    ensures Sound(NextTnt)
  {
    forall a: bytes
      ensures NextTnt(a).Frame? ==> 0 < NextTnt(a).len <= |a|
    {
      TntFrame(a);
    }
    forall a: bytes, b: bytes | NextTnt(a) != Wait
      ensures NextTnt(a + b) == NextTnt(a)
    {
      TntMore(a, b);
    }
  }

  // ---------------------------------------------------------------- well-formed replies

  /** A line without a line feed in it. */
  function PerfItem(line: bytes): Item {
    Item(line + Ascii("\n"), 1, if Within(line, Ascii("\"error\"")) then 1 else 0)
  }

  lemma Marks()
    ensures Ascii("\n") == [NL] && Ascii("\"error\"") == ERROR_WORD
  {
  }

  lemma PerfFramed(line: bytes)
    requires NL !in line
    ensures Framed(NextPerf, PerfItem(line))
  {
    Marks();
    forall rest: bytes
      ensures NextPerf(PerfItem(line).wire + rest) == Frame(|line| + 1, 1, PerfItem(line).errs)
    {
      IndexOfEnd(line, rest, NL);
      assert (line + [NL] + rest)[..|line|] == line;
    }
  }

  function LE(n: nat): (s: bytes)
    ensures |s| == 4
  {
    [n % 0x100, n / 0x100 % 0x100, n / 0x1_0000 % 0x100, n / 0x100_0000 % 0x100]
  }

  lemma LEReads(n: nat)
    requires n < TWO32
    ensures LE32(LE(n)) == n
  {
    var a, b, c := n / 0x100, n / 0x1_0000, n / 0x100_0000;
    assert n == a * 0x100 + n % 0x100;
    assert a == b * 0x100 + a % 0x100;
    assert b == c * 0x100 + b % 0x100;
    assert c < 0x100;
  }

  function BinItem(version: byte, kind: byte, flags: byte, id: bytes, payload: bytes): Item {
    Item([0x9E, version, kind, flags] + LE(|payload|) + id + payload,
         if kind == 2 then 1 else 0, if kind == 2 && flags % 2 == 1 then 1 else 0)
  }

  lemma BinFramed(version: byte, kind: byte, flags: byte, id: bytes, payload: bytes)
    requires |id| == 8 && |payload| < TWO32
    ensures Framed(NextBin, BinItem(version, kind, flags, id, payload))
  {
    var x := BinItem(version, kind, flags, id, payload);
    LEReads(|payload|);
    forall rest: bytes
      ensures NextBin(x.wire + rest) == Frame(|x.wire|, x.replies, x.errs)
    {
      hide LE;
      assert (x.wire + rest)[4..8] == LE(|payload|);
    }
  }

  datatype Resp = Simple(text: bytes) | Bulk(data: bytes) | NullBulk

  const CRLF: bytes := [13, NL]

  /** A simple reply starts with `+`, `-` or `:`; only `-` is an error. */
  predicate RespOk(r: Resp) {
    match r
    case Simple(text) => text != [] && text[0] != 36 && NL !in text
    case Bulk(data) => |data| <= LONG_MAX
    case NullBulk => true
  }

  function RespItem(r: Resp): Item {
    match r
    case Simple(text) => Item(text + [13] + [NL], 1, if text != [] && text[0] == 45 then 1 else 0)
    case Bulk(data) => Item([36] + Digits(|data|) + [13] + [NL] + (data + CRLF), 1, 0)
    case NullBulk => Item([36, 45, 49, 13] + [NL], 1, 0)
  }

  lemma SimpleFramed(text: bytes)
    requires RespOk(Simple(text))
    ensures Framed(NextResp, RespItem(Simple(text)))
  {
    var line := text + [13];
    forall rest: bytes
      ensures NextResp(line + [NL] + rest) == Frame(|line| + 1, 1, RespItem(Simple(text)).errs)
    {
      IndexOfEnd(line, rest, NL);
      assert (line + [NL] + rest)[0] == text[0];
    }
  }

  lemma BulkFramed(data: bytes)
    requires RespOk(Bulk(data))
    ensures Framed(NextResp, RespItem(Bulk(data)))
  {
    hide Strtol, Digits;
    var line := [36] + Digits(|data|) + [13];
    var tail := data + CRLF;
    var x := RespItem(Bulk(data));
    assert NL !in line;
    ReadsBack(|data|, [13]);
    forall rest: bytes
      ensures NextResp(x.wire + rest) == Frame(|x.wire|, 1, 0)
    {
      var buf := x.wire + rest;
      assert buf == line + [NL] + (tail + rest);
      IndexOfEnd(line, tail + rest, NL);
      assert buf[1..|line|] == Digits(|data|) + [13];
      assert buf[0] == 36;
    }
  }

  lemma NullFramed()
    ensures Framed(NextResp, RespItem(NullBulk))
  {
    var line: bytes := [36, 45, 49, 13];
    forall rest: bytes
      ensures NextResp(line + [NL] + rest) == Frame(5, 1, 0)
    {
      IndexOfEnd(line, rest, NL);
      MinusOne();
      assert (line + [NL] + rest)[1..4] == [45, 49, 13];
      assert (line + [NL] + rest)[0] == 36;
    }
  }

  lemma MinusOne()
    ensures Strtol([45, 49, 13]) == -1
  {
    var t: bytes := [45, 49, 13];
    assert t[1..] == [49, 13];
    assert Digits(1) == [49];
    NumberOfDigits(1);
    RunOf([49], [13]);
    assert ([49] + [13])[..1] == [49];
    assert [49] + [13] == t[1..];
  }

  function TntItem(body: bytes): Item {
    Item([0xCE] + BE(|body|, 4) + body, 1, BodyErrs(body))
  }

  lemma TntFramed(body: bytes)
    requires |body| < TWO32
    ensures Framed(NextTnt, TntItem(body))
  {
    var x := TntItem(body);
    Caps();
    UnBEofBE(|body|, 4);
    forall rest: bytes
      ensures NextTnt(x.wire + rest) == Frame(|x.wire|, 1, BodyErrs(body))
    {
      hide BE, UnBE, BodyErrs;
      assert (x.wire + rest)[1..5] == BE(|body|, 4);
      assert (x.wire + rest)[5..5 + |body|] == body;
    }
  }

  // ---------------------------------------------------------------- cutting the stream

  /** What the worker has after some reads: the counts so far and the bytes not used yet. */
  datatype Fed = Fed(replies: nat, errs: nat, left: bytes)

  function Feed(next: bytes -> Next, chunks: seq<bytes>): Fed {
    if chunks == [] then Fed(0, 0, [])
    else
      var f := Feed(next, chunks[..|chunks| - 1]);
      var buf := f.left + chunks[|chunks| - 1];
      var t := Count(next, buf);
      Fed(f.replies + t.replies, f.errs + t.errs, buf[t.used..])
  }

  /** What one read of the whole stream would give. */
  function Whole(next: bytes -> Next, s: bytes): Fed {
    var t := Count(next, s);
    Fed(t.replies, t.errs, s[t.used..])
  }

  /** The stream does not fall out of step before its last byte. */
  predicate Steady(next: bytes -> Next, s: bytes) {
    s == [] || !Count(next, s[..|s| - 1]).broken
  }

  /** Counting what was left over once more changes nothing. */
  lemma CountAgain(next: bytes -> Next, s: bytes)
    requires Sound(next) && next([]) == Wait
    ensures var left := Whole(next, s).left; Count(next, left) == Tally(0, 0, 0, false)
  {
    hide Sound, Count;
    CountStep(next, []);
    var t := Count(next, s);
    if t.broken {
      BrokenUsesAll(next, s);
    } else {
      CountSplit(next, s, []);
      assert s + [] == s && s[t.used..] + [] == s[t.used..];
    }
  }

  lemma {:induction false} BrokenUsesAll(next: bytes -> Next, s: bytes)
    requires Count(next, s).broken
    ensures Count(next, s).used == |s|
    decreases |s|
  {
    if next(s).Frame? {
      BrokenUsesAll(next, s[next(s).len..]);
    }
  }

  /** A prefix that ends before the last byte of a steady stream is in step. */
  lemma SteadyPrefix(next: bytes -> Next, a: bytes, b: bytes)
    requires Sound(next) && Steady(next, a + b) && b != []
    ensures !Count(next, a).broken && Steady(next, a)
  {
    hide Sound, Count;
    var s := a + b;
    assert s[..|s| - 1] == a + b[..|b| - 1];
    if Count(next, a).broken {
      BrokenStays(next, a, b[..|b| - 1]);
    }
    if a != [] && Count(next, a[..|a| - 1]).broken {
      assert a[..|a| - 1] + [a[|a| - 1]] == a;
      BrokenStays(next, a[..|a| - 1], [a[|a| - 1]]);
    }
  }

  /** However a steady stream is cut into reads, the counts and what is left are those of one read. */
  lemma {:induction false} AnyCut(next: bytes -> Next, chunks: seq<bytes>)
    requires Sound(next) && next([]) == Wait && Steady(next, Concat(chunks))
    ensures Feed(next, chunks) == Whole(next, Concat(chunks))
    decreases |chunks|
  {
    hide Sound, Count, Steady;
    CountStep(next, []);
    if chunks != [] {
      var front, last := chunks[..|chunks| - 1], chunks[|chunks| - 1];
      var a := Concat(front);
      if last == [] {
        assert a + last == a;
        AnyCut(next, front);
        CountAgain(next, a);
        assert Feed(next, front).left + last == Feed(next, front).left;
      } else {
        SteadyPrefix(next, a, last);
        AnyCut(next, front);
        CountSplit(next, a, last);
        var t := Count(next, a);
        var u := Count(next, a[t.used..] + last);
        assert (a + last)[t.used + u.used..] == (a[t.used..] + last)[u.used..];
      }
    }
  }

  /** For every stream of whole frames and every way of cutting it, each reply and each error is counted once
      and nothing is left over. */
  lemma EachCountedOnce(next: bytes -> Next, items: seq<Item>, chunks: seq<bytes>)
    requires Sound(next) && next([]) == Wait
    requires (forall i :: 0 <= i < |items| ==> Framed(next, items[i])) && Concat(chunks) == Stream(items)
    ensures Feed(next, chunks) == Fed(Replies(items), Errors(items), [])
  {
    hide Sound, Framed;
    StreamCounts(next, items);
    var s := Stream(items);
    if s != [] && Count(next, s[..|s| - 1]).broken {
      assert s[..|s| - 1] + [s[|s| - 1]] == s;
      BrokenStays(next, s[..|s| - 1], [s[|s| - 1]]);
    }
    AnyCut(next, chunks);
  }

  // ---------------------------------------------------------------- when the cutting matters

  /** Every frame that starts with 16 bytes to be seen starts with the magic byte. */
  predicate InStep(s: bytes) {
    |s| < 16 || (s[0] == MAGIC && (|s| < 16 + LE32(s[4..8]) || InStep(s[16 + LE32(s[4..8])..])))
  }

  lemma {:induction false} BrokenIsOutOfStep(s: bytes)
    ensures Count(NextBin, s).broken <==> !InStep(s)
  {
    hide LE32;
    if |s| >= 16 && s[0] == MAGIC && |s| >= 16 + LE32(s[4..8]) {
      BrokenIsOutOfStep(s[16 + LE32(s[4..8])..]);
    }
  }

  /** No way of cutting changes what the binary counter finds. */
  ghost predicate CutFree(s: bytes) {
    forall chunks: seq<bytes> :: Concat(chunks) == s ==> Feed(NextBin, chunks) == Whole(NextBin, s)
  }

  /** What the binary counter finds does not depend on the cutting if and only if the stream is in step before
      its last byte: otherwise it drops what it has at a place that depends on the reads. */
  lemma CutFreeExactly(s: bytes)
    ensures CutFree(s) <==> s == [] || InStep(s[..|s| - 1])
  {
    BinSound();
    hide Sound, Count, InStep;
    if s == [] || InStep(s[..|s| - 1]) {
      if s != [] {
        BrokenIsOutOfStep(s[..|s| - 1]);
      }
      forall chunks: seq<bytes> | Concat(chunks) == s
        ensures Feed(NextBin, chunks) == Whole(NextBin, s)
      {
        AnyCut(NextBin, chunks);
      }
    } else {
      BrokenIsOutOfStep(s[..|s| - 1]);
      LastByteApart(s);
    }
  }

  /** With the last byte in a read of its own, a stream out of step before it leaves that byte over. */
  lemma LastByteApart(s: bytes)
    requires s != [] && Count(NextBin, s[..|s| - 1]).broken
    ensures var chunks := [s[..|s| - 1], [s[|s| - 1]]];
            && Concat(chunks) == s && Feed(NextBin, chunks).left == [s[|s| - 1]] && Whole(NextBin, s).left == []
  {
    BinSound();
    hide Sound, Count;
    var a, last := s[..|s| - 1], [s[|s| - 1]];
    assert a + last == s;
    BrokenStays(NextBin, a, last);
    BrokenUsesAll(NextBin, a);
    BrokenUsesAll(NextBin, s);
    TwoChunks(NextBin, a, last);
    CountStep(NextBin, last);
    assert Whole(NextBin, a).left + last == last;
  }

  lemma TwoChunks(next: bytes -> Next, a: bytes, b: bytes)
    ensures Concat([a, b]) == a + b && Feed(next, [a]) == Whole(next, a)
    ensures var f := Whole(next, a); var t := Count(next, f.left + b);
            Feed(next, [a, b]) == Fed(f.replies + t.replies, f.errs + t.errs, (f.left + b)[t.used..])
  {
    hide Count;
    var two, one := [a, b], [a];
    assert two[..1] == one && one[..0] == [];
    assert [] + a == a;
    assert Concat(one) == a;
  }

  /** In numbers: 32 bytes without the magic byte are one error in one read, and two in two. */
  lemma DesyncDependsOnCut(junk: bytes)
    requires |junk| == 16 && junk[0] != MAGIC
    ensures Feed(NextBin, [junk + junk]).errs == 1 && Feed(NextBin, [junk, junk]).errs == 2
  {
    TwoChunks(NextBin, junk + junk, []);
    TwoChunks(NextBin, junk, junk);
    assert (junk + junk)[0] == junk[0];
    CountStep(NextBin, junk);
    CountStep(NextBin, junk + junk);
    assert Whole(NextBin, junk).left + junk == junk;
  }

  // ---------------------------------------------------------------- the four protocols together

  datatype Protocol = Tnt | Bin | Perf | Redis

  function NextOf(kind: Protocol): bytes -> Next {
    match kind
    case Tnt => NextTnt
    case Bin => NextBin
    case Perf => NextPerf
    case Redis => NextResp
  }

  lemma NextOfSound(kind: Protocol)
    ensures Sound(NextOf(kind)) && NextOf(kind)([]) == Wait
  {
    PerfSound();
    BinSound();
    RespSound();
    TntSound();
  }

  /** The three line and length protocols never give up. */
  lemma FramesInStep(kind: Protocol, chunks: seq<bytes>)
    requires !kind.Bin?
    ensures Feed(NextOf(kind), chunks) == Whole(NextOf(kind), Concat(chunks))
  {
    NextOfSound(kind);
    hide Sound, Count;
    var s := Concat(chunks);
    if s != [] {
      NeverBroken(kind, s[..|s| - 1]);
    }
    hide NextOf;
    AnyCut(NextOf(kind), chunks);
  }

  lemma {:induction false} NeverBroken(kind: Protocol, s: bytes)
    requires !kind.Bin?
    ensures !Count(NextOf(kind), s).broken
    decreases |s|
  {
    hide NextPerf, NextResp, NextTnt;
    var next := NextOf(kind);
    NoBreak(kind, s);
    if next(s).Frame? && 0 < next(s).len <= |s| {
      NeverBroken(kind, s[next(s).len..]);
    }
  }

  lemma NoBreak(kind: Protocol, s: bytes)
    requires !kind.Bin?
    ensures NextOf(kind)(s) != Broken
  {
    TntFrame(s);
    hide NextTnt, Strtol;
  }

  /** One reply of a server. */
  datatype Reply =
    | TntReply(body: bytes)
    | BinReply(version: byte, kind: byte, flags: byte, id: bytes, payload: bytes)
    | PerfReply(line: bytes)
    | RedisReply(resp: Resp)

  /** A well-formed reply of the protocol: for IProto, the frame settles its header; for the binary one, notifications
      count as well-formed too. */
  predicate WellFormed(kind: Protocol, r: Reply) {
    match r
    case TntReply(body) => kind.Tnt? && |body| < TWO32 && BodySettled(body)
    case BinReply(_, _, _, id, payload) => kind.Bin? && |id| == 8 && |payload| < TWO32
    case PerfReply(line) => kind.Perf? && NL !in line
    case RedisReply(resp) => kind.Redis? && RespOk(resp)
  }

  function ItemOf(r: Reply): Item {
    match r
    case TntReply(body) => TntItem(body)
    case BinReply(version, kind, flags, id, payload) => BinItem(version, kind, flags, id, payload)
    case PerfReply(line) => PerfItem(line)
    case RedisReply(resp) => RespItem(resp)
  }

  function ItemsOf(rs: seq<Reply>): (items: seq<Item>)
    ensures |items| == |rs| && forall i :: 0 <= i < |rs| ==> items[i] == ItemOf(rs[i])
  {
    seq(|rs|, i requires 0 <= i < |rs| => ItemOf(rs[i]))
  }

  predicate AllWellFormed(kind: Protocol, rs: seq<Reply>) {
    forall i :: 0 <= i < |rs| ==> WellFormed(kind, rs[i])
  }

  /** Every well-formed reply is seen as one frame with the counts of its kind. */
  lemma ReplyFramed(kind: Protocol, r: Reply)
    requires WellFormed(kind, r)
    ensures Framed(NextOf(kind), ItemOf(r))
  {
    hide Framed, NextTnt, NextBin, NextPerf, NextResp, RespItem, BinItem, PerfItem, TntItem;
    match r {
      case TntReply(body) => TntFramed(body);
      case BinReply(version, k, flags, id, payload) => BinFramed(version, k, flags, id, payload);
      case PerfReply(line) => PerfFramed(line);
      case RedisReply(resp) =>
        match resp {
          case Simple(text) => SimpleFramed(text);
          case Bulk(data) => BulkFramed(data);
          case NullBulk => NullFramed();
        }
    }
  }

  /** Each well-formed reply is counted once over the pieces, and so is each error its frame shows. */
  lemma FramesCounted(kind: Protocol, rs: seq<Reply>, chunks: seq<bytes>)
    requires AllWellFormed(kind, rs) && Concat(chunks) == Stream(ItemsOf(rs))
    ensures Feed(NextOf(kind), chunks) == Fed(Replies(ItemsOf(rs)), Errors(ItemsOf(rs)), [])
  {
    NextOfSound(kind);
    hide Sound, Framed, NextOf, WellFormed, ItemOf, Feed;
    forall i | 0 <= i < |rs|
      ensures Framed(NextOf(kind), ItemsOf(rs)[i])
    {
      ReplyFramed(kind, rs[i]);
    }
    EachCountedOnce(NextOf(kind), ItemsOf(rs), chunks);
  }

  /** The size of the read buffer. */
  const CAP: nat := 0x10_0000

  lemma ConcatLast(cs: seq<bytes>, c: bytes)
    ensures Concat(cs + [c]) == Concat(cs) + c
  {
    assert (cs + [c])[..|cs|] == cs;
  }

  /** What is left of a stream of whole frames is less than one frame. */
  lemma {:induction false} LeftIsShort(next: bytes -> Next, items: seq<Item>, p: bytes)
    requires Sound(next) && next([]) == Wait && p <= Stream(items)
    requires forall i :: 0 <= i < |items| ==> Framed(next, items[i]) && |items[i].wire| <= CAP
    ensures !Count(next, p).broken && |p| - Count(next, p).used < CAP
    decreases |items|
  {
    hide Sound, Count;
    if items == [] {
      CountStep(next, p);
    } else {
      FrontFrame(next, items, p);
      CountStep(next, p);
      var n := |items[0].wire|;
      if |p| >= n {
        LeftIsShort(next, items[1..], p[n..]);
      }
    }
  }

  lemma FrontFrame(next: bytes -> Next, items: seq<Item>, p: bytes)
    requires Sound(next) && items != [] && p <= Stream(items) && Framed(next, items[0])
    ensures var n := |items[0].wire|;
            && n > 0
            && (|p| >= n ==> next(p) == Frame(n, items[0].replies, items[0].errs) && p[n..] <= Stream(items[1..]))
            && (|p| < n ==> next(p) == Wait)
  {
    hide Sound;
    var x, rest := items[0], Stream(items[1..]);
    hide Stream;
    if |p| >= |x.wire| {
      PrefixSplit(x.wire, rest, p);
    } else {
      var more := (x.wire + rest)[|p|..];
      assert p + more == x.wire + rest;
      More(next, p, more);
    }
  }

  lemma PrefixSplit(a: bytes, b: bytes, p: bytes)
    requires p <= a + b && |p| >= |a|
    ensures p == a + p[|a|..] && p[|a|..] <= b
  {
    assert p == (a + b)[..|p|];
  }
}
