/** The counters as cursor loops, and the worker's read buffer. */
module FramersCode {
  import opened Wrappers
  import opened Msgpack
  import opened Text
  import opened MsgpackCode
  import opened ReplyHeader
  import opened Framers
  import opened FramerReads
  import Iproto

  /** The portable substring search. */
  method MemFind(h: bytes, nd: bytes) returns (i: int)
    requires nd != []
    ensures i >= 0 ==> i <= |h| && nd <= h[i..]
    ensures i < 0 <==> !Within(h, nd)
  {
    if |nd| > |h| {
      return -1;
    }
    i := 0;
    while i + |nd| <= |h|
      invariant 0 <= i <= |h|
      invariant forall j :: 0 <= j < i ==> !(nd <= h[j..])
    {
      if h[i] == nd[0] && h[i..i + |nd|] == nd {
        assert nd <= h[i..];
        return;
      }
      assert h[i..i + |nd|] == h[i..][..|nd|];
      i := i + 1;
    }
    return -1;
  }

  /** What the loops keep: the counts so far plus those of the rest make the whole. */
  ghost predicate Split(next: bytes -> Next, buf: bytes, p: nat, cnt: nat, errs: nat) {
    && p <= |buf|
    && var t := Count(next, buf[p..]);
       Count(next, buf) == Tally(cnt + t.replies, errs + t.errs, p + t.used, t.broken)
  }

  lemma SplitStart(next: bytes -> Next, buf: bytes)
    ensures Split(next, buf, 0, 0, 0)
  {
    assert buf[0..] == buf;
  }

  lemma SplitStep(next: bytes -> Next, buf: bytes, p: nat, cnt: nat, errs: nat)
    requires Split(next, buf, p, cnt, errs)
    ensures var f := next(buf[p..]);
            f.Frame? && 0 < f.len <= |buf| - p ==> Split(next, buf, p + f.len, cnt + f.replies, errs + f.errs)
  {
    var f := next(buf[p..]);
    if f.Frame? && 0 < f.len <= |buf| - p {
      assert buf[p..][f.len..] == buf[p + f.len..];
    }
  }

  /** At a front that is no frame the loop ends. */
  lemma SplitEnd(next: bytes -> Next, buf: bytes, p: nat, cnt: nat, errs: nat)
    requires Split(next, buf, p, cnt, errs)
    ensures next(buf[p..]) == Wait ==> Count(next, buf) == Tally(cnt, errs, p, false)
    ensures next(buf[p..]) == Broken ==> Count(next, buf) == Tally(cnt, errs + 1, |buf|, true)
  {
    CountStep(next, buf[p..]);
  }

  lemma PerfAt(buf: bytes, p: nat)
    requires p <= |buf|
    ensures var nl := IndexOf(buf[p..], NL);
            NextPerf(buf[p..]) ==
              if p + nl == |buf| then Wait else Frame(nl + 1, 1, if Within(buf[p..p + nl], ERROR_WORD) then 1 else 0)
  {
    hide Within;
    var nl := IndexOf(buf[p..], NL);
    if p + nl < |buf| {
      assert buf[p..][..nl] == buf[p..p + nl];
    }
  }

  method CountPerf(buf: bytes) returns (cnt: nat, used: nat, errs: nat)
    ensures var t := Count(NextPerf, buf); cnt == t.replies && used == t.used && errs == t.errs
  {
    hide Split, Count, Within, NextPerf;
    cnt, used, errs := 0, 0, 0;
    SplitStart(NextPerf, buf);
    while used + IndexOf(buf[used..], NL) < |buf|
      invariant used <= |buf|
      invariant Split(NextPerf, buf, used, cnt, errs)
      decreases |buf| - used
    {
      var nl := IndexOf(buf[used..], NL);
      PerfAt(buf, used);
      SplitStep(NextPerf, buf, used, cnt, errs);
      var at := MemFind(buf[used..used + nl], ERROR_WORD);
      if at >= 0 {
        errs := errs + 1;
      }
      cnt := cnt + 1;
      used := used + nl + 1;
    }
    PerfAt(buf, used);
    SplitEnd(NextPerf, buf, used, cnt, errs);
  }

  method CountBin(buf: bytes) returns (cnt: nat, used: nat, errs: nat)
    requires |buf| <= CAP
    ensures var t := Count(NextBin, buf); cnt == t.replies && used == t.used && errs == t.errs
  {
    hide Split, Count, LE32;
    cnt, used, errs := 0, 0, 0;
    SplitStart(NextBin, buf);
    while |buf| - used >= 16
      invariant used <= |buf|
      invariant Split(NextBin, buf, used, cnt, errs)
      decreases |buf| - used
    {
      var plen := LE32(buf[used + 4..used + 8]);
      assert buf[used..][4..8] == buf[used + 4..used + 8];
      SplitEnd(NextBin, buf, used, cnt, errs);
      if buf[used] != MAGIC {
        errs := errs + 1;
        used := |buf|;
        return;
      }
      if |buf| - used < 16 + plen {
        return;
      }
      SplitStep(NextBin, buf, used, cnt, errs);
      if buf[used + 2] == 2 {
        if buf[used + 3] % 2 == 1 {
          errs := errs + 1;
        }
        cnt := cnt + 1;
      }
      used := used + (16 + plen) % TWO32;
    }
    SplitEnd(NextBin, buf, used, cnt, errs);
  }

  /** The front of the rest, read at its place in the buffer. */
  lemma RespAt(buf: bytes, p: nat, behind: bytes)
    requires p < |buf|
    ensures var nl := IndexOf(buf[p..], NL); var len := Strtol(buf[p + 1..] + behind);
            RespIn(buf[p..], behind) ==
              if p + nl == |buf| then Wait
              else if buf[p] != 36 then Frame(nl + 1, 1, if buf[p] == 45 then 1 else 0)
              else if len < 0 then Frame(nl + 1, 1, 0)
              else if p + nl + 1 + len + 2 > |buf| then Wait
              else Frame(nl + 1 + len + 2, 1, 0)
  {
    hide Strtol;
    assert buf[p..][1..] == buf[p + 1..];
  }

  method CountResp(buf: bytes, behind: bytes) returns (cnt: nat, used: nat, errs: nat)
    ensures var t := Count(NextIn(Redis, behind), buf); cnt == t.replies && used == t.used && errs == t.errs
  {
    hide Strtol, Split, Count, RespIn;
    ghost var next := NextIn(Redis, behind);
    cnt, used, errs := 0, 0, 0;
    SplitStart(next, buf);
    while used < |buf|
      invariant used <= |buf|
      invariant Split(next, buf, used, cnt, errs)
      decreases |buf| - used
    {
      RespAt(buf, used, behind);
      SplitEnd(next, buf, used, cnt, errs);
      SplitStep(next, buf, used, cnt, errs);
      var nl := IndexOf(buf[used..], NL);
      if nl == |buf| - used {
        return;
      }
      if buf[used] == 36 {
        var len := Strtol(buf[used + 1..] + behind);
        if len >= 0 {
          if used + nl + 1 + len + 2 > |buf| {
            return;
          }
          used := used + nl + 1 + len + 2;
        } else {
          used := used + nl + 1;
        }
      } else {
        if buf[used] == 45 {
          errs := errs + 1;
        }
        used := used + nl + 1;
      }
      cnt := cnt + 1;
    }
    EmptyRest(buf, behind, cnt, errs);
  }

  lemma EmptyRest(buf: bytes, behind: bytes, cnt: nat, errs: nat)
    requires Split(NextIn(Redis, behind), buf, |buf|, cnt, errs)
    ensures Count(NextIn(Redis, behind), buf) == Tally(cnt, errs, |buf|, false)
  {
    hide Count, Split, RespIn;
    assert buf[|buf|..] == [];
    NothingSeen(Redis, behind);
    SplitEnd(NextIn(Redis, behind), buf, |buf|, cnt, errs);
  }

  /** Bytes passed over are not used up until the frame behind them is complete. */
  predicate Passed(buf: bytes, behind: bytes, used: nat, p: nat)
    requires used <= p <= |buf|
  {
    var n := TntIn(buf[p..], behind);
    && Noise(buf[used..]) == p - used + Noise(buf[p..])
    && TntIn(buf[used..], behind) == if n.Frame? then Frame(p - used + n.len, n.replies, p - used + n.errs) else Wait
  }

  lemma PassStart(buf: bytes, behind: bytes, p: nat)
    requires p <= |buf|
    ensures Passed(buf, behind, p, p)
  {
    TntShape(buf[p..], behind);
    hide TntIn;
  }

  lemma PassOver(buf: bytes, behind: bytes, used: nat, p: nat)
    requires used <= p && p + 5 <= |buf| && buf[p] != 0xCE && Passed(buf, behind, used, p)
    ensures Passed(buf, behind, used, p + 1)
  {
    hide ReplyErrs, UnBE;
    assert buf[p..][1..] == buf[p + 1..];
  }

  lemma TntInStep(buf: bytes, behind: bytes, p: nat)
    requires p <= |buf|
    ensures p + 5 > |buf| ==> TntIn(buf[p..], behind) == Wait
    ensures p + 5 <= |buf| && buf[p] == 0xCE ==>
              var end := p + 5 + UnBE(buf[p + 1..p + 5]);
              TntIn(buf[p..], behind) ==
              if end > |buf| then Wait else Frame(end - p, 1, ReplyErrs(buf[p + 5..end], buf[end..] + behind))
  {
    hide UnBE, ReplyErrs;
    if p + 5 <= |buf| {
      assert buf[p..][1..5] == buf[p + 1..p + 5];
      var end := p + 5 + UnBE(buf[p + 1..p + 5]);
      if end <= |buf| {
        assert buf[p..][5..end - p] == buf[p + 5..end] && buf[p..][end - p..] == buf[end..];
      }
    }
  }

  /** At the marker byte, or at the end, the front is decided. */
  lemma PassEnd(buf: bytes, behind: bytes, used: nat, p: nat)
    requires used <= p <= |buf| && Passed(buf, behind, used, p)
    ensures p + 5 > |buf| ==> TntIn(buf[used..], behind) == Wait && Noise(buf[used..]) == p - used
    ensures p + 5 <= |buf| && buf[p] == 0xCE ==>
              var end := p + 5 + UnBE(buf[p + 1..p + 5]);
              && Noise(buf[used..]) == p - used
              && TntIn(buf[used..], behind) ==
                 if end > |buf| then Wait
                 else Frame(end - used, 1, p - used + ReplyErrs(buf[p + 5..end], buf[end..] + behind))
  {
    hide UnBE, ReplyErrs, TntIn;
    TntInStep(buf, behind, p);
  }

  /** The loop over the header entries of one frame; its end is looked at between entries only. */
  method HeaderErrors(body: bytes, after: bytes) returns (errs: nat)
    requires |after| >= REACH
    ensures errs == ReplyErrs(body, after)
  {
    hide DecodeUint;
    if body == [] || !(0x80 <= body[0] <= 0x8f) {
      return 0;
    }
    var hmap, mi, p := body[0] as nat - 0x80, 0, 1;
    var data := body + after;
    assert data[1..] == body[1..] + after;
    EntriesReadable(data[1..], |after|, hmap);
    errs := 0;
    while mi < hmap && p < |body|
      invariant mi <= hmap && p <= |data|
      invariant var e := EntryErrs(data[p..], |after|, hmap - mi); e.Some? && ReplyErrs(body, after) == errs + e.value
      decreases hmap - mi
    {
      ghost var rest := data[p..];
      var k, q := DecodeUintAt(data, p);
      NineBytes(rest);
      if k == Iproto.REQUEST_TYPE {
        var code;
        code, p := DecodeUintAt(data, q);
        if code != Iproto.OK {
          errs := errs + 1;
        }
      } else if k == ERROR_24 {
        errs := errs + 1;
        return;
      } else if data[q] <= 0x7f || data[q] >= 0xcc {
        var _, next := DecodeUintAt(data, q);
        p := next;
      } else {
        assert data[q..][1..] == data[q + 1..];
        p := q + 1;
      }
      mi := mi + 1;
    }
  }

  /** Bytes passed over count as errors, although they are not used up until a frame is complete. */
  method CountTnt(buf: bytes, behind: Memory) returns (cnt: nat, used: nat, errs: nat)
    ensures var t := Count(NextIn(Tnt, behind), buf);
            cnt == t.replies && used == t.used && errs == t.errs + Noise(buf[t.used..])
  {
    hide Split, Count, UnBE, TntIn, Noise, Passed, ReplyErrs;
    ghost var next := NextIn(Tnt, behind);
    cnt, used, errs := 0, 0, 0;
    var p := 0;
    SplitStart(next, buf);
    PassStart(buf, behind, 0);
    while p + 5 <= |buf|
      invariant used <= p <= |buf| && p - used <= errs
      invariant Split(next, buf, used, cnt, errs - (p - used)) && Passed(buf, behind, used, p)
      decreases |buf| - p
    {
      if buf[p] != 0xCE {
        PassOver(buf, behind, used, p);
        errs := errs + 1;
        p := p + 1;
      } else {
        PassEnd(buf, behind, used, p);
        SplitEnd(next, buf, used, cnt, errs - (p - used));
        SplitStep(next, buf, used, cnt, errs - (p - used));
        var len := UnBE(buf[p + 1..p + 5]);
        if p + 5 + len > |buf| {
          return;
        }
        var e := HeaderErrors(buf[p + 5..p + 5 + len], buf[p + 5 + len..] + behind);
        errs := errs + e;
        cnt := cnt + 1;
        p := p + 5 + len;
        used := p;
        PassStart(buf, behind, p);
      }
    }
    PassEnd(buf, behind, used, p);
    SplitEnd(next, buf, used, cnt, errs - (p - used));
  }

  method CountReplies(kind: Protocol, buf: bytes, behind: Memory) returns (cnt: nat, used: nat, errs: nat)
    requires |buf| <= CAP
    ensures var t := Count(NextIn(kind, behind), buf);
            cnt == t.replies && used == t.used && errs == t.errs + NoiseOf(kind, buf[t.used..])
  {
    hide Count, Noise;
    match kind {
      case Tnt => cnt, used, errs := CountTnt(buf, behind);
      case Bin => cnt, used, errs := CountBin(buf);
      case Perf => cnt, used, errs := CountPerf(buf);
      case Redis => cnt, used, errs := CountResp(buf, behind);
    }
  }

  /** `read`: new bytes behind those already there. */
  method Fill(a: array<byte>, at: nat, chunk: bytes)
    requires at + |chunk| <= a.Length
    modifies a
    ensures a[..at + |chunk|] == old(a[..at]) + chunk
  {
    for i := 0 to |chunk|
      invariant a[..at] == old(a[..at]) && a[at..at + i] == chunk[..i]
    {
      a[at + i] := chunk[i];
    }
    assert a[..at + |chunk|] == a[..at] + a[at..at + |chunk|];
  }

  /** `memmove`: the unused bytes go to the front. */
  method MoveFront(a: array<byte>, used: nat, n: nat)
    requires used <= n <= a.Length
    modifies a
    ensures a[..n - used] == old(a[used..n])
  {
    for i := 0 to n - used
      invariant a[..i] == old(a[used..used + i])
      invariant a[used + i..] == old(a[used + i..])
    {
      a[i] := a[used + i];
    }
  }

  /** One read: count what is complete in the buffer with the new bytes and keep the rest. The counters may look at the
      old bytes behind the new ones and at what is behind the array. */
  method ReadOnce(kind: Protocol, a: array<byte>, n: nat, chunk: bytes, outside: Memory)
    returns (cnt: nat, errs: nat, n': nat, ghost r: Read)
    requires n + |chunk| <= a.Length <= CAP
    modifies a
    ensures n' <= a.Length && r.chunk == chunk
    ensures forall f: Fed :: f.left == old(a[..n]) ==>
              FedMore(kind, f, r) == Fed(f.replies + cnt, f.errs + errs, a[..n'])
  {
    hide Count, NextIn, Noise;
    Fill(a, n, chunk);
    var used;
    var behind: Memory := a[n + |chunk|..] + outside;
    r := Read(chunk, behind);
    cnt, used, errs := CountReplies(kind, a[..n + |chunk|], behind);
    MoveFront(a, used, n + |chunk|);
    n' := n + |chunk| - used;
  }

  /** The worker's loop: which reads it makes, and that the counts and what is left are those of these reads. When a
      stream of well-formed replies was read to its end, each reply and each error has been counted once. */
  method Worker(kind: Protocol, stream: bytes, sizes: seq<nat>, outside: Memory)
    returns (replies: nat, errs: nat, got: nat, left: bytes, ghost rs: seq<Read>)
    ensures Offered(kind, stream, sizes, rs) && Ended(kind, stream, sizes, rs)
    ensures got <= |stream| && Concat(Chunks(rs)) == stream[..got]
    ensures FeedIn(kind, rs) == Fed(replies, errs, left)
    ensures forall xs :: AllWellFormed(kind, xs) && stream == Stream(ItemsOf(xs)) && got == |stream| ==>
              replies == Replies(ItemsOf(xs)) && errs == Errors(ItemsOf(xs)) && left == []
  {
    hide FedMore, FeedIn, Concat, AllWellFormed, Offered, Delivered;
    var inBuf := new byte[CAP];
    var inLen: nat := 0;
    replies, errs, got, rs := 0, 0, 0, [];
    NothingYet(kind, stream, sizes);
    assert stream[..0] == [] && inBuf[..0] == [];
    var i := 0;
    while i < |sizes|
      invariant 0 <= i <= |sizes| && |rs| == i && got <= |stream| && inLen <= CAP
      invariant Concat(Chunks(rs)) == stream[..got] && Offered(kind, stream, sizes, rs)
      invariant FeedIn(kind, rs) == Fed(replies, errs, inBuf[..inLen])
    {
      var r := sizes[i];
      if r > CAP - inLen { r := CAP - inLen; }
      if r > |stream| - got { r := |stream| - got; }
      DeliveredIs(kind, stream, sizes[i], rs, r);
      if r == 0 {
        break;
      }
      var chunk := stream[got..got + r];
      var cnt, e;
      ghost var step;
      cnt, e, inLen, step := ReadOnce(kind, inBuf, inLen, chunk, outside);
      OneMore(kind, stream, sizes, rs, step);
      assert stream[..got] + chunk == stream[..got + r];
      replies, errs, got := replies + cnt, errs + e, got + r;
      rs := rs + [step];
      i := i + 1;
    }
    left := inBuf[..inLen];
    forall xs | AllWellFormed(kind, xs) && stream == Stream(ItemsOf(xs)) && got == |stream|
      ensures replies == Replies(ItemsOf(xs)) && errs == Errors(ItemsOf(xs)) && left == []
    {
      assert stream[..got] == stream;
      RepliesCounted(kind, xs, rs);
    }
  }

  lemma NothingYet(kind: Protocol, stream: bytes, sizes: seq<nat>)
    ensures Concat(Chunks([])) == [] && FeedIn(kind, []) == Fed(0, 0, []) && Offered(kind, stream, sizes, [])
  {
  }

  lemma DeliveredIs(kind: Protocol, stream: bytes, size: nat, rs: seq<Read>, r: nat)
    requires |Concat(Chunks(rs))| <= |stream| && |FeedIn(kind, rs).left| <= CAP
    requires r == Min(Min(size, CAP - |FeedIn(kind, rs).left|), |stream| - |Concat(Chunks(rs))|)
    ensures Delivered(kind, stream, size, rs) == r
  {
    hide FeedIn, Concat;
  }

  lemma OneMore(kind: Protocol, stream: bytes, sizes: seq<nat>, rs: seq<Read>, step: Read)
    requires Offered(kind, stream, sizes, rs) && |rs| < |sizes|
    requires var got, d := |Concat(Chunks(rs))|, Delivered(kind, stream, sizes[|rs|], rs);
             d > 0 && got + d <= |stream| && step.chunk == stream[got..got + d]
    ensures var all := rs + [step];
            && Offered(kind, stream, sizes, all) && FeedIn(kind, all) == FedMore(kind, FeedIn(kind, rs), step)
            && Concat(Chunks(all)) == Concat(Chunks(rs)) + step.chunk
  {
    hide FedMore, Delivered, FeedIn, Concat, Chunks;
    assert (rs + [step])[..|rs|] == rs;
    ChunksMore(rs, step);
    FeedMore(kind, rs, step);
  }

  lemma ChunksMore(rs: seq<Read>, step: Read)
    ensures Concat(Chunks(rs + [step])) == Concat(Chunks(rs)) + step.chunk
  {
    hide Concat;
    assert Chunks(rs + [step]) == Chunks(rs) + [step.chunk];
    ConcatLast(Chunks(rs), step.chunk);
  }

  lemma FeedMore(kind: Protocol, rs: seq<Read>, step: Read)
    ensures FeedIn(kind, rs + [step]) == FedMore(kind, FeedIn(kind, rs), step)
  {
    hide FedMore;
    assert (rs + [step])[..|rs|] == rs;
  }
}
