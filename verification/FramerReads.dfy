/**
 The counters as the worker meets them. A read brings a piece of the stream; behind the buffered bytes stands whatever
 was there before, and two of the counters look at it: the IProto counter completes a header entry from it, the Redis
 counter looks for the number of a blank bulk header in it.
 */
module FramerReads {
  import opened Wrappers
  import opened Msgpack
  import opened Text
  import opened ReplyHeader
  import opened Framers

  /** A read: the bytes it brings, and those that then stand behind the buffered ones. */
  datatype Read = Read(chunk: bytes, behind: Memory)

  function Chunks(rs: seq<Read>): (cs: seq<bytes>)
    ensures |cs| == |rs| && forall i :: 0 <= i < |rs| ==> cs[i] == rs[i].chunk
  {
    seq(|rs|, i requires 0 <= i < |rs| => rs[i].chunk)
  }

  // ---------------------------------------------------------------- the counters

  /** The IProto counter at the front of the buffer. */
  function TntIn(buf: bytes, behind: bytes): Next {
    if |buf| < 5 then Wait
    else if buf[0] != 0xCE then
      var n := TntIn(buf[1..], behind);
      if n.Frame? then Frame(1 + n.len, n.replies, 1 + n.errs) else Wait
    else
      var end := 5 + UnBE(buf[1..5]);
      if end > |buf| then Wait else Frame(end, 1, ReplyErrs(buf[5..end], buf[end..] + behind))
  }

  /** The Redis counter: `strtol` reads on over blanks and line feeds. */
  function RespIn(buf: bytes, behind: bytes): Next {
    var nl := IndexOf(buf, NL);
    if nl == |buf| then Wait
    else if buf[0] == 36 then
      var len := Strtol(buf[1..] + behind);
      if len < 0 then Frame(nl + 1, 1, 0)
      else if nl + 1 + len + 2 > |buf| then Wait
      else Frame(nl + 1 + len + 2, 1, 0)
    else Frame(nl + 1, 1, if buf[0] == 45 then 1 else 0)
  }

  function NextIn(kind: Protocol, behind: bytes): bytes -> Next {
    match kind
    case Tnt => buf => TntIn(buf, behind)
    case Bin => NextBin
    case Perf => NextPerf
    case Redis => buf => RespIn(buf, behind)
  }

  /** Bytes passed over in front of an incomplete frame are errors in every read. */
  function NoiseOf(kind: Protocol, left: bytes): nat {
    if kind.Tnt? then Noise(left) else 0
  }

  /** What the worker has after its reads. */
  function FeedIn(kind: Protocol, rs: seq<Read>): Fed {
    if rs == [] then Fed(0, 0, [])
    else
      var f := FeedIn(kind, rs[..|rs| - 1]);
      FedMore(kind, f, rs[|rs| - 1])
  }

  /** One read more. */
  function FedMore(kind: Protocol, f: Fed, r: Read): Fed {
    var buf := f.left + r.chunk;
    var t := Count(NextIn(kind, r.behind), buf);
    Fed(f.replies + t.replies, f.errs + t.errs + NoiseOf(kind, buf[t.used..]), buf[t.used..])
  }

  // ---------------------------------------------------------------- what the frames alone decide

  predicate Blank(s: bytes) {
    forall i :: 0 <= i < |s| ==> IsSpace(s[i])
  }

  /** The reply at the front settles its header. */
  predicate TntFine(s: bytes) {
    |s| < 5 ||
    if s[0] != 0xCE then TntFine(s[1..])
    else |s| < 5 + UnBE(s[1..5]) || BodySettled(s[5..5 + UnBE(s[1..5])])
  }

  /** The bulk header at the front holds something else than blanks. */
  predicate RespFine(s: bytes) {
    var nl := IndexOf(s, NL);
    nl < |s| && s[0] == 36 ==> !Blank(s[1..nl])
  }

  predicate Fine(kind: Protocol, s: bytes) {
    match kind
    case Tnt => TntFine(s)
    case Redis => RespFine(s)
    case _ => true
  }

  /** So is every complete frame: all IProto frames settle their headers, no Redis bulk header is blank. */
  predicate Proper(kind: Protocol, s: bytes)
    decreases |s|
  {
    && Fine(kind, s)
    && var f := NextOf(kind)(s);
       f.Frame? && 0 < f.len <= |s| ==> Proper(kind, s[f.len..])
  }

  lemma ProperStep(kind: Protocol, s: bytes)
    ensures Proper(kind, s) <==>
            && Fine(kind, s)
            && (NextOf(kind)(s).Frame? && 0 < NextOf(kind)(s).len <= |s| ==> Proper(kind, s[NextOf(kind)(s).len..]))
  {
    hide Fine, NextOf;
  }

  /** A number in the line is read before the line feed. */
  lemma {:induction false} TrimMore(line: bytes, more: bytes)
    requires !Blank(line)
    ensures Trim(line) != [] && !IsSpace(Trim(line)[0]) && Trim(line + more) == Trim(line) + more
  {
    if IsSpace(line[0]) {
      assert (line + more)[1..] == line[1..] + more;
      var i :| 0 <= i < |line| && !IsSpace(line[i]);
      assert line[1..][i - 1] == line[i];
      TrimMore(line[1..], more);
    }
  }

  lemma {:induction false} RunMore(s: bytes, more: bytes)
    requires more != [] && !IsDigit(more[0])
    ensures DigitRun(s + more) == DigitRun(s) && Leading(s + more) == Leading(s)
  {
    if s == [] {
      assert s + more == more;
      assert more[..0] == s[..0];
    } else if IsDigit(s[0]) {
      assert (s + more)[1..] == s[1..] + more;
      RunMore(s[1..], more);
      assert (s + more)[..DigitRun(s)] == s[..DigitRun(s)];
    } else {
      assert (s + more)[..0] == s[..0];
    }
  }

  lemma StrtolLine(line: bytes, more: bytes)
    requires !Blank(line) && more != [] && !IsDigit(more[0])
    ensures Strtol(line + more) == Strtol(line)
  {
    hide Leading, DigitRun, Trim;
    TrimMore(line, more);
    var t := Trim(line);
    assert (t + more)[1..] == t[1..] + more;
    RunMore(t, more);
    RunMore(t[1..], more);
  }

  lemma RespSame(s: bytes, behind: bytes)
    requires RespFine(s)
    ensures RespIn(s, behind) == NextResp(s)
  {
    hide Strtol, Blank;
    var nl := IndexOf(s, NL);
    if nl < |s| && s[0] == 36 {
      var more := s[nl..] + behind;
      assert s[1..] + behind == s[1..nl] + more;
      StrtolLine(s[1..nl], more);
    }
  }

  lemma {:induction false} TntSame(s: bytes, behind: Memory)
    requires TntFine(s)
    ensures TntIn(s, behind) == NextTnt(s)
  {
    hide UnBE, BodySettled, BodyErrs, ReplyErrs;
    if |s| >= 5 {
      if s[0] != 0xCE {
        TntSame(s[1..], behind);
      } else {
        var end := 5 + UnBE(s[1..5]);
        if end <= |s| {
          BodySame(s[5..end], s[end..] + behind);
        }
      }
    }
  }

  lemma FrontSame(kind: Protocol, s: bytes, behind: Memory)
    requires Fine(kind, s)
    ensures NextIn(kind, behind)(s) == NextOf(kind)(s)
  {
    hide TntFine, RespFine, TntIn, RespIn, NextTnt, NextResp;
    match kind
    case Tnt => TntSame(s, behind);
    case Redis => RespSame(s, behind);
    case _ =>
  }

  /** Then the buffer is counted as its frames say, whatever is behind it. */
  lemma {:induction false} CountSame(kind: Protocol, s: bytes, behind: Memory)
    requires Proper(kind, s)
    ensures Count(NextIn(kind, behind), s) == Count(NextOf(kind), s)
    decreases |s|
  {
    hide Fine, NextIn, NextOf;
    ProperStep(kind, s);
    FrontSame(kind, s, behind);
    var f := NextOf(kind)(s);
    if f.Frame? && 0 < f.len <= |s| {
      CountSame(kind, s[f.len..], behind);
    }
  }

  lemma {:induction false} TntFinePrefix(a: bytes, b: bytes)
    requires TntFine(a + b)
    ensures TntFine(a)
    decreases |a|
  {
    hide UnBE, BodySettled;
    var s := a + b;
    if |a| >= 5 {
      if a[0] != 0xCE {
        assert s[1..] == a[1..] + b;
        TntFinePrefix(a[1..], b);
      } else {
        assert s[1..5] == a[1..5];
        var end := 5 + UnBE(a[1..5]);
        if end <= |a| {
          assert s[5..end] == a[5..end];
        }
      }
    }
  }

  lemma FinePrefix(kind: Protocol, a: bytes, b: bytes)
    requires Fine(kind, a + b)
    ensures Fine(kind, a)
  {
    hide TntFine, Blank;
    match kind
    case Tnt => TntFinePrefix(a, b);
    case Redis =>
      var nl := IndexOf(a, NL);
      if nl < |a| {
        IndexOfMore(a, b, NL);
        if a[0] == 36 {
          assert (a + b)[1..nl] == a[1..nl];
        }
      }
    case _ =>
  }

  lemma {:induction false} ProperPrefix(kind: Protocol, a: bytes, b: bytes)
    requires Proper(kind, a + b)
    ensures Proper(kind, a)
    decreases |a|
  {
    NextOfSound(kind);
    hide Fine, NextOf, Sound, Proper;
    ProperStep(kind, a + b);
    ProperStep(kind, a);
    FinePrefix(kind, a, b);
    More(NextOf(kind), a, b);
    var f := NextOf(kind)(a);
    if f.Frame? {
      assert (a + b)[f.len..] == a[f.len..] + b;
      ProperPrefix(kind, a[f.len..], b);
    }
  }

  /** What is left of the buffer stays proper with the bytes that follow. */
  lemma {:induction false} ProperRest(kind: Protocol, a: bytes, b: bytes)
    requires Proper(kind, a + b) && !Count(NextOf(kind), a).broken
    ensures Proper(kind, Whole(NextOf(kind), a).left + b)
    decreases |a|
  {
    NextOfSound(kind);
    hide Fine, NextOf, Sound, Proper, Count;
    var next := NextOf(kind);
    CountStep(next, a);
    More(next, a, b);
    match next(a) {
      case Wait => assert a[0..] + b == a + b;
      case Broken =>
      case Frame(len, _, _) =>
        ProperStep(kind, a + b);
        assert (a + b)[len..] == a[len..] + b;
        ProperRest(kind, a[len..], b);
        Cut(a, len, Count(next, a[len..]).used);
    }
  }

  lemma {:induction false} AlwaysProper(kind: Protocol, s: bytes)
    requires kind.Bin? || kind.Perf?
    ensures Proper(kind, s)
    decreases |s|
  {
    hide NextOf;
    var f := NextOf(kind)(s);
    if f.Frame? && 0 < f.len <= |s| {
      AlwaysProper(kind, s[f.len..]);
    }
  }

  // ---------------------------------------------------------------- bytes counted again

  /** Every byte that is seen with four more behind it lies in a frame. */
  predicate Aligned(s: bytes) {
    |s| < 5 || (s[0] == 0xCE && (|s| < 5 + UnBE(s[1..5]) || Aligned(s[5 + UnBE(s[1..5])..])))
  }

  lemma TntFront(s: bytes)
    requires |s| >= 5 && s[0] == 0xCE
    ensures var n := 5 + UnBE(s[1..5]);
            && (|s| < n ==> Whole(NextTnt, s) == Fed(0, 0, s))
            && (n <= |s| ==> Whole(NextTnt, s).left == Whole(NextTnt, s[n..]).left)
  {
    hide Count, UnBE, BodyErrs;
    var n := 5 + UnBE(s[1..5]);
    CountStep(NextTnt, s);
    if n <= |s| {
      Cut(s, n, Count(NextTnt, s[n..]).used);
    } else {
      assert s[0..] == s;
    }
  }

  lemma {:induction false} AlignedQuiet(s: bytes)
    requires Aligned(s)
    ensures Noise(Whole(NextTnt, s).left) == 0
    decreases |s|
  {
    hide Whole, UnBE, NextTnt;
    if |s| < 5 {
      TntShort(s);
    } else {
      TntFront(s);
      var n := 5 + UnBE(s[1..5]);
      if n <= |s| {
        AlignedQuiet(s[n..]);
      }
    }
  }

  lemma TntShort(s: bytes)
    requires |s| < 5
    ensures Whole(NextTnt, s) == Fed(0, 0, s)
  {
    CountStep(NextTnt, s);
    assert s[0..] == s;
  }

  lemma {:induction false} AlignedPrefix(s: bytes, k: nat)
    requires Aligned(s) && k <= |s|
    ensures Aligned(s[..k])
    decreases |s|
  {
    hide UnBE;
    var a := s[..k];
    if k >= 5 {
      assert a[1..5] == s[1..5];
      var n := 5 + UnBE(s[1..5]);
      if n <= k {
        assert s[n..][..k - n] == a[n..];
        AlignedPrefix(s[n..], k - n);
      }
    }
  }

  /** Otherwise some read ends with a byte passed over in front of an incomplete frame. */
  lemma {:induction false} NoisySomewhere(s: bytes) returns (k: nat)
    requires !Aligned(s)
    ensures k <= |s| && Noise(Whole(NextTnt, s[..k]).left) > 0
    decreases |s|
  {
    hide Whole, UnBE, NextTnt;
    if s[0] != 0xCE {
      k := 5;
      Stray(s[..5]);
    } else {
      var n := 5 + UnBE(s[1..5]);
      var k' := NoisySomewhere(s[n..]);
      k := n + k';
      assert s[..k][1..5] == s[1..5];
      TntFront(s[..k]);
      assert s[..k][n..] == s[n..][..k'];
    }
  }

  lemma Stray(s: bytes)
    requires |s| == 5 && s[0] != 0xCE
    ensures Whole(NextTnt, s) == Fed(0, 0, s) && Noise(s) == 1
  {
    TntStep(s);
    CountStep(NextTnt, s);
    assert s[0..] == s;
  }

  /** Noise counted in each of the reads. */
  function Recount(chunks: seq<bytes>): nat {
    if chunks == [] then 0 else Recount(chunks[..|chunks| - 1]) + Noise(Feed(NextTnt, chunks).left)
  }

  lemma {:induction false} RecountQuiet(s: bytes, chunks: seq<bytes>)
    requires Aligned(s) && Concat(chunks) <= s
    ensures Recount(chunks) == 0
    decreases |chunks|
  {
    hide Aligned, Feed, Noise, Whole;
    if chunks != [] {
      var front, a := chunks[..|chunks| - 1], Concat(chunks);
      assert Concat(front) <= a;
      RecountQuiet(s, front);
      FramesInStep(Tnt, chunks);
      AlignedPrefix(s, |a|);
      assert s[..|a|] == a;
      AlignedQuiet(a);
    }
  }

  // ---------------------------------------------------------------- the reads together

  /** The errors counted over the pieces of a proper stream. */
  function ErrorsSeen(kind: Protocol, chunks: seq<bytes>): nat {
    Feed(NextOf(kind), chunks).errs + if kind.Tnt? then Recount(chunks) else 0
  }

  lemma FrontOf(rs: seq<Read>)
    requires rs != []
    ensures var cs := Chunks(rs); cs[..|rs| - 1] == Chunks(rs[..|rs| - 1]) && cs[|rs| - 1] == rs[|rs| - 1].chunk
  {
  }

  /** A proper stream is counted as its frames say, whatever is behind the buffer at each read. */
  lemma {:induction false} FeedInSame(kind: Protocol, rs: seq<Read>)
    requires Proper(kind, Concat(Chunks(rs)))
    ensures var cs := Chunks(rs); var f := Feed(NextOf(kind), cs);
            FeedIn(kind, rs) == Fed(f.replies, ErrorsSeen(kind, cs), f.left)
    decreases |rs|
  {
    hide Proper, NextOf, NextIn, Count, Noise;
    if rs != [] {
      var cs, front, r := Chunks(rs), rs[..|rs| - 1], rs[|rs| - 1];
      FrontOf(rs);
      ProperPrefix(kind, Concat(Chunks(front)), r.chunk);
      FeedInSame(kind, front);
      var f := Feed(NextOf(kind), Chunks(front));
      LeftProper(kind, Chunks(front), r.chunk);
      CountSame(kind, f.left + r.chunk, r.behind);
      SeenMore(kind, cs);
    }
  }

  lemma LeftProper(kind: Protocol, cs: seq<bytes>, c: bytes)
    requires Proper(kind, Concat(cs) + c)
    ensures Proper(kind, Feed(NextOf(kind), cs).left + c)
  {
    hide Proper, NextOf, Count, Feed;
    if kind.Bin? {
      AlwaysProper(kind, Feed(NextOf(kind), cs).left + c);
    } else {
      FramesInStep(kind, cs);
      NeverBroken(kind, Concat(cs));
      ProperRest(kind, Concat(cs), c);
    }
  }

  lemma SeenMore(kind: Protocol, cs: seq<bytes>)
    requires cs != []
    ensures var front := cs[..|cs| - 1]; var f := Feed(NextOf(kind), front);
            var buf := f.left + cs[|cs| - 1]; var t := Count(NextOf(kind), buf);
            && Feed(NextOf(kind), cs) == Fed(f.replies + t.replies, f.errs + t.errs, buf[t.used..])
            && ErrorsSeen(kind, cs) == ErrorsSeen(kind, front) + t.errs + NoiseOf(kind, buf[t.used..])
  {
    hide Count, Noise, NextTnt;
  }

  /** The IProto counter finds the same frames whatever is behind the buffer. */
  lemma {:induction false} TntShape(s: bytes, behind: bytes)
    ensures var a, b := TntIn(s, behind), NextTnt(s);
            && a.Frame? == b.Frame? && a.Wait? == b.Wait? && !a.Broken?
            && (a.Frame? ==> a.len == b.len && a.replies == b.replies && 0 < a.len <= |s|)
  {
    hide UnBE, BodyErrs, ReplyErrs;
    if |s| >= 5 && s[0] != 0xCE {
      TntShape(s[1..], behind);
    }
  }

  lemma {:induction false} TntCountShape(s: bytes, behind: bytes)
    ensures var t, u := Count(NextIn(Tnt, behind), s), Count(NextTnt, s); t.replies == u.replies && t.used == u.used
    decreases |s|
  {
    hide TntIn, NextTnt;
    TntShape(s, behind);
    if NextTnt(s).Frame? {
      TntCountShape(s[NextTnt(s).len..], behind);
    }
  }

  lemma {:induction false} TntFedShape(rs: seq<Read>)
    ensures var f, g := FeedIn(Tnt, rs), Feed(NextTnt, Chunks(rs)); f.replies == g.replies && f.left == g.left
    decreases |rs|
  {
    hide NextIn, NextTnt, Count, Noise;
    if rs != [] {
      FrontOf(rs);
      var front, r := rs[..|rs| - 1], rs[|rs| - 1];
      TntFedShape(front);
      TntCountShape(FeedIn(Tnt, front).left + r.chunk, r.behind);
    }
  }

  /** The other three counters never give up: the line counter on any stream, and the Redis counter on every stream
      without a blank bulk header, find what one read would find; the IProto counter finds the same replies and the same
      rest in any stream. */
  lemma OthersNeverBreak(kind: Protocol, rs: seq<Read>)
    requires !kind.Bin? && (kind.Redis? ==> Proper(kind, Concat(Chunks(rs))))
    ensures var f, w := FeedIn(kind, rs), Whole(NextOf(kind), Concat(Chunks(rs)));
            f.replies == w.replies && f.left == w.left && (!kind.Tnt? ==> f.errs == w.errs)
  {
    hide Proper, FeedIn, Feed, Whole, Concat;
    FramesInStep(kind, Chunks(rs));
    if kind.Tnt? {
      TntFedShape(rs);
    } else {
      if kind.Perf? {
        AlwaysProper(kind, Concat(Chunks(rs)));
      }
      FeedInSame(kind, rs);
    }
  }

  // ---------------------------------------------------------------- when the cutting or the memory matters

  /** The reads bring the stream s, each of them something. */
  predicate Reading(rs: seq<Read>, s: bytes) {
    Concat(Chunks(rs)) == s && forall i :: 0 <= i < |rs| ==> rs[i].chunk != []
  }

  /** Neither the cutting nor what is behind the buffer changes what the counter finds. */
  ghost predicate CutFreeIn(kind: Protocol, s: bytes) {
    forall rs: seq<Read>, qs: seq<Read> :: Reading(rs, s) && Reading(qs, s) ==> FeedIn(kind, rs) == FeedIn(kind, qs)
  }

  /** What the IProto counter finds depends on neither if and only if every byte before the last one that is seen with
      four more behind it lies in a frame, and every complete frame settles its header. Otherwise a byte passed over is
      counted again with every read, or an entry is completed from behind the frame. */
  lemma TntCutFreeExactly(s: bytes)
    ensures CutFreeIn(Tnt, s) <==> s == [] || (Aligned(s[..|s| - 1]) && Proper(Tnt, s))
  {
    hide Aligned, Proper, FeedIn, Reading;
    if s == [] {
      forall rs: seq<Read>, qs: seq<Read> | Reading(rs, s) && Reading(qs, s)
        ensures FeedIn(Tnt, rs) == FeedIn(Tnt, qs)
      {
        ReadSomething(rs, s);
        ReadSomething(qs, s);
      }
    } else if !Proper(Tnt, s) {
      UnsettledRead(s);
    } else if Aligned(s[..|s| - 1]) {
      forall rs: seq<Read>, qs: seq<Read> | Reading(rs, s) && Reading(qs, s)
        ensures FeedIn(Tnt, rs) == FeedIn(Tnt, qs)
      {
        AlignedRead(s, rs);
        AlignedRead(s, qs);
      }
    } else {
      var k := NoisySomewhere(s[..|s| - 1]);
      assert s[..|s| - 1][..k] == s[..k];
      NoisyRead(s, k);
    }
  }

  lemma ReadSomething(rs: seq<Read>, s: bytes)
    requires Reading(rs, s)
    ensures rs == [] <==> s == []
  {
    if rs != [] {
      assert Chunks(rs)[|rs| - 1] == rs[|rs| - 1].chunk;
    }
  }

  lemma AlignedRead(s: bytes, rs: seq<Read>)
    requires s != [] && Aligned(s[..|s| - 1]) && Proper(Tnt, s) && Reading(rs, s)
    ensures var w := Whole(NextTnt, s); FeedIn(Tnt, rs) == Fed(w.replies, w.errs + Noise(w.left), w.left)
  {
    hide Aligned, Proper, FeedIn, Feed, Noise, NextTnt, Whole;
    var cs := Chunks(rs);
    assert cs != [];
    var front, last := cs[..|cs| - 1], cs[|cs| - 1];
    assert last == rs[|rs| - 1].chunk && Concat(front) + last == s;
    assert Concat(front) <= s[..|s| - 1];
    RecountQuiet(s[..|s| - 1], front);
    FeedInSame(Tnt, rs);
    FramesInStep(Tnt, cs);
  }

  lemma TwoReads(kind: Protocol, a: Read, b: Read)
    ensures FeedIn(kind, [a]) == FedMore(kind, Fed(0, 0, []), a)
    ensures FeedIn(kind, [a, b]) == FedMore(kind, FeedIn(kind, [a]), b)
    ensures Concat(Chunks([a])) == a.chunk && Concat(Chunks([a, b])) == a.chunk + b.chunk
  {
    hide FedMore;
    var one, two := [a], [a, b];
    assert one[..0] == [] && two[..1] == one;
    assert Chunks(one) == [a.chunk] && Chunks(two) == [a.chunk, b.chunk];
    assert Chunks(one)[..0] == [] && Chunks(two)[..1] == Chunks(one);
    assert Concat(Chunks(one)) == [] + a.chunk;
  }

  const ZERO_MEMORY: Memory := Zeros(32)

  /** A byte passed over in front of an incomplete frame is counted in both reads. */
  lemma NoisyRead(s: bytes, k: nat)
    requires k < |s| && Noise(Whole(NextTnt, s[..k]).left) > 0 && Proper(Tnt, s)
    ensures !CutFreeIn(Tnt, s)
  {
    hide Proper, FeedIn, NextTnt, Whole, Noise;
    var a, b, all := Read(s[..k], ZERO_MEMORY), Read(s[k..], ZERO_MEMORY), Read(s, ZERO_MEMORY);
    ErrsInOne(s);
    ErrsInTwo(s, k);
    NoiseNeedsBytes(s[..k]);
    assert Reading([a, b], s) && Reading([all], s);
  }

  lemma ErrsInOne(s: bytes)
    requires Proper(Tnt, s)
    ensures Concat(Chunks([Read(s, ZERO_MEMORY)])) == s
    ensures var w := Whole(NextTnt, s); FeedIn(Tnt, [Read(s, ZERO_MEMORY)]).errs == w.errs + Noise(w.left)
  {
    hide Proper, FeedIn, Feed, NextTnt, Whole, Noise, Recount;
    var all := Read(s, ZERO_MEMORY);
    TwoReads(Tnt, all, all);
    TwoRecounts(s, 0);
    ProperErrs(s, [all]);
    FramesInStep(Tnt, [s]);
  }

  lemma ErrsInTwo(s: bytes, k: nat)
    requires Proper(Tnt, s) && k <= |s|
    ensures Concat(Chunks([Read(s[..k], ZERO_MEMORY), Read(s[k..], ZERO_MEMORY)])) == s
    ensures var w := Whole(NextTnt, s);
            FeedIn(Tnt, [Read(s[..k], ZERO_MEMORY), Read(s[k..], ZERO_MEMORY)]).errs
            == w.errs + Noise(Whole(NextTnt, s[..k]).left) + Noise(w.left)
  {
    hide Proper, FeedIn, Feed, NextTnt, Whole, Noise, Recount;
    var a, b := Read(s[..k], ZERO_MEMORY), Read(s[k..], ZERO_MEMORY);
    assert s[..k] + s[k..] == s;
    TwoReads(Tnt, a, b);
    TwoRecounts(s, k);
    ProperErrs(s, [a, b]);
    FramesInStep(Tnt, [s[..k]]);
    FramesInStep(Tnt, [s[..k], s[k..]]);
  }

  lemma ProperErrs(s: bytes, rs: seq<Read>)
    requires Proper(Tnt, s) && Concat(Chunks(rs)) == s
    ensures FeedIn(Tnt, rs).errs == Whole(NextTnt, s).errs + Recount(Chunks(rs))
  {
    hide Proper, FeedIn, Feed, NextTnt, Whole, Recount;
    FeedInSame(Tnt, rs);
    FramesInStep(Tnt, Chunks(rs));
  }

  lemma NoiseNeedsBytes(s: bytes)
    ensures s == [] ==> Noise(Whole(NextTnt, s).left) == 0
  {
    if s == [] {
      TntShort(s);
    }
  }

  lemma TwoRecounts(s: bytes, k: nat)
    requires k <= |s|
    ensures var a, b := s[..k], s[k..];
            && Chunks([Read(a, ZERO_MEMORY), Read(b, ZERO_MEMORY)]) == [a, b] && Chunks([Read(s, ZERO_MEMORY)]) == [s]
            && Concat([a]) == a && Concat([a, b]) == s && Concat([s]) == s
            && Recount([s]) == Noise(Feed(NextTnt, [s]).left)
            && Recount([a, b]) == Noise(Feed(NextTnt, [a]).left) + Noise(Feed(NextTnt, [a, b]).left)
  {
    hide Feed, NextTnt, Noise;
    var a, b := s[..k], s[k..];
    var one, two, all := [a], [a, b], [s];
    assert one[..0] == [] && two[..1] == one && all[..0] == [] && a + b == s;
    assert Concat(one) == [] + a && Concat(all) == [] + s;
    assert Recount(one) == Noise(Feed(NextTnt, one).left);
  }

  /** A prefix that ends with a frame whose header is not settled is counted in two ways. */
  lemma {:induction false} UnsettledAt(s: bytes) returns (k: nat, m1: Memory, m2: Memory)
    requires !Proper(Tnt, s)
    ensures 0 < k <= |s|
    ensures var t, u := Count(NextIn(Tnt, m1), s[..k]), Count(NextIn(Tnt, m2), s[..k]);
            t.used == k && u.used == k && t.errs != u.errs
    decreases |s|
  {
    NextOfSound(Tnt);
    hide TntFine, TntIn, NextTnt, Sound, Proper, Count;
    ProperStep(Tnt, s);
    if !TntFine(s) {
      k, m1, m2 := UnsettledFront(s);
      OneFrame(Tnt, s[..k], m1);
      OneFrame(Tnt, s[..k], m2);
    } else {
      var len := NextTnt(s).len;
      var k';
      k', m1, m2 := UnsettledAt(s[len..]);
      k := len + k';
      var a := s[..k];
      assert a + s[k..] == s && a[len..] == s[len..][..k'];
      FinePrefix(Tnt, a, s[k..]);
      TntTight(s, k);
      FrontSame(Tnt, a, m1);
      FrontSame(Tnt, a, m2);
      CountStep(NextIn(Tnt, m1), a);
      CountStep(NextIn(Tnt, m2), a);
    }
  }

  /** One frame and nothing else. */
  lemma OneFrame(kind: Protocol, s: bytes, behind: bytes)
    requires var f := NextIn(kind, behind)(s); f.Frame? && 0 < f.len == |s|
    ensures var f, t := NextIn(kind, behind)(s), Count(NextIn(kind, behind), s);
            t.replies == f.replies && t.used == |s| && t.errs == f.errs
  {
    hide TntIn, RespIn, NextBin, NextPerf;
    var next := NextIn(kind, behind);
    CountStep(next, s);
    assert s[|s|..] == [];
    NothingSeen(kind, behind);
    CountStep(next, []);
  }

  lemma NothingSeen(kind: Protocol, behind: bytes)
    ensures NextIn(kind, behind)([]) == Wait
  {
  }

  lemma {:induction false} TntTight(s: bytes, k: nat)
    requires NextTnt(s).Frame? && NextTnt(s).len <= k <= |s|
    ensures NextTnt(s[..k]) == NextTnt(s)
    decreases |s|
  {
    TntFrame(s);
    hide UnBE, BodyErrs;
    var a := s[..k];
    if s[0] != 0xCE {
      TntFrame(s[1..]);
      TntLong(s[1..]);
      assert s[1..][..k - 1] == a[1..];
      TntTight(s[1..], k - 1);
    } else {
      assert a[1..5] == s[1..5];
      var end := 5 + UnBE(s[1..5]);
      assert a[5..end] == s[5..end];
    }
  }

  lemma {:induction false} TntLong(s: bytes)
    ensures NextTnt(s).Frame? ==> NextTnt(s).len >= 5
  {
    hide UnBE, BodyErrs;
    if |s| >= 5 && s[0] != 0xCE {
      TntLong(s[1..]);
    }
  }

  lemma {:induction false} UnsettledFront(s: bytes) returns (k: nat, m1: Memory, m2: Memory)
    requires !TntFine(s)
    ensures 5 <= k <= |s|
    ensures var a, b := TntIn(s[..k], m1), TntIn(s[..k], m2);
            a.Frame? && b.Frame? && a.len == k == b.len && a.errs != b.errs
    decreases |s|
  {
    hide UnBE, BodySettled, ReplyErrs;
    if s[0] != 0xCE {
      var k';
      k', m1, m2 := UnsettledFront(s[1..]);
      k := k' + 1;
      assert s[..k][1..] == s[1..][..k'];
    } else {
      k := 5 + UnBE(s[1..5]);
      var body := s[5..k];
      SettledExactly(body);
      m1, m2 :| ReplyErrs(body, m1) != ReplyErrs(body, m2);
      assert s[..k][1..5] == s[1..5] && s[..k][5..k] == body;
      assert s[..k][k..] + m1 == m1 && s[..k][k..] + m2 == m2;
    }
  }

  lemma UnsettledRead(s: bytes)
    requires !Proper(Tnt, s)
    ensures !CutFreeIn(Tnt, s)
  {
    hide Proper, FeedIn, NextIn, Count, Noise;
    var k, m1, m2 := UnsettledAt(s);
    var a, b, rest := Read(s[..k], m1), Read(s[..k], m2), Read(s[k..], ZERO_MEMORY);
    assert s[..k] + s[k..] == s && [] + s[..k] == s[..k];
    TwoReads(Tnt, a, rest);
    TwoReads(Tnt, b, rest);
    assert s[..k][k..] == [];
    if k == |s| {
      assert s[..k] == s;
      assert Reading([a], s) && Reading([b], s);
    } else {
      assert Reading([a, rest], s) && Reading([b, rest], s);
    }
  }

  /** In numbers: a reply with one header entry, a status that lies behind the frame, and an empty one. One read takes
      the second frame's marker and length for the status, which is then not OK; a read that ends with the first
      frame takes what is behind the buffer. */
  lemma OverrunSample()
    ensures var a: bytes, b: bytes := [0xCE, 0, 0, 0, 2, 0x81, 0], [0xCE, 0, 0, 0, 1, 0x80]; var m := ZERO_MEMORY;
            FeedIn(Tnt, [Read(a + b, m)]).errs == 1 && FeedIn(Tnt, [Read(a, m), Read(b, m)]).errs == 0
  {
    hide TntIn, FeedIn, NextIn;
    var a: bytes, b: bytes, m := [0xCE, 0, 0, 0, 2, 0x81, 0], [0xCE, 0, 0, 0, 1, 0x80], ZERO_MEMORY;
    SampleReplies();
    FrameFirst(a + b, 7, m, Fed(0, 0, []));
    assert (a + b)[7..] == b && a[7..] == [] && b[6..] == [];
    FrameLast(a, m, Fed(0, 0, []));
    FrameLast(b, m, Fed(1, 0, []));
    TwoReads(Tnt, Read(a + b, m), Read([], m));
    TwoReads(Tnt, Read(a, m), Read(b, m));
  }

  /** A read that brings one frame. */
  lemma FrameLast(s: bytes, m: Memory, f: Fed)
    requires var x := TntIn(s, m); f.left == [] && x.Frame? && 0 < x.len == |s|
    ensures FedMore(Tnt, f, Read(s, m)) == Fed(f.replies + TntIn(s, m).replies, f.errs + TntIn(s, m).errs, [])
  {
    hide TntIn, Count;
    OneFrame(Tnt, s, m);
    assert [] + s == s && s[|s|..] == [];
  }

  /** A read that brings two. */
  lemma FrameFirst(s: bytes, n: nat, m: Memory, f: Fed)
    requires n < |s| && TntIn(s, m).Frame? && 0 < TntIn(s, m).len == n && f.left == []
    requires var y := TntIn(s[n..], m); y.Frame? && 0 < y.len == |s| - n
    ensures FedMore(Tnt, f, Read(s, m)).errs == f.errs + TntIn(s, m).errs + TntIn(s[n..], m).errs
  {
    hide TntIn, Count;
    OneFrame(Tnt, s[n..], m);
    CountStep(NextIn(Tnt, m), s);
    assert [] + s == s && s[|s|..] == [];
  }

  lemma SampleReplies()
    ensures var a: bytes, b: bytes := [0xCE, 0, 0, 0, 2, 0x81, 0], [0xCE, 0, 0, 0, 1, 0x80]; var m := ZERO_MEMORY;
            TntIn(a + b, m) == Frame(7, 1, 1) && TntIn(a, m) == Frame(7, 1, 0) && TntIn(b, m) == Frame(6, 1, 0)
  {
    hide ReplyErrs, UnBE, ZERO_MEMORY;
    var a: bytes, b: bytes, m := [0xCE, 0, 0, 0, 2, 0x81, 0], [0xCE, 0, 0, 0, 1, 0x80], ZERO_MEMORY;
    SampleLengths();
    SampleErrs();
    assert a[1..5] == [0, 0, 0, 2] && (a + b)[1..5] == [0, 0, 0, 2] && b[1..5] == [0, 0, 0, 1];
    assert a[5..7] == [0x81, 0] && (a + b)[5..7] == [0x81, 0] && b[5..6] == [0x80];
    assert a[7..] + m == m && (a + b)[7..] == b && b[6..] + m == m;
  }

  lemma SampleLengths()
    ensures UnBE([0, 0, 0, 2]) == 2 && UnBE([0, 0, 0, 1]) == 1
  {
    var z: bytes, a: bytes, b: bytes := [0, 0, 0], [0, 0, 0, 2], [0, 0, 0, 1];
    assert z[..2] == [0, 0] && z[..2][..1] == [0];
    assert UnBE(z[..2][..1]) == 0 && UnBE(z[..2]) == 0 && UnBE(z) == 0;
    assert a[..3] == z && b[..3] == z;
  }

  lemma SampleErrs()
    ensures var m := ZERO_MEMORY; var b: bytes := [0xCE, 0, 0, 0, 1, 0x80];
            ReplyErrs([0x81, 0], b + m) == 1 && ReplyErrs([0x81, 0], m) == 0 && ReplyErrs([0x80], m) == 0
  {
    hide UnBE;
    SampleLengths();
    var m, b: bytes, body: bytes, key: bytes := ZERO_MEMORY, [0xCE, 0, 0, 0, 1, 0x80], [0x81, 0], [0];
    assert body[1..] == key;
    assert (key + m)[1..] == m && (key + (b + m))[1..] == b + m && (b + m)[1..5] == [0, 0, 0, 1];
    SmallNumber(key + m);
    SmallNumber(m);
    SmallNumber(key + (b + m));
    assert DecodeUint(b + m) == Some((1, (b + m)[5..]));
  }

  /** After every read of the stream, the counts so far are decided by the bytes read so far. */
  ghost predicate AlwaysCutFree(kind: Protocol, s: bytes) {
    forall k :: 0 <= k <= |s| ==> CutFreeIn(kind, s[..k])
  }

  /** For the Redis counter that is so if and only if no bulk header of the stream is blank: in a read that ends with
      the header, what is behind the buffer decides whether it is a reply. */
  lemma RespCutFreeExactly(s: bytes)
    ensures AlwaysCutFree(Redis, s) <==> Proper(Redis, s)
  {
    hide Proper, CutFreeIn;
    if Proper(Redis, s) {
      forall k | 0 <= k <= |s|
        ensures CutFreeIn(Redis, s[..k])
      {
        assert s[..k] + s[k..] == s;
        ProperPrefix(Redis, s[..k], s[k..]);
        ProperRead(s[..k]);
      }
    } else {
      BlankRead(s);
    }
  }

  lemma ProperRead(s: bytes)
    requires Proper(Redis, s)
    ensures CutFreeIn(Redis, s)
  {
    hide Proper, FeedIn, Whole, NextResp;
    forall rs: seq<Read>, qs: seq<Read> | Reading(rs, s) && Reading(qs, s)
      ensures FeedIn(Redis, rs) == FeedIn(Redis, qs)
    {
      OthersNeverBreak(Redis, rs);
      OthersNeverBreak(Redis, qs);
    }
  }

  /** Behind which a blank header is a null bulk. */
  const MINUS_ONE: Memory := [45, 49] + Zeros(30)

  lemma {:induction false} TrimBlank(b: bytes, more: bytes)
    requires Blank(b)
    ensures Trim(b + more) == Trim(more)
  {
    if b == [] {
      assert b + more == more;
    } else {
      assert (b + more)[1..] == b[1..] + more;
      TrimBlank(b[1..], more);
    }
  }

  lemma BlankNumbers(b: bytes)
    requires Blank(b)
    ensures Strtol(b + MINUS_ONE) == -1 && Strtol(b + ZERO_MEMORY) == 0
  {
    TrimBlank(b, MINUS_ONE);
    TrimBlank(b, ZERO_MEMORY);
    var t := MINUS_ONE;
    assert t[1..] == [49] + Zeros(30);
    assert Digits(1) == [49];
    NumberOfDigits(1);
    RunOf([49], Zeros(30));
    assert ([49] + Zeros(30))[..1] == [49];
    assert ZERO_MEMORY[..0] == [];
  }

  /** The prefix that ends with the first blank header is counted in two ways. */
  lemma {:induction false} BlankAt(s: bytes) returns (k: nat)
    requires !Proper(Redis, s)
    ensures 0 < k <= |s|
    ensures Count(NextIn(Redis, MINUS_ONE), s[..k]).replies == 1 + Count(NextIn(Redis, ZERO_MEMORY), s[..k]).replies
    decreases |s|
  {
    NextOfSound(Redis);
    hide RespFine, RespIn, NextResp, Sound, Proper, Count;
    ProperStep(Redis, s);
    if !RespFine(s) {
      BlankFront(s);
      k := IndexOf(s, NL) + 1;
      CountStep(NextIn(Redis, ZERO_MEMORY), s[..k]);
      OneFrame(Redis, s[..k], MINUS_ONE);
    } else {
      More(NextOf(Redis), s, []);
      var len := NextResp(s).len;
      var k' := BlankAt(s[len..]);
      k := len + k';
      assert s[..k][len..] == s[len..][..k'];
      FineFront(s, k, MINUS_ONE);
      FineFront(s, k, ZERO_MEMORY);
    }
  }

  /** A fine reply at the front is seen the same in every prefix that holds it. */
  lemma FineFront(s: bytes, k: nat, m: Memory)
    requires RespFine(s) && NextResp(s).Frame? && 0 < NextResp(s).len <= k <= |s|
    ensures Count(NextIn(Redis, m), s[..k]).replies
         == NextResp(s).replies + Count(NextIn(Redis, m), s[..k][NextResp(s).len..]).replies
  {
    hide RespFine, RespIn, NextResp, Count;
    assert s[..k] + s[k..] == s;
    FinePrefix(Redis, s[..k], s[k..]);
    RespTight(s, k);
    FrontSame(Redis, s[..k], m);
    CountStep(NextIn(Redis, m), s[..k]);
  }

  lemma BlankFront(s: bytes)
    requires !RespFine(s)
    ensures IndexOf(s, NL) < |s|
    ensures var a := s[..IndexOf(s, NL) + 1]; RespIn(a, MINUS_ONE) == Frame(|a|, 1, 0) && RespIn(a, ZERO_MEMORY) == Wait
  {
    hide Strtol;
    var nl := IndexOf(s, NL);
    var a := s[..nl + 1];
    assert a[nl] == NL && forall j :: 0 <= j < nl ==> a[j] == s[j];
    assert IndexOf(a, NL) == nl;
    assert a[1..] == s[1..nl] + [NL];
    BlankNumbers(a[1..]);
  }

  lemma RespTight(s: bytes, k: nat)
    requires NextResp(s).Frame? && NextResp(s).len <= k <= |s|
    ensures NextResp(s[..k]) == NextResp(s)
  {
    hide Strtol;
    var nl := IndexOf(s, NL);
    var a := s[..k];
    assert nl < k && a[nl] == NL && forall j :: 0 <= j < nl ==> a[j] == s[j];
    assert IndexOf(a, NL) == nl;
    if s[0] == 36 {
      assert a[1..nl] == s[1..nl];
    }
  }

  lemma BlankRead(s: bytes)
    requires !Proper(Redis, s)
    ensures !AlwaysCutFree(Redis, s)
  {
    hide Proper, FeedIn, NextIn, Count;
    var k := BlankAt(s);
    var a, b := Read(s[..k], MINUS_ONE), Read(s[..k], ZERO_MEMORY);
    assert [] + s[..k] == s[..k];
    TwoReads(Redis, a, a);
    TwoReads(Redis, b, b);
    assert Reading([a], s[..k]) && Reading([b], s[..k]);
    assert !CutFreeIn(Redis, s[..k]);
  }

  /** In numbers: the seven bytes `$`, CR, LF, `001x`. One read finds the length 1 and uses six of them; a read that
      ends before the 1, with no digit behind it, finds the length 0 and uses five. */
  lemma BlankSample(m: Memory, m': Memory)
    requires !IsDigit(m[0])
    ensures var s: bytes := [36, 13, NL, 48, 48, 49, 120];
            && !Proper(Redis, s)
            && FeedIn(Redis, [Read(s, m')]).left == [120]
            && FeedIn(Redis, [Read(s[..5], m), Read(s[5..], m')]).left == [49, 120]
  {
    hide Count, RespIn, Strtol, NextResp;
    var s: bytes := [36, 13, NL, 48, 48, 49, 120];
    var a, b: bytes := s[..5], [49, 120];
    SampleFrames(m, m');
    var one := Read(s, m');
    TwoReads(Redis, one, one);
    TwoReads(Redis, Read(a, m), Read(s[5..], m'));
    assert [] + s == s && [] + a == a && s[5..] == b;
    CountStep(NextIn(Redis, m'), s);
    assert s[6..] == [120];
    CountStep(NextIn(Redis, m'), [120]);
    OneFrame(Redis, a, m);
    assert a[5..] == [] && [] + b == b;
    CountStep(NextIn(Redis, m'), b);
    assert b[0..] == b;
  }

  lemma SampleFrames(m: Memory, m': Memory)
    requires !IsDigit(m[0])
    ensures var s: bytes := [36, 13, NL, 48, 48, 49, 120];
            && !Proper(Redis, s) && RespIn(s, m') == Frame(6, 1, 0) && RespIn(s[..5], m) == Frame(5, 1, 0)
            && RespIn([120], m') == Wait && RespIn([49, 120], m') == Wait
  {
    hide Strtol, NextResp;
    var s: bytes := [36, 13, NL, 48, 48, 49, 120];
    var a: bytes := s[..5];
    assert s[2] == NL && a[2] == NL;
    assert IndexOf(s, NL) == 2 && IndexOf(a, NL) == 2;
    assert s[1..2] == [13] && Blank(s[1..2]);
    assert !RespFine(s);
    SampleNumber([48, 48, 49], [120] + m', 1);
    SampleNumber([48, 48], m, 0);
    assert s[1..] + m' == [13, NL] + ([48, 48, 49] + ([120] + m'));
    assert a[1..] + m == [13, NL] + ([48, 48] + m);
  }

  lemma SampleNumber(d: bytes, more: bytes, n: nat)
    requires (d == [48, 48, 49] && n == 1) || (d == [48, 48] && n == 0)
    requires more != [] && !IsDigit(more[0])
    ensures Strtol([13, NL] + (d + more)) == n
  {
    var b: bytes := [13, NL];
    TrimBlank(b, d + more);
    RunOf(d, more);
    assert (d + more)[0] == 48 && (d + more)[..|d|] == d;
    assert Trim(d + more) == d + more;
    var two, one: bytes := [48, 48], [48];
    assert two[..1] == one && one[..0] == [];
    assert Number(two) == 0;
    if n == 1 {
      assert d[..2] == two;
    }
  }

  // ---------------------------------------------------------------- well-formed replies

  /** For each of the four counters, every stream of well-formed replies, every way of cutting it and whatever is behind
      the buffer at each read: each reply and each error is counted once, and nothing is left over. */
  lemma RepliesCounted(kind: Protocol, rs: seq<Reply>, pieces: seq<Read>)
    requires AllWellFormed(kind, rs) && Concat(Chunks(pieces)) == Stream(ItemsOf(rs))
    ensures FeedIn(kind, pieces) == Fed(Replies(ItemsOf(rs)), Errors(ItemsOf(rs)), [])
  {
    hide WellFormed, ItemOf, Feed, FeedIn, Aligned, NextOf, Proper;
    StreamProper(kind, rs);
    FeedInSame(kind, pieces);
    FramesCounted(kind, rs, Chunks(pieces));
    if kind.Tnt? {
      TntAligned(rs);
      RecountQuiet(Stream(ItemsOf(rs)), Chunks(pieces));
    }
  }

  lemma {:induction false} StreamProper(kind: Protocol, rs: seq<Reply>)
    requires AllWellFormed(kind, rs)
    ensures Proper(kind, Stream(ItemsOf(rs)))
    decreases |rs|
  {
    hide Proper, Fine, NextOf, WellFormed, ItemOf, Framed;
    var s := Stream(ItemsOf(rs));
    ProperStep(kind, s);
    if rs == [] {
      EmptyFine(kind);
      NextOfSound(kind);
    } else {
      var x, rest := ItemOf(rs[0]), Stream(ItemsOf(rs[1..]));
      assert ItemsOf(rs)[1..] == ItemsOf(rs[1..]);
      assert s == x.wire + rest;
      FrontFine(kind, rs[0], rest);
      ReplyFramed(kind, rs[0]);
      FramedAt(NextOf(kind), x, rest);
      assert s[|x.wire|..] == rest;
      StreamProper(kind, rs[1..]);
    }
  }

  lemma FramedAt(next: bytes -> Next, x: Item, rest: bytes)
    requires Framed(next, x)
    ensures x.wire != [] && next(x.wire + rest) == Frame(|x.wire|, x.replies, x.errs)
  {
  }

  lemma EmptyFine(kind: Protocol)
    ensures Fine(kind, [])
  {
  }

  lemma FrontFine(kind: Protocol, r: Reply, rest: bytes)
    requires WellFormed(kind, r)
    ensures Fine(kind, ItemOf(r).wire + rest)
  {
    hide TntFine, RespFine, BodySettled, RespItem, TntItem, RespOk;
    match r
    case TntReply(body) => BodyFine(body, rest);
    case RedisReply(resp) => RespItemFine(resp, rest);
    case _ =>
  }

  lemma BodyFine(body: bytes, rest: bytes)
    requires |body| < TWO32 && BodySettled(body)
    ensures TntFine(TntItem(body).wire + rest)
  {
    Caps();
    UnBEofBE(|body|, 4);
    hide BodyErrs, BodySettled, BE, UnBE;
    var s := TntItem(body).wire + rest;
    assert s[1..5] == BE(|body|, 4);
    assert s[5..5 + |body|] == body;
  }

  lemma RespItemFine(r: Resp, rest: bytes)
    requires RespOk(r)
    ensures RespFine(RespItem(r).wire + rest)
  {
    hide Digits;
    var s := RespItem(r).wire + rest;
    match r {
      case Simple(text) => assert s[0] == text[0];
      case Bulk(data) =>
        var line := [36] + Digits(|data|) + [13];
        assert s == line + [NL] + (data + CRLF + rest);
        IndexOfEnd(line, data + CRLF + rest, NL);
        assert s[1..|line|][0] == Digits(|data|)[0];
      case NullBulk =>
        var line: bytes := [36, 45, 49, 13];
        assert s == line + [NL] + rest;
        IndexOfEnd(line, rest, NL);
        assert s[1..4][0] == 45;
    }
  }

  lemma {:induction false} TntAligned(rs: seq<Reply>)
    requires AllWellFormed(Tnt, rs)
    ensures Aligned(Stream(ItemsOf(rs)))
    decreases |rs|
  {
    hide BodyErrs, BodySettled;
    if rs != [] {
      var body, rest := rs[0].body, Stream(ItemsOf(rs[1..]));
      assert ItemsOf(rs)[1..] == ItemsOf(rs[1..]);
      TntAligned(rs[1..]);
      FrontAligned(body, rest);
    }
  }

  lemma FrontAligned(body: bytes, rest: bytes)
    requires |body| < TWO32 && Aligned(rest)
    ensures Aligned(TntItem(body).wire + rest)
  {
    Caps();
    UnBEofBE(|body|, 4);
    hide BodyErrs, BE, UnBE;
    var s := TntItem(body).wire + rest;
    assert s[1..5] == BE(|body|, 4);
    assert s[5 + |body|..] == rest;
  }

  // ---------------------------------------------------------------- reading a socket

  /** What one read delivers: no more than the kernel has, than fits the buffer, and than is left to come. */
  function Delivered(kind: Protocol, stream: bytes, size: nat, rs: seq<Read>): nat {
    var got, left := |Concat(Chunks(rs))|, |FeedIn(kind, rs).left|;
    if got >= |stream| || left >= CAP then 0 else Min(size, Min(CAP - left, |stream| - got))
  }

  /** The reads a worker makes: each brings what is delivered then, and a read of nothing ends them. */
  predicate Offered(kind: Protocol, stream: bytes, sizes: seq<nat>, rs: seq<Read>) {
    rs == [] ||
    var front, n := rs[..|rs| - 1], |rs| - 1;
    && Offered(kind, stream, sizes, front) && n < |sizes|
    && var got, d := |Concat(Chunks(front))|, Delivered(kind, stream, sizes[n], front);
       d > 0 && got + d <= |stream| && rs[n].chunk == stream[got..got + d]
  }

  /** No read is left to make, or the next one brings nothing. */
  predicate Ended(kind: Protocol, stream: bytes, sizes: seq<nat>, rs: seq<Read>) {
    |rs| >= |sizes| || Delivered(kind, stream, sizes[|rs|], rs) == 0
  }

  /** The reads are the stream from its start, cut into pieces that hold something. */
  lemma {:induction false} ReadsGoOn(kind: Protocol, stream: bytes, sizes: seq<nat>, rs: seq<Read>)
    requires Offered(kind, stream, sizes, rs)
    ensures Concat(Chunks(rs)) <= stream && |Concat(Chunks(rs))| >= |rs| && |rs| <= |sizes|
    decreases |rs|
  {
    hide FeedIn;
    if rs != [] {
      FrontOf(rs);
      ReadsGoOn(kind, stream, sizes, rs[..|rs| - 1]);
    }
  }

  /** With replies that fit the buffer and a kernel that always has something, as many reads as there are bytes read the
      stream to its end. */
  lemma ReadToTheEnd(kind: Protocol, rs: seq<Reply>, sizes: seq<nat>, pieces: seq<Read>)
    requires AllWellFormed(kind, rs) && (forall i :: 0 <= i < |rs| ==> |ItemOf(rs[i]).wire| <= 0x10_0000)
    requires (forall i :: 0 <= i < |sizes| ==> sizes[i] > 0) && |sizes| >= |Stream(ItemsOf(rs))|
    requires Offered(kind, Stream(ItemsOf(rs)), sizes, pieces) && Ended(kind, Stream(ItemsOf(rs)), sizes, pieces)
    ensures Concat(Chunks(pieces)) == Stream(ItemsOf(rs))
  {
    var stream, got := Stream(ItemsOf(rs)), Concat(Chunks(pieces));
    hide Framed, NextOf, WellFormed, ItemOf, FeedIn, Stream, Offered, Proper;
    ReadsGoOn(kind, stream, sizes, pieces);
    StreamProper(kind, rs);
    assert got + stream[|got|..] == stream;
    ProperPrefix(kind, got, stream[|got|..]);
    FeedInSame(kind, pieces);
    LeftAfter(kind, rs, Chunks(pieces));
  }

  lemma LeftAfter(kind: Protocol, rs: seq<Reply>, cs: seq<bytes>)
    requires AllWellFormed(kind, rs) && (forall i :: 0 <= i < |rs| ==> |ItemOf(rs[i]).wire| <= CAP)
    requires Concat(cs) <= Stream(ItemsOf(rs))
    ensures |Feed(NextOf(kind), cs).left| < CAP
  {
    NextOfSound(kind);
    hide Sound, Framed, Count, NextOf, WellFormed, ItemOf, Feed, Stream;
    var next, s := NextOf(kind), Concat(cs);
    forall i | 0 <= i < |rs|
      ensures Framed(next, ItemsOf(rs)[i])
    {
      ReplyFramed(kind, rs[i]);
    }
    LeftIsShort(next, ItemsOf(rs), s);
    if s != [] && Count(next, s[..|s| - 1]).broken {
      assert s[..|s| - 1] + [s[|s| - 1]] == s;
      BrokenStays(next, s[..|s| - 1], [s[|s| - 1]]);
    }
    AnyCut(next, cs);
  }
}
