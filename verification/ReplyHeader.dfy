/**
 How the benchmark client counts the errors of one IProto reply. The loop over the header entries looks at the end of
 the frame only between entries, so the last entry may be completed by bytes that lie behind the frame.
 */
module ReplyHeader {
  import opened Wrappers
  import opened Msgpack
  import Iproto

  const ERROR_24: nat := 0x31

  /** An entry that starts inside the frame ends at most this far behind it: two numbers of nine bytes. */
  const REACH: nat := 17

  /** What stands in memory behind the bytes of interest. */
  type Memory = s: bytes | |s| >= REACH witness seq(REACH, _ => 0)

  /** The loop over the header entries: s starts at the cursor, and its last `behind` bytes are not part of the frame.
      A status that is not OK and an error text are errors. None when the memory does not reach far enough. */
  function EntryErrs(s: bytes, behind: nat, n: nat): Option<nat>
    decreases n
  {
    if n == 0 || |s| <= behind then Some(0)
    else
      var (k, s1) :- DecodeUint(s);
      if k == Iproto.REQUEST_TYPE then
        var (code, s2) :- DecodeUint(s1);
        var errs :- EntryErrs(s2, behind, n - 1);
        Some(errs + if code != Iproto.OK then 1 else 0)
      else if k == ERROR_24 then Some(1)
      else if s1 == [] then None
      else if s1[0] <= 0x7f || s1[0] >= 0xcc then
        var (_, s2) :- DecodeUint(s1);
        EntryErrs(s2, behind, n - 1)
      else EntryErrs(s1[1..], behind, n - 1)
  }

  predicate ShortMap(body: bytes) {
    body != [] && 0x80 <= body[0] <= 0x8f
  }

  /** The errors of a reply, with the bytes behind it; only headers written as a short map are looked at. */
  function ReplyErrs(body: bytes, after: bytes): nat {
    if ShortMap(body) then
      var errs := EntryErrs(body[1..] + after, |after|, body[0] as nat - 0x80);
      if errs.Some? then errs.value else 0
    else 0
  }

  /** Memory that reaches far enough is enough for every header. */
  lemma {:induction false} EntriesReadable(s: bytes, behind: nat, n: nat)
    requires behind >= REACH
    ensures EntryErrs(s, behind, n).Some?
    decreases n
  {
    hide DecodeUint;
    if n > 0 && |s| > behind {
      NineBytes(s);
      var (k, s1) := DecodeUint(s).value;
      NineBytes(s1);
      var s2 := DecodeUint(s1).value.1;
      EntriesReadable(s2, behind, n - 1);
      EntriesReadable(s1[1..], behind, n - 1);
    }
  }

  /** A number takes at most nine bytes. */
  lemma NineBytes(s: bytes)
    requires |s| >= 9
    ensures DecodeUint(s).Some? && |s| - 9 <= |DecodeUint(s).value.1| < |s|
  {
  }

  // ---------------------------------------------------------------- what the frame alone decides

  /** The errors counted whatever stands behind the frame: s is the rest of the frame. */
  function SureErrs(s: bytes, n: nat): nat
    decreases n
  {
    if n == 0 || s == [] || DecodeUint(s).None? then 0
    else
      var (k, s1) := DecodeUint(s).value;
      var v := DecodeUint(s1);
      if k == Iproto.REQUEST_TYPE then
        if v.None? then if Begun(s1) then 1 else 0
        else (if v.value.0 != Iproto.OK then 1 else 0) + SureErrs(v.value.1, n - 1)
      else if k == ERROR_24 then 1
      else if s1 == [] then 0
      else if s1[0] <= 0x7f || s1[0] >= 0xcc then if v.None? then 0 else SureErrs(v.value.1, n - 1)
      else SureErrs(s1[1..], n - 1)
  }

  /** A number that runs out of the frame but is known not to be small already. */
  predicate Begun(s: bytes) {
    s != [] && UnBE(s[1..]) != 0
  }

  /** No key that runs out of the frame can still become a status or an error text, and no status that runs out of it
      can still be OK: what runs out is a value nobody looks at, or a number with a nonzero byte inside. */
  predicate Settled(s: bytes, n: nat)
    decreases n
  {
    n == 0 || s == [] ||
    if DecodeUint(s).None? then Begun(s)
    else
      var (k, s1) := DecodeUint(s).value;
      var v := DecodeUint(s1);
      if k == Iproto.REQUEST_TYPE then if v.None? then Begun(s1) else Settled(v.value.1, n - 1)
      else k == ERROR_24 || s1 == [] ||
           if s1[0] <= 0x7f || s1[0] >= 0xcc then v.None? || Settled(v.value.1, n - 1) else Settled(s1[1..], n - 1)
  }

  function BodyErrs(body: bytes): nat {
    if ShortMap(body) then SureErrs(body[1..], body[0] as nat - 0x80) else 0
  }

  predicate BodySettled(body: bytes) {
    ShortMap(body) ==> Settled(body[1..], body[0] as nat - 0x80)
  }

  /** A number inside the frame is read the same, whatever is behind. */
  lemma DecodeMore(s: bytes, after: bytes)
    requires DecodeUint(s).Some?
    ensures var (v, t) := DecodeUint(s).value; DecodeUint(s + after) == Some((v, t + after))
  {
    hide UnBE;
    var w := ScalarLen(s[0]);
    if 0xcc <= s[0] <= 0xcf {
      assert (s + after)[1..1 + w] == s[1..1 + w] && (s + after)[1 + w..] == s[1 + w..] + after;
    } else {
      assert (s + after)[1..] == s[1..] + after;
    }
  }

  /** How many bytes of a number are missing. */
  function Missing(s: bytes): nat
    requires s != [] && DecodeUint(s).None?
  {
    1 + ScalarLen(s[0]) - |s|
  }

  /** A number that runs out of the frame is completed from behind it. */
  lemma DecodePartial(s: bytes, after: bytes)
    requires s != [] && DecodeUint(s).None? && |after| >= 8
    ensures 1 <= Missing(s) <= 8 && 0xcc <= s[0] <= 0xcf
    ensures DecodeUint(s + after) == Some((UnBE(s[1..] + after[..Missing(s)]), after[Missing(s)..]))
  {
    hide UnBE;
    var w, j := ScalarLen(s[0]), Missing(s);
    assert (s + after)[1..1 + w] == s[1..] + after[..j] && (s + after)[1 + w..] == after[j..];
  }

  lemma {:induction false} UnBEGrows(v: bytes, x: bytes)
    requires x != []
    ensures UnBE(v + x) >= 256 * UnBE(v)
    decreases |x|
  {
    var s := v + x;
    assert s[..|s| - 1] == v + x[..|x| - 1];
    if |x| == 1 {
      assert v + x[..0] == v;
    } else {
      UnBEGrows(v, x[..|x| - 1]);
    }
  }

  /** A frame that settles its header counts for the same errors whatever is behind it. */
  lemma {:induction false} SettledSame(s: bytes, after: bytes, n: nat)
    requires Settled(s, n) && |after| >= REACH
    ensures EntryErrs(s + after, |after|, n) == Some(SureErrs(s, n))
    decreases n
  {
    hide DecodeUint, UnBE;
    if n > 0 && s != [] {
      if DecodeUint(s).None? {
        KeyRunsOut(s, after, n);
      } else {
        DecodeMore(s, after);
        var (k, s1) := DecodeUint(s).value;
        if k == Iproto.REQUEST_TYPE {
          if DecodeUint(s1).None? {
            StatusRunsOut(s1, after);
          } else {
            DecodeMore(s1, after);
            SettledSame(DecodeUint(s1).value.1, after, n - 1);
          }
        } else if k != ERROR_24 {
          ValueSame(s1, after, n);
        }
      }
    }
  }

  lemma KeyRunsOut(s: bytes, after: bytes, n: nat)
    requires n > 0 && s != [] && DecodeUint(s).None? && Begun(s) && |after| >= REACH
    ensures EntryErrs(s + after, |after|, n) == Some(0)
  {
    hide DecodeUint, UnBE;
    DecodePartial(s, after);
    UnBEGrows(s[1..], after[..Missing(s)]);
    var s1 := after[Missing(s)..];
    NineBytes(s1);
    assert |s1[1..]| <= |after|;
  }

  lemma StatusRunsOut(s1: bytes, after: bytes)
    requires DecodeUint(s1).None? && Begun(s1) && |after| >= REACH
    ensures DecodeUint(s1 + after).Some? && DecodeUint(s1 + after).value.0 != 0
            && |DecodeUint(s1 + after).value.1| <= |after|
  {
    hide DecodeUint, UnBE;
    DecodePartial(s1, after);
    UnBEGrows(s1[1..], after[..Missing(s1)]);
  }

  /** A value nobody looks at, inside the frame or not. */
  lemma ValueSame(s1: bytes, after: bytes, n: nat)
    requires n > 0 && |after| >= REACH
    requires s1 == [] ||
             if s1[0] <= 0x7f || s1[0] >= 0xcc then DecodeUint(s1).None? || Settled(DecodeUint(s1).value.1, n - 1)
             else Settled(s1[1..], n - 1)
    ensures var t := s1 + after; var v := DecodeUint(t);
            && t != [] && v.Some?
            && EntryErrs(if t[0] <= 0x7f || t[0] >= 0xcc then v.value.1 else t[1..], |after|, n - 1)
               == Some(if s1 == [] then 0
                       else if s1[0] <= 0x7f || s1[0] >= 0xcc then
                         if DecodeUint(s1).None? then 0 else SureErrs(DecodeUint(s1).value.1, n - 1)
                       else SureErrs(s1[1..], n - 1))
    decreases n, 0
  {
    hide DecodeUint, UnBE, Settled, SureErrs;
    var t := s1 + after;
    NineBytes(t);
    if s1 == [] {
      assert t == after;
    } else if s1[0] <= 0x7f || s1[0] >= 0xcc {
      if DecodeUint(s1).None? {
        DecodePartial(s1, after);
      } else {
        DecodeMore(s1, after);
        SettledSame(DecodeUint(s1).value.1, after, n - 1);
      }
    } else {
      assert t[1..] == s1[1..] + after;
      SettledSame(s1[1..], after, n - 1);
    }
  }

  // ---------------------------------------------------------------- what it does not decide

  lemma {:induction false} UnBEOfZeros(v: bytes, j: nat)
    requires UnBE(v) == 0
    ensures UnBE(v + Zeros(j)) == 0
  {
    if j == 0 {
      assert v + Zeros(0) == v;
    } else {
      var s := v + Zeros(j);
      assert s[..|s| - 1] == v + Zeros(j - 1);
      UnBEOfZeros(v, j - 1);
    }
  }

  lemma UnBEOfOne(v: bytes, j: nat)
    requires UnBE(v) == 0 && j > 0
    ensures UnBE(v + (Zeros(j - 1) + [1])) == 1
  {
    var s := v + (Zeros(j - 1) + [1]);
    assert s[..|s| - 1] == v + Zeros(j - 1);
    UnBEOfZeros(v, j - 1);
  }

  /** A status of which nothing or only zero bytes are inside the frame: behind zeros it is OK, behind a one it is
      not. */
  lemma StatusOpen(s1: bytes) returns (m1: Memory, m2: Memory)
    requires DecodeUint(s1).None? && !Begun(s1)
    ensures var d1, d2 := DecodeUint(s1 + m1), DecodeUint(s1 + m2);
            && d1.Some? && d1.value.0 == 0 && |d1.value.1| <= |m1|
            && d2.Some? && d2.value.0 != 0 && |d2.value.1| <= |m2|
  {
    hide UnBE;
    m1 := Zeros(32);
    if s1 == [] {
      m2 := [1] + Zeros(31);
      assert s1 + m1 == m1 && s1 + m2 == m2;
    } else {
      hide DecodeUint;
      DecodePartial(s1, Zeros(32));
      var j := Missing(s1);
      m2 := Zeros(j - 1) + [1] + Zeros(31);
      DecodePartial(s1, m2);
      assert m1[..j] == Zeros(j) && m2[..j] == Zeros(j - 1) + [1];
      UnBEOfZeros(s1[1..], j);
      UnBEOfOne(s1[1..], j);
    }
  }

  /** A key of which only zero bytes are inside the frame: behind zeros it is a status of OK, behind zeros and a one
      a status that is not. */
  lemma KeyOpen(s: bytes, n: nat) returns (m1: Memory, m2: Memory)
    requires n > 0 && s != [] && DecodeUint(s).None? && !Begun(s)
    ensures EntryErrs(s + m1, |m1|, n) == Some(0) && EntryErrs(s + m2, |m2|, n) == Some(1)
  {
    hide UnBE, DecodeUint;
    m1 := Zeros(32);
    DecodePartial(s, m1);
    var j := Missing(s);
    m2 := Zeros(j) + ([1] + Zeros(31));
    DecodePartial(s, m2);
    assert m1[..j] == Zeros(j) && m2[..j] == Zeros(j);
    UnBEOfZeros(s[1..], j);
    assert m1[j..] == Zeros(32 - j) && m2[j..] == [1] + Zeros(31);
    SmallNumber(m1[j..]);
    SmallNumber(m2[j..]);
  }

  lemma SmallNumber(s: bytes)
    requires s != [] && s[0] <= 0x7f
    ensures DecodeUint(s) == Some((s[0] as nat, s[1..]))
  {
  }

  /** A frame that does not settle its header counts for more or fewer errors, depending on what is behind it. */
  lemma {:induction false} UnsettledDiffers(s: bytes, n: nat) returns (m1: Memory, m2: Memory)
    requires !Settled(s, n)
    ensures EntryErrs(s + m1, |m1|, n).Some? && EntryErrs(s + m2, |m2|, n).Some?
    ensures EntryErrs(s + m1, |m1|, n) != EntryErrs(s + m2, |m2|, n)
    decreases n
  {
    hide DecodeUint, UnBE;
    if DecodeUint(s).None? {
      m1, m2 := KeyOpen(s, n);
    } else {
      var (k, s1) := DecodeUint(s).value;
      if k == Iproto.REQUEST_TYPE && DecodeUint(s1).None? {
        m1, m2 := StatusOpen(s1);
      } else if k == Iproto.REQUEST_TYPE || s1[0] <= 0x7f || s1[0] >= 0xcc {
        m1, m2 := UnsettledDiffers(DecodeUint(s1).value.1, n - 1);
        DecodeMore(s1, m1);
        DecodeMore(s1, m2);
      } else {
        m1, m2 := UnsettledDiffers(s1[1..], n - 1);
        assert (s1 + m1)[1..] == s1[1..] + m1 && (s1 + m2)[1..] == s1[1..] + m2;
      }
      DecodeMore(s, m1);
      DecodeMore(s, m2);
    }
  }

  /** Whatever is behind a reply, it counts for the same errors, if and only if its header is settled. */
  lemma SettledExactly(body: bytes)
    ensures (forall m1: Memory, m2: Memory :: ReplyErrs(body, m1) == ReplyErrs(body, m2)) <==> BodySettled(body)
    ensures BodySettled(body) ==> forall m: Memory :: ReplyErrs(body, m) == BodyErrs(body)
  {
    hide EntryErrs, Settled, SureErrs;
    if BodySettled(body) {
      forall m: Memory
        ensures ReplyErrs(body, m) == BodyErrs(body)
      {
        BodySame(body, m);
      }
    } else {
      var m1, m2 := UnsettledDiffers(body[1..], body[0] as nat - 0x80);
      assert ReplyErrs(body, m1) != ReplyErrs(body, m2);
    }
  }

  lemma BodySame(body: bytes, after: bytes)
    requires BodySettled(body) && |after| >= REACH
    ensures ReplyErrs(body, after) == BodyErrs(body)
  {
    hide EntryErrs, Settled, SureErrs;
    if ShortMap(body) {
      SettledSame(body[1..], after, body[0] as nat - 0x80);
    }
  }

  /** Two kinds of replies, byte for byte: a status other than 0 is an error, and so is an error text. */
  lemma ErrorReplies(status: byte, sync: byte, rest: bytes, after: Memory)
    requires status <= 0x7f && sync <= 0x7f
    ensures ReplyErrs([0x82, 0x00, status, 0x01, sync] + rest, after) == if status != 0 then 1 else 0
    ensures ReplyErrs([0x81, 0x31] + rest, after) == 1
  {
    hide DecodeUint;
    var s3 := [sync] + (rest + after);
    var s2 := [0x01] + s3;
    var s1 := [status] + s2;
    var body: bytes := [0x82, 0x00, status, 0x01, sync] + rest;
    assert body[1..] + after == [0x00] + s1;
    OneByte(0x00, s1);
    OneByte(status, s2);
    OneByte(0x01, s3);
    OneByte(sync, rest + after);
    assert EntryErrs(s2, |after|, 1) == Some(0);
    var text: bytes := [0x81, 0x31] + rest;
    assert text[1..] + after == [0x31] + (rest + after);
    OneByte(0x31, rest + after);
  }

  lemma OneByte(c: byte, s: bytes)
    requires c <= 0x7f
    ensures DecodeUint([c] + s) == Some((c as nat, s))
  {
    assert ([c] + s)[1..] == s;
  }

  /** Two replies with a header that runs out of the frame. The first has one entry, a status that lies behind it. The
      second has two, a status of 1 and an entry without value: it is one error, whatever is behind. */
  lemma RunsOut(m: Memory)
    ensures !BodySettled([0x81, 0]) && ReplyErrs([0x81, 0], [0xCE] + m) == 1 - (if UnBE(m[..4]) == 0 then 1 else 0)
    ensures BodySettled([0x82, 0, 1, 1]) && ReplyErrs([0x82, 0, 1, 1], m) == 1
  {
    hide UnBE;
    var a: bytes, b: bytes := [0x81, 0], [0x82, 0, 1, 1];
    var t: bytes := [0];
    assert a[1..] == t && t[1..] == [];
    assert (t + ([0xCE] + m))[1..] == [0xCE] + m && ([0xCE] + m)[1..5] == m[..4];
    assert ReplyErrs(a, [0xCE] + m) == 1 - (if UnBE(m[..4]) == 0 then 1 else 0);
    assert b[1..] == [0, 1, 1] && b[1..][1..] == [1, 1] && b[1..][1..][1..] == [1] && b[1..][1..][1..][1..] == [];
    assert Settled([1], 1);
    assert SureErrs([1], 1) == 0;
    assert Settled([0, 1, 1], 2) && SureErrs([0, 1, 1], 2) == 1;
    BodySame(b, m);
  }

  // ---------------------------------------------------------------- plain headers

  /** The status entries of a header that do not say OK. */
  function NotOk(ps: seq<Iproto.Pair>): nat {
    if ps == [] then 0
    else
      (if Meaning(ps[0].k) == UInt(Iproto.REQUEST_TYPE) && Meaning(ps[0].v) != UInt(Iproto.OK) then 1 else 0)
        + NotOk(ps[1..])
  }

  /** Numbers under numbers, none of them an error text. */
  predicate PlainHeader(ps: seq<Iproto.Pair>) {
    forall i :: 0 <= i < |ps| ==>
      && Valid(ps[i].k) && Meaning(ps[i].k).UInt? && Meaning(ps[i].k) != UInt(ERROR_24)
      && Valid(ps[i].v) && Meaning(ps[i].v).UInt?
  }

  lemma {:induction false} EntriesCounted(ps: seq<Iproto.Pair>, rest: bytes)
    requires PlainHeader(ps)
    ensures var s := Iproto.PairBytes(ps) + rest; Settled(s, |ps|) && SureErrs(s, |ps|) == NotOk(ps)
    decreases |ps|
  {
    hide DecodeUint, Bytes, Valid, Meaning, Iproto.PairBytes;
    if ps != [] {
      Iproto.PairStep(ps, rest);
      var tail := Iproto.PairBytes(ps[1..]) + rest;
      DecodeUintExact(ps[0].k, Bytes(ps[0].v) + tail);
      DecodeUintExact(ps[0].v, tail);
      UintTag(ps[0].k, Bytes(ps[0].v) + tail);
      UintTag(ps[0].v, tail);
      EntriesCounted(ps[1..], rest);
    }
  }

  lemma UintTag(w: Wire, rest: bytes)
    requires Valid(w) && Meaning(w).UInt?
    ensures var s := Bytes(w) + rest; s != [] && (s[0] <= 0x7f || s[0] >= 0xcc)
  {
  }

  /** A reply whose header is written as a short map of numbers is settled and counts for as many errors as it has
      statuses other than OK, whatever widths, order and further entries it uses and whatever body follows. */
  lemma StatusCounted(ps: seq<Iproto.Pair>, rest: bytes, after: Memory)
    requires PlainHeader(ps) && |ps| <= 15
    ensures var body := Head(MapK, 0, |ps|) + Iproto.PairBytes(ps) + rest;
            BodySettled(body) && ReplyErrs(body, after) == NotOk(ps)
  {
    hide EntryErrs, Settled, SureErrs, Iproto.PairBytes, PlainHeader;
    var body := Head(MapK, 0, |ps|) + Iproto.PairBytes(ps) + rest;
    assert body[0] as nat == 0x80 + |ps|;
    assert body[1..] == Iproto.PairBytes(ps) + rest;
    EntriesCounted(ps, rest);
    BodySame(body, after);
  }
}
