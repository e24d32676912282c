/** Handing a list of buffers to the kernel, with short writes and interrupted calls. */
module Writev {
  import opened Wrappers
  import opened Msgpack

  /** One `writev`: interrupted or not ready (to be repeated), failed, or some bytes taken. The kernel never takes
      more than it was given. */
  datatype Outcome = Again | Failed | Took(n: nat)

  /** Pending: still waiting when the calls considered here are used up. */
  datatype Status = Sent | Error | Pending

  /** How a transfer of `left` bytes goes, and how many of them are handed over: it fails when a call fails or
      takes nothing, and it is done when the last byte is taken. */
  function Transfer(left: nat, calls: seq<Outcome>): (r: (Status, nat))
    ensures r.1 <= left && (r.0.Sent? ==> r.1 == left && left > 0)
    decreases |calls|
  {
    if calls == [] then (Pending, 0)
    else
      match calls[0]
      case Again => Transfer(left, calls[1..])
      case Failed => (Error, 0)
      case Took(n) =>
        var m := Min(n, left);
        if m == 0 then (Error, 0)
        else if m == left then (Sent, m)
        else
          var r := Transfer(left - m, calls[1..]);
          (r.0, m + r.1)
  }

  /** What the calls take in all, as far as they take anything. */
  function Taken(calls: seq<Outcome>): nat {
    if calls == [] then 0
    else Taken(calls[..|calls| - 1]) + if calls[|calls| - 1].Took? then calls[|calls| - 1].n else 0
  }

  /** A call that leaves the transfer going on: it is to be repeated, or takes something. */
  predicate GoesOn(c: Outcome) {
    c.Again? || (c.Took? && c.n > 0)
  }

  /** Everything is sent at call k: the calls up to it go on, those before it do not take the whole, and with
      it they do. */
  predicate SentAt(left: nat, calls: seq<Outcome>, k: nat) {
    && k < |calls| && (forall i :: 0 <= i <= k ==> GoesOn(calls[i]))
    && calls[k].Took? && Taken(calls[..k]) < left <= Taken(calls[..k + 1])
  }

  lemma {:induction false} TakenFront(calls: seq<Outcome>, k: nat)
    requires 0 < k <= |calls|
    ensures Taken(calls[..k]) == (if calls[0].Took? then calls[0].n else 0) + Taken(calls[1..][..k - 1])
    decreases k
  {
    assert calls[..k][..k - 1] == calls[..k - 1];
    if k > 1 {
      TakenFront(calls, k - 1);
      assert calls[1..][..k - 1][..k - 2] == calls[1..][..k - 2];
    } else {
      assert calls[..1][..0] == [];
      assert calls[1..][..0] == [];
    }
  }

  /** One call less, and what it took. */
  lemma SentShift(left: nat, calls: seq<Outcome>, k: nat)
    requires 0 < k < |calls| && GoesOn(calls[0]) && (calls[0].Took? ==> calls[0].n < left)
    ensures SentAt(left, calls, k) <==> SentAt(left - (if calls[0].Took? then calls[0].n else 0), calls[1..], k - 1)
  {
    TakenFront(calls, k);
    TakenFront(calls, k + 1);
    assert forall i :: 0 <= i < |calls| - 1 ==> calls[1..][i] == calls[i + 1];
  }

  /** A call that goes on without taking all that is left leaves the rest to the others. */
  lemma LeftToOthers(left: nat, calls: seq<Outcome>, rest: nat)
    requires calls != [] && GoesOn(calls[0]) && !(calls[0].Took? && calls[0].n >= left)
    requires rest == left - if calls[0].Took? then calls[0].n else 0
    ensures (exists k :: SentAt(left, calls, k)) <==> exists k :: SentAt(rest, calls[1..], k)
  {
    NotAtOnce(left, calls);
    hide SentAt, GoesOn;
    if k: nat :| SentAt(rest, calls[1..], k) {
      WithinCalls(rest, calls[1..], k);
      SentShift(left, calls, k + 1);
    }
    if k: nat :| SentAt(left, calls, k) {
      WithinCalls(left, calls, k);
      SentShift(left, calls, k);
    }
  }

  lemma WithinCalls(left: nat, calls: seq<Outcome>, k: nat)
    requires SentAt(left, calls, k)
    ensures k < |calls|
  {
  }

  lemma NotAtOnce(left: nat, calls: seq<Outcome>)
    requires calls != [] && !(calls[0].Took? && calls[0].n >= left)
    ensures !SentAt(left, calls, 0)
  {
    assert calls[..1] == [calls[0]] && [calls[0]][..0] == [];
  }

  lemma AtOnce(left: nat, calls: seq<Outcome>)
    requires calls != [] && calls[0].Took? && calls[0].n >= left > 0
    ensures SentAt(left, calls, 0)
  {
    assert calls[..0] == [] && calls[..1] == [calls[0]] && [calls[0]][..0] == [];
  }

  /** The transfer succeeds if and only if the calls take the whole before any of them fails or takes nothing. */
  lemma {:induction false} SentExactly(left: nat, calls: seq<Outcome>)
    ensures Transfer(left, calls).0.Sent? <==> exists k :: SentAt(left, calls, k)
    decreases |calls|
  {
    hide SentAt;
    if calls == [] {
      NoCalls(left);
    } else {
      var c := calls[0];
      if GoesOn(c) && !(c.Took? && c.n >= left) {
        var rest := left - if c.Took? then c.n else 0;
        SentExactly(rest, calls[1..]);
        LeftToOthers(left, calls, rest);
      } else if GoesOn(c) && left > 0 {
        AtOnce(left, calls);
      } else {
        Stops(left, calls);
      }
    }
  }

  lemma NoCalls(left: nat)
    ensures forall k :: !SentAt(left, [], k)
  {
  }

  lemma Stops(left: nat, calls: seq<Outcome>)
    requires calls != [] && (!GoesOn(calls[0]) || (calls[0].Took? && left == 0))
    ensures forall k :: !SentAt(left, calls, k)
  {
  }

  lemma SplitAt(parts: seq<bytes>, k: nat)
    requires k < |parts|
    ensures Concat(parts[k..]) == parts[k] + Concat(parts[k + 1..])
  {
    assert parts[k..] == [parts[k]] + parts[k + 1..];
    ConcatHead(parts[k], parts[k + 1..]);
  }

  /** Drops n bytes from the front of the list: whole buffers first, then part of the next one. */
  method Advance(iov: array<bytes>, k: nat, n: nat) returns (k': nat)
    requires k <= iov.Length && n <= |Concat(iov[k..])|
    modifies iov
    ensures k <= k' <= iov.Length
    ensures Concat(iov[k'..]) == old(Concat(iov[k..]))[n..]
    ensures n == |old(Concat(iov[k..]))| <==> k' == iov.Length
  {
    hide Concat;
    k' := k;
    var left: nat := n;
    ghost var all := Concat(iov[k..]);
    while k' < iov.Length && left >= |iov[k']|
      invariant k <= k' <= iov.Length && iov[..] == old(iov[..])
      invariant left <= |Concat(iov[k'..])|
      invariant Concat(iov[k'..])[left..] == all[n..]
    {
      SplitAt(iov[..], k');
      assert iov[..][k'..] == iov[k'..] && iov[..][k' + 1..] == iov[k' + 1..];
      left := left - |iov[k']|;
      k' := k' + 1;
    }
    if k' == iov.Length {
      NoParts(iov[k'..]);
    } else {
      SplitAt(iov[..], k');
      assert iov[..][k'..] == iov[k'..] && iov[..][k' + 1..] == iov[k' + 1..];
    }
    if left > 0 {
      ghost var rest := iov[k' + 1..];
      iov[k'] := iov[k'][left..];
      SplitAt(iov[..], k');
      assert iov[..][k'..] == iov[k'..] && iov[..][k' + 1..] == rest;
    }
  }

  lemma NoParts(parts: seq<bytes>)
    requires parts == []
    ensures Concat(parts) == []
  {
  }

  /** `tnt_writev_all`: at every moment the kernel has a prefix of the whole, and all of it when this returns 0. */
  method WritevAll(iov: array<bytes>, calls: seq<Outcome>) returns (status: Status, sent: bytes)
    modifies iov
    ensures var all := old(Concat(iov[..]));
            && sent <= all
            && (status, |sent|) == (if iov.Length == 0 then (Sent, 0) else Transfer(|all|, calls))
            && (status.Sent? ==> sent == all)
  {
    hide Concat;
    ghost var all := Concat(iov[..]);
    var k, i := 0, 0;
    sent := [];
    assert iov[0..] == iov[..];
    if iov.Length == 0 {
      NoParts(iov[..]);
    }
    while k < iov.Length
      invariant 0 <= k <= iov.Length && 0 <= i <= |calls| && sent <= all
      invariant Concat(iov[k..]) == all[|sent|..]
      invariant k == iov.Length ==> sent == all && (iov.Length == 0 || Transfer(|all|, calls) == (Sent, |all|))
      invariant k < iov.Length ==>
                  var r := Transfer(|all| - |sent|, calls[i..]); Transfer(|all|, calls) == (r.0, |sent| + r.1)
      decreases |calls| - i
    {
      if i == |calls| {
        return Pending, sent;
      }
      assert calls[i..][1..] == calls[i + 1..];
      var rest := Concat(iov[k..]);
      match calls[i] {
        case Again =>
        case Failed => return Error, sent;
        case Took(n) =>
          var m := Min(n, |rest|);
          if m == 0 {
            return Error, sent;
          }
          sent := sent + rest[..m];
          k := Advance(iov, k, m);
      }
      i := i + 1;
    }
    return Sent, sent;
  }
}
