/**
 That the circuit breaker breaks: which failures each driver counts, when the count disables the client and
 until when, what starts the count again, and how many refused connects in a row it takes.
 */
module BreakerTrips {
  import opened Breaker

  /** The attempts that count as an error: OpenSIPS counts a refused connection alone, Kamailio also a missing
      greeting or a refused login, RTPEngine everything. */
  predicate Refused(m: Machine, a: Attempt) {
    match m
    case Opensips(_) => a == NotConnected
    case Rtpe(_) => a != Up
    case Kamailio(_) => a == NotConnected || a == NoGreeting || a == NoAuth
  }

  /** An RTPEngine connect goes to the network whatever the connection is like. */
  predicate Connects(m: Machine, d: Deed) {
    m.Rtpe? && d.kind.Connect?
  }

  predicate Restores(m: Machine, d: Deed) {
    m.Rtpe? && d.kind.Restore?
  }

  /** The deed goes over the connection that is there. */
  predicate Reuses(m: Machine, d: Deed) {
    ViewOf(m).open && ViewOf(m).ready && !Connects(m, d)
  }

  predicate Cooling(m: Machine, d: Deed) {
    !Reuses(m, d) && ViewOf(m).disabled && d.call.now < ViewOf(m).until
  }

  /** Where an attempt starts counting: from zero when a cooldown is over. */
  function Base(m: Machine): int {
    if ViewOf(m).disabled then 0 else ViewOf(m).errors
  }

  /** One more error on top of `base` at a clock reading: the connection is closed, and if that makes the allowance
      it is disabled until the clock plus the cooldown. */
  predicate Bumped(v: View, v': View, cfg: Config, base: int, clock: int) {
    && v'.errors == base + 1 && !v'.open && !v'.ready
    && (v'.disabled <==> base + 1 >= cfg.allowed)
    && v'.until == if base + 1 >= cfg.allowed then clock + cfg.disableTime else v.until
  }

  /** A failure that is not counted: closed, with the count as it was. */
  predicate Quiet(v: View, v': View, base: int) {
    v'.errors == base && !v'.open && !v'.ready && !v'.disabled && v'.until == v.until
  }

  predicate Connected(v: View, v': View) {
    v'.errors == 0 && v'.open && v'.ready && !v'.disabled && v'.until == v.until
  }

  /** Over a connection that is there: a request that fails is counted, a restore that fails only closes, and what
      works leaves the connection up. */
  lemma ReuseCounts(m: Machine, cfg: Config, d: Deed)
    requires cfg.allowed > 0 && Inv(ViewOf(m), cfg) && Reuses(m, d)
    ensures var (m', tried) := Act(m, cfg, d); var v, v' := ViewOf(m), ViewOf(m');
            && !tried
            && (d.call.works ==> v' == v.(errors := if m.Rtpe? && d.kind.Request? then 0 else v.errors))
            && (!d.call.works && Restores(m, d) ==> Quiet(v, v', v.errors))
            && (!d.call.works && !Restores(m, d) ==> Bumped(v, v', cfg, v.errors, d.call.later))
  {
  }

  /** Without a connection and outside a cooldown a socket is tried: a refused attempt is one more error at the
      clock it was made, any other failed one is not counted, and a connection that comes up counts from zero,
      so that the request over it can add one error at most. */
  lemma AttemptCounts(m: Machine, cfg: Config, d: Deed)
    requires cfg.allowed > 0 && Inv(ViewOf(m), cfg) && !Reuses(m, d) && !Cooling(m, d)
    ensures var (m', tried) := Act(m, cfg, d); var v, v' := ViewOf(m), ViewOf(m');
            && tried
            && (Refused(m, d.call.attempt) ==> Bumped(v, v', cfg, Base(m), d.call.now))
            && (!Refused(m, d.call.attempt) && d.call.attempt != Up ==> Quiet(v, v', Base(m)))
            && (d.call.attempt == Up && (d.call.works || Connects(m, d)) ==> Connected(v, v'))
            && (d.call.attempt == Up && !d.call.works && Restores(m, d) ==> Quiet(v, v', 0))
            && (d.call.attempt == Up && !d.call.works && !Restores(m, d) && !Connects(m, d) ==>
                  Bumped(v, v', cfg, 0, d.call.later))
  {
  }

  lemma CoolingWaits(m: Machine, cfg: Config, d: Deed)
    requires cfg.allowed > 0 && Inv(ViewOf(m), cfg) && Cooling(m, d)
    ensures var (m', tried) := Act(m, cfg, d); !tried && ViewOf(m') == ViewOf(m)
  {
  }

  /** A client in order, whose open connection has no errors against it. */
  predicate Clean(m: Machine, cfg: Config) {
    Inv(ViewOf(m), cfg) && (ViewOf(m).ready ==> ViewOf(m).errors == 0)
  }

  /** The state after the first n deeds. */
  function Later(m: Machine, cfg: Config, ds: seq<Deed>, n: nat): Machine
    requires n <= |ds|
  {
    if n == 0 then m else Act(Later(m, cfg, ds, n - 1), cfg, ds[n - 1]).0
  }

  lemma {:induction false} TraceAt(m: Machine, cfg: Config, ds: seq<Deed>, i: nat)
    requires i < |ds|
    ensures var (m', tried) := Act(Later(m, cfg, ds, i), cfg, ds[i]);
            && Later(m, cfg, ds, i + 1) == m'
            && Trace(m, cfg, ds)[i] == Entry(ViewOf(m'), ds[i].call.now, ds[i].call.later, tried)
    decreases |ds|
  {
    hide Act, ViewOf;
    if i > 0 {
      var next := Act(m, cfg, ds[0]).0;
      TraceAt(next, cfg, ds[1..], i - 1);
      LaterTail(m, cfg, ds, i);
    }
  }

  lemma {:induction false} LaterTail(m: Machine, cfg: Config, ds: seq<Deed>, n: nat)
    requires 0 < n <= |ds|
    ensures Later(m, cfg, ds, n) == Later(Act(m, cfg, ds[0]).0, cfg, ds[1..], n - 1)
    decreases n
  {
    hide Act;
    if n > 1 {
      LaterTail(m, cfg, ds, n - 1);
    }
  }

  lemma ActClean(m: Machine, cfg: Config, d: Deed)
    requires cfg.allowed > 0 && d.call.now <= d.call.later && Clean(m, cfg)
    ensures Clean(Act(m, cfg, d).0, cfg)
    ensures d.call.works && ViewOf(Act(m, cfg, d).0).open ==> ViewOf(Act(m, cfg, d).0).errors == 0
  {
    hide Act, ViewOf;
    ActLegal(m, cfg, d);
    if Reuses(m, d) {
      ReuseCounts(m, cfg, d);
    } else if Cooling(m, d) {
      CoolingWaits(m, cfg, d);
    } else {
      AttemptCounts(m, cfg, d);
    }
  }

  lemma {:induction false} LaterClean(m: Machine, cfg: Config, ds: seq<Deed>, n: nat)
    requires cfg.allowed > 0 && Monotone(ds) && Clean(m, cfg) && n <= |ds|
    ensures Clean(Later(m, cfg, ds, n), cfg)
    decreases n
  {
    hide Act, Clean;
    if n > 0 {
      LaterClean(m, cfg, ds, n - 1);
      ActClean(Later(m, cfg, ds, n - 1), cfg, ds[n - 1]);
    }
  }

  /** A success resets the count, in every run of every driver: whenever the connection is open, nothing is held
      against it. */
  lemma SuccessResets(m: Machine, cfg: Config, ds: seq<Deed>)
    requires cfg.allowed > 0 && Monotone(ds) && Clean(m, cfg)
    ensures forall i :: 0 <= i < |ds| && Trace(m, cfg, ds)[i].view.open ==>
              Trace(m, cfg, ds)[i].view.errors == 0 && !Trace(m, cfg, ds)[i].view.disabled
  {
    hide Act, ViewOf, Trace;
    forall i | 0 <= i < |ds| && Trace(m, cfg, ds)[i].view.open
      ensures Trace(m, cfg, ds)[i].view.errors == 0 && !Trace(m, cfg, ds)[i].view.disabled
    {
      TraceAt(m, cfg, ds, i);
      LaterClean(m, cfg, ds, i + 1);
    }
  }

  /** The client does not become one of another driver. */
  lemma SameDriver(m: Machine, cfg: Config, d: Deed)
    ensures var m' := Act(m, cfg, d).0;
            (m.Opensips? <==> m'.Opensips?) && (m.Rtpe? <==> m'.Rtpe?) && (m.Kamailio? <==> m'.Kamailio?)
  {
  }

  /** Refused connects one after the other, from a closed connection with `errors` against it. */
  predicate Refusals(m: Machine, ds: seq<Deed>) {
    forall i :: 0 <= i < |ds| ==> Refused(m, ds[i].call.attempt)
  }

  /** The state of a run of refusals before the allowance is used up. */
  lemma {:induction false} RefusalsCount(m: Machine, cfg: Config, ds: seq<Deed>, n: nat)
    requires cfg.allowed > 0 && Monotone(ds) && Inv(ViewOf(m), cfg) && !ViewOf(m).open && !ViewOf(m).disabled
    requires Refusals(m, ds) && n <= |ds| && ViewOf(m).errors + n <= cfg.allowed
    ensures var m' := Later(m, cfg, ds, n); var v := ViewOf(m');
            && Inv(v, cfg) && !v.open && v.errors == ViewOf(m).errors + n
            && (v.disabled <==> v.errors == cfg.allowed)
            && (v.disabled ==> n > 0 && v.until == ds[n - 1].call.now + cfg.disableTime)
            && (forall a :: Refused(m', a) <==> Refused(m, a))
    decreases n
  {
    hide Act, ViewOf;
    if n > 0 {
      var before := Later(m, cfg, ds, n - 1);
      RefusalsCount(m, cfg, ds, n - 1);
      ActLegal(before, cfg, ds[n - 1]);
      AttemptCounts(before, cfg, ds[n - 1]);
      SameDriver(before, cfg, ds[n - 1]);
    }
  }

  /** The breaker trips. From a closed connection that is not cooling down, connects refused one after the other,
      in calls of any kind, each try a socket and raise the count by one; the one that makes the allowance, and
      none before it, disables the client for the cooldown from its own clock, and no call that begins before
      the deadline tries a socket. */
  lemma {:induction false} RefusalsTrip(m: Machine, cfg: Config, ds: seq<Deed>, k: nat)
    requires cfg.allowed > 0 && Monotone(ds) && Inv(ViewOf(m), cfg) && !ViewOf(m).open && !ViewOf(m).disabled
    requires k < |ds| && ViewOf(m).errors + k + 1 == cfg.allowed && Refusals(m, ds[..k + 1])
    ensures var es := Trace(m, cfg, ds); var until := ds[k].call.now + cfg.disableTime;
            && (forall i :: 0 <= i <= k ==> es[i].tried && es[i].view.errors == ViewOf(m).errors + i + 1)
            && (forall i :: 0 <= i < k ==> !es[i].view.disabled)
            && es[k].view.disabled && es[k].view.until == until
            && (forall j :: k < j < |ds| && ds[j].call.now < until ==> !es[j].tried && es[j].view == es[k].view)
  {
    hide Act, ViewOf, Trace;
    var es := Trace(m, cfg, ds);
    forall i | 0 <= i <= k
      ensures es[i].tried && es[i].view.errors == ViewOf(m).errors + i + 1
      ensures es[i].view.disabled <==> i == k
      ensures i == k ==> es[i].view.until == ds[k].call.now + cfg.disableTime
    {
      RefusalAt(m, cfg, ds, k, i);
    }
    TraceRuns(m, cfg, ds);
    forall j | k < j < |ds| && ds[j].call.now < ds[k].call.now + cfg.disableTime
      ensures !es[j].tried && es[j].view == es[k].view
    {
      StaysDisabled(ViewOf(m), cfg, es, k, j);
    }
  }

  lemma RefusalAt(m: Machine, cfg: Config, ds: seq<Deed>, k: nat, i: nat)
    requires cfg.allowed > 0 && Monotone(ds) && Inv(ViewOf(m), cfg) && !ViewOf(m).open && !ViewOf(m).disabled
    requires i <= k < |ds| && ViewOf(m).errors + k + 1 == cfg.allowed && Refusals(m, ds[..k + 1])
    ensures var e := Trace(m, cfg, ds)[i];
            && e.tried && e.view.errors == ViewOf(m).errors + i + 1
            && (e.view.disabled <==> i == k)
            && (i == k ==> e.view.until == ds[k].call.now + cfg.disableTime)
  {
    hide Act, ViewOf, Trace, Refused;
    var front := ds[..k + 1];
    LaterFront(m, cfg, ds, k + 1, i);
    LaterFront(m, cfg, ds, k + 1, i + 1);
    RefusalsCount(m, cfg, front, i);
    RefusalsCount(m, cfg, front, i + 1);
    TraceAt(m, cfg, ds, i);
    assert Refused(m, front[i].call.attempt);
    AttemptCounts(Later(m, cfg, ds, i), cfg, ds[i]);
  }

  lemma {:induction false} LaterFront(m: Machine, cfg: Config, ds: seq<Deed>, k: nat, n: nat)
    requires n <= k <= |ds|
    ensures Later(m, cfg, ds[..k], n) == Later(m, cfg, ds, n)
    decreases n
  {
    hide Act;
    if n > 0 {
      LaterFront(m, cfg, ds, k, n - 1);
    }
  }

  /** What does not trip it: a server that accepts every connection and answers no request, since each connect
      counts from zero again. When more than one error is allowed, one is all that is ever held against it. */
  lemma {:induction false} AcceptingNeverTrips(m: Machine, cfg: Config, ds: seq<Deed>, n: nat)
    requires cfg.allowed > 1 && Monotone(ds) && Clean(m, cfg) && !ViewOf(m).disabled && n <= |ds|
    requires ViewOf(m).errors <= 1 && forall i :: 0 <= i < |ds| ==> ds[i].call.attempt == Up
    ensures var v := ViewOf(Later(m, cfg, ds, n)); !v.disabled && v.errors <= 1
    decreases n
  {
    hide Act, ViewOf;
    if n > 0 {
      var before, d := Later(m, cfg, ds, n - 1), ds[n - 1];
      AcceptingNeverTrips(m, cfg, ds, n - 1);
      LaterClean(m, cfg, ds, n - 1);
      if Reuses(before, d) {
        ReuseCounts(before, cfg, d);
      } else {
        AttemptCounts(before, cfg, d);
      }
    }
  }

  /** With the defaults of three errors and ten seconds: connects refused at 100, 101 and 102 disable each of the
      three clients until 112, and at 103 none of them opens a socket. */
  lemma RefusedSample(m: Machine)
    requires m == Opensips(Conn(false, Disconnected, 0, 0)) || m == Rtpe(Conn(false, Disconnected, 0, 0))
             || m == Kamailio(Server(false, false, false, 0, 0))
    ensures var at := now => Deed(Call(now, NotConnected, now, false), Request);
            var es := Trace(m, Config(3, 10), [at(100), at(101), at(102), at(103)]);
            && !es[1].view.disabled && es[1].view.errors == 2
            && es[2].tried && es[2].view.disabled && es[2].view.until == 112
            && !es[3].tried && es[3].view.until == 112
  {
    hide Act, Trace;
    var at := now => Deed(Call(now, NotConnected, now, false), Request);
    RefusalsTrip(m, Config(3, 10), [at(100), at(101), at(102), at(103)], 2);
  }
}
