/**
 The circuit breaker, in its three forms: OpenSIPS, RTPEngine and Kamailio each count failures, disable the
 connection for a cooldown and try again. The transition functions follow each driver's code; one trace
 theorem covers all three.
 */
module Breaker {
  /** Error allowance and cooldown length. */
  datatype Config = Config(allowed: int, disableTime: int)

  /** How far an attempt to connect gets. `NoSocket` fails in `socket()`; the others opened one. */
  datatype Attempt = NoSocket | NoHost | NotConnected | NoGreeting | NoAuth | Up

  datatype Phase = Disconnected | Connecting | Authenticated | Error | Disabled

  /** The breaker fields of the OpenSIPS and RTPEngine clients; `open` is `sock_fd >= 0`. */
  datatype Conn = Conn(open: bool, phase: Phase, errors: int, until: int)

  // ---------------------------------------------------------------- OpenSIPS

  /** Counting one failure on a closed connection at clock reading `now`. */
  function Count(c: Conn, cfg: Config, now: int): Conn {
    if c.errors + 1 >= cfg.allowed then Conn(false, Disabled, c.errors + 1, now + cfg.disableTime)
    else Conn(false, c.phase, c.errors + 1, c.until)
  }

  /** `tnt_connect_single`: the new state and whether `socket()` was called. Only a refused connection counts
      as an error. */
  function OpensipsConnect(c0: Conn, cfg: Config, now: int, a: Attempt): (Conn, bool) {
    if c0.phase == Disabled && now < c0.until then (c0, false)
    else
      var c := if c0.phase == Disabled then c0.(phase := Disconnected, errors := 0) else c0;
      match a
      case Up => (Conn(true, Authenticated, 0, c.until), true)
      case NotConnected => (Count(c.(open := false, phase := Error), cfg, now), true)
      case _ => (c.(open := false, phase := Error), true)
  }

  /** `tnt_conn_error` */
  function OpensipsError(c: Conn, cfg: Config, now: int): Conn {
    Count(c.(open := false, phase := Error), cfg, now)
  }

  // ---------------------------------------------------------------- RTPEngine

  /** `rtpe_tarantool_close` */
  function RtpeClose(c: Conn): Conn {
    c.(open := false, phase := Disconnected)
  }

  /** `rtpe_tarantool_connect`: every failure counts. */
  function RtpeConnect(c0: Conn, cfg: Config, now: int, a: Attempt): (Conn, bool) {
    if c0.phase == Disabled && now < c0.until then (c0, false)
    else
      var c := if c0.phase == Disabled then c0.(phase := Disconnected, errors := 0) else c0;
      if a == Up then (Conn(true, Authenticated, 0, c.until), true)
      else (Count(RtpeClose(c).(phase := Error), cfg, now), true)
  }

  /** The failed send of a save or a delete. */
  function RtpeSendFailed(c: Conn, cfg: Config, now: int): Conn {
    Count(RtpeClose(c), cfg, now)
  }

  // ---------------------------------------------------------------- Kamailio

  /** The breaker fields of a Kamailio server entry; `open` is `fd >= 0`. */
  datatype Server = Server(open: bool, connected: bool, disabled: bool, errors: int, tick: int)

  /** `tnt_conn_close` */
  function KamailioClose(s: Server): Server {
    s.(open := false, connected := false)
  }

  /** `tnt_conn_fail` */
  function KamailioFail(s: Server, cfg: Config, now: int): Server {
    var c := KamailioClose(s).(errors := s.errors + 1);
    if c.errors >= cfg.allowed then c.(disabled := true, tick := now + cfg.disableTime) else c
  }

  /** `tnt_conn_connect` */
  function KamailioConnect(s0: Server, cfg: Config, now: int, a: Attempt): (Server, bool) {
    var s := KamailioClose(s0);
    if s.disabled && now < s.tick then (s, false)
    else
      var s1 := if s.disabled then s.(disabled := false, errors := 0) else s;
      match a
      case Up => (s1.(open := true, connected := true, errors := 0), true)
      case NoSocket => (s1, true)
      case NoHost => (s1, true)
      case _ => (KamailioFail(s1, cfg, now), true)
  }

  // ---------------------------------------------------------------- the common view

  /** What all three have in common. */
  datatype View = View(open: bool, ready: bool, disabled: bool, errors: int, until: int)

  function ViewConn(c: Conn): View {
    View(c.open, c.phase == Authenticated, c.phase == Disabled, c.errors, c.until)
  }

  function ViewServer(s: Server): View {
    View(s.open, s.connected, s.disabled, s.errors, s.tick)
  }

  /** A socket is open exactly when it is authenticated; the error count stays below the allowance unless
      the connection is disabled; a disabled connection has no socket. */
  predicate Inv(v: View, cfg: Config) {
    && (v.open <==> v.ready)
    && (!v.disabled ==> 0 <= v.errors < cfg.allowed)
    && (v.disabled ==> !v.open)
  }

  /** One call of a driver, begun at `from` and over by `to`; `tried` says whether it called `socket()`. */
  predicate Legal(v: View, v': View, cfg: Config, from: int, to: int, tried: bool) {
    && from <= to
    && Inv(v', cfg)
    // during the cooldown nothing is tried and nothing changes
    && (v.disabled && from < v.until ==> !tried && v' == v)
    // a new cooldown starts within the call, when the count has just reached the allowance
    && (v'.disabled && !(v.disabled && from < v.until) ==>
          v'.errors == cfg.allowed && from + cfg.disableTime <= v'.until <= to + cfg.disableTime)
    // the first attempt after a cooldown starts counting from zero
    && (v.disabled && tried ==> v'.errors <= 1)
  }

  /** One client call: connect if needed, then talk; the talk may fail at a later clock reading. */
  datatype Call = Call(now: int, attempt: Attempt, later: int, works: bool)

  function OpensipsCall(c: Conn, cfg: Config, e: Call): (Conn, bool) {
    if c.open && c.phase == Authenticated then (if e.works then c else OpensipsError(c, cfg, e.later), false)
    else
      var (c1, tried) := OpensipsConnect(c, cfg, e.now, e.attempt);
      if c1.phase != Authenticated then (c1, tried)
      else (if e.works then c1 else OpensipsError(c1, cfg, e.later), tried)
  }

  /** A save or a delete. */
  function RtpeCall(c: Conn, cfg: Config, e: Call): (Conn, bool) {
    if c.open && c.phase == Authenticated then
      (if e.works then c.(errors := 0) else RtpeSendFailed(c, cfg, e.later), false)
    else
      var (c1, tried) := RtpeConnect(c, cfg, e.now, e.attempt);
      if c1.phase != Authenticated then (c1, tried)
      else (if e.works then c1.(errors := 0) else RtpeSendFailed(c1, cfg, e.later), tried)
  }

  /** A restore: its failures close the socket without counting. */
  function RtpeRestore(c: Conn, cfg: Config, e: Call): (Conn, bool) {
    if c.open && c.phase == Authenticated then (if e.works then c else RtpeClose(c), false)
    else
      var (c1, tried) := RtpeConnect(c, cfg, e.now, e.attempt);
      if c1.phase != Authenticated then (c1, tried)
      else (if e.works then c1 else RtpeClose(c1), tried)
  }

  function KamailioCall(s: Server, cfg: Config, e: Call): (Server, bool) {
    if s.connected && s.open then (if e.works then s else KamailioFail(s, cfg, e.later), false)
    else
      var (s1, tried) := KamailioConnect(s, cfg, e.now, e.attempt);
      if !s1.connected then (s1, tried)
      else (if e.works then s1 else KamailioFail(s1, cfg, e.later), tried)
  }

  lemma OpensipsLegal(c: Conn, cfg: Config, e: Call)
    requires cfg.allowed > 0 && e.now <= e.later && Inv(ViewConn(c), cfg)
    ensures var (c', tried) := OpensipsCall(c, cfg, e); Legal(ViewConn(c), ViewConn(c'), cfg, e.now, e.later, tried)
  {
  }

  lemma RtpeLegal(c: Conn, cfg: Config, e: Call)
    requires cfg.allowed > 0 && e.now <= e.later && Inv(ViewConn(c), cfg)
    ensures var (c', tried) := RtpeCall(c, cfg, e); Legal(ViewConn(c), ViewConn(c'), cfg, e.now, e.later, tried)
    ensures var (c', tried) := RtpeRestore(c, cfg, e); Legal(ViewConn(c), ViewConn(c'), cfg, e.now, e.later, tried)
    ensures var (c', tried) := RtpeConnect(c, cfg, e.now, e.attempt);
            Legal(ViewConn(c), ViewConn(c'), cfg, e.now, e.later, tried)
  {
  }

  lemma KamailioLegal(s: Server, cfg: Config, e: Call)
    requires cfg.allowed > 0 && e.now <= e.later && Inv(ViewServer(s), cfg)
    ensures var (s', tried) := KamailioCall(s, cfg, e); Legal(ViewServer(s), ViewServer(s'), cfg, e.now, e.later, tried)
  {
  }

  /** Closing an RTPEngine client by hand keeps the invariant exactly when it is not cooling down: a close
      during the cooldown forgets the deadline but not the error count. */
  lemma CloseBreaksCooldown(c: Conn, cfg: Config)
    requires cfg.allowed > 0 && Inv(ViewConn(c), cfg) && (c.phase == Disabled ==> c.errors >= cfg.allowed)
    ensures Inv(ViewConn(RtpeClose(c)), cfg) <==> c.phase != Disabled
    ensures c.phase == Disabled ==> forall now, a :: RtpeConnect(RtpeClose(c), cfg, now, a).1
  {
  }

  // ---------------------------------------------------------------- whole runs

  /** One entry of a run: the state after a call, when it began and ended, and whether it tried a socket. */
  datatype Entry = Entry(view: View, from: int, to: int, tried: bool)

  /** The state before call i. */
  function Before(start: View, es: seq<Entry>, i: nat): View
    requires i <= |es|
  {
    if i == 0 then start else es[i - 1].view
  }

  /** A run of legal calls on a monotone clock. */
  predicate Run(start: View, cfg: Config, es: seq<Entry>) {
    && (forall i :: 0 <= i < |es| ==> Legal(Before(start, es, i), es[i].view, cfg, es[i].from, es[i].to, es[i].tried))
    && (forall i :: 0 < i < |es| ==> es[i - 1].to <= es[i].from)
  }

  lemma {:induction false} StaysDisabled(start: View, cfg: Config, es: seq<Entry>, i: nat, j: nat)
    requires Run(start, cfg, es) && i <= j < |es| && es[i].view.disabled && (i < j ==> es[j].from < es[i].view.until)
    ensures es[j].view == es[i].view && (i < j ==> !es[j].tried)
    decreases j - i
  {
    if i < j {
      assert Legal(Before(start, es, j), es[j].view, cfg, es[j].from, es[j].to, es[j].tried);
      assert Legal(Before(start, es, j - 1), es[j - 1].view, cfg, es[j - 1].from, es[j - 1].to, es[j - 1].tried);
      assert es[j - 1].to <= es[j].from;
      StaysDisabled(start, cfg, es, i, j - 1);
    }
  }

  /** In every run: an open socket is an authenticated one, the error count stays below the allowance unless
      disabled, no socket is opened between a trip and its deadline, and the first attempt after it starts
      counting from zero. */
  lemma RunIsSafe(start: View, cfg: Config, es: seq<Entry>)
    requires Run(start, cfg, es)
    ensures forall i :: 0 <= i < |es| ==> Inv(es[i].view, cfg)
    ensures forall i, j :: 0 <= i < j < |es| && es[i].view.disabled && es[j].tried ==> es[j].from >= es[i].view.until
    ensures forall i :: 0 < i < |es| && es[i - 1].view.disabled && es[i].tried ==> es[i].view.errors <= 1
  {
    forall i | 0 <= i < |es|
      ensures Inv(es[i].view, cfg) && (i > 0 && es[i - 1].view.disabled && es[i].tried ==> es[i].view.errors <= 1)
    {
      assert Legal(Before(start, es, i), es[i].view, cfg, es[i].from, es[i].to, es[i].tried);
    }
    forall i, j | 0 <= i < j < |es| && es[i].view.disabled && es[j].tried
      ensures es[j].from >= es[i].view.until
    {
      if es[j].from < es[i].view.until {
        StaysDisabled(start, cfg, es, i, j);
      }
    }
  }

  /** A client of one of the three drivers. */
  datatype Machine = Opensips(c: Conn) | Rtpe(c: Conn) | Kamailio(s: Server)

  /** A request over the connection, or (RTPEngine only) a restore or a connect of its own, in any state. */
  datatype DeedKind = Request | Restore | Connect
  datatype Deed = Deed(call: Call, kind: DeedKind)

  function ViewOf(m: Machine): View {
    match m
    case Opensips(c) => ViewConn(c)
    case Rtpe(c) => ViewConn(c)
    case Kamailio(s) => ViewServer(s)
  }

  function Act(m: Machine, cfg: Config, d: Deed): (Machine, bool) {
    match m
    case Opensips(c) => var (c', tried) := OpensipsCall(c, cfg, d.call); (Opensips(c'), tried)
    case Rtpe(c) =>
      var (c', tried) :=
        match d.kind
        case Request => RtpeCall(c, cfg, d.call)
        case Restore => RtpeRestore(c, cfg, d.call)
        case Connect => RtpeConnect(c, cfg, d.call.now, d.call.attempt);
      (Rtpe(c'), tried)
    case Kamailio(s) => var (s', tried) := KamailioCall(s, cfg, d.call); (Kamailio(s'), tried)
  }

  /** What a client goes through in a sequence of calls. */
  function Trace(m: Machine, cfg: Config, ds: seq<Deed>): (es: seq<Entry>)
    ensures |es| == |ds|
    decreases |ds|
  {
    if ds == [] then []
    else
      var (m', tried) := Act(m, cfg, ds[0]);
      [Entry(ViewOf(m'), ds[0].call.now, ds[0].call.later, tried)] + Trace(m', cfg, ds[1..])
  }

  /** Clock readings never go back. */
  predicate Monotone(ds: seq<Deed>) {
    && (forall i :: 0 <= i < |ds| ==> ds[i].call.now <= ds[i].call.later)
    && (forall i :: 0 < i < |ds| ==> ds[i - 1].call.later <= ds[i].call.now)
  }

  lemma ActLegal(m: Machine, cfg: Config, d: Deed)
    requires cfg.allowed > 0 && d.call.now <= d.call.later && Inv(ViewOf(m), cfg)
    ensures var (m', tried) := Act(m, cfg, d); Legal(ViewOf(m), ViewOf(m'), cfg, d.call.now, d.call.later, tried)
  {
    hide Legal, OpensipsCall, RtpeCall, RtpeRestore, RtpeConnect, KamailioCall;
    match m {
      case Opensips(c) => OpensipsLegal(c, cfg, d.call);
      case Rtpe(c) => RtpeLegal(c, cfg, d.call);
      case Kamailio(s) => KamailioLegal(s, cfg, d.call);
    }
  }

  lemma {:induction false} TraceRuns(m: Machine, cfg: Config, ds: seq<Deed>)
    requires cfg.allowed > 0 && Monotone(ds) && Inv(ViewOf(m), cfg)
    ensures Run(ViewOf(m), cfg, Trace(m, cfg, ds))
    ensures forall i :: 0 <= i < |ds| ==>
              Trace(m, cfg, ds)[i].from == ds[i].call.now && Trace(m, cfg, ds)[i].to == ds[i].call.later
    decreases |ds|
  {
    hide Act, ViewOf;
    if ds != [] {
      var (m', tried) := Act(m, cfg, ds[0]);
      ActLegal(m, cfg, ds[0]);
      assert Legal(ViewOf(m), ViewOf(m'), cfg, ds[0].call.now, ds[0].call.later, tried);
      assert Inv(ViewOf(m'), cfg);
      hide Legal;
      TraceRuns(m', cfg, ds[1..]);
      var es := Trace(m, cfg, ds);
      var tail := Trace(m', cfg, ds[1..]);
      assert es[1..] == tail;
      forall i | 0 <= i < |es|
        ensures Legal(Before(ViewOf(m), es, i), es[i].view, cfg, es[i].from, es[i].to, es[i].tried)
        ensures es[i].from == ds[i].call.now && es[i].to == ds[i].call.later
      {
        if i > 0 {
          assert es[i] == tail[i - 1] && Before(ViewOf(m), es, i) == Before(ViewOf(m'), tail, i - 1);
          assert ds[i] == ds[1..][i - 1];
        }
      }
    }
  }

  /** Each driver, from a state in order and on a monotone clock, through any sequence of calls. */
  lemma DriversAreSafe(m: Machine, cfg: Config, ds: seq<Deed>)
    requires cfg.allowed > 0 && Monotone(ds) && Inv(ViewOf(m), cfg)
    ensures var es := Trace(m, cfg, ds);
            && (forall i :: 0 <= i < |es| ==> Inv(es[i].view, cfg))
            && (forall i, j :: 0 <= i < j < |es| && es[i].view.disabled && es[j].tried ==>
                  es[j].from >= es[i].view.until)
            && (forall i :: 0 < i < |es| && es[i - 1].view.disabled && es[i].tried ==> es[i].view.errors <= 1)
  {
    hide Run, Trace, ViewOf, Inv;
    TraceRuns(m, cfg, ds);
    RunIsSafe(ViewOf(m), cfg, Trace(m, cfg, ds));
  }

  // ---------------------------------------------------------------- as the drivers run it

  /** `tnt_single_conn_t`: the descriptor the kernel hands out is a parameter of the attempt. */
  class SingleConn {
    var sockFd: int
    var state: Phase
    var consecutiveErrors: int
    var disabledUntil: int

    function AsConn(): Conn
      reads this
    {
      Conn(sockFd >= 0, state, consecutiveErrors, disabledUntil)
    }

    constructor ()
      ensures AsConn() == Conn(false, Disconnected, 0, 0)
    {
      sockFd := -1;
      state := Disconnected;
      consecutiveErrors := 0;
      disabledUntil := 0;
    }

    /** `tnt_connect_single` */
    method ConnectSingle(cfg: Config, now: int, fd: nat, a: Attempt) returns (rc: int)
      modifies this
      ensures AsConn() == OpensipsConnect(old(AsConn()), cfg, now, a).0
      ensures rc == 0 <==> OpensipsConnect(old(AsConn()), cfg, now, a).1 && a == Up
    {
      if state == Disabled {
        if now < disabledUntil {
          return -1;
        }
        state := Disconnected;
        consecutiveErrors := 0;
      }
      if sockFd >= 0 {
        sockFd := -1;
      }
      if a == NoSocket {
        state := Error;
        return -1;
      }
      sockFd := fd;
      if a == NoHost {
        sockFd := -1;
        state := Error;
        return -1;
      }
      if a == NotConnected {
        sockFd := -1;
        state := Error;
        consecutiveErrors := consecutiveErrors + 1;
        if consecutiveErrors >= cfg.allowed {
          state := Disabled;
          disabledUntil := now + cfg.disableTime;
        }
        return -1;
      }
      if a == NoGreeting || a == NoAuth {
        sockFd := -1;
        state := Error;
        return -1;
      }
      state := Authenticated;
      consecutiveErrors := 0;
      return 0;
    }

    /** `tnt_conn_error` */
    method ConnError(cfg: Config, now: int)
      modifies this
      ensures AsConn() == OpensipsError(old(AsConn()), cfg, now)
    {
      if sockFd >= 0 {
        sockFd := -1;
      }
      state := Error;
      consecutiveErrors := consecutiveErrors + 1;
      if consecutiveErrors >= cfg.allowed {
        state := Disabled;
        disabledUntil := now + cfg.disableTime;
      }
    }
  }

  /** `tnt_server_t` */
  class KamailioServer {
    var fd: int
    var connected: bool
    var disabled: bool
    var consecutiveErrors: int
    var restoreTick: int

    function AsServer(): Server
      reads this
    {
      Server(fd >= 0, connected, disabled, consecutiveErrors, restoreTick)
    }

    constructor ()
      ensures AsServer() == Server(false, false, false, 0, 0)
    {
      fd := -1;
      connected := false;
      disabled := false;
      consecutiveErrors := 0;
      restoreTick := 0;
    }

    /** `tnt_conn_close` */
    method ConnClose()
      modifies this
      ensures AsServer() == KamailioClose(old(AsServer()))
    {
      if fd >= 0 {
        fd := -1;
      }
      connected := false;
    }

    /** `tnt_conn_fail` */
    method ConnFail(cfg: Config, now: int)
      modifies this
      ensures AsServer() == KamailioFail(old(AsServer()), cfg, now)
    {
      ConnClose();
      consecutiveErrors := consecutiveErrors + 1;
      if consecutiveErrors >= cfg.allowed {
        disabled := true;
        restoreTick := now + cfg.disableTime;
      }
    }

    /** `tnt_conn_connect` */
    method ConnConnect(cfg: Config, now: int, newFd: nat, a: Attempt) returns (rc: int)
      modifies this
      ensures AsServer() == KamailioConnect(old(AsServer()), cfg, now, a).0
      ensures rc == 0 <==> KamailioConnect(old(AsServer()), cfg, now, a).1 && a == Up
    {
      ConnClose();
      if disabled {
        if now < restoreTick {
          return -1;
        }
        disabled := false;
        consecutiveErrors := 0;
      }
      if a == NoSocket {
        fd := -1;
        return -1;
      }
      fd := newFd;
      if a == NoHost {
        ConnClose();
        return -1;
      }
      if a == NotConnected || a == NoGreeting || a == NoAuth {
        ConnFail(cfg, now);
        return -1;
      }
      connected := true;
      consecutiveErrors := 0;
      return 0;
    }
  }
}
