/**
 The Asterisk connection pool as a protocol of threads: a lock on the profile list, a lock per profile and a
 lock per socket. A step is one lock operation, one look at a socket or one connection attempt. Mutexes are
 plain (a thread that locks what it holds would block); NeverRelocks shows that this makes no difference while each
 thread holds one connection.
 */
module Pool {
  import opened Wrappers

  datatype Profile = Profile(name: string, size: nat)
  type Tid = nat
  type Sock = (nat, nat)

  /** Where a thread stands in `ast_tarantool_acquire_conn`; Idle is outside of it. */
  datatype Pc =
    | Idle
    | WantList(name: string)          // about to lock profiles_lock
    | InList(name: string)            // holds profiles_lock, about to look the name up
    | WantProf(p: nat)                // holds profiles_lock, about to lock prof->lock
    | LeaveList(p: nat)               // holds both, about to unlock profiles_lock
    | Scan(p: nat, i: nat)            // holds prof->lock, at iteration i
    | Check(p: nat, i: nat)           // trylock succeeded, about to test `connected`
    | Connecting(p: nat, i: nat)      // in tnt_socket_connect
    | WantFirst(p: nat)               // every socket was busy or failed: about to block on socket 0
    | FirstCheck(p: nat)
    | FirstConnecting(p: nat)
    | Leave(p: nat, i: nat)           // about to unlock prof->lock and return socket i

  /** A thread and the sockets it was given and has not released. */
  datatype Thread = Thread(pc: Pc, held: set<Sock>)

  datatype State = State(
    profiles: seq<Profile>, list: Option<Tid>, prof: map<nat, Tid>, owner: map<Sock, Tid>, connected: set<Sock>,
    threads: seq<Thread>)

  /** What the environment decides: a caller's request, the outcome of a connection attempt, a request that
      fails on a socket in use and closes it, and the release of a socket. */
  datatype Move = Start(name: string) | Go(ok: bool) | Drop(s: Sock) | Release(s: Sock)

  function Lower(c: char): char {
    if 'A' <= c <= 'Z' then c + 32 as char else c
  }

  predicate SameName(a: string, b: string) {
    |a| == |b| && forall i :: 0 <= i < |a| ==> Lower(a[i]) == Lower(b[i])
  }

  /** `find_profile`: the first profile when no name is given, else the first of that name. */
  function Find(profiles: seq<Profile>, name: string, from: nat): Option<nat>
    decreases |profiles| - from
  {
    if from >= |profiles| then None
    else if name == "" || SameName(profiles[from].name, name) then Some(from)
    else Find(profiles, name, from + 1)
  }

  /** The search loop of `find_profile` finds the first match, and nothing only when there is none. */
  lemma {:induction false} FindIsFirst(profiles: seq<Profile>, name: string, from: nat)
    ensures Find(profiles, name, from).Some? ==>
              var p := Find(profiles, name, from).value;
              && from <= p < |profiles| && (name == "" || SameName(profiles[p].name, name))
              && forall q :: from <= q < p ==> !SameName(profiles[q].name, name)
    ensures Find(profiles, name, from).None? ==>
              forall q :: from <= q < |profiles| ==> name != "" && !SameName(profiles[q].name, name)
    decreases |profiles| - from
  {
    if from < |profiles| {
      FindIsFirst(profiles, name, from + 1);
    }
  }

  // ---------------------------------------------------------------- steps

  predicate Enabled(s: State, t: Tid, m: Move) {
    && t < |s.threads|
    && var th := s.threads[t];
       match th.pc
       case Idle => m.Start? || ((m.Drop? || m.Release?) && m.s in th.held)
       case WantList(_) => m.Go? && s.list.None?
       case WantProf(p) => m.Go? && p !in s.prof
       case WantFirst(p) => m.Go? && (p, 0) !in s.owner
       case _ => m.Go?
  }

  /** Where the step takes the thread. */
  function NextThread(s: State, t: Tid, m: Move): Thread
    requires Enabled(s, t, m)
  {
    var th := s.threads[t];
    match th.pc
    case Idle =>
      (match m
       case Start(name) => th.(pc := WantList(name))
       case Release(k) => th.(held := th.held - {k})
       case _ => th)
    case WantList(name) => th.(pc := InList(name))
    case InList(name) =>
      var p := Find(s.profiles, name, 0);
      th.(pc := if p.None? then Idle else WantProf(p.value))
    case WantProf(p) => th.(pc := LeaveList(p))
    case LeaveList(p) => th.(pc := Scan(p, 0))
    case Scan(p, i) =>
      th.(pc := if !(p < |s.profiles| && i < s.profiles[p].size) then WantFirst(p)
                else if (p, i) in s.owner then Scan(p, i + 1) else Check(p, i))
    case Check(p, i) => th.(pc := if (p, i) in s.connected then Leave(p, i) else Connecting(p, i))
    case Connecting(p, i) => th.(pc := if m.ok then Leave(p, i) else Scan(p, i + 1))
    case WantFirst(p) => th.(pc := FirstCheck(p))
    case FirstCheck(p) => th.(pc := if (p, 0) in s.connected then Leave(p, 0) else FirstConnecting(p))
    case FirstConnecting(p) => th.(pc := Leave(p, 0))
    case Leave(p, i) => Thread(Idle, th.held + {(p, i)})
  }

  /** Only thread t moves. */
  predicate Alone(s: State, s': State, t: Tid) {
    && t < |s.threads| && |s'.threads| == |s.threads| && s'.profiles == s.profiles
    && (forall u :: 0 <= u < |s.threads| && u != t ==> s'.threads[u] == s.threads[u])
  }

  /** The step: the thread moves on and locks or unlocks one mutex, or opens or closes one socket. */
  function Next(s: State, t: Tid, m: Move): (s': State)
    requires Enabled(s, t, m)
    ensures Alone(s, s', t) && s'.threads[t] == NextThread(s, t, m)
  {
    var s' := s.(threads := s.threads[t := NextThread(s, t, m)]);
    match s.threads[t].pc
    case Idle =>
      (match m
       case Drop(k) => s'.(connected := s.connected - {k})
       case Release(k) => s'.(owner := s.owner - {k})
       case _ => s')
    case WantList(_) => s'.(list := Some(t))
    case InList(name) => if Find(s.profiles, name, 0).None? then s'.(list := None) else s'
    case WantProf(p) => s'.(prof := s.prof[p := t])
    case LeaveList(_) => s'.(list := None)
    case Scan(p, i) =>
      if p < |s.profiles| && i < s.profiles[p].size && (p, i) !in s.owner then s'.(owner := s.owner[(p, i) := t])
      else s'
    case Check(_, _) => s'
    case Connecting(p, i) =>
      if m.ok then s'.(connected := s.connected + {(p, i)}) else s'.(owner := s.owner - {(p, i)})
    case WantFirst(p) => s'.(owner := s.owner[(p, 0) := t])
    case FirstCheck(_) => s'
    case FirstConnecting(p) => if m.ok then s'.(connected := s.connected + {(p, 0)}) else s'
    case Leave(p, _) => s'.(prof := s.prof - {p})
  }

  datatype Action = Action(t: Tid, m: Move)

  predicate Runs(s: State, run: seq<Action>)
    decreases |run|
  {
    run == [] || (Enabled(s, run[0].t, run[0].m) && Runs(Next(s, run[0].t, run[0].m), run[1..]))
  }

  function After(s: State, run: seq<Action>): State
    requires Runs(s, run)
    decreases |run|
  {
    if run == [] then s else After(Next(s, run[0].t, run[0].m), run[1..])
  }

  predicate Initial(s: State) {
    && s.list == None && s.prof == map[] && s.owner == map[] && s.connected == {}
    && (forall p :: 0 <= p < |s.profiles| ==> s.profiles[p].size >= 1)
    && (forall t :: 0 <= t < |s.threads| ==> s.threads[t] == Thread(Idle, {}))
  }

  // ---------------------------------------------------------------- who holds what

  predicate HoldsList(pc: Pc) { pc.InList? || pc.WantProf? || pc.LeaveList? }

  function ProfOf(pc: Pc): Option<nat> {
    match pc
    case LeaveList(p) => Some(p)
    case Scan(p, _) => Some(p)
    case Check(p, _) => Some(p)
    case Connecting(p, _) => Some(p)
    case WantFirst(p) => Some(p)
    case FirstCheck(p) => Some(p)
    case FirstConnecting(p) => Some(p)
    case Leave(p, _) => Some(p)
    case _ => None
  }

  function SockOf(pc: Pc): Option<Sock> {
    match pc
    case Check(p, i) => Some((p, i))
    case Connecting(p, i) => Some((p, i))
    case FirstCheck(p) => Some((p, 0))
    case FirstConnecting(p) => Some((p, 0))
    case Leave(p, i) => Some((p, i))
    case _ => None
  }

  /** The sockets whose mutex the thread has locked. */
  function Mine(th: Thread): set<Sock> {
    th.held + if SockOf(th.pc).Some? then {SockOf(th.pc).value} else {}
  }

  predicate Apart(th: Thread) {
    SockOf(th.pc).Some? ==> SockOf(th.pc).value !in th.held
  }

  predicate ListOk(s: State) {
    && (s.list.Some? ==> s.list.value < |s.threads| && HoldsList(s.threads[s.list.value].pc))
    && (forall t :: 0 <= t < |s.threads| && HoldsList(s.threads[t].pc) ==> s.list == Some(t))
  }

  predicate ProfOk(s: State) {
    && (forall p :: p in s.prof ==> s.prof[p] < |s.threads| && ProfOf(s.threads[s.prof[p]].pc) == Some(p))
    && (forall t :: 0 <= t < |s.threads| && ProfOf(s.threads[t].pc).Some? ==>
          var p := ProfOf(s.threads[t].pc).value; p in s.prof && s.prof[p] == t)
  }

  predicate SockOk(s: State) {
    && (forall k :: k in s.owner ==> s.owner[k] < |s.threads| && k in Mine(s.threads[s.owner[k]]))
    && (forall t, k :: 0 <= t < |s.threads| && k in Mine(s.threads[t]) ==> k in s.owner && s.owner[k] == t)
    && (forall t :: 0 <= t < |s.threads| ==> Apart(s.threads[t]))
  }

  /** Sockets handed out belong to a profile. */
  predicate RangeOk(s: State, th: Thread) {
    && (forall k :: k in Mine(th) ==> k.0 < |s.profiles| && k.1 < s.profiles[k.0].size)
    && (ProfOf(th.pc).Some? ==> ProfOf(th.pc).value < |s.profiles|)
    && (th.pc.WantProf? ==> th.pc.p < |s.profiles|)
  }

  predicate Inv(s: State) {
    && ListOk(s) && ProfOk(s) && SockOk(s)
    && (forall t :: 0 <= t < |s.threads| ==> RangeOk(s, s.threads[t]))
    && (forall p :: 0 <= p < |s.profiles| ==> s.profiles[p].size >= 1)
  }

  // ---------------------------------------------------------------- one step, lock by lock

  predicate ListChange(s: State, s': State, t: Tid)
    requires t < |s.threads| == |s'.threads|
  {
    var before, now := HoldsList(s.threads[t].pc), HoldsList(s'.threads[t].pc);
    && (before == now ==> s'.list == s.list)
    && (!before && now ==> s.list.None? && s'.list == Some(t))
    && (before && !now ==> s'.list == None)
  }

  lemma ListEffect(s: State, t: Tid, m: Move)
    requires Enabled(s, t, m)
    ensures ListChange(s, Next(s, t, m), t)
  {
    hide Find;
  }

  predicate ProfChange(s: State, s': State, t: Tid)
    requires t < |s.threads| == |s'.threads|
  {
    var before, now := ProfOf(s.threads[t].pc), ProfOf(s'.threads[t].pc);
    && (before == now ==> s'.prof == s.prof)
    && (before != now && now.Some? ==> before.None? && now.value !in s.prof && s'.prof == s.prof[now.value := t])
    && (before.Some? && now.None? ==> s'.prof == s.prof - {before.value})
  }

  lemma ProfEffect(s: State, t: Tid, m: Move)
    requires Enabled(s, t, m)
    ensures ProfChange(s, Next(s, t, m), t)
  {
    hide Find;
  }

  /** A thread's set of locked sockets and the owner table change together, by at most one socket. */
  ghost predicate SockChange(s: State, s': State, t: Tid)
    requires t < |s.threads| == |s'.threads|
  {
    var before, now := Mine(s.threads[t]), Mine(s'.threads[t]);
    || (now == before && s'.owner == s.owner)
    || (exists k :: now == before + {k} && k !in s.owner && s'.owner == s.owner[k := t])
    || (exists k :: now == before - {k} && k in before && s'.owner == s.owner - {k})
  }

  lemma SockEffect(s: State, t: Tid, m: Move)
    requires Enabled(s, t, m) && SockOk(s)
    ensures SockChange(s, Next(s, t, m), t)
    ensures Apart(Next(s, t, m).threads[t])
  {
    hide Find, Alone;
    var th := s.threads[t];
    var s' := Next(s, t, m);
    var before, now := Mine(th), Mine(s'.threads[t]);
    assert Apart(th);
    match th.pc {
      case Idle =>
        if m.Release? {
          assert now == before - {m.s};
        }
      case Scan(p, i) =>
        if s'.threads[t].pc.Check? {
          assert now == before + {(p, i)};
        }
      case Connecting(p, i) =>
        if !m.ok {
          assert now == before - {(p, i)};
        }
      case WantFirst(p) => assert now == before + {(p, 0)};
      case _ =>
    }
  }

  // ---------------------------------------------------------------- what every step keeps

  lemma ListKept(s: State, t: Tid, m: Move)
    requires ListOk(s) && Enabled(s, t, m)
    ensures ListOk(Next(s, t, m))
  {
    hide Next, Enabled, HoldsList;
    ListEffect(s, t, m);
  }

  lemma ProfKept(s: State, t: Tid, m: Move)
    requires ProfOk(s) && Enabled(s, t, m)
    ensures ProfOk(Next(s, t, m))
  {
    hide Next, Enabled, ProfOf;
    ProfEffect(s, t, m);
  }

  /** The three ways the owner table follows thread t. */
  lemma SockSame(s: State, s': State, t: Tid)
    requires SockOk(s) && Alone(s, s', t) && Apart(s'.threads[t])
    requires Mine(s'.threads[t]) == Mine(s.threads[t]) && s'.owner == s.owner
    ensures SockOk(s')
  {
    hide Mine, Apart;
  }

  lemma SockTaken(s: State, s': State, t: Tid, k: Sock)
    requires SockOk(s) && Alone(s, s', t) && Apart(s'.threads[t])
    requires Mine(s'.threads[t]) == Mine(s.threads[t]) + {k} && k !in s.owner && s'.owner == s.owner[k := t]
    ensures SockOk(s')
  {
    hide Mine, Apart;
  }

  lemma SockFreed(s: State, s': State, t: Tid, k: Sock)
    requires SockOk(s) && Alone(s, s', t) && Apart(s'.threads[t])
    requires Mine(s'.threads[t]) == Mine(s.threads[t]) - {k} && k in Mine(s.threads[t]) && s'.owner == s.owner - {k}
    ensures SockOk(s')
  {
    hide Mine, Apart;
    assert s.owner[k] == t;
  }

  lemma SockKept(s: State, t: Tid, m: Move)
    requires SockOk(s) && Enabled(s, t, m)
    ensures SockOk(Next(s, t, m))
  {
    var s' := Next(s, t, m);
    SockEffect(s, t, m);
    hide Next, Enabled, Mine, Apart, SockOk;
    var before, now := Mine(s.threads[t]), Mine(s'.threads[t]);
    if now == before && s'.owner == s.owner {
      SockSame(s, s', t);
    } else if k :| now == before + {k} && k !in s.owner && s'.owner == s.owner[k := t] {
      SockTaken(s, s', t, k);
    } else {
      var k :| now == before - {k} && k in before && s'.owner == s.owner - {k};
      SockFreed(s, s', t, k);
    }
  }

  lemma RangeKept(s: State, t: Tid, m: Move)
    requires Enabled(s, t, m) && RangeOk(s, s.threads[t])
    requires forall p :: 0 <= p < |s.profiles| ==> s.profiles[p].size >= 1
    ensures RangeOk(Next(s, t, m), Next(s, t, m).threads[t])
  {
    hide Find, HoldsList, Next;
    if s.threads[t].pc.InList? {
      FindIsFirst(s.profiles, s.threads[t].pc.name, 0);
    }
  }

  lemma StepKeeps(s: State, t: Tid, m: Move)
    requires Inv(s) && Enabled(s, t, m)
    ensures Inv(Next(s, t, m))
  {
    hide ListOk, ProfOk, SockOk, RangeOk, Next;
    ListKept(s, t, m);
    ProfKept(s, t, m);
    SockKept(s, t, m);
    RangeKept(s, t, m);
    forall u | 0 <= u < |s.threads| && u != t
      ensures RangeOk(Next(s, t, m), Next(s, t, m).threads[u])
    {
      RangeSame(s, Next(s, t, m), s.threads[u]);
    }
  }

  lemma RangeSame(s: State, s': State, th: Thread)
    requires RangeOk(s, th) && s'.profiles == s.profiles
    ensures RangeOk(s', th)
  {
  }

  lemma InitialInv(s: State)
    requires Initial(s)
    ensures Inv(s)
  {
  }

  lemma {:induction false} RunKeeps(s: State, run: seq<Action>)
    requires Inv(s) && Runs(s, run)
    ensures Inv(After(s, run))
    decreases |run|
  {
    hide Inv, Next, Enabled;
    if run != [] {
      StepKeeps(s, run[0].t, run[0].m);
      RunKeeps(Next(s, run[0].t, run[0].m), run[1..]);
    }
  }

  /** Mutual exclusion, over every run, even with nested acquisitions: no socket is locked by two threads, and
      every socket handed out is locked by the thread that got it. */
  lemma Exclusive(s: State, run: seq<Action>)
    requires Initial(s) && Runs(s, run)
    ensures var e := After(s, run);
            && (forall t, u, k ::
                  0 <= t < |e.threads| && 0 <= u < |e.threads| && k in Mine(e.threads[t]) && k in Mine(e.threads[u]) ==>
                    t == u)
            && (forall t, k :: 0 <= t < |e.threads| && k in e.threads[t].held ==> k in e.owner && e.owner[k] == t)
  {
    hide Next, Enabled, RangeOk, ListOk, ProfOk, Initial;
    InitialInv(s);
    RunKeeps(s, run);
    var e := After(s, run);
    forall t, u, k | 0 <= t < |e.threads| && 0 <= u < |e.threads| && k in Mine(e.threads[t]) && k in Mine(e.threads[u])
      ensures t == u
    {
      assert e.owner[k] == t && e.owner[k] == u;
    }
    forall t, k | 0 <= t < |e.threads| && k in e.threads[t].held
      ensures k in e.owner && e.owner[k] == t
    {
      assert k in Mine(e.threads[t]);
    }
  }

  /** A socket about to be handed out is connected, unless it is socket 0 taken by the fallback. */
  predicate HandOk(s: State) {
    forall t :: 0 <= t < |s.threads| && s.threads[t].pc.Leave? ==>
      s.threads[t].pc.i == 0 || (s.threads[t].pc.p, s.threads[t].pc.i) in s.connected
  }

  /** Nobody else closes a socket a thread has locked. */
  lemma StaysConnected(s: State, t: Tid, m: Move, u: Tid)
    requires SockOk(s) && Enabled(s, t, m) && u < |s.threads| && u != t && s.threads[u].pc.Leave?
    ensures var k := (s.threads[u].pc.p, s.threads[u].pc.i); k in s.connected ==> k in Next(s, t, m).connected
  {
    hide Find, NextThread;
    var k := (s.threads[u].pc.p, s.threads[u].pc.i);
    assert k in Mine(s.threads[u]) && s.owner[k] == u;
    if m.Drop? {
      assert m.s in Mine(s.threads[t]) && s.owner[m.s] == t;
    }
  }

  lemma HandKept(s: State, t: Tid, m: Move)
    requires SockOk(s) && HandOk(s) && Enabled(s, t, m)
    ensures HandOk(Next(s, t, m))
  {
    var s' := Next(s, t, m);
    HandOwn(s, t, m);
    hide Next, NextThread, SockOk, Enabled;
    forall u | 0 <= u < |s'.threads| && u != t && s'.threads[u].pc.Leave?
      ensures s'.threads[u].pc.i == 0 || (s'.threads[u].pc.p, s'.threads[u].pc.i) in s'.connected
    {
      StaysConnected(s, t, m, u);
    }
  }

  lemma HandOwn(s: State, t: Tid, m: Move)
    requires Enabled(s, t, m)
    ensures var s' := Next(s, t, m); var pc := s'.threads[t].pc;
            pc.Leave? ==> pc.i == 0 || (pc.p, pc.i) in s'.connected
  {
    hide Find;
  }

  lemma {:induction false} RunHand(s: State, run: seq<Action>)
    requires Inv(s) && HandOk(s) && Runs(s, run)
    ensures HandOk(After(s, run))
    decreases |run|
  {
    if run != [] {
      HandKept(s, run[0].t, run[0].m);
      StepKeeps(s, run[0].t, run[0].m);
      hide Inv, Next, Enabled, HandOk;
      RunHand(Next(s, run[0].t, run[0].m), run[1..]);
    }
  }

  /** In every run, a socket other than the first is handed out only when it is connected. */
  lemma HandedConnected(s: State, run: seq<Action>)
    requires Initial(s) && Runs(s, run)
    ensures HandOk(After(s, run))
  {
    hide Next, Enabled, Inv;
    InitialInv(s);
    RunHand(s, run);
  }

  // ---------------------------------------------------------------- one connection at a time

  /** No thread asks for a connection while it holds one. */
  predicate SingleRun(s: State, run: seq<Action>)
    requires Runs(s, run)
    decreases |run|
  {
    run == []
    || ((run[0].m.Start? ==> s.threads[run[0].t].held == {}) && SingleRun(Next(s, run[0].t, run[0].m), run[1..]))
  }

  predicate Single(s: State) {
    forall t :: 0 <= t < |s.threads| && s.threads[t].pc != Idle ==> s.threads[t].held == {}
  }

  lemma StepSingle(s: State, t: Tid, m: Move)
    requires Enabled(s, t, m) && Single(s) && (m.Start? ==> s.threads[t].held == {})
    ensures Single(Next(s, t, m))
  {
    hide Find;
    assert Next(s, t, m).threads[t].pc != Idle ==> Next(s, t, m).threads[t].held == {};
  }

  lemma {:induction false} RunSingle(s: State, run: seq<Action>)
    requires Single(s) && Runs(s, run) && SingleRun(s, run)
    ensures Single(After(s, run))
    decreases |run|
  {
    hide Single, Next;
    if run != [] {
      StepSingle(s, run[0].t, run[0].m);
      RunSingle(Next(s, run[0].t, run[0].m), run[1..]);
    }
  }

  predicate Busy(th: Thread) { th.pc != Idle || th.held != {} }

  /** A step that takes a call further: not a new request and not a broken connection. */
  predicate Finishing(m: Move) { m.Go? || m.Release? }

  ghost predicate CanGo(s: State) {
    exists t, m :: Finishing(m) && Enabled(s, t, m)
  }

  /** Whoever has a socket locked can move: it is in use, or being looked at or connected. */
  lemma SockHolderGoes(s: State, k: Sock)
    requires Inv(s) && Single(s) && k in s.owner
    ensures CanGo(s)
  {
    hide RangeOk, ListOk, ProfOk;
    var u := s.owner[k];
    if s.threads[u].pc == Idle {
      assert k in s.threads[u].held;
      assert Enabled(s, u, Release(k));
    } else {
      assert Enabled(s, u, Go(true));
    }
  }

  /** Whoever has a profile locked can move, or waits for socket 0, whose holder can. */
  lemma ProfHolderGoes(s: State, p: nat)
    requires Inv(s) && Single(s) && p in s.prof
    ensures CanGo(s)
  {
    hide RangeOk, ListOk, SockOk, Single;
    var u := s.prof[p];
    if s.threads[u].pc.WantFirst? && (p, 0) in s.owner {
      SockHolderGoes(s, (p, 0));
    } else {
      assert Enabled(s, u, Go(true));
    }
  }

  lemma ListHolderGoes(s: State)
    requires Inv(s) && Single(s) && s.list.Some?
    ensures CanGo(s)
  {
    hide RangeOk, ProfOk, SockOk, Single;
    var u := s.list.value;
    if s.threads[u].pc.WantProf? && s.threads[u].pc.p in s.prof {
      ProfHolderGoes(s, s.threads[u].pc.p);
    } else {
      assert Enabled(s, u, Go(true));
    }
  }

  /** As long as somebody is inside, somebody can take a step, although the fallback blocks on socket 0 while
      holding the profile lock. */
  lemma NotStuck(s: State, t: Tid)
    requires Inv(s) && Single(s) && t < |s.threads| && Busy(s.threads[t])
    ensures CanGo(s)
  {
    var th := s.threads[t];
    hide RangeOk, ListOk, ProfOk, SockOk;
    match th.pc {
      case Idle =>
        var k :| k in th.held;
        assert Enabled(s, t, Release(k));
      case WantList(_) =>
        if s.list.Some? {
          ListHolderGoes(s);
        } else {
          assert Enabled(s, t, Go(true));
        }
      case WantProf(p) =>
        if p in s.prof {
          ProfHolderGoes(s, p);
        } else {
          assert Enabled(s, t, Go(true));
        }
      case WantFirst(p) =>
        if (p, 0) in s.owner {
          SockHolderGoes(s, (p, 0));
        } else {
          assert Enabled(s, t, Go(true));
        }
      case _ => assert Enabled(s, t, Go(true));
    }
  }

  /** A thread never waits for, or tries, a mutex it has locked itself. */
  lemma NeverRelocks(s: State, t: Tid)
    requires Inv(s) && Single(s) && t < |s.threads|
    ensures s.threads[t].pc.WantList? ==> s.list != Some(t)
    ensures s.threads[t].pc.WantProf? ==> var p := s.threads[t].pc.p; p in s.prof ==> s.prof[p] != t
    ensures s.threads[t].pc.WantFirst? ==> var p := s.threads[t].pc.p; (p, 0) in s.owner ==> s.owner[(p, 0)] != t
    ensures s.threads[t].pc.Scan? ==> var k := (s.threads[t].pc.p, s.threads[t].pc.i); k in s.owner ==> s.owner[k] != t
  {
    hide RangeOk;
  }

  // ---------------------------------------------------------------- every call comes to an end

  function Size(profiles: seq<Profile>, p: nat): nat {
    if p < |profiles| then profiles[p].size else 0
  }

  function Largest(profiles: seq<Profile>): nat {
    if profiles == [] then 0
    else
      var rest := Largest(profiles[..|profiles| - 1]);
      if profiles[|profiles| - 1].size > rest then profiles[|profiles| - 1].size else rest
  }

  lemma {:induction false} LargestBounds(profiles: seq<Profile>, p: nat)
    requires p < |profiles|
    ensures profiles[p].size <= Largest(profiles)
  {
    if p < |profiles| - 1 {
      LargestBounds(profiles[..|profiles| - 1], p);
    }
  }

  function Left(profiles: seq<Profile>, p: nat, i: nat): nat {
    if i < Size(profiles, p) then Size(profiles, p) - i else 0
  }

  /** How many steps a call still needs at most, counting the release. */
  function Rank(profiles: seq<Profile>, pc: Pc): nat {
    match pc
    case Idle => 0
    case WantList(_) => 10 + 3 * Largest(profiles)
    case InList(_) => 9 + 3 * Largest(profiles)
    case WantProf(p) => 8 + 3 * Size(profiles, p)
    case LeaveList(p) => 7 + 3 * Size(profiles, p)
    case Scan(p, i) => 6 + 3 * Left(profiles, p, i)
    case Check(p, i) => 8 + 3 * Left(profiles, p, i + 1)
    case Connecting(p, i) => 7 + 3 * Left(profiles, p, i + 1)
    case WantFirst(_) => 5
    case FirstCheck(_) => 4
    case FirstConnecting(_) => 3
    case Leave(_, _) => 2
  }

  function Todo(profiles: seq<Profile>, th: Thread): nat {
    Rank(profiles, th.pc) + |th.held|
  }

  function Total(profiles: seq<Profile>, threads: seq<Thread>): nat {
    if threads == [] then 0 else Todo(profiles, threads[0]) + Total(profiles, threads[1..])
  }

  lemma {:induction false} TotalMoves(profiles: seq<Profile>, threads: seq<Thread>, t: nat, th: Thread)
    requires t < |threads|
    ensures Total(profiles, threads[t := th])
            == Total(profiles, threads) - Todo(profiles, threads[t]) + Todo(profiles, th)
    decreases |threads|
  {
    hide Todo;
    if t == 0 {
      assert threads[t := th][1..] == threads[1..];
    } else {
      assert threads[t := th][1..] == threads[1..][t - 1 := th];
      TotalMoves(profiles, threads[1..], t - 1, th);
    }
  }

  lemma RankFalls(s: State, t: Tid, m: Move)
    requires Enabled(s, t, m) && !s.threads[t].pc.Idle? && !s.threads[t].pc.Leave?
    ensures var before, now := s.threads[t], NextThread(s, t, m);
            now.held == before.held && Rank(s.profiles, now.pc) < Rank(s.profiles, before.pc)
  {
    hide Find, Largest;
    if s.threads[t].pc.InList? {
      FindIsFirst(s.profiles, s.threads[t].pc.name, 0);
      if Find(s.profiles, s.threads[t].pc.name, 0).Some? {
        LargestBounds(s.profiles, Find(s.profiles, s.threads[t].pc.name, 0).value);
      }
    }
  }

  /** Every finishing step brings its thread nearer to the end. */
  lemma TodoFalls(s: State, t: Tid, m: Move)
    requires Enabled(s, t, m) && !m.Start?
    ensures var before, now := Todo(s.profiles, s.threads[t]), Todo(s.profiles, NextThread(s, t, m));
            if Finishing(m) then now < before else now == before
  {
    if s.threads[t].pc.Idle? || s.threads[t].pc.Leave? {
      hide Find, Largest, Left;
    } else {
      hide NextThread, Rank;
      RankFalls(s, t, m);
    }
  }

  function Finished(run: seq<Action>): nat {
    if run == [] then 0 else (if Finishing(run[0].m) then 1 else 0) + Finished(run[1..])
  }

  /** Once no new request comes in, only so many steps are left, whatever the schedule and however many
      connections break meanwhile; by NotStuck the last of them leaves every thread outside. */
  lemma {:induction false} EveryCallEnds(s: State, run: seq<Action>)
    requires Inv(s) && Runs(s, run) && (forall i :: 0 <= i < |run| ==> !run[i].m.Start?)
    ensures Finished(run) <= Total(s.profiles, s.threads)
    decreases |run|
  {
    hide Inv, Next, Enabled, Todo;
    if run != [] {
      var t, m := run[0].t, run[0].m;
      var s' := Next(s, t, m);
      StepKeeps(s, t, m);
      TodoFalls(s, t, m);
      assert s'.threads == s.threads[t := s'.threads[t]];
      TotalMoves(s.profiles, s.threads, t, s'.threads[t]);
      EveryCallEnds(s', run[1..]);
    }
  }

  /** The pool makes progress: from every state reachable with one connection per thread, some step is possible
      while anybody is inside, and a run without new requests is over after a bounded number of steps. */
  lemma {:induction false} Progress(s: State, before: seq<Action>, rest: seq<Action>, t: Tid)
    requires Initial(s) && Runs(s, before) && SingleRun(s, before)
    requires Runs(After(s, before), rest) && (forall i :: 0 <= i < |rest| ==> !rest[i].m.Start?)
    ensures var e := After(s, before);
            && (t < |e.threads| && Busy(e.threads[t]) ==> CanGo(e))
            && Finished(rest) <= Total(e.profiles, e.threads)
  {
    InitialInv(s);
    RunKeeps(s, before);
    RunSingle(s, before);
    var e := After(s, before);
    hide Inv, Next, Enabled, Busy, Single, CanGo, Total, Runs, After;
    if t < |e.threads| && Busy(e.threads[t]) {
      NotStuck(e, t);
    }
    EveryCallEnds(e, rest);
  }

  lemma {:induction false} NoStartSingle(s: State, run: seq<Action>)
    requires Runs(s, run) && forall i :: 0 <= i < |run| ==> !run[i].m.Start?
    ensures SingleRun(s, run)
    decreases |run|
  {
    hide Next, Enabled;
    if run != [] {
      NoStartSingle(Next(s, run[0].t, run[0].m), run[1..]);
    }
  }

  /** Every given caller is served: a run without new requests that cannot go on, which one after a bounded number of
      steps cannot, leaves nobody inside and nobody with a connection. */
  lemma EachServed(s: State, before: seq<Action>, rest: seq<Action>, t: Tid)
    requires Initial(s) && Runs(s, before) && SingleRun(s, before)
    requires Runs(After(s, before), rest) && (forall i :: 0 <= i < |rest| ==> !rest[i].m.Start?)
    requires !CanGo(After(After(s, before), rest)) && t < |After(After(s, before), rest).threads|
    ensures After(After(s, before), rest).threads[t] == Thread(Idle, {})
  {
    InitialInv(s);
    RunKeeps(s, before);
    RunSingle(s, before);
    var e := After(s, before);
    NoStartSingle(e, rest);
    RunKeeps(e, rest);
    RunSingle(e, rest);
    var last := After(e, rest);
    hide Inv, Next, Enabled, Single, CanGo, Runs, After, Initial;
    if Busy(last.threads[t]) {
      NotStuck(last, t);
    }
  }

  // ---------------------------------------------------------------- two connections at once

  ghost predicate Reaches(s: State, e: State) {
    exists run :: Runs(s, run) && After(s, run) == e
  }

  lemma Via(s: State, t: Tid, m: Move, s': State, e: State)
    requires Enabled(s, t, m) && Reaches(s', e)
    requires var n := Next(s, t, m);
             && n.profiles == s'.profiles && n.list == s'.list && n.prof == s'.prof && n.owner == s'.owner
             && n.connected == s'.connected && n.threads == s'.threads
    ensures Reaches(s, e)
  {
    assert Next(s, t, m) == s';
    var run :| Runs(s', run) && After(s', run) == e;
    var all := [Action(t, m)] + run;
    assert all[1..] == run;
    assert Runs(s, all) && After(s, all) == e;
  }

  /** The pool with other locks and sockets, and thread t elsewhere. */
  function With(s: State, list: Option<Tid>, prof: map<nat, Tid>, owner: map<Sock, Tid>, connected: set<Sock>, t: Tid,
      th: Thread): State
    requires t < |s.threads|
  {
    State(s.profiles, list, prof, owner, connected, s.threads[t := th])
  }

  /** A thread outside gets as far as the first look at the first profile's sockets. */
  lemma Enters(s: State, t: Tid, e: State)
    requires t < |s.threads| && s.profiles != [] && s.list == None && s.prof == map[] && s.threads[t].pc == Idle
    requires Reaches(With(s, None, map[0 := t], s.owner, s.connected, t, Thread(Scan(0, 0), s.threads[t].held)), e)
    ensures Reaches(s, e)
  {
    hide Reaches;
    var held := s.threads[t].held;
    var s4 := With(s, Some(t), map[0 := t], s.owner, s.connected, t, Thread(LeaveList(0), held));
    var s3 := With(s, Some(t), map[], s.owner, s.connected, t, Thread(WantProf(0), held));
    var s2 := With(s, Some(t), map[], s.owner, s.connected, t, Thread(InList(""), held));
    var s1 := With(s, None, map[], s.owner, s.connected, t, Thread(WantList(""), held));
    Via(s4, t, Go(true), With(s, None, map[0 := t], s.owner, s.connected, t, Thread(Scan(0, 0), held)), e);
    Via(s3, t, Go(true), s4, e);
    Via(s2, t, Go(true), s3, e);
    Via(s1, t, Go(true), s2, e);
    Via(s, t, Start(""), s1, e);
  }

  /** Alone in the pool, thread 0 connects socket 0 and is given it. */
  lemma Takes(s: State, e: State)
    requires s.threads != [] && s.profiles != [] && s.profiles[0].size >= 1 && s.threads[0] == Thread(Scan(0, 0), {})
    requires s.list == None && s.prof == map[0 := 0] && s.owner == map[] && s.connected == {}
    requires Reaches(With(s, None, map[], map[(0, 0) := 0], {(0, 0)}, 0, Thread(Idle, {(0, 0)})), e)
    ensures Reaches(s, e)
  {
    hide Reaches;
    var own := map[(0, 0) := 0];
    var s3 := With(s, None, map[0 := 0], own, {(0, 0)}, 0, Thread(Leave(0, 0), {}));
    var s2 := With(s, None, map[0 := 0], own, {}, 0, Thread(Connecting(0, 0), {}));
    var s1 := With(s, None, map[0 := 0], own, {}, 0, Thread(Check(0, 0), {}));
    assert s3.prof - {0} == map[] && s3.threads[0].held + {(0, 0)} == {(0, 0)};
    Via(s3, 0, Go(true), With(s, None, map[], own, {(0, 0)}, 0, Thread(Idle, {(0, 0)})), e);
    Via(s2, 0, Go(true), s3, e);
    Via(s1, 0, Go(true), s2, e);
    Via(s, 0, Go(true), s1, e);
  }

  /** Thread 1 fails to connect any further socket and comes to wait for socket 0. */
  lemma {:induction false} Fails(s: State, i: nat, e: State)
    requires |s.threads| >= 2 && s.profiles != [] && 1 <= i <= s.profiles[0].size
             && s.threads[1] == Thread(Scan(0, i), {})
    requires s.list == None && s.prof == map[0 := 1] && s.owner == map[(0, 0) := 0] && s.connected == {(0, 0)}
    requires Reaches(With(s, None, s.prof, s.owner, s.connected, 1, Thread(WantFirst(0), {})), e)
    ensures Reaches(s, e)
    decreases s.profiles[0].size - i
  {
    hide Reaches;
    if i == s.profiles[0].size {
      Via(s, 1, Go(true), With(s, None, s.prof, s.owner, s.connected, 1, Thread(WantFirst(0), {})), e);
    } else {
      var own := s.owner[(0, i) := 1];
      var s3 := With(s, None, s.prof, s.owner, s.connected, 1, Thread(Scan(0, i + 1), {}));
      var s2 := With(s, None, s.prof, own, s.connected, 1, Thread(Connecting(0, i), {}));
      var s1 := With(s, None, s.prof, own, s.connected, 1, Thread(Check(0, i), {}));
      assert s3.threads[1 := Thread(WantFirst(0), {})] == s.threads[1 := Thread(WantFirst(0), {})];
      Fails(s3, i + 1, e);
      assert own - {(0, i)} == s.owner;
      Via(s2, 1, Go(false), s3, e);
      Via(s1, 1, Go(true), s2, e);
      Via(s, 1, Go(true), s1, e);
    }
  }

  /** Thread 0, with socket 0 in hand, asks for another connection. */
  lemma Nests(s: State, e: State)
    requires s.threads != [] && s.profiles != [] && s.list == None && 0 in s.prof && s.threads[0].pc == Idle
    requires Reaches(With(s, Some(0), s.prof, s.owner, s.connected, 0, Thread(WantProf(0), s.threads[0].held)), e)
    ensures Reaches(s, e)
  {
    hide Reaches;
    var held := s.threads[0].held;
    var s2 := With(s, Some(0), s.prof, s.owner, s.connected, 0, Thread(InList(""), held));
    var s1 := With(s, None, s.prof, s.owner, s.connected, 0, Thread(WantList(""), held));
    Via(s2, 0, Go(true), With(s, Some(0), s.prof, s.owner, s.connected, 0, Thread(WantProf(0), held)), e);
    Via(s1, 0, Go(true), s2, e);
    Via(s, 0, Start(""), s1, e);
  }

  /** Thread 0 holds socket 0 and, with the list locked, waits for the profile; thread 1 holds the profile and
      waits for the socket; everybody else is outside or waits for the list. */
  predicate Blocked(s: State) {
    && |s.threads| >= 2 && s.list == Some(0) && 0 in s.prof && s.prof[0] == 1
    && (0, 0) in s.owner && s.owner[(0, 0)] == 0
    && s.threads[0] == Thread(WantProf(0), {(0, 0)}) && s.threads[1] == Thread(WantFirst(0), {})
    && forall u :: 2 <= u < |s.threads| ==>
         (s.threads[u].pc.Idle? || s.threads[u].pc.WantList?) && s.threads[u].held == {}
  }

  /** The condition is needed: with a second acquisition by a thread that holds a connection, every pool with a
      profile and two threads can reach such a state. */
  lemma NestedDeadlocks(s: State)
    requires Initial(s) && s.profiles != [] && |s.threads| >= 2
    ensures exists e :: Reaches(s, e) && Blocked(e)
  {
    hide Reaches;
    var own, up := map[(0, 0) := 0], {(0, 0)};
    var s1 := With(s, None, map[0 := 0], map[], {}, 0, Thread(Scan(0, 0), {}));
    var s2 := With(s, None, map[], own, up, 0, Thread(Idle, {(0, 0)}));
    var s3 := With(s2, None, map[0 := 1], own, up, 1, Thread(Scan(0, 0), {}));
    var s4 := With(s2, None, map[0 := 1], own, up, 1, Thread(Scan(0, 1), {}));
    var s5 := With(s2, None, map[0 := 1], own, up, 1, Thread(WantFirst(0), {}));
    var e := With(s5, Some(0), map[0 := 1], own, up, 0, Thread(WantProf(0), {(0, 0)}));
    There(e);
    Nests(s5, e);
    assert s4.threads[1 := Thread(WantFirst(0), {})] == s5.threads;
    Fails(s4, 1, e);
    Via(s3, 1, Go(true), s4, e);
    Enters(s2, 1, e);
    assert s1.threads[0 := Thread(Idle, {(0, 0)})] == s2.threads;
    Takes(s1, e);
    Enters(s, 0, e);
  }

  lemma There(s: State)
    ensures Reaches(s, s)
  {
    assert Runs(s, []) && After(s, []) == s;
  }

  /** From there on only new callers can arrive: whatever happens, nobody is ever given a connection or
      releases one, and the two threads stay where they are. */
  lemma {:induction false} BlockedForever(s: State, run: seq<Action>)
    requires Blocked(s) && Runs(s, run)
    ensures Blocked(After(s, run))
    ensures forall i :: 0 <= i < |run| ==> run[i].m.Start? && run[i].t >= 2
    decreases |run|
  {
    if run != [] {
      BlockedForever(Next(s, run[0].t, run[0].m), run[1..]);
    }
  }
}
