/** What a caller of the pool gets: the steps of one thread while the others stand still. */
module PoolScan {
  import opened Wrappers
  import opened Pool

  /** Thread t's next step, when the sockets in `up` can be connected and the others cannot; it waits where it is
      when it cannot move. */
  function SoloStep(s: State, t: Tid, up: set<nat>): (s': State)
    requires t < |s.threads|
    ensures |s'.threads| == |s.threads|
  {
    var pc := s.threads[t].pc;
    var m := Go(if pc.Connecting? then pc.i in up else 0 in up);
    if Enabled(s, t, m) then Next(s, t, m) else s
  }

  function Solo(s: State, t: Tid, up: set<nat>, n: nat): (s': State)
    requires t < |s.threads|
    ensures |s'.threads| == |s.threads|
    decreases n
  {
    if n == 0 then s else Solo(SoloStep(s, t, up), t, up, n - 1)
  }

  /** A socket the scan takes: nobody has it, and it is connected or can be. */
  predicate Takes(s: State, p: nat, i: nat, up: set<nat>) {
    (p, i) !in s.owner && ((p, i) in s.connected || i in up)
  }

  /** The thread is at iteration i, of a profile whose socket i exists. */
  predicate At(s: State, t: Tid, p: nat, i: nat) {
    t < |s.threads| && p < |s.profiles| && i <= s.profiles[p].size && s.threads[t].pc == Scan(p, i)
  }

  /** Thread t is given socket k of profile p, connected if it can be, and is out of the pool again. */
  predicate Given(s: State, s': State, t: Tid, p: nat, k: nat, up: set<nat>)
    requires t < |s.threads|
  {
    && s'.threads == s.threads[t := Thread(Idle, s.threads[t].held + {(p, k)})]
    && s'.owner == s.owner[(p, k) := t] && s'.prof == s.prof - {p}
    && s'.list == s.list && s'.profiles == s.profiles
    && s'.connected == s.connected + if (p, k) in s.connected || k in up then {(p, k)} else {}
  }

  lemma PassedOver(s: State, t: Tid, p: nat, i: nat, up: set<nat>) returns (n: nat)
    requires At(s, t, p, i) && i < s.profiles[p].size && !Takes(s, p, i, up)
    ensures Solo(s, t, up, n) == s.(threads := s.threads[t := s.threads[t].(pc := Scan(p, i + 1))])
  {
    if (p, i) in s.owner {
      n := 1;
      assert Solo(s, t, up, 1) == Solo(SoloStep(s, t, up), t, up, 0);
    } else {
      n := 3;
      var s1 := SoloStep(s, t, up);
      var s2 := SoloStep(s1, t, up);
      var s3 := SoloStep(s2, t, up);
      assert s2.threads[t].pc == Connecting(p, i);
      assert s3.owner == s.owner;
      assert s3.threads == s.threads[t := s.threads[t].(pc := Scan(p, i + 1))];
      Three(s, t, up);
    }
  }

  lemma Three(s: State, t: Tid, up: set<nat>)
    requires t < |s.threads|
    ensures Solo(s, t, up, 3) == SoloStep(SoloStep(SoloStep(s, t, up), t, up), t, up)
    ensures Solo(s, t, up, 4) == SoloStep(SoloStep(SoloStep(SoloStep(s, t, up), t, up), t, up), t, up)
  {
    hide SoloStep;
    var s1 := SoloStep(s, t, up);
    var s2 := SoloStep(s1, t, up);
    var s3 := SoloStep(s2, t, up);
    assert Solo(s3, t, up, 0) == s3;
    assert Solo(s2, t, up, 1) == s3;
    assert Solo(s1, t, up, 2) == s3;
    assert Solo(s2, t, up, 2) == Solo(s3, t, up, 1);
    assert Solo(s1, t, up, 3) == Solo(s2, t, up, 2);
  }

  lemma TakenThere(s: State, t: Tid, p: nat, i: nat, up: set<nat>) returns (n: nat)
    requires At(s, t, p, i) && i < s.profiles[p].size && Takes(s, p, i, up)
    ensures Given(s, Solo(s, t, up, n), t, p, i, up)
  {
    hide Solo, Given, SoloStep;
    Three(s, t, up);
    if (p, i) in s.connected {
      n := 3;
      Connected(s, t, p, i, up);
    } else {
      n := 4;
      Reconnected(s, t, p, i, up);
    }
  }

  lemma Connected(s: State, t: Tid, p: nat, i: nat, up: set<nat>)
    requires At(s, t, p, i) && i < s.profiles[p].size && (p, i) !in s.owner && (p, i) in s.connected
    ensures Given(s, SoloStep(SoloStep(SoloStep(s, t, up), t, up), t, up), t, p, i, up)
  {
    LastStep(s, SoloStep(SoloStep(s, t, up), t, up), t, p, i, up);
  }

  lemma Reconnected(s: State, t: Tid, p: nat, i: nat, up: set<nat>)
    requires At(s, t, p, i) && i < s.profiles[p].size && (p, i) !in s.owner && (p, i) !in s.connected && i in up
    ensures Given(s, SoloStep(SoloStep(SoloStep(SoloStep(s, t, up), t, up), t, up), t, up), t, p, i, up)
  {
    LastStep(s, SoloStep(SoloStep(SoloStep(s, t, up), t, up), t, up), t, p, i, up);
  }

  lemma {:induction false} SoloMore(s: State, t: Tid, up: set<nat>, a: nat, b: nat)
    requires t < |s.threads|
    ensures Solo(s, t, up, a + b) == Solo(Solo(s, t, up, a), t, up, b)
    decreases a
  {
    hide SoloStep;
    if a > 0 {
      SoloMore(SoloStep(s, t, up), t, up, a - 1, b);
    }
  }

  /** The scan goes over sockets that are taken or cannot be connected, and gives the first other one. */
  lemma {:induction false} ScanTakes(s: State, t: Tid, p: nat, i: nat, k: nat, up: set<nat>) returns (n: nat)
    requires At(s, t, p, i) && i <= k < s.profiles[p].size && Takes(s, p, k, up)
    requires forall j :: i <= j < k ==> !Takes(s, p, j, up)
    ensures Given(s, Solo(s, t, up, n), t, p, k, up)
    decreases k - i
  {
    hide Solo, SoloStep;
    if i == k {
      n := TakenThere(s, t, p, i, up);
    } else {
      var a := PassedOver(s, t, p, i, up);
      var s1 := Solo(s, t, up, a);
      assert forall j :: i < j <= k ==> (Takes(s1, p, j, up) <==> Takes(s, p, j, up));
      var b := ScanTakes(s1, t, p, i + 1, k, up);
      SoloMore(s, t, up, a, b);
      n := a + b;
    }
  }

  /** Without any such socket the scan ends in front of socket 0. */
  lemma {:induction false} ScanFails(s: State, t: Tid, p: nat, i: nat, up: set<nat>) returns (n: nat)
    requires At(s, t, p, i) && forall j :: i <= j < s.profiles[p].size ==> !Takes(s, p, j, up)
    ensures Solo(s, t, up, n) == s.(threads := s.threads[t := s.threads[t].(pc := WantFirst(p))])
    decreases s.profiles[p].size - i
  {
    if i == s.profiles[p].size {
      n := 1;
      assert Solo(s, t, up, 1) == Solo(SoloStep(s, t, up), t, up, 0);
    } else {
      hide Solo, SoloStep;
      var a := PassedOver(s, t, p, i, up);
      var s1 := Solo(s, t, up, a);
      assert forall j :: i < j < s.profiles[p].size ==> (Takes(s1, p, j, up) <==> Takes(s, p, j, up));
      var b := ScanFails(s1, t, p, i + 1, up);
      SoloMore(s, t, up, a, b);
      n := a + b;
    }
  }

  /** The way in: the caller comes to the scan of the profile it named. */
  lemma EntersScan(s: State, t: Tid, name: string, p: nat, up: set<nat>)
    requires t < |s.threads| && s.threads[t].pc == Idle && s.list == None
    requires Find(s.profiles, name, 0) == Some(p) && p < |s.profiles| && p !in s.prof
    ensures Enabled(s, t, Start(name))
    ensures Solo(Next(s, t, Start(name)), t, up, 4)
            == s.(prof := s.prof[p := t], threads := s.threads[t := s.threads[t].(pc := Scan(p, 0))])
  {
    hide Find;
    var s0 := Next(s, t, Start(name));
    Three(s0, t, up);
    var s1 := SoloStep(s0, t, up);
    var s2 := SoloStep(s1, t, up);
    var s3 := SoloStep(s2, t, up);
    var s4 := SoloStep(s3, t, up);
    assert s1.threads[t].pc == InList(name) && s2.threads[t].pc == WantProf(p) && s3.threads[t].pc == LeaveList(p);
    assert s4.threads == s.threads[t := s.threads[t].(pc := Scan(p, 0))];
  }

  /** A caller whose profile nobody else is busy with gets, without waiting for anybody, the first socket of it that
      is free and is connected or can be. If there is none, it comes to wait for socket 0, and gets that one
      when it is free, connected or not. */
  lemma FirstFreeIsGiven(s: State, t: Tid, name: string, p: nat, up: set<nat>, k: nat) returns (n: nat)
    requires t < |s.threads| && s.threads[t].pc == Idle && s.list == None
    requires Find(s.profiles, name, 0) == Some(p) && p < |s.profiles| && p !in s.prof
    requires k < s.profiles[p].size && Takes(s, p, k, up) && forall j :: 0 <= j < k ==> !Takes(s, p, j, up)
    ensures Enabled(s, t, Start(name)) && Given(s, Solo(Next(s, t, Start(name)), t, up, n), t, p, k, up)
  {
    hide Solo, SoloStep, Find;
    EntersScan(s, t, name, p, up);
    var s0 := Next(s, t, Start(name));
    var mid := Solo(s0, t, up, 4);
    assert forall j :: 0 <= j <= k ==> (Takes(mid, p, j, up) <==> Takes(s, p, j, up));
    var m := ScanTakes(mid, t, p, 0, k, up);
    SoloMore(s0, t, up, 4, m);
    n := 4 + m;
    assert s.prof[p := t] - {p} == s.prof - {p};
    assert mid.threads[t := Thread(Idle, s.threads[t].held + {(p, k)})]
        == s.threads[t := Thread(Idle, s.threads[t].held + {(p, k)})];
  }

  /** The fallback. */
  lemma FallsBack(s: State, t: Tid, name: string, p: nat, up: set<nat>) returns (n: nat)
    requires t < |s.threads| && s.threads[t].pc == Idle && s.list == None
    requires Find(s.profiles, name, 0) == Some(p) && p < |s.profiles| && p !in s.prof
    requires forall j :: 0 <= j < s.profiles[p].size ==> !Takes(s, p, j, up)
    ensures Enabled(s, t, Start(name))
    ensures Solo(Next(s, t, Start(name)), t, up, n)
            == s.(prof := s.prof[p := t], threads := s.threads[t := s.threads[t].(pc := WantFirst(p))])
  {
    hide Solo, SoloStep, Find;
    EntersScan(s, t, name, p, up);
    var s0 := Next(s, t, Start(name));
    var mid := Solo(s0, t, up, 4);
    assert forall j :: 0 <= j < s.profiles[p].size ==> (Takes(mid, p, j, up) <==> Takes(s, p, j, up));
    var m := ScanFails(mid, t, p, 0, up);
    SoloMore(s0, t, up, 4, m);
    n := 4 + m;
    assert mid.threads[t := mid.threads[t].(pc := WantFirst(p))] == s.threads[t := s.threads[t].(pc := WantFirst(p))];
  }

  /** Socket 0 is then given as soon as it is free, and not before. */
  lemma FirstIsGiven(s: State, t: Tid, p: nat, up: set<nat>) returns (n: nat)
    requires t < |s.threads| && s.threads[t].pc == WantFirst(p)
    ensures (p, 0) in s.owner ==> forall m :: !Enabled(s, t, m)
    ensures (p, 0) !in s.owner ==> Given(s, Solo(s, t, up, n), t, p, 0, up)
  {
    hide Solo, Given, SoloStep;
    Three(s, t, up);
    n := if (p, 0) in s.connected then 3 else 4;
    if (p, 0) !in s.owner {
      FirstGiven(s, t, p, up);
    }
  }

  lemma FirstGiven(s: State, t: Tid, p: nat, up: set<nat>)
    requires t < |s.threads| && s.threads[t].pc == WantFirst(p) && (p, 0) !in s.owner
    ensures var s3 := SoloStep(SoloStep(SoloStep(s, t, up), t, up), t, up);
            Given(s, if (p, 0) in s.connected then s3 else SoloStep(s3, t, up), t, p, 0, up)
  {
    var s2 := SoloStep(SoloStep(s, t, up), t, up);
    if (p, 0) in s.connected {
      LastStep(s, s2, t, p, 0, up);
    } else {
      LastStep(s, SoloStep(s2, t, up), t, p, 0, up);
    }
  }

  lemma LastStep(s: State, s': State, t: Tid, p: nat, i: nat, up: set<nat>)
    requires t < |s.threads| && s'.threads == s.threads[t := s.threads[t].(pc := Leave(p, i))]
    requires s'.owner == s.owner[(p, i) := t] && s'.prof == s.prof && s'.list == s.list && s'.profiles == s.profiles
    requires s'.connected == s.connected + if (p, i) in s.connected || i in up then {(p, i)} else {}
    ensures Given(s, SoloStep(s', t, up), t, p, i, up)
  {
    assert SoloStep(s', t, up).threads == s.threads[t := Thread(Idle, s.threads[t].held + {(p, i)})];
  }
}
