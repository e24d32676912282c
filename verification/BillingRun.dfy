/** Whole runs of the billing service: who is charged for what, how many calls are open, and how much the
    operator can lose. */
module BillingRun {
  import opened Wrappers
  import opened Billing

  /** A first authorization of a call: its terms and the balance it was granted on. */
  datatype Opening = Opening(callId: string, caller: string, terms: Tariff, funds: real)

  /** A finalization of a live call: which opening it closes, what was billed and what the balance lost. */
  datatype Charged = Charged(opening: nat, caller: string, duration: int, billed: real, debited: real)

  /** The database, every opening so far, the opening behind each live dialog, and every charge so far. */
  datatype World = World(book: Book, openings: seq<Opening>, live: map<string, nat>, charges: seq<Charged>)

  datatype Event =
    | Auth(caller: string, callee: string, callId: string, now: real, indexed: bool)
    | Fin(callId: string, duration: int, now: real)
    | Pay(id: string, delta: real)
    | Add(id: string, balance: real, maxCalls: int)
    | SetRate(prefix: string, tariff: Tariff)
    | Sweep(ids: set<string>)

  function Step(w: World, e: Event): World {
    match e
    case Auth(caller, callee, callId, now, indexed) =>
      var (book, v) := Authorize(w.book, caller, callee, callId, now, indexed);
      if v.Denied? || callId in w.book.dialogs then w.(book := book)
      else World(book, w.openings + [Opening(callId, caller, v.terms, w.book.subs[caller].balance)],
                 w.live[callId := |w.openings|], w.charges)
    case Fin(callId, duration, now) =>
      var (book, billed) := Finalize(w.book, callId, duration, now);
      if callId !in w.live then w.(book := book)
      else
        var caller := CallerOf(w.book, callId);
        var debited := if caller in w.book.subs then w.book.subs[caller].balance - book.subs[caller].balance else 0.0;
        World(book, w.openings, w.live - {callId},
              w.charges + [Charged(w.live[callId], caller, duration, billed, debited)])
    case Pay(id, delta) => w.(book := UpdateBalance(w.book, id, delta))
    case Add(id, balance, maxCalls) => w.(book := AddSubscriber(w.book, id, balance, maxCalls))
    case SetRate(prefix, tariff) => w.(book := SetTariff(w.book, prefix, tariff))
    case Sweep(ids) => World(Purge(w.book, ids), w.openings, w.live - ids, w.charges)
  }

  function Run(w: World, es: seq<Event>): World
    decreases |es|
  {
    if es == [] then w else Run(Step(w, es[0]), es[1..])
  }

  /** Nobody may be provisioned under the name given to calls without a dialog. */
  predicate Named(e: Event) {
    e.Add? ==> e.id != UNKNOWN
  }

  // ---------------------------------------------------------------- charged once, at frozen terms

  /** A live dialog is the one its opening describes, and it has not been charged. */
  predicate LiveOk(w: World, c: string) {
    && c in w.book.dialogs && c in w.live && w.live[c] < |w.openings|
    && (forall k :: 0 <= k < |w.charges| ==> w.charges[k].opening != w.live[c])
    && var o := w.openings[w.live[c]];
       && o.callId == c && o.caller == w.book.dialogs[c].caller && o.caller in w.book.subs
       && w.book.dialogs[c].terms == Some(o.terms)
  }

  /** A charge closes an opening: same caller, billed at the terms frozen there. */
  predicate ChargeOk(w: World, k: nat)
    requires k < |w.charges|
  {
    var x := w.charges[k];
    && x.opening < |w.openings|
    && x.caller == w.openings[x.opening].caller
    && x.billed == Bill(w.openings[x.opening].terms, x.duration)
  }

  predicate Books(w: World) {
    && UNKNOWN !in w.book.subs
    && w.live.Keys == w.book.dialogs.Keys
    && (forall c :: c in w.live ==> LiveOk(w, c))
    && (forall k :: 0 <= k < |w.charges| ==> ChargeOk(w, k))
    && (forall j, k :: 0 <= j < k < |w.charges| ==> w.charges[j].opening != w.charges[k].opening)
  }

  /** An authorization that registers a new dialog. */
  predicate Fresh(w: World, e: Event)
    requires e.Auth?
  {
    Authorize(w.book, e.caller, e.callee, e.callId, e.now, e.indexed).1.Allowed? && e.callId !in w.book.dialogs
  }

  /** What a new dialog changes. */
  lemma FreshShape(w: World, e: Event)
    requires e.Auth? && Fresh(w, e)
    ensures var w' := Step(w, e); var t := Match(w.book.tariffs, e.callee);
            && e.caller in w.book.subs && e.callId in w'.book.dialogs
            && w'.book.subs == w.book.subs && w'.book.tariffs == w.book.tariffs && w'.charges == w.charges
            && w'.openings == w.openings + [Opening(e.callId, e.caller, t, w.book.subs[e.caller].balance)]
            && w'.live == w.live[e.callId := |w.openings|]
            && w'.book.dialogs
               == w.book.dialogs[e.callId := Dialog(e.caller, e.callee, w'.book.dialogs[e.callId].expires, Some(t))]
            && w.book.subs[e.caller].balance >= t.fee + t.rate / 6.0
            && ActiveCalls(w.book.dialogs, e.caller, e.indexed) < w.book.subs[e.caller].maxCalls
  {
    hide Match, Granted, Floor, ActiveCalls;
  }

  /** Anything else an authorization does moves at most the deadline of a known dialog. */
  lemma StaleShape(w: World, e: Event)
    requires e.Auth? && !Fresh(w, e)
    ensures var w' := Step(w, e);
            && w'.book.subs == w.book.subs && w'.book.tariffs == w.book.tariffs
            && w'.openings == w.openings && w'.charges == w.charges && w'.live == w.live
            && w'.book.dialogs.Keys == w.book.dialogs.Keys
            && (forall c :: c in w.book.dialogs ==>
                  w'.book.dialogs[c].(expires := 0) == w.book.dialogs[c].(expires := 0))
  {
    hide Match, Granted, Floor, ActiveCalls;
  }

  /** What a finalization changes in the spaces. */
  lemma FinalizeShape(b: Book, callId: string, duration: int, now: real)
    ensures var (b', billed) := Finalize(b, callId, duration, now); var caller := CallerOf(b, callId);
            && b'.tariffs == b.tariffs && b'.dialogs == b.dialogs - {callId} && b'.subs.Keys == b.subs.Keys
            && billed == Bill(TermsOf(b, callId), duration)
            && (forall s :: s in b.subs && s != caller ==> b'.subs[s] == b.subs[s])
            && (caller in b.subs ==>
                 b'.subs[caller] == b.subs[caller].(balance := Charge(b.subs[caller].balance, billed)))
  {
    hide Floor, Bill, Charge;
  }

  lemma FinShape(w: World, e: Event)
    requires e.Fin?
    ensures var w' := Step(w, e); var caller := CallerOf(w.book, e.callId);
            && w'.book == Finalize(w.book, e.callId, e.duration, e.now).0 && w'.openings == w.openings
            && (e.callId !in w.live ==> w'.live == w.live && w'.charges == w.charges)
            && (e.callId in w.live ==>
                  && w'.live == w.live - {e.callId}
                  && w'.charges == w.charges + [Charged(w.live[e.callId], caller, e.duration,
                       Finalize(w.book, e.callId, e.duration, e.now).1,
                       if caller in w.book.subs then w.book.subs[caller].balance - w'.book.subs[caller].balance
                       else 0.0)])
  {
    FinalizeShape(w.book, e.callId, e.duration, e.now);
    hide Finalize;
  }

  /** A live dialog stays in order when its row, its opening and its charges are not touched. */
  lemma LiveSame(w: World, w': World, c: string)
    requires LiveOk(w, c) && c in w'.book.dialogs && c in w'.live && w'.live[c] == w.live[c]
    requires w.openings <= w'.openings && w.book.subs.Keys <= w'.book.subs.Keys
    requires w'.book.dialogs[c].caller == w.book.dialogs[c].caller
             && w'.book.dialogs[c].terms == w.book.dialogs[c].terms
    requires w'.charges == w.charges
          || (|w'.charges| == |w.charges| + 1 && w.charges <= w'.charges
             && w'.charges[|w.charges|].opening != w.live[c])
    ensures LiveOk(w', c)
  {
  }

  lemma ChargeSame(w: World, w': World, k: nat)
    requires k < |w.charges| && ChargeOk(w, k) && w.openings <= w'.openings && w.charges <= w'.charges
    ensures ChargeOk(w', k)
  {
  }

  /** Distinct live dialogs come from distinct openings. */
  lemma LiveDiffer(w: World, c: string, d: string)
    requires LiveOk(w, c) && LiveOk(w, d) && c != d
    ensures w.live[c] != w.live[d]
  {
  }

  lemma FreshBooks(w: World, e: Event)
    requires Books(w) && e.Auth? && Fresh(w, e)
    ensures Books(Step(w, e))
  {
    hide Step, Fresh, Match, ActiveCalls, ChargeOk;
    var w' := Step(w, e);
    FreshShape(w, e);
    forall k | 0 <= k < |w.charges|
      ensures w.charges[k].opening != |w.openings| && ChargeOk(w', k)
    {
      ChargeSame(w, w', k);
      Opened(w, k);
    }
    forall c | c in w.live && c != e.callId
      ensures LiveOk(w', c)
    {
      LiveSame(w, w', c);
    }
  }

  lemma Opened(w: World, k: nat)
    requires k < |w.charges| && ChargeOk(w, k)
    ensures w.charges[k].opening < |w.openings|
  {
  }

  lemma StaleBooks(w: World, e: Event)
    requires Books(w) && e.Auth? && !Fresh(w, e)
    ensures Books(Step(w, e))
  {
    hide Step, Fresh, ChargeOk, LiveOk;
    var w' := Step(w, e);
    StaleShape(w, e);
    forall c | c in w.live
      ensures LiveOk(w', c)
    {
      assert LiveOk(w, c);
      assert w'.book.dialogs[c].(expires := 0) == w.book.dialogs[c].(expires := 0);
      LiveSame(w, w', c);
    }
    forall k | 0 <= k < |w.charges|
      ensures ChargeOk(w', k)
    {
      ChargeSame(w, w', k);
    }
  }

  /** The new charge closes the opening of the finalized dialog, at its terms. */
  lemma FinCharge(w: World, e: Event)
    requires Books(w) && e.Fin? && e.callId in w.live
    ensures ChargeOk(Step(w, e), |w.charges|)
    ensures forall k :: 0 <= k < |w.charges| ==> w.charges[k].opening != w.live[e.callId]
  {
    hide Step, Finalize, Bill, Charge;
    FinShape(w, e);
    FinalizeShape(w.book, e.callId, e.duration, e.now);
    assert LiveOk(w, e.callId);
  }

  lemma FinBooks(w: World, e: Event)
    requires Books(w) && e.Fin?
    ensures Books(Step(w, e))
  {
    hide Step, Finalize, Bill, Charge, LiveOk, ChargeOk;
    var w' := Step(w, e);
    FinShape(w, e);
    FinalizeShape(w.book, e.callId, e.duration, e.now);
    if e.callId in w.live {
      FinCharge(w, e);
    }
    forall c | c in w'.live
      ensures LiveOk(w', c)
    {
      if e.callId in w.live {
        LiveDiffer(w, c, e.callId);
      }
      LiveSame(w, w', c);
    }
    forall k | 0 <= k < |w'.charges|
      ensures ChargeOk(w', k)
    {
      if k < |w.charges| {
        ChargeSame(w, w', k);
      }
    }
  }

  lemma OtherBooks(w: World, e: Event)
    requires Books(w) && Named(e) && !e.Auth? && !e.Fin?
    ensures Books(Step(w, e))
  {
    hide Bill;
    var w' := Step(w, e);
    forall c | c in w'.live
      ensures LiveOk(w', c)
    {
      assert LiveOk(w, c);
    }
    forall k | 0 <= k < |w'.charges|
      ensures ChargeOk(w', k)
    {
      assert ChargeOk(w, k);
    }
  }

  lemma StepBooks(w: World, e: Event)
    requires Books(w) && Named(e)
    ensures Books(Step(w, e))
  {
    hide Step, Books, Fresh;
    match e
    case Auth(_, _, _, _, _) => if Fresh(w, e) { FreshBooks(w, e); } else { StaleBooks(w, e); }
    case Fin(_, _, _) => FinBooks(w, e);
    case _ => OtherBooks(w, e);
  }

  /** In every run, however tariffs change, calls are re-authorized and finalizations repeat: no opening is
      charged twice, and each charge goes to the caller and at the terms of the first authorization. */
  lemma {:induction false} ChargedOnce(w: World, es: seq<Event>)
    requires Books(w) && forall i :: 0 <= i < |es| ==> Named(es[i])
    ensures var w' := Run(w, es);
            && (forall j, k :: 0 <= j < k < |w'.charges| ==> w'.charges[j].opening != w'.charges[k].opening)
            && (forall k :: 0 <= k < |w'.charges| ==> ChargeOk(w', k))
    ensures Books(Run(w, es))
    decreases |es|
  {
    hide Step, ChargeOk, LiveOk;
    if es != [] {
      StepBooks(w, es[0]);
      ChargedOnce(Step(w, es[0]), es[1..]);
    }
  }

  /** The live call that an event of a run finalizes, as the run up to then has it. */
  predicate EndsLive(w: World, es: seq<Event>, i: nat) {
    i < |es| && es[i].Fin? && es[i].callId in Run(w, es[..i]).live
  }

  /** A live call that ends after n started minutes costs the fee and n times the rate frozen at its opening:
      that is what is charged, what the record says and, as far as the balance goes, what the caller loses. */
  predicate MinuteCharge(w: World, w': World, e: Event, n: int, second: int)
    requires e.Fin?
  {
    && e.callId in w.live && e.callId in w.book.dialogs && w.live[e.callId] < |w.openings|
    && |w'.charges| == |w.charges| + 1
    && var o, x := w.openings[w.live[e.callId]], w'.charges[|w.charges|];
       var cost := o.terms.fee + n as real * o.terms.rate;
       && o.callId == e.callId && o.caller in w.book.subs && o.caller in w'.book.subs
       && x.opening == w.live[e.callId] && x.caller == o.caller && x.duration == e.duration && x.billed == cost
       && (e.callId, second) in w'.book.cdrs
       && w'.book.cdrs[(e.callId, second)] == Cdr(o.caller, w.book.dialogs[e.callId].callee, e.duration, cost)
       && w'.book.subs[o.caller].balance
          == (if cost < w.book.subs[o.caller].balance then w.book.subs[o.caller].balance - cost else 0.0)
       && x.debited == w.book.subs[o.caller].balance - w'.book.subs[o.caller].balance
  }

  lemma MinuteStep(w: World, e: Event, n: int, second: int)
    requires Books(w) && e.Fin? && e.callId in w.live
    requires 60 * (n - 1) < e.duration <= 60 * n && second as real <= e.now < second as real + 1.0
    ensures MinuteCharge(w, Step(w, e), e, n, second)
  {
    hide Step, Finalize, Books, Bill;
    LiveAt(w, e.callId);
    var o := w.openings[w.live[e.callId]];
    FinalizeCosts(w.book, e.callId, e.duration, e.now, n, second, o.caller, w.book.dialogs[e.callId].callee,
                  o.terms.rate, o.terms.fee);
    FinShape(w, e);
  }

  /** In every run, whatever the tariffs have become since a call was authorized, the end of a live call is
      charged by the started minute, and the charge stays. */
  lemma ChargedByTheMinute(w: World, es: seq<Event>, i: nat, n: int, second: int)
    requires Books(w) && (forall j :: 0 <= j < |es| ==> Named(es[j])) && EndsLive(w, es, i)
    requires 60 * (n - 1) < es[i].duration <= 60 * n && second as real <= es[i].now < second as real + 1.0
    ensures var mid, next := Run(w, es[..i]), Run(w, es[..i + 1]);
            && MinuteCharge(mid, next, es[i], n, second)
            && next.charges <= Run(w, es).charges && mid.openings <= Run(w, es).openings
  {
    hide Step, Books, MinuteCharge;
    var mid := Run(w, es[..i]);
    ChargedOnce(w, es[..i]);
    MinuteStep(mid, es[i], n, second);
    RunSnoc(w, es, i);
    RunSplit(w, es, i);
    OpeningsFrozen(mid, es[i..]);
    RunSplit(w, es, i + 1);
    OpeningsFrozen(Run(w, es[..i + 1]), es[i + 1..]);
  }

  lemma LiveAt(w: World, c: string)
    requires Books(w) && c in w.live
    ensures LiveOk(w, c)
  {
  }

  /** One more event. */
  lemma RunSnoc(w: World, es: seq<Event>, i: nat)
    requires i < |es|
    ensures Run(w, es[..i + 1]) == Step(Run(w, es[..i]), es[i])
  {
    hide Step;
    RunSplit(w, es[..i + 1], i);
    assert es[..i + 1][..i] == es[..i] && es[..i + 1][i..] == [es[i]];
    var mid := Run(w, es[..i]);
    assert Run(mid, [es[i]]) == Run(Step(mid, es[i]), []);
  }

  /** Openings are never rewritten: what was frozen stays frozen. */
  lemma {:induction false} OpeningsFrozen(w: World, es: seq<Event>)
    ensures w.openings <= Run(w, es).openings && w.charges <= Run(w, es).charges
    decreases |es|
  {
    hide Authorize, Finalize, Purge;
    if es != [] {
      OpeningsFrozen(Step(w, es[0]), es[1..]);
    }
  }

  /** A balance moves only when its own call is finalized or it is provisioned: finalizing anything else,
      or the same call again, changes no subscriber. */
  lemma OnlyOwnCharge(w: World, callId: string, duration: int, now: real)
    requires Books(w)
    ensures var w' := Step(w, Fin(callId, duration, now));
            && (callId !in w.live ==> w'.book.subs == w.book.subs && w'.charges == w.charges)
            && (callId in w.live ==>
                  var caller := w.openings[w.live[callId]].caller;
                  && w'.book.subs.Keys == w.book.subs.Keys
                  && (forall s :: s in w.book.subs && s != caller ==> w'.book.subs[s] == w.book.subs[s]))
            && callId !in w'.live
            && Step(w', Fin(callId, duration, now)).book.subs == w'.book.subs
  {
    hide Floor, Bill, Charge;
    if callId in w.live {
      assert LiveOk(w, callId);
    }
  }

  // ---------------------------------------------------------------- call records

  /** A call record stays as it is until the same call is finalized again within the same second. */
  lemma {:induction false} RecordKept(w: World, es: seq<Event>, key: (string, int))
    requires key in w.book.cdrs
    requires forall i :: 0 <= i < |es| && es[i].Fin? ==> (es[i].callId, Floor(es[i].now)) != key
    ensures var b := Run(w, es).book; key in b.cdrs && b.cdrs[key] == w.book.cdrs[key]
    decreases |es|
  {
    if es != [] {
      StepRecords(w, es[0], key);
      hide Step, Floor;
      RecordKept(Step(w, es[0]), es[1..], key);
    }
  }

  lemma StepRecords(w: World, e: Event, key: (string, int))
    requires key in w.book.cdrs && (e.Fin? ==> (e.callId, Floor(e.now)) != key)
    ensures var b := Step(w, e).book; key in b.cdrs && b.cdrs[key] == w.book.cdrs[key]
  {
    hide Floor, Bill, Charge, Match, ActiveCalls, Granted;
  }

  /** Then it is replaced: the record says what was billed to whom, and a second finalization within the same
      second puts a record of nobody in its place. */
  lemma RepeatOverwrites(b: Book, callId: string, duration: int, again: int, now: real, later: real)
    requires callId in b.dialogs && Floor(later) == Floor(now)
    ensures var (b1, billed) := Finalize(b, callId, duration, now);
            var (b2, _) := Finalize(b1, callId, again, later);
            var key := (callId, Floor(now));
            && key in b1.cdrs
            && b1.cdrs[key] == Cdr(b.dialogs[callId].caller, b.dialogs[callId].callee, duration, billed)
            && key in b2.cdrs && b2.cdrs[key].caller == UNKNOWN && b2.cdrs[key].callee == UNKNOWN
            && (UNKNOWN !in b.subs ==> b2.subs == b1.subs)
  {
    hide Bill, Charge;
  }

  /** The event writes the record under the key. */
  predicate Finalizes(e: Event, key: (string, int)) {
    e.Fin? && (e.callId, Floor(e.now)) == key
  }

  predicate Survives(w: World, es: seq<Event>, key: (string, int)) {
    var b := Run(w, es).book;
    key in w.book.cdrs && key in b.cdrs && b.cdrs[key] == w.book.cdrs[key]
  }

  lemma {:induction false} RunSplit(w: World, es: seq<Event>, k: nat)
    requires k <= |es|
    ensures Run(w, es) == Run(Run(w, es[..k]), es[k..])
    decreases k
  {
    hide Step;
    if k == 0 {
      assert es[0..] == es;
    } else {
      assert es[..k][1..] == es[1..][..k - 1] && es[1..][k - 1..] == es[k..];
      RunSplit(Step(w, es[0]), es[1..], k - 1);
    }
  }

  /** After any run the record under a key is the one its last finalization wrote: of the dialog's caller if the
      call was live then, else of nobody. */
  lemma RecordIsLast(w: World, es: seq<Event>, k: nat, key: (string, int))
    requires k < |es| && Finalizes(es[k], key)
    requires forall i :: k < i < |es| ==> !Finalizes(es[i], key)
    ensures var b, b' := Run(w, es[..k]).book, Run(w, es).book; var id := key.0;
            && key in b'.cdrs
            && b'.cdrs[key]
               == Cdr(CallerOf(b, id), CalleeOf(b, id), es[k].duration, Bill(TermsOf(b, id), es[k].duration))
            && (id !in b.dialogs ==> b'.cdrs[key].caller == UNKNOWN && b'.cdrs[key].callee == UNKNOWN)
  {
    RunSplit(w, es, k);
    var mid := Run(w, es[..k]);
    WritesRecord(mid, es[k], key);
    hide Step, Floor, Bill;
    assert es[k..][1..] == es[k + 1..];
    RecordKept(Step(mid, es[k]), es[k + 1..], key);
  }

  lemma WritesRecord(w: World, e: Event, key: (string, int))
    requires Finalizes(e, key)
    ensures var b, b' := w.book, Step(w, e).book;
            && key in b'.cdrs
            && b'.cdrs[key]
               == Cdr(CallerOf(b, key.0), CalleeOf(b, key.0), e.duration, Bill(TermsOf(b, key.0), e.duration))
  {
    hide Floor, Bill, Charge;
  }

  lemma {:induction false} LastFinal(es: seq<Event>, i: nat, key: (string, int)) returns (k: nat)
    requires i < |es| && Finalizes(es[i], key)
    ensures i <= k < |es| && Finalizes(es[k], key) && forall j :: k < j < |es| ==> !Finalizes(es[j], key)
    decreases |es| - i
  {
    hide Finalizes;
    if j :| i < j < |es| && Finalizes(es[j], key) {
      k := LastFinal(es, j, key);
    } else {
      k := i;
    }
  }

  /** The records a finalization has just written, in whatever world, all survive a run if and only if no event
      of the run finalizes the same call within the same second; and so do all records whatsoever. */
  lemma RecordKeptExactly(es: seq<Event>, key: (string, int))
    ensures (forall w, e :: Finalizes(e, key) ==> Survives(Step(w, e), es, key))
            <==> forall i :: 0 <= i < |es| ==> !Finalizes(es[i], key)
    ensures (forall w: World :: key in w.book.cdrs ==> Survives(w, es, key))
            <==> forall i :: 0 <= i < |es| ==> !Finalizes(es[i], key)
  {
    hide Step, Run, Survives;
    if i :| 0 <= i < |es| && Finalizes(es[i], key) {
      var k := LastFinal(es, i, key);
      RecordLost(es, k, key);
    } else {
      forall w: World | key in w.book.cdrs
        ensures Survives(w, es, key)
      {
        NotFinalized(w, es, key);
      }
      forall w: World, e: Event | Finalizes(e, key)
        ensures Survives(Step(w, e), es, key)
      {
        WritesRecord(w, e, key);
      }
    }
  }

  lemma NotFinalized(w: World, es: seq<Event>, key: (string, int))
    requires key in w.book.cdrs && forall i :: 0 <= i < |es| ==> !Finalizes(es[i], key)
    ensures Survives(w, es, key)
  {
    hide Run, Floor;
    forall i | 0 <= i < |es| && es[i].Fin?
      ensures (es[i].callId, Floor(es[i].now)) != key
    {
      assert !Finalizes(es[i], key);
    }
    RecordKept(w, es, key);
  }

  /** A record of another duration, written by a finalization in an empty service, is lost. */
  lemma RecordLost(es: seq<Event>, k: nat, key: (string, int))
    requires k < |es| && Finalizes(es[k], key) && forall i :: k < i < |es| ==> !Finalizes(es[i], key)
    ensures exists w, e :: Finalizes(e, key) && key in Step(w, e).book.cdrs && !Survives(Step(w, e), es, key)
  {
    var w := World(Book(map[], map[], map[], map[]), [], map[], []);
    var e := Fin(es[k].callId, es[k].duration + 1, es[k].now);
    assert Finalizes(e, key);
    WritesRecord(w, e, key);
    hide Step, Run, Bill, Floor;
    RecordIsLast(Step(w, e), es, k, key);
  }

  // ---------------------------------------------------------------- concurrency

  /** Nobody holds more dialogs than the limit allows. */
  predicate WithinLimits(b: Book) {
    forall s :: s in b.subs ==> OpenOf(b.dialogs, s) == {} || |OpenOf(b.dialogs, s)| <= b.subs[s].maxCalls
  }

  /** Re-provisioning does not lower a limit. */
  predicate KeepsLimit(b: Book, e: Event) {
    e.Add? && e.id in b.subs ==> e.maxCalls >= b.subs[e.id].maxCalls
  }

  /** A refused or repeated authorization leaves every caller's dialogs as they are. */
  lemma AuthOther(w: World, e: Event, s: string)
    requires e.Auth? && !Fresh(w, e)
    ensures var w' := Step(w, e);
            && w'.book.subs == w.book.subs && w'.book.tariffs == w.book.tariffs
            && w'.openings == w.openings && w'.charges == w.charges
            && OpenOf(w'.book.dialogs, s) == OpenOf(w.book.dialogs, s)
  {
    hide Step, Fresh;
    StaleShape(w, e);
    var d, d' := w.book.dialogs, Step(w, e).book.dialogs;
    forall c | c in d
      ensures d'[c].caller == d[c].caller
    {
      assert d'[c].(expires := 0) == d[c].(expires := 0);
    }
  }

  /** A new dialog is registered only for a caller below the limit and with funds for ten seconds. */
  lemma AuthFresh(w: World, e: Event, s: string)
    requires e.Auth? && Fresh(w, e)
    ensures var w' := Step(w, e); var t := Match(w.book.tariffs, e.callee);
            && w'.book.subs == w.book.subs && w'.book.tariffs == w.book.tariffs && w'.charges == w.charges
            && e.caller in w.book.subs
            && w'.openings == w.openings + [Opening(e.callId, e.caller, t, w.book.subs[e.caller].balance)]
            && w.book.subs[e.caller].balance >= t.fee + t.rate / 6.0
            && OpenOf(w'.book.dialogs, s) == OpenOf(w.book.dialogs, s) + (if s == e.caller then {e.callId} else {})
            && |OpenOf(w'.book.dialogs, s)| == |OpenOf(w.book.dialogs, s)| + (if s == e.caller then 1 else 0)
            && |OpenOf(w.book.dialogs, e.caller)| < w.book.subs[e.caller].maxCalls
  {
    FreshShape(w, e);
    ScanCountsAll(w.book.dialogs, e.caller);
    assert e.callId !in w.book.dialogs;
    hide Step, Fresh, Match, Scanned;
    OpenMore(w.book.dialogs, e.callId, Step(w, e).book.dialogs[e.callId], s);
  }

  lemma OpenMore(d: map<string, Dialog>, c: string, x: Dialog, s: string)
    requires c !in d
    ensures OpenOf(d[c := x], s) == OpenOf(d, s) + (if s == x.caller then {c} else {})
    ensures |OpenOf(d[c := x], s)| == |OpenOf(d, s)| + (if s == x.caller then 1 else 0)
  {
    assert OpenOf(d[c := x], s) == OpenOf(d, s) + (if s == x.caller then {c} else {});
  }

  /** A finalization closes one dialog and touches at most its caller's balance. */
  lemma FinEffect(w: World, e: Event, s: string)
    requires e.Fin?
    ensures var w' := Step(w, e);
            && w'.book.tariffs == w.book.tariffs && w'.openings == w.openings
            && w'.book.subs.Keys == w.book.subs.Keys
            && (s in w.book.subs ==> w'.book.subs[s].maxCalls == w.book.subs[s].maxCalls)
            && (s in w.book.subs && s != CallerOf(w.book, e.callId) ==> w'.book.subs[s] == w.book.subs[s])
            && OpenOf(w'.book.dialogs, s) == OpenOf(w.book.dialogs, s) - {e.callId}
            && |OpenOf(w'.book.dialogs, s)| <= |OpenOf(w.book.dialogs, s)|
  {
    hide Step, Finalize;
    FinShape(w, e);
    FinalizeShape(w.book, e.callId, e.duration, e.now);
    FewerDialogs(w.book.dialogs, {e.callId}, s);
  }

  lemma AuthWithin(w: World, e: Event)
    requires WithinLimits(w.book) && e.Auth?
    ensures WithinLimits(Step(w, e).book)
  {
    var b, b' := w.book, Step(w, e).book;
    hide Fresh, Step, OpenOf, Match;
    if Fresh(w, e) { AuthFresh(w, e, ""); } else { AuthOther(w, e, ""); }
    forall s | s in b'.subs
      ensures OpenOf(b'.dialogs, s) == {} || |OpenOf(b'.dialogs, s)| <= b'.subs[s].maxCalls
    {
      if Fresh(w, e) { AuthFresh(w, e, s); } else { AuthOther(w, e, s); }
    }
  }

  lemma FinWithin(w: World, e: Event)
    requires WithinLimits(w.book) && e.Fin?
    ensures WithinLimits(Step(w, e).book)
  {
    var b, b' := w.book, Step(w, e).book;
    hide Step, OpenOf;
    FinEffect(w, e, "");
    forall s | s in b'.subs
      ensures OpenOf(b'.dialogs, s) == {} || |OpenOf(b'.dialogs, s)| <= b'.subs[s].maxCalls
    {
      FinEffect(w, e, s);
    }
  }

  lemma FewerDialogs(d: map<string, Dialog>, ids: set<string>, s: string)
    ensures OpenOf(d - ids, s) == OpenOf(d, s) - ids && |OpenOf(d - ids, s)| <= |OpenOf(d, s)|
  {
    SubsetSize(OpenOf(d - ids, s), OpenOf(d, s));
  }

  /** Every open dialog belongs to a subscriber. */
  lemma NoDialogs(w: World, s: string)
    requires Books(w) && s !in w.book.subs
    ensures OpenOf(w.book.dialogs, s) == {}
  {
    forall c | c in w.book.dialogs
      ensures w.book.dialogs[c].caller != s
    {
      assert LiveOk(w, c);
    }
  }

  lemma OtherWithin(w: World, e: Event)
    requires Books(w) && WithinLimits(w.book) && KeepsLimit(w.book, e) && !e.Auth? && !e.Fin?
    ensures WithinLimits(Step(w, e).book)
  {
    var b, b' := w.book, Step(w, e).book;
    hide Books, OpenOf;
    forall s | s in b'.subs
      ensures OpenOf(b'.dialogs, s) == {} || |OpenOf(b'.dialogs, s)| <= b'.subs[s].maxCalls
    {
      if e.Sweep? {
        FewerDialogs(b.dialogs, e.ids, s);
      }
      if s !in b.subs {
        NoDialogs(w, s);
      }
    }
  }

  predicate KeepsLimits(w: World, es: seq<Event>)
    decreases |es|
  {
    es == [] || (Named(es[0]) && KeepsLimit(w.book, es[0]) && KeepsLimits(Step(w, es[0]), es[1..]))
  }

  /** In every run of authorizations, finalizations and sweeps, with or without the caller index, a caller's
      open dialogs never exceed the limit, as long as limits are not lowered. */
  lemma {:induction false} NeverOverLimit(w: World, es: seq<Event>)
    requires Books(w) && WithinLimits(w.book) && KeepsLimits(w, es)
    ensures WithinLimits(Run(w, es).book)
    decreases |es|
  {
    hide Step, Books, WithinLimits;
    if es != [] {
      StepBooks(w, es[0]);
      if es[0].Auth? {
        AuthWithin(w, es[0]);
      } else if es[0].Fin? {
        FinWithin(w, es[0]);
      } else {
        OtherWithin(w, es[0]);
      }
      NeverOverLimit(Step(w, es[0]), es[1..]);
    }
  }

  // ---------------------------------------------------------------- how much can be lost

  function Billed(xs: seq<Charged>, s: string): real {
    if xs == [] then 0.0
    else Billed(xs[..|xs| - 1], s) + if xs[|xs| - 1].caller == s then xs[|xs| - 1].billed else 0.0
  }

  function Debited(xs: seq<Charged>, s: string): real {
    if xs == [] then 0.0
    else Debited(xs[..|xs| - 1], s) + if xs[|xs| - 1].caller == s then xs[|xs| - 1].debited else 0.0
  }

  function Loss(w: World, s: string): real {
    Billed(w.charges, s) - Debited(w.charges, s)
  }

  /** Who opened a live call. */
  function LiveCaller(w: World, c: string): Option<string> {
    if c in w.live && w.live[c] < |w.openings| then Some(w.openings[w.live[c]].caller) else None
  }

  /** What the bound asks of a step: no top-up of this subscriber, calls ended within the time they were
      granted when they were opened, and rates no higher than `top`. */
  predicate Fair(w: World, s: string, top: real, e: Event) {
    match e
    case Auth(_, _, _, _, _) => true
    case Fin(callId, duration, _) =>
      LiveCaller(w, callId) == Some(s) ==>
        0 <= duration <= Granted(w.openings[w.live[callId]].funds, w.openings[w.live[callId]].terms)
    case Pay(id, delta) => id != s
    case Add(id, _, _) => id != s && id != UNKNOWN
    case SetRate(_, tariff) => tariff.rate <= top
    case Sweep(_) => true
  }

  predicate FairRun(w: World, s: string, top: real, es: seq<Event>)
    decreases |es|
  {
    es == [] || (Fair(w, s, top, es[0]) && FairRun(Step(w, es[0]), s, top, es[1..]))
  }

  predicate RatesBelow(tariffs: map<string, Tariff>, top: real) {
    0.05 <= top && forall p :: p in tariffs ==> tariffs[p].rate <= top
  }

  /** Every call of s was opened on enough funds, at most the starting balance. */
  predicate FundsOk(w: World, s: string, start: real, top: real) {
    forall i :: 0 <= i < |w.openings| && w.openings[i].caller == s ==>
      var o := w.openings[i];
      o.funds <= start && o.funds >= o.terms.fee + o.terms.rate / 6.0 && o.terms.rate <= top
  }

  /** The money of one subscriber: nothing is lost while there is a balance, and afterwards each closed call
      has lost less than the starting balance plus one minute. */
  predicate Money(balance: real, loss: real, start: real, top: real, limit: int, open: nat) {
    && 0.0 <= balance <= start && 0.0 < start + top
    && (open == 0 || open <= limit)
    && (balance > 0.0 ==> loss == 0.0)
    && (loss == 0.0 || 0.0 < loss < (limit - open) as real * (start + top))
  }

  predicate Accounts(w: World, s: string, start: real, top: real, limit: int) {
    && Books(w) && s in w.book.subs && w.book.subs[s].maxCalls == limit
    && RatesBelow(w.book.tariffs, top) && FundsOk(w, s, start, top)
    && Money(w.book.subs[s].balance, Loss(w, s), start, top, limit, |OpenOf(w.book.dialogs, s)|)
  }

  lemma {:induction false} MatchBelow(tariffs: map<string, Tariff>, callee: string, n: nat, top: real)
    requires RatesBelow(tariffs, top) && n <= |callee|
    ensures LongestPrefix(tariffs, callee, n).Some? ==> LongestPrefix(tariffs, callee, n).value.rate <= top
  {
    if n > 0 {
      MatchBelow(tariffs, callee, n - 1, top);
    }
  }

  lemma MatchTop(tariffs: map<string, Tariff>, callee: string, top: real)
    requires RatesBelow(tariffs, top)
    ensures Match(tariffs, callee).rate <= top
  {
    MatchBelow(tariffs, callee, |callee|, top);
  }

  lemma MoreClosed(n: int, m: int, unit: real)
    requires n <= m && unit > 0.0
    ensures n as real * unit <= m as real * unit
  {
  }

  /** Closing without a loss keeps the bound. */
  lemma MoneyFewer(balance: real, loss: real, start: real, top: real, limit: int, open: nat, open': nat)
    requires Money(balance, loss, start, top, limit, open) && open' <= open
    ensures Money(balance, loss, start, top, limit, open')
  {
    MoreClosed(limit - open, limit - open', start + top);
  }

  lemma LossMoves(balance: real, loss: real, bill: real, room: real, unit: real)
    requires 0.0 <= balance && 0.0 <= room && 0.0 <= bill < unit
    requires (balance > 0.0 ==> loss == 0.0) && (loss == 0.0 || 0.0 < loss < room)
    ensures var loss' := loss + bill - (balance - Charge(balance, bill));
            (Charge(balance, bill) > 0.0 ==> loss' == 0.0) && (loss' == 0.0 || 0.0 < loss' < room + unit)
  {
  }

  /** Closing a call billed below `start + top`: the bound moves by one unit. */
  lemma MoneyClosed(balance: real, loss: real, bill: real, start: real, top: real, limit: int, open: nat)
    requires Money(balance, loss, start, top, limit, open) && open > 0 && 0.0 <= bill < start + top
    ensures Money(Charge(balance, bill), loss + bill - (balance - Charge(balance, bill)), start, top, limit, open - 1)
  {
    var unit, n := start + top, (limit - open) as real;
    MoreClosed(0, limit - open, unit);
    assert (limit - (open - 1)) as real == n + 1.0;
    OneMore(n, unit);
    LossMoves(balance, loss, bill, n * unit, unit);
  }

  /** A new opening, if it is one of s, was made on enough funds. */
  lemma FundsGrow(w: World, w': World, s: string, start: real, top: real, o: Opening)
    requires FundsOk(w, s, start, top) && w'.openings == w.openings + [o]
    requires o.caller == s ==> o.funds <= start && o.funds >= o.terms.fee + o.terms.rate / 6.0 && o.terms.rate <= top
    ensures FundsOk(w', s, start, top)
  {
  }

  lemma AuthAccounts(w: World, s: string, start: real, top: real, limit: int, e: Event)
    requires Accounts(w, s, start, top, limit) && e.Auth?
    ensures Accounts(Step(w, e), s, start, top, limit)
  {
    hide Step, Fresh, OpenOf, Books, Match, RatesBelow, Billed, Debited, FundsOk;
    StepBooks(w, e);
    var w' := Step(w, e);
    if Fresh(w, e) {
      AuthFresh(w, e, s);
      var t := Match(w.book.tariffs, e.callee);
      MatchTop(w.book.tariffs, e.callee, top);
      FundsGrow(w, w', s, start, top, Opening(e.callId, e.caller, t, w.book.subs[e.caller].balance));
    } else {
      AuthOther(w, e, s);
      FundsSame(w, w', s, start, top);
    }
  }

  lemma FundsSame(w: World, w': World, s: string, start: real, top: real)
    requires FundsOk(w, s, start, top) && w'.openings == w.openings
    ensures FundsOk(w', s, start, top)
  {
  }

  /** What the last charge of s adds to the loss. */
  lemma ChargeLoss(w: World, s: string, e: Event)
    requires Books(w) && e.Fin? && LiveCaller(w, e.callId) == Some(s)
    ensures var o := w.openings[w.live[e.callId]]; var w' := Step(w, e);
            && s in w.book.subs && s in w'.book.subs
            && w'.book.subs[s].balance == Charge(w.book.subs[s].balance, Bill(o.terms, e.duration))
            && Loss(w', s)
               == Loss(w, s) + Bill(o.terms, e.duration) - (w.book.subs[s].balance - w'.book.subs[s].balance)
            && e.callId in OpenOf(w.book.dialogs, s)
  {
    assert LiveOk(w, e.callId);
    var o := w.openings[w.live[e.callId]];
    var w' := Step(w, e);
    assert TermsOf(w.book, e.callId) == o.terms && CallerOf(w.book, e.callId) == s;
    hide Floor, Bill, Charge, Books;
    assert w'.charges[..|w'.charges| - 1] == w.charges;
  }

  /** A call of s that ends in time is billed below the starting balance plus the highest rate. */
  lemma BillInTime(w: World, s: string, start: real, top: real, i: nat, duration: int)
    requires FundsOk(w, s, start, top) && i < |w.openings| && w.openings[i].caller == s
    requires 0 <= duration <= Granted(w.openings[i].funds, w.openings[i].terms)
    ensures 0.0 <= Bill(w.openings[i].terms, duration) < start + top
  {
    BillBelow(w.openings[i].funds, w.openings[i].terms, duration);
    BillPositive(w.openings[i].terms, duration);
  }

  lemma BillPositive(t: Tariff, duration: int)
    requires duration >= 0
    ensures Bill(t, duration) >= 0.0
  {
    if duration > 0 {
      assert duration as real / 60.0 > 0.0;
      assert Ceil(duration as real / 60.0) >= 0;
      MulAtMost(0.0, Ceil(duration as real / 60.0) as real, t.rate);
    }
  }

  /** Closing a dialog of s: the step where money can be lost. */
  lemma FinAccounts(w: World, s: string, start: real, top: real, limit: int, e: Event)
    requires Accounts(w, s, start, top, limit) && e.Fin? && Fair(w, s, top, e)
    requires LiveCaller(w, e.callId) == Some(s)
    ensures Accounts(Step(w, e), s, start, top, limit)
  {
    hide Step, Books, OpenOf, Granted, Bill, Loss, FundsOk, RatesBelow, Money, Charge, CallerOf;
    StepBooks(w, e);
    ChargeLoss(w, s, e);
    FinEffect(w, e, s);
    var o := w.openings[w.live[e.callId]];
    var n := |OpenOf(w.book.dialogs, s)|;
    BillInTime(w, s, start, top, w.live[e.callId], e.duration);
    FundsSame(w, Step(w, e), s, start, top);
    MoneyClosed(w.book.subs[s].balance, Loss(w, s), Bill(o.terms, e.duration), start, top, limit, n);
  }

  /** A charge of somebody else adds nothing to the accounts of s. */
  lemma ForeignCharge(w: World, s: string, e: Event)
    requires Books(w) && e.Fin? && LiveCaller(w, e.callId) != Some(s) && s in w.book.subs
    ensures Loss(Step(w, e), s) == Loss(w, s)
    ensures CallerOf(w.book, e.callId) != s && e.callId !in OpenOf(w.book.dialogs, s)
  {
    hide Floor, Bill, Charge;
    if e.callId in w.live {
      assert LiveOk(w, e.callId);
      var w' := Step(w, e);
      assert w'.charges[..|w'.charges| - 1] == w.charges;
    }
  }

  lemma ForeignAccounts(w: World, s: string, start: real, top: real, limit: int, e: Event)
    requires Accounts(w, s, start, top, limit) && e.Fin? && LiveCaller(w, e.callId) != Some(s)
    ensures Accounts(Step(w, e), s, start, top, limit)
  {
    hide Step, Books, OpenOf, Loss, FundsOk, RatesBelow, Money, CallerOf, LiveCaller;
    StepBooks(w, e);
    ForeignCharge(w, s, e);
    FinEffect(w, e, s);
    FundsSame(w, Step(w, e), s, start, top);
    assert OpenOf(Step(w, e).book.dialogs, s) == OpenOf(w.book.dialogs, s);
  }

  /** Provisioning somebody else and sweeping dialogs touch nothing of s but its dialogs. */
  lemma OtherEffect(w: World, s: string, top: real, e: Event)
    requires s in w.book.subs && RatesBelow(w.book.tariffs, top) && !e.Auth? && !e.Fin? && Fair(w, s, top, e)
    ensures var w' := Step(w, e);
            && s in w'.book.subs && w'.book.subs[s] == w.book.subs[s] && RatesBelow(w'.book.tariffs, top)
            && w'.openings == w.openings && w'.charges == w.charges
            && w'.book.dialogs == w.book.dialogs - (if e.Sweep? then e.ids else {})
  {
  }

  lemma OtherAccounts(w: World, s: string, start: real, top: real, limit: int, e: Event)
    requires Accounts(w, s, start, top, limit) && !e.Auth? && !e.Fin? && Fair(w, s, top, e)
    ensures Accounts(Step(w, e), s, start, top, limit)
  {
    hide Step, Books, OpenOf, Granted, Money, Billed, Debited, FundsOk, RatesBelow, LiveCaller;
    StepBooks(w, e);
    OtherEffect(w, s, top, e);
    var w' := Step(w, e);
    var ids := if e.Sweep? then e.ids else {};
    FundsSame(w, w', s, start, top);
    FewerDialogs(w.book.dialogs, ids, s);
    MoneyFewer(w.book.subs[s].balance, Loss(w, s), start, top, limit, |OpenOf(w.book.dialogs, s)|,
               |OpenOf(w'.book.dialogs, s)|);
  }

  /** Over any run without top-ups in which each call ends within its granted time, what was billed to a
      subscriber and not debited stays below limit times (starting balance plus the highest rate). */
  lemma {:induction false} LossBound(w: World, s: string, start: real, top: real, limit: int, es: seq<Event>)
    requires Accounts(w, s, start, top, limit) && FairRun(w, s, top, es)
    ensures var loss := Loss(Run(w, es), s); loss == 0.0 || 0.0 < loss < limit as real * (start + top)
    decreases |es|
  {
    hide Step, Loss;
    if es == [] {
      MoreClosed(limit - |OpenOf(w.book.dialogs, s)|, limit, start + top);
    } else {
      hide Accounts;
      var e := es[0];
      if e.Auth? {
        AuthAccounts(w, s, start, top, limit, e);
      } else if !e.Fin? {
        OtherAccounts(w, s, start, top, limit, e);
      } else if LiveCaller(w, e.callId) == Some(s) {
        FinAccounts(w, s, start, top, limit, e);
      } else {
        ForeignAccounts(w, s, start, top, limit, e);
      }
      LossBound(Step(w, e), s, start, top, limit, es[1..]);
    }
  }

  /** A fresh service, with this subscriber provisioned, starts in order. */
  lemma StartAccounts(b: Book, s: string, top: real)
    requires s in b.subs && UNKNOWN !in b.subs && b.dialogs == map[] && b.subs[s].balance >= 0.0
             && RatesBelow(b.tariffs, top)
    ensures Accounts(World(b, [], map[], []), s, b.subs[s].balance, top, b.subs[s].maxCalls)
    ensures WithinLimits(b)
  {
  }
}
