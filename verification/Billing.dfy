/**
 Prepaid billing: authorization, finalization and provisioning over subscribers, dialogs, tariffs and call
 records. Money is an exact real. The step functions follow the stored procedures branch by branch; the
 lemmas speak about whole runs.
 */
module Billing {
  import opened Wrappers

  /** Rates are positive and fees are not negative. */
  datatype Tariff_ = Tariff(rate: real, fee: real, description: string)
  type Tariff = t: Tariff_ | t.rate > 0.0 && t.fee >= 0.0 witness Tariff(1.0, 0.0, "")

  datatype Subscriber = Subscriber(balance: real, active: bool, maxCalls: int)

  /** A row of kam_dialogs: who calls whom, until when, and the terms frozen at authorization. */
  datatype Dialog = Dialog(caller: string, callee: string, expires: int, terms: Option<Tariff>)

  datatype Cdr = Cdr(caller: string, callee: string, duration: int, billed: real)

  /** The four spaces; a call record's key is built from the call id and the end second. */
  datatype Book = Book(
    subs: map<string, Subscriber>, dialogs: map<string, Dialog>, tariffs: map<string, Tariff>,
    cdrs: map<(string, int), Cdr>)

  const DEFAULT_KEY: string := "default"
  const UNKNOWN: string := "unknown"
  const FALLBACK: Tariff := Tariff(0.05, 0.0, "Default Fallback")

  function Floor(x: real): int { x.Floor }

  function Ceil(x: real): int { -(-x).Floor }

  // ---------------------------------------------------------------- tariff matching

  /** The tariff of the longest prefix of `destination` with at most n characters. */
  function LongestPrefix(tariffs: map<string, Tariff>, destination: string, n: nat): Option<Tariff>
    requires n <= |destination|
  {
    if n == 0 then None
    else if destination[..n] in tariffs then Some(tariffs[destination[..n]])
    else LongestPrefix(tariffs, destination, n - 1)
  }

  function Match(tariffs: map<string, Tariff>, destination: string): Tariff {
    var found := LongestPrefix(tariffs, destination, |destination|);
    if found.Some? then found.value
    else if DEFAULT_KEY in tariffs then tariffs[DEFAULT_KEY]
    else FALLBACK
  }

  /** No provisioned prefix of the destination is longer than the one that was matched; without any, the
      default tariff or the built-in one applies. */
  lemma {:induction false} MatchIsLongest(tariffs: map<string, Tariff>, destination: string)
    ensures forall n :: 0 < n <= |destination| && destination[..n] in tariffs
              && (forall m :: n < m <= |destination| ==> destination[..m] !in tariffs)
              ==> Match(tariffs, destination) == tariffs[destination[..n]]
    ensures (forall n :: 0 < n <= |destination| ==> destination[..n] !in tariffs)
              ==> Match(tariffs, destination)
                  == if "default" in tariffs then tariffs["default"] else Tariff(0.05, 0.0, "Default Fallback")
  {
    LongestFrom(tariffs, destination, |destination|);
  }

  lemma {:induction false} LongestFrom(tariffs: map<string, Tariff>, destination: string, k: nat)
    requires k <= |destination|
    ensures forall n :: 0 < n <= k && destination[..n] in tariffs
              && (forall m :: n < m <= k ==> destination[..m] !in tariffs)
              ==> LongestPrefix(tariffs, destination, k) == Some(tariffs[destination[..n]])
    ensures (forall n :: 0 < n <= k ==> destination[..n] !in tariffs) ==> LongestPrefix(tariffs, destination, k) == None
  {
    if k > 0 {
      LongestFrom(tariffs, destination, k - 1);
    }
  }

  // ---------------------------------------------------------------- counting a caller's dialogs

  /** The caller's open dialogs. */
  function OpenOf(dialogs: map<string, Dialog>, caller: string): set<string> {
    set c | c in dialogs && dialogs[c].caller == caller
  }

  predicate At(text: string, part: string, i: nat) {
    i + |part| <= |text| && text[i..i + |part|] == part
  }

  /** `string.find(text, part, 1, true)` */
  predicate Contains(text: string, part: string) {
    exists i :: 0 <= i <= |text| && At(text, part, i)
  }

  /** The dialogs the fallback scan counts: the caller's name occurs anywhere in the caller field. */
  function Scanned(dialogs: map<string, Dialog>, caller: string): set<string> {
    set c | c in dialogs && Contains(dialogs[c].caller, caller)
  }

  /** `count_active_calls`, by index when there is one and by scan otherwise. */
  function ActiveCalls(dialogs: map<string, Dialog>, caller: string, indexed: bool): nat {
    if indexed then |OpenOf(dialogs, caller)| else |Scanned(dialogs, caller)|
  }

  lemma SubsetSize<T>(a: set<T>, b: set<T>)
    requires a <= b
    ensures |a| <= |b|
  {
    if a != b {
      assert |b| == |a| + |b - a| by {
        assert a + (b - a) == b;
      }
    }
  }

  /** The fallback scan never counts fewer dialogs than the caller has open. */
  lemma ScanCountsAll(dialogs: map<string, Dialog>, caller: string)
    ensures OpenOf(dialogs, caller) <= Scanned(dialogs, caller)
    ensures |OpenOf(dialogs, caller)| <= ActiveCalls(dialogs, caller, false)
    ensures |OpenOf(dialogs, caller)| == ActiveCalls(dialogs, caller, true)
  {
    forall c | c in OpenOf(dialogs, caller)
      ensures c in Scanned(dialogs, caller)
    {
      assert At(dialogs[c].caller, caller, 0);
    }
    SubsetSize(OpenOf(dialogs, caller), Scanned(dialogs, caller));
  }

  // ---------------------------------------------------------------- authorize_call

  datatype Reason = SubscriberNotFound | SubscriberBlocked | TooManyCalls | InsufficientFunds
  datatype Verdict = Denied(reason: Reason) | Allowed(maxDuration: int, terms: Tariff)

  /** The seconds a balance buys, at most a day. */
  function Granted(balance: real, t: Tariff): int {
    var seconds := Floor((balance - t.fee) / t.rate * 60.0);
    if seconds > 86400 then 86400 else seconds
  }

  function Authorize(b: Book, caller: string, callee: string, callId: string, now: real, indexed: bool)
    : (Book, Verdict)
  {
    if caller !in b.subs then (b, Denied(SubscriberNotFound))
    else
      var sub := b.subs[caller];
      if !sub.active then (b, Denied(SubscriberBlocked))
      else if ActiveCalls(b.dialogs, caller, indexed) >= sub.maxCalls then (b, Denied(TooManyCalls))
      else
        var t := Match(b.tariffs, callee);
        if sub.balance < t.fee + t.rate / 6.0 then (b, Denied(InsufficientFunds))
        else
          var seconds := Granted(sub.balance, t);
          var expires := Floor(now + (seconds + 300) as real);
          var d := if callId in b.dialogs then b.dialogs[callId].(expires := expires)
                   else Dialog(caller, callee, expires, Some(t));
          (b.(dialogs := b.dialogs[callId := d]), Allowed(seconds, t))
  }

  // ---------------------------------------------------------------- finalize_cdr

  /** Per-minute billing with round-up, plus the connect fee. */
  function Bill(t: Tariff, duration: int): real {
    t.fee + (if duration == 0 then 0 else Ceil(duration as real / 60.0)) as real * t.rate
  }

  function TermsOf(b: Book, callId: string): Tariff {
    if callId in b.dialogs && b.dialogs[callId].terms.Some? then b.dialogs[callId].terms.value
    else Tariff(0.05, 0.0, "")
  }

  function CallerOf(b: Book, callId: string): string {
    if callId in b.dialogs then b.dialogs[callId].caller else UNKNOWN
  }

  function CalleeOf(b: Book, callId: string): string {
    if callId in b.dialogs then b.dialogs[callId].callee else UNKNOWN
  }

  function Charge(balance: real, billed: real): real {
    if balance - billed > 0.0 then balance - billed else 0.0
  }

  function Finalize(b: Book, callId: string, duration: int, now: real): (Book, real) {
    var billed := Bill(TermsOf(b, callId), duration);
    var caller := CallerOf(b, callId);
    var subs := if caller in b.subs then
                  b.subs[caller := b.subs[caller].(balance := Charge(b.subs[caller].balance, billed))]
                else b.subs;
    var cdrs := b.cdrs[(callId, Floor(now)) := Cdr(caller, CalleeOf(b, callId), duration, billed)];
    (Book(subs, b.dialogs - {callId}, b.tariffs, cdrs), billed)
  }

  // ---------------------------------------------------------------- provisioning and expiry

  function AddSubscriber(b: Book, id: string, balance: real, maxCalls: int): Book {
    b.(subs := b.subs[id := Subscriber(balance, true, maxCalls)])
  }

  function UpdateBalance(b: Book, id: string, delta: real): Book {
    if id in b.subs then b.(subs := b.subs[id := b.subs[id].(balance := b.subs[id].balance + delta)]) else b
  }

  function SetTariff(b: Book, prefix: string, t: Tariff): Book {
    b.(tariffs := b.tariffs[prefix := t])
  }

  /** The sweeper removes expired dialogs. */
  function Purge(b: Book, ids: set<string>): Book {
    b.(dialogs := b.dialogs - ids)
  }

  // ---------------------------------------------------------------- one call

  /** Rounding a duration up to whole minutes adds less than a minute. */
  lemma CeilBound(duration: int)
    ensures Ceil(duration as real / 60.0) as real < duration as real / 60.0 + 1.0
  {
  }

  lemma MulLess(a: real, b: real, c: real)
    requires a < b && c > 0.0
    ensures a * c < b * c
  {
  }

  lemma MulAtMost(a: real, b: real, c: real)
    requires a <= b && c > 0.0
    ensures a * c <= b * c
  {
  }

  /** Per-call bound: a call that ends within the granted time is billed less than the balance it was
      authorized on plus one minute. */
  lemma BillBelow(balance: real, t: Tariff, duration: int)
    requires balance >= t.fee + t.rate / 6.0
    requires 0 <= duration <= Granted(balance, t)
    ensures Bill(t, duration) < balance + t.rate
  {
    var minutes := duration as real / 60.0;
    GrantedBuys(balance, t, duration);
    CeilBound(duration);
    if duration != 0 {
      MulLess(Ceil(minutes) as real, minutes + 1.0, t.rate);
      OneMore(minutes, t.rate);
    }
  }

  lemma OneMore(m: real, c: real)
    ensures (m + 1.0) * c == m * c + c
  {
  }

  /** The granted seconds cost no more than the balance after the fee. */
  lemma GrantedBuys(balance: real, t: Tariff, duration: int)
    requires duration <= Granted(balance, t)
    ensures duration as real / 60.0 * t.rate <= balance - t.fee
  {
    var minutes := (balance - t.fee) / t.rate;
    assert duration as real / 60.0 <= minutes;
    MulAtMost(duration as real / 60.0, minutes, t.rate);
    DivMul(balance - t.fee, t.rate);
  }

  lemma DivMul(a: real, c: real)
    requires c != 0.0
    ensures a / c * c == a
  {
  }

  /** Nothing can be authorized on an empty account. */
  lemma NoFundsNoCall(b: Book, caller: string, callee: string, callId: string, now: real, indexed: bool)
    requires caller in b.subs && b.subs[caller].balance <= 0.0
    ensures Authorize(b, caller, callee, callId, now, indexed).1.Denied?
    ensures Authorize(b, caller, callee, callId, now, indexed).0 == b
  {
  }

  // ---------------------------------------------------------------- what the calls come to, in numbers

  /** Which dialogs are counted against the limit: with the index those whose caller field is the caller, without
      it those whose caller field holds the caller's name anywhere. */
  lemma CountsExactly(dialogs: map<string, Dialog>, caller: string)
    ensures ActiveCalls(dialogs, caller, true) == |(set c | c in dialogs && dialogs[c].caller == caller)|
    ensures ActiveCalls(dialogs, caller, false)
            == |(set c | c in dialogs && exists a, b :: dialogs[c].caller == a + caller + b)|
  {
    assert OpenOf(dialogs, caller) == set c | c in dialogs && dialogs[c].caller == caller;
    forall c | c in dialogs
      ensures Contains(dialogs[c].caller, caller) <==> exists a, b :: dialogs[c].caller == a + caller + b
    {
      ContainsExactly(dialogs[c].caller, caller);
    }
    assert Scanned(dialogs, caller) == set c | c in dialogs && exists a, b :: dialogs[c].caller == a + caller + b;
  }

  lemma ContainsExactly(text: string, part: string)
    ensures Contains(text, part) <==> exists a, b :: text == a + part + b
  {
    if i :| 0 <= i <= |text| && At(text, part, i) {
      assert text == text[..i] + part + text[i + |part|..];
    }
    if a, b :| text == a + part + b {
      assert At(text, part, |a|);
    }
  }

  /** The balance pays the fee and so many seconds. */
  predicate Pays(balance: real, t: Tariff, seconds: int) {
    seconds as real * t.rate <= 60.0 * (balance - t.fee)
  }

  lemma PaysTenSeconds(balance: real, t: Tariff)
    ensures balance < t.fee + t.rate / 6.0 <==> !Pays(balance, t, 10)
  {
  }

  /** When a call is allowed, and which of the four reasons is given when it is not. */
  lemma VerdictExactly(b: Book, caller: string, callee: string, callId: string, now: real, indexed: bool)
    ensures var v := Authorize(b, caller, callee, callId, now, indexed).1;
            var calls, t := ActiveCalls(b.dialogs, caller, indexed), Match(b.tariffs, callee);
            && (v == Denied(SubscriberNotFound) <==> caller !in b.subs)
            && (v == Denied(SubscriberBlocked) <==> caller in b.subs && !b.subs[caller].active)
            && (v == Denied(TooManyCalls) <==>
                  caller in b.subs && b.subs[caller].active && calls >= b.subs[caller].maxCalls)
            && (v == Denied(InsufficientFunds) <==>
                  && caller in b.subs && b.subs[caller].active && calls < b.subs[caller].maxCalls
                  && !Pays(b.subs[caller].balance, t, 10))
            && (v.Allowed? <==>
                  && caller in b.subs && b.subs[caller].active && calls < b.subs[caller].maxCalls
                  && Pays(b.subs[caller].balance, t, 10))
  {
    hide ActiveCalls, Match, Granted, Floor;
    if caller in b.subs {
      PaysTenSeconds(b.subs[caller].balance, Match(b.tariffs, callee));
    }
  }

  /** An allowed call gets the greatest number of seconds, up to a day, that the balance pays for after the fee. */
  lemma GrantedGreatest(balance: real, t: Tariff)
    requires Pays(balance, t, 10)
    ensures var n := Granted(balance, t);
            10 <= n <= 86400 && Pays(balance, t, n) && forall m :: n < m <= 86400 ==> !Pays(balance, t, m)
  {
    var n, minutes := Granted(balance, t), (balance - t.fee) / t.rate;
    DivMul(balance - t.fee, t.rate);
    SixtyTimes(minutes, t.rate);
    GrantedBuys(balance, t, n);
    SixtyTimes(n as real / 60.0, t.rate);
    AtLeastTen(balance - t.fee, t.rate);
    forall m | n < m <= 86400
      ensures !Pays(balance, t, m)
    {
      assert minutes * 60.0 < m as real;
      MulLess(minutes * 60.0, m as real, t.rate);
    }
  }

  lemma SixtyTimes(a: real, c: real)
    ensures a * 60.0 * c == 60.0 * (a * c)
  {
  }

  lemma AtLeastTen(a: real, c: real)
    requires c > 0.0 && 60.0 * a >= 10.0 * c
    ensures a / c * 60.0 >= 10.0
  {
    DivMul(a, c);
  }

  /** What an authorization answers and registers: the granted seconds and the tariff matched; a dialog that
      stays five minutes longer than granted. A repeated call id keeps its row but for the deadline. A refusal
      registers nothing. */
  lemma Registers(b: Book, caller: string, callee: string, callId: string, now: real, indexed: bool)
    ensures var (b', v) := Authorize(b, caller, callee, callId, now, indexed);
            && (v.Denied? ==> b' == b)
            && (v.Allowed? ==>
                  && caller in b.subs && v.terms == Match(b.tariffs, callee)
                  && 10 <= v.maxDuration <= 86400
                  && Pays(b.subs[caller].balance, v.terms, v.maxDuration)
                  && (forall m :: v.maxDuration < m <= 86400 ==> !Pays(b.subs[caller].balance, v.terms, m))
                  && b'.subs == b.subs && b'.tariffs == b.tariffs && b'.cdrs == b.cdrs
                  && callId in b'.dialogs
                  && var d := b'.dialogs[callId];
                     && b'.dialogs == b.dialogs[callId := d]
                     && d.expires as real <= now + v.maxDuration as real + 300.0 < d.expires as real + 1.0
                     && (callId !in b.dialogs ==> d.caller == caller && d.callee == callee && d.terms == Some(v.terms))
                     && (callId in b.dialogs ==>
                           && d.caller == b.dialogs[callId].caller && d.callee == b.dialogs[callId].callee
                           && d.terms == b.dialogs[callId].terms))
  {
    hide ActiveCalls, Match, Granted;
    VerdictExactly(b, caller, callee, callId, now, indexed);
    if caller in b.subs && Authorize(b, caller, callee, callId, now, indexed).1.Allowed? {
      GrantedGreatest(b.subs[caller].balance, Match(b.tariffs, callee));
    }
  }

  /** Every started minute is billed: a call of more than n - 1 and at most n minutes costs the fee and n times
      the rate, so a call of no length costs the fee. */
  lemma BillInMinutes(t: Tariff, duration: int, n: int)
    requires 60 * (n - 1) < duration <= 60 * n
    ensures Bill(t, duration) == t.fee + n as real * t.rate
  {
    var x := duration as real / 60.0;
    assert n as real - 1.0 < x <= n as real;
    assert Ceil(x) == n;
  }

  /** What a finalization writes, in numbers: for a known call its parties and its frozen terms, for any other
      0.05 a minute of nobody. The bill of n started minutes goes into the record under the call id and the
      second, and comes off the balance of the caller, down to nothing; the dialog goes, and nothing else moves. */
  lemma FinalizeCosts(b: Book, callId: string, duration: int, now: real, n: int, second: int,
                      caller: string, callee: string, rate: real, fee: real)
    requires 60 * (n - 1) < duration <= 60 * n
    requires second as real <= now < second as real + 1.0
    requires if callId in b.dialogs then caller == b.dialogs[callId].caller && callee == b.dialogs[callId].callee
             else caller == "unknown" && callee == "unknown"
    requires if callId in b.dialogs && b.dialogs[callId].terms.Some? then
               rate == b.dialogs[callId].terms.value.rate && fee == b.dialogs[callId].terms.value.fee
             else rate == 0.05 && fee == 0.0
    ensures var (b', billed) := Finalize(b, callId, duration, now);
            && billed == fee + n as real * rate
            && b'.cdrs == b.cdrs[(callId, second) := Cdr(caller, callee, duration, billed)]
            && b'.dialogs.Keys == b.dialogs.Keys - {callId}
            && (forall c :: c in b'.dialogs ==> b'.dialogs[c] == b.dialogs[c])
            && b'.tariffs == b.tariffs && b'.subs.Keys == b.subs.Keys
            && (forall s :: s in b.subs && s != caller ==> b'.subs[s] == b.subs[s])
            && (caller in b.subs ==>
                  && b'.subs[caller].active == b.subs[caller].active
                  && b'.subs[caller].maxCalls == b.subs[caller].maxCalls
                  && (billed < b.subs[caller].balance ==>
                        b'.subs[caller].balance == b.subs[caller].balance - billed)
                  && (billed >= b.subs[caller].balance ==> b'.subs[caller].balance == 0.0))
  {
    BillInMinutes(TermsOf(b, callId), duration, n);
    assert Floor(now) == second;
    hide Bill, Floor;
  }

  /** Provisioning comes to an authorization: a subscriber added with a balance and a limit, topped up since, may
      call a number with a tariff of its own exactly when the limit is not reached and the money buys ten seconds. */
  lemma ProvisionedCalls(b: Book, id: string, balance: real, maxCalls: int, delta: real, number: string, t: Tariff,
                         callId: string, now: real, indexed: bool)
    requires number != ""
    ensures var b' := SetTariff(UpdateBalance(AddSubscriber(b, id, balance, maxCalls), id, delta), number, t);
            var v := Authorize(b', id, number, callId, now, indexed).1;
            && b'.dialogs == b.dialogs && b'.cdrs == b.cdrs
            && (forall s :: s != id ==> (s in b'.subs <==> s in b.subs) && (s in b.subs ==> b'.subs[s] == b.subs[s]))
            && (v.Allowed? <==> ActiveCalls(b.dialogs, id, indexed) < maxCalls && Pays(balance + delta, t, 10))
            && (v.Allowed? ==> v.terms == t)
  {
    var b' := SetTariff(UpdateBalance(AddSubscriber(b, id, balance, maxCalls), id, delta), number, t);
    MatchIsLongest(b'.tariffs, number);
    assert number[..|number|] == number;
    hide ActiveCalls, Match, Pays;
    VerdictExactly(b', id, number, callId, now, indexed);
    Registers(b', id, number, callId, now, indexed);
  }
}
