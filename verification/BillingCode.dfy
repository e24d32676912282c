/** The stored procedures of the billing service over spaces updated in place. */
module BillingCode {
  import opened Wrappers
  import opened Billing

  class BillingService {
    var subs: map<string, Subscriber>
    var dialogs: map<string, Dialog>
    var tariffs: map<string, Tariff>
    var cdrs: map<(string, int), Cdr>
    /** Whether kam_dialogs has the by_caller index. */
    const indexed: bool

    ghost function Contents(): Book
      reads this
    {
      Book(subs, dialogs, tariffs, cdrs)
    }

    constructor (indexed: bool)
      ensures Contents() == Book(map[], map[], map[], map[]) && this.indexed == indexed
    {
      subs, dialogs, tariffs, cdrs := map[], map[], map[], map[];
      this.indexed := indexed;
    }

    /** Longest prefix first, then the default row, then the built-in rate. */
    method MatchTariff(destination: string) returns (t: Tariff)
      ensures t == Match(tariffs, destination)
    {
      var len := |destination|;
      while len > 0
        invariant 0 <= len <= |destination|
        invariant LongestPrefix(tariffs, destination, |destination|) == LongestPrefix(tariffs, destination, len)
      {
        if destination[..len] in tariffs {
          return tariffs[destination[..len]];
        }
        len := len - 1;
      }
      if DEFAULT_KEY in tariffs {
        return tariffs[DEFAULT_KEY];
      }
      return FALLBACK;
    }

    method CountActiveCalls(caller: string) returns (count: nat)
      ensures count == ActiveCalls(dialogs, caller, indexed)
    {
      count := 0;
      if indexed {
        var rest := OpenOf(dialogs, caller);
        while rest != {}
          invariant count + |rest| == |OpenOf(dialogs, caller)|
          decreases |rest|
        {
          var c :| c in rest;
          rest := rest - {c};
          count := count + 1;
        }
      } else {
        var rest := dialogs.Keys;
        ghost var seen: set<string> := {};
        while rest != {}
          invariant seen + rest == dialogs.Keys && seen !! rest
          invariant count == |Seen(seen, caller)|
          decreases |rest|
        {
          var c :| c in rest;
          SeenNext(seen, c, caller);
          if Contains(dialogs[c].caller, caller) {
            count := count + 1;
          }
          rest := rest - {c};
          seen := seen + {c};
        }
        assert Seen(seen, caller) == Scanned(dialogs, caller);
      }
    }

    /** The scanned dialogs among those already visited. */
    ghost function Seen(seen: set<string>, caller: string): set<string>
      reads this
    {
      set c | c in seen && c in dialogs && Contains(dialogs[c].caller, caller)
    }

    lemma SeenNext(seen: set<string>, c: string, caller: string)
      requires c in dialogs && c !in seen
      ensures |Seen(seen + {c}, caller)| == |Seen(seen, caller)| + if Contains(dialogs[c].caller, caller) then 1 else 0
    {
      assert Seen(seen + {c}, caller) == Seen(seen, caller) + if Contains(dialogs[c].caller, caller) then {c} else {};
    }

    method AuthorizeCall(caller: string, callee: string, callId: string, now: real) returns (v: Verdict)
      modifies this`dialogs
      ensures (Contents(), v) == old(Authorize(Contents(), caller, callee, callId, now, indexed))
    {
      if caller !in subs {
        return Denied(SubscriberNotFound);
      }
      var sub := subs[caller];
      if !sub.active {
        return Denied(SubscriberBlocked);
      }
      var activeNow := CountActiveCalls(caller);
      if activeNow >= sub.maxCalls {
        return Denied(TooManyCalls);
      }
      var t := MatchTariff(callee);
      if sub.balance < t.fee + t.rate / 6.0 {
        return Denied(InsufficientFunds);
      }
      var maxDuration := Floor((sub.balance - t.fee) / t.rate * 60.0);
      if maxDuration > 86400 {
        maxDuration := 86400;
      }
      var expires := Floor(now + (maxDuration + 300) as real);
      if callId in dialogs {
        dialogs := dialogs[callId := dialogs[callId].(expires := expires)];
      } else {
        dialogs := dialogs[callId := Dialog(caller, callee, expires, Some(t))];
      }
      return Allowed(maxDuration, t);
    }

    method FinalizeCdr(callId: string, duration: int, now: real) returns (billed: real)
      modifies this`subs, this`dialogs, this`cdrs
      ensures (Contents(), billed) == old(Finalize(Contents(), callId, duration, now))
    {
      ghost var b := Contents();
      var caller, callee := UNKNOWN, UNKNOWN;
      var rate, fee := 0.05, 0.0;
      if callId in dialogs {
        var d := dialogs[callId];
        caller, callee := d.caller, d.callee;
        if d.terms.Some? {
          rate, fee := d.terms.value.rate, d.terms.value.fee;
        }
      }
      var minutes := Ceil(duration as real / 60.0);
      if duration == 0 {
        minutes := 0;
      }
      billed := fee + minutes as real * rate;
      assert rate == TermsOf(b, callId).rate && fee == TermsOf(b, callId).fee;
      assert billed == Bill(TermsOf(b, callId), duration);
      assert caller == CallerOf(b, callId) && callee == CalleeOf(b, callId);
      if caller in subs {
        var balance := subs[caller].balance - billed;
        if !(balance > 0.0) {
          balance := 0.0;
        }
        subs := subs[caller := subs[caller].(balance := balance)];
      }
      cdrs := cdrs[(callId, Floor(now)) := Cdr(caller, callee, duration, billed)];
      dialogs := dialogs - {callId};
    }

    method AddSubscriber(id: string, balance: real, maxCalls: int)
      modifies this`subs
      ensures Contents() == Billing.AddSubscriber(old(Contents()), id, balance, maxCalls)
    {
      subs := subs[id := Subscriber(balance, true, maxCalls)];
    }

    method UpdateBalance(id: string, delta: real) returns (ok: bool)
      modifies this`subs
      ensures Contents() == Billing.UpdateBalance(old(Contents()), id, delta)
      ensures ok <==> id in old(subs)
    {
      if id !in subs {
        return false;
      }
      subs := subs[id := subs[id].(balance := subs[id].balance + delta)];
      return true;
    }

    method SetTariff(prefix: string, t: Tariff)
      modifies this`tariffs
      ensures Contents() == Billing.SetTariff(old(Contents()), prefix, t)
    {
      tariffs := tariffs[prefix := t];
    }
  }
}
