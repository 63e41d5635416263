// What stands behind a disabled account in the events of a history: the outside
// edit that removed its rule, or the write and the stop that cut a run short.
module AccessCauses {
  import opened Options
  import opened AccessSync
  import opened AccessHistory

  // ---- What the panel's events do ------------------------------------------------------

  // The accounts are as before but for those with the email, which the change reaches.
  ghost predicate Changed(before: seq<Account>, after: seq<Account>, email: string, change: Account -> Account) {
    && |after| == |before|
    && forall i :: 0 <= i < |before| ==>
         (before[i].email == email ==> after[i] == change(before[i])) && (before[i].email != email ==> after[i] == before[i])
  }

  // Each event of the panel or the operator, on the accounts and the settings.
  lemma EventMeans(c: Config, s: State, ev: Event)
    requires !ev.Step?
    ensures var w, t := s.world, Next(c, s, ev).world;
      match ev
      case AddAccount(a) => t == w.(accounts := w.accounts + [a])
      case SetActive(email, active) =>
        t == w.(accounts := t.accounts) && Changed(w.accounts, t.accounts, email, (a: Account) => a.(active := active))
      case SetAdmin(email, admin) =>
        t == w.(accounts := t.accounts) && Changed(w.accounts, t.accounts, email, (a: Account) => a.(admin := admin))
      case RemoveAccount(email) =>
        t == w.(accounts := t.accounts) && forall a :: a in t.accounts <==> a in w.accounts && a.email != email
      case EditPolicy(included, excluded) => t == w.(included := included, excluded := excluded)
      case SetDesiredDomains(domains) => t == w.(desiredDomains := domains)
      case SetConfigured(configured) => t == w.(configured := configured)
      case _ => t == w
    ensures Next(c, s, ev).phase == if ev.Stop? then Idle else s.phase
  {
    if ev.RemoveAccount? {
      WithoutMembers(s.world.accounts, ev.email);
    }
  }

  lemma {:induction false} WithoutMembers(accounts: seq<Account>, email: string)
    ensures forall a :: a in Without(accounts, email) <==> a in accounts && a.email != email
  {
    if accounts != [] {
      WithoutMembers(accounts[1..], email);
      assert accounts == [accounts[0]] + accounts[1..];
    }
  }

  // ---- The events themselves -----------------------------------------------------------

  // The state before event `k`.
  function At(c: Config, s0: State, events: seq<Event>, k: nat): State
    requires k <= |events|
  {
    Run(c, s0, events[..k])
  }

  // An outside edit takes the rules of an email out of the policy.
  ghost predicate RemovesOutside(c: Config, s0: State, events: seq<Event>, n: nat, email: string) {
    && n < |events| && events[n].EditPolicy?
    && email in Emails(At(c, s0, events, n).world.included) && email !in Emails(events[n].included)
  }

  // A run fetches the policy.
  ghost predicate Fetches(c: Config, s0: State, events: seq<Event>, n: nat) {
    n < |events| && events[n].Step? && At(c, s0, events, n).phase.Idle? && At(c, s0, events, n).world.configured
  }

  // A run stores its baseline.
  ghost predicate Stores(c: Config, s0: State, events: seq<Event>, n: nat) {
    n < |events| && events[n].Step? && At(c, s0, events, n).phase.Written?
  }

  // A run's own write takes the email out of the policy.
  ghost predicate WritesOut(c: Config, s0: State, events: seq<Event>, n: nat, email: string) {
    && n < |events| && events[n].Step? && At(c, s0, events, n).phase.Planned?
    && email in Emails(At(c, s0, events, n).world.included) && email !in Emails(At(c, s0, events, n + 1).world.included)
  }

  // A run stops between its write and its baseline.
  ghost predicate CutsShort(c: Config, s0: State, events: seq<Event>, n: nat) {
    n < |events| && events[n].Stop? && At(c, s0, events, n).phase.Written?
  }

  // Removed from outside, and no run that fetched later has stored its baseline.
  ghost predicate RemovedSince(c: Config, s0: State, events: seq<Event>, n: nat, email: string) {
    && RemovesOutside(c, s0, events, n, email)
    && forall k, m :: n < k < m && Fetches(c, s0, events, k) ==> !Stores(c, s0, events, m)
  }

  // Removed from outside since the last fetch.
  ghost predicate RemovedUnseen(c: Config, s0: State, events: seq<Event>, n: nat, email: string) {
    RemovesOutside(c, s0, events, n, email) && forall k :: n < k ==> !Fetches(c, s0, events, k)
  }

  // Written out, and no run has stored its baseline since; the run that wrote was
  // cut short, or stands right after its write.
  ghost predicate DroppedSince(c: Config, s0: State, events: seq<Event>, n: nat, email: string) {
    && WritesOut(c, s0, events, n, email) && (forall m :: n < m ==> !Stores(c, s0, events, m))
    && (Run(c, s0, events).phase.Written? || exists m :: n < m && CutsShort(c, s0, events, m))
  }

  // What the history fields stand for.
  ghost predicate Accounted(c: Config, s0: State, events: seq<Event>) {
    var s := Run(c, s0, events);
    && (forall e :: e in s.outside ==> exists n: nat :: RemovedSince(c, s0, events, n, e))
    && (forall e :: e in s.sinceFetch ==> exists n: nat :: RemovedUnseen(c, s0, events, n, e))
    && (forall e :: e in s.dropped ==> exists n: nat :: DroppedSince(c, s0, events, n, e))
  }

  // ---- One event more --------------------------------------------------------------------

  // The events so far are as they were.
  lemma Earlier(c: Config, s0: State, events: seq<Event>, ev: Event)
    ensures var more := events + [ev];
      && (forall k :: 0 <= k <= |events| ==> At(c, s0, more, k) == At(c, s0, events, k))
      && At(c, s0, more, |events|) == Run(c, s0, events)
      && Run(c, s0, more) == Next(c, Run(c, s0, events), ev)
  {
    var more := events + [ev];
    forall k | 0 <= k <= |events| ensures At(c, s0, more, k) == At(c, s0, events, k) {
      assert more[..k] == events[..k];
    }
    assert events[..|events|] == events && more[..|more| - 1] == events;
  }

  lemma SameEvents(c: Config, s0: State, events: seq<Event>, ev: Event, n: nat, email: string)
    requires n < |events|
    ensures var more := events + [ev];
      && (RemovesOutside(c, s0, more, n, email) <==> RemovesOutside(c, s0, events, n, email))
      && (Fetches(c, s0, more, n) <==> Fetches(c, s0, events, n))
      && (Stores(c, s0, more, n) <==> Stores(c, s0, events, n))
      && (CutsShort(c, s0, more, n) <==> CutsShort(c, s0, events, n))
      && (WritesOut(c, s0, more, n, email) <==> WritesOut(c, s0, events, n, email))
  {
    Earlier(c, s0, events, ev);
  }

  lemma UnseenOneMore(c: Config, s0: State, events: seq<Event>, ev: Event, email: string) returns (n: nat)
    requires Accounted(c, s0, events) && email in Next(c, Run(c, s0, events), ev).sinceFetch
    ensures RemovedUnseen(c, s0, events + [ev], n, email)
  {
    var s, more := Run(c, s0, events), events + [ev];
    Earlier(c, s0, events, ev);
    if email in s.sinceFetch {
      n :| RemovedUnseen(c, s0, events, n, email);
      SameEvents(c, s0, events, ev, n, email);
      forall k | n < k ensures !Fetches(c, s0, more, k) {
        if k < |events| {
          SameEvents(c, s0, events, ev, k, email);
        }
      }
    } else {
      n := |events|;
    }
  }

  lemma OutsideOneMore(c: Config, s0: State, events: seq<Event>, ev: Event, email: string) returns (n: nat)
    requires Accounted(c, s0, events) && email in Next(c, Run(c, s0, events), ev).outside
    ensures RemovedSince(c, s0, events + [ev], n, email)
  {
    var s, more := Run(c, s0, events), events + [ev];
    Earlier(c, s0, events, ev);
    if ev.Step? && s.phase.Written? {
      n := StoredOver(c, s0, events, ev, email);
    } else if email in s.outside {
      n :| RemovedSince(c, s0, events, n, email);
      SameEvents(c, s0, events, ev, n, email);
      forall k, m | n < k < m && Fetches(c, s0, more, k) ensures !Stores(c, s0, more, m) {
        SinceStays(c, s0, events, ev, k, m, email);
      }
    } else {
      n := |events|;
    }
  }

  lemma SinceStays(c: Config, s0: State, events: seq<Event>, ev: Event, k: nat, m: nat, email: string)
    requires k < m && Fetches(c, s0, events + [ev], k) && !(ev.Step? && Run(c, s0, events).phase.Written?)
    requires Fetches(c, s0, events, k) ==> !Stores(c, s0, events, m)
    ensures !Stores(c, s0, events + [ev], m)
  {
    Earlier(c, s0, events, ev);
    if m < |events| {
      SameEvents(c, s0, events, ev, k, email);
      SameEvents(c, s0, events, ev, m, email);
    }
  }

  // At the store of a run, what was removed since its fetch.
  lemma StoredOver(c: Config, s0: State, events: seq<Event>, ev: Event, email: string) returns (n: nat)
    requires Accounted(c, s0, events) && email in Run(c, s0, events).sinceFetch
    requires ev.Step? && Run(c, s0, events).phase.Written?
    ensures RemovedSince(c, s0, events + [ev], n, email)
  {
    var more := events + [ev];
    Earlier(c, s0, events, ev);
    n :| RemovedUnseen(c, s0, events, n, email);
    SameEvents(c, s0, events, ev, n, email);
    forall k | n < k ensures !Fetches(c, s0, more, k) {
      if k < |events| {
        SameEvents(c, s0, events, ev, k, email);
      }
    }
  }

  lemma DroppedOneMore(c: Config, s0: State, events: seq<Event>, ev: Event, email: string) returns (n: nat)
    requires Accounted(c, s0, events) && email in Next(c, Run(c, s0, events), ev).dropped
    ensures DroppedSince(c, s0, events + [ev], n, email)
  {
    var s, more := Run(c, s0, events), events + [ev];
    Earlier(c, s0, events, ev);
    if email in s.dropped {
      n :| DroppedSince(c, s0, events, n, email);
      DroppedStays(c, s0, events, ev, n, email);
    } else {
      n := |events|;
      assert more[n] == ev && At(c, s0, more, n + 1) == Run(c, s0, more) by {
        assert more[..n + 1] == more;
      }
    }
  }

  lemma DroppedStays(c: Config, s0: State, events: seq<Event>, ev: Event, n: nat, email: string)
    requires DroppedSince(c, s0, events, n, email) && !(ev.Step? && Run(c, s0, events).phase.Written?)
    ensures DroppedSince(c, s0, events + [ev], n, email)
  {
    var s, more := Run(c, s0, events), events + [ev];
    Earlier(c, s0, events, ev);
    SameEvents(c, s0, events, ev, n, email);
    forall m | n < m ensures !Stores(c, s0, more, m) {
      if m < |events| {
        SameEvents(c, s0, events, ev, m, email);
      }
    }
    if s.phase.Written? {
      if ev.Stop? {
        assert CutsShort(c, s0, more, |events|);
      }
    } else {
      var m :| n < m && CutsShort(c, s0, events, m);
      SameEvents(c, s0, events, ev, m, email);
    }
  }

  lemma {:induction false} RunIsAccounted(c: Config, s0: State, events: seq<Event>)
    requires Initial(s0)
    ensures Accounted(c, s0, events)
    decreases |events|
  {
    if events != [] {
      var before, ev := events[..|events| - 1], events[|events| - 1];
      RunIsAccounted(c, s0, before);
      assert before + [ev] == events;
      OneMoreIsAccounted(c, s0, before, ev);
    }
  }

  lemma OneMoreIsAccounted(c: Config, s0: State, events: seq<Event>, ev: Event)
    requires Accounted(c, s0, events)
    ensures Accounted(c, s0, events + [ev])
  {
    Earlier(c, s0, events, ev);
    var t := Run(c, s0, events + [ev]);
    forall e | e in t.outside ensures exists n: nat :: RemovedSince(c, s0, events + [ev], n, e) {
      var n := OutsideOneMore(c, s0, events, ev, e);
    }
    forall e | e in t.sinceFetch ensures exists n: nat :: RemovedUnseen(c, s0, events + [ev], n, e) {
      var n := UnseenOneMore(c, s0, events, ev, e);
    }
    forall e | e in t.dropped ensures exists n: nat :: DroppedSince(c, s0, events + [ev], n, e) {
      var n := DroppedOneMore(c, s0, events, ev, e);
    }
  }

  // ---- The cause of a disabled account ---------------------------------------------------

  // In any history, behind an account the sync disables stands an event: an outside
  // edit that removed its rule, and that no run which fetched later has stored a
  // baseline over; or the write of a run that took the rule out, was then stopped
  // before storing its baseline, and after which none has been stored.
  lemma DisabledHasCause(c: Config, s0: State, events: seq<Event>, i: nat)
    requires Initial(s0) && Run(c, s0, events).phase.Decided? && i < |Run(c, s0, events).world.accounts|
    requires Next(c, Run(c, s0, events), Step).world.accounts[i] != Run(c, s0, events).world.accounts[i]
    ensures var email := Run(c, s0, events).world.accounts[i].email;
      || (exists n: nat :: RemovesOutside(c, s0, events, n, email)
            && forall k, m :: n < k < m && Fetches(c, s0, events, k) ==> !Stores(c, s0, events, m))
      || (exists n: nat, m: nat :: n < m && WritesOut(c, s0, events, n, email) && CutsShort(c, s0, events, m)
            && forall l :: n < l ==> !Stores(c, s0, events, l))
  {
    var email := Run(c, s0, events).world.accounts[i].email;
    RunIsAccounted(c, s0, events);
    DisabledOnlyAfterRemoval(c, s0, events, i);
    if email in Run(c, s0, events).outside {
      var n :| RemovedSince(c, s0, events, n, email);
    } else {
      var n :| DroppedSince(c, s0, events, n, email);
      var m :| n < m && CutsShort(c, s0, events, m);
    }
  }
}
