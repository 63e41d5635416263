// Histories of the two-way sync: runs advance effect by effect and may stop
// between any two of them, while the panel's users change, the operator edits
// the desired domains and outsiders edit the policy at any moment.
module AccessHistory {
  import opened Options
  import opened AccessSync

  // `outside` and `sinceFetch` record the emails whose rules outside edits
  // removed: since the policy was fetched by the run that stored the baseline,
  // and since the current run fetched it. `dropped` records the emails a run
  // wrote out of the policy since the baseline was stored; `cutShort` whether
  // some run stopped between its write and storing its baseline.
  datatype State = State(world: World, phase: Phase, outside: set<string>, sinceFetch: set<string>,
                         dropped: set<string>, cutShort: bool)

  datatype Event =
    | Step
    | Stop
    | AddAccount(account: Account)
    | SetActive(email: string, active: bool)
    | SetAdmin(email: string, admin: bool)
    | RemoveAccount(email: string)
    | EditPolicy(included: seq<Rule>, excluded: seq<Rule>)
    | SetDesiredDomains(domains: seq<string>)
    | SetConfigured(configured: bool)

  function PolicyEmails(w: World): set<string> {
    ToSet(Emails(w.included))
  }

  function SetActiveIn(accounts: seq<Account>, email: string, active: bool): seq<Account> {
    seq(|accounts|, i requires 0 <= i < |accounts| =>
      if accounts[i].email == email then accounts[i].(active := active) else accounts[i])
  }

  function SetAdminIn(accounts: seq<Account>, email: string, admin: bool): seq<Account> {
    seq(|accounts|, i requires 0 <= i < |accounts| =>
      if accounts[i].email == email then accounts[i].(admin := admin) else accounts[i])
  }

  function Without(accounts: seq<Account>, email: string): seq<Account> {
    if accounts == [] then []
    else (if accounts[0].email == email then [] else [accounts[0]]) + Without(accounts[1..], email)
  }

  // One effect of the run in progress, with its history.
  function StepRun(c: Config, s: State): State {
    var p := Advance(c, s.world, s.phase);
    var moved := s.(world := p.world, phase := p.phase);
    match s.phase
    case Idle => if p.phase.Idle? then moved else moved.(sinceFetch := {})
    case Planned(_, _) => moved.(dropped := s.dropped + (PolicyEmails(s.world) - PolicyEmails(p.world)))
    case Written(_) => moved.(outside := s.sinceFetch, sinceFetch := {}, dropped := {})
    case _ => moved
  }

  function Next(c: Config, s: State, ev: Event): State {
    var w := s.world;
    match ev
    case Step => StepRun(c, s)
    case Stop => s.(phase := Idle, cutShort := s.cutShort || s.phase.Written?)
    case AddAccount(a) => s.(world := w.(accounts := w.accounts + [a]))
    case SetActive(email, active) => s.(world := w.(accounts := SetActiveIn(w.accounts, email, active)))
    case SetAdmin(email, admin) => s.(world := w.(accounts := SetAdminIn(w.accounts, email, admin)))
    case RemoveAccount(email) => s.(world := w.(accounts := Without(w.accounts, email)))
    case EditPolicy(included, excluded) =>
      var gone := PolicyEmails(w) - ToSet(Emails(included));
      s.(world := w.(included := included, excluded := excluded),
         outside := s.outside + gone, sinceFetch := s.sinceFetch + gone)
    case SetDesiredDomains(domains) => s.(world := w.(desiredDomains := domains))
    case SetConfigured(configured) => s.(world := w.(configured := configured))
  }

  function Run(c: Config, s: State, events: seq<Event>): State
    decreases |events|
  {
    if events == [] then s
    else Next(c, Run(c, s, events[..|events| - 1]), events[|events| - 1])
  }

  // Between runs, with every synced email (none, on a fresh install) in the policy.
  ghost predicate Initial(s: State) {
    && s.phase.Idle? && ToSet(s.world.baseline) <= PolicyEmails(s.world)
    && s.outside == {} && s.sinceFetch == {} && s.dropped == {} && !s.cutShort
  }

  // ---- The invariant ----------------------------------------------------------------

  // The policy emails a run in progress has seen: fetched, or just written.
  ghost predicate Seen(s: State, emails: seq<string>) {
    ToSet(emails) <= PolicyEmails(s.world) + s.sinceFetch
  }

  // A synced email is still in the policy, or an outside edit removed it, or a
  // run wrote it out.
  ghost predicate Explained(s: State, emails: set<string>) {
    ToSet(s.world.baseline) <= emails + s.outside + s.dropped
  }

  ghost predicate Inv(c: Config, s: State) {
    && Explained(s, PolicyEmails(s.world))
    && (s.dropped != {} ==> s.cutShort || s.phase.Written?)
    && match s.phase
       case Idle => true
       case Fetched(included, _) =>
         Explained(s, ToSet(Emails(included))) && Seen(s, Emails(included))
       case Decided(included, excluded, owned, removed) =>
         && Explained(s, ToSet(Emails(included))) && Seen(s, Emails(included)) && owned == s.world.baseline
         && forall e :: e in removed ==> Justified(c, s, included, excluded, e)
       case Disabled(included, _, owned) =>
         Explained(s, ToSet(Emails(included))) && Seen(s, Emails(included)) && owned == s.world.baseline
       case Planned(_, plan) =>
         && ToSet(plan.desired) <= ToSet(Emails(plan.next))
         && (plan.inSync ==> Seen(s, plan.desired))
       case Written(plan) => Seen(s, plan.desired)
  }

  // Why an email may be on the disable list of a run that fetched this policy.
  ghost predicate Justified(c: Config, s: State, included: seq<Rule>, excluded: seq<Rule>, email: string) {
    && email in s.world.baseline
    && email !in Emails(included)
    && email !in c.pinned
    && !CoveredByDomain(included, excluded, email)
    && email in s.outside + s.dropped
  }

  lemma PlanKeeps(c: Config, s: State)
    requires s.phase.Disabled? && Inv(c, s)
    ensures Inv(c, StepRun(c, s))
  {
    var w, included, owned := s.world, s.phase.included, s.phase.owned;
    var desired := Desired(c, w.accounts);
    NextEmails(included, owned, w.baselineDomains, desired, w.desiredDomains);
    var plan := PlanWrite(included, owned, w.baselineDomains, desired, w.desiredDomains);
    assert ToSet(desired) <= ToSet(Emails(plan.next));
    if plan.inSync {
      assert ToSet(desired) <= ToSet(Emails(included));
    }
  }

  lemma DecideKeeps(c: Config, s: State)
    requires s.phase.Fetched? && Inv(c, s)
    ensures Inv(c, StepRun(c, s))
  {
    var w, included, excluded := s.world, s.phase.included, s.phase.excluded;
    var t := StepRun(c, s);
    if t.phase.Decided? {
      forall e | e in t.phase.removed ensures Justified(c, t, included, excluded, e) {
        assert e in ToSet(w.baseline);
        assert e !in ToSet(Emails(included));
      }
    }
  }

  lemma StepKeeps(c: Config, s: State)
    requires Inv(c, s)
    ensures Inv(c, StepRun(c, s))
  {
    match s.phase
    case Fetched(_, _) => DecideKeeps(c, s);
    case Disabled(_, _, _) => PlanKeeps(c, s);
    case _ =>
  }

  lemma NextKeeps(c: Config, s: State, ev: Event)
    requires Inv(c, s)
    ensures Inv(c, Next(c, s, ev))
  {
    if ev.Step? {
      StepKeeps(c, s);
    }
  }

  lemma {:induction false} RunKeeps(c: Config, s: State, events: seq<Event>)
    requires Initial(s)
    ensures Inv(c, Run(c, s, events))
    decreases |events|
  {
    if events != [] {
      RunKeeps(c, s, events[..|events| - 1]);
      NextKeeps(c, Run(c, s, events[..|events| - 1]), events[|events| - 1]);
    }
  }

  // ---- Main results -------------------------------------------------------------------

  // In any history, an account the sync disables was in the stored baseline,
  // its rule was missing from the fetched policy, it is neither pinned, nor an
  // administrator, nor covered by a domain rule, and either an outside edit
  // removed its rule or a run cut short had written it out. While no run has
  // been cut short after its write, it was an outside edit.
  lemma DisabledOnlyAfterRemoval(c: Config, s0: State, events: seq<Event>, i: nat)
    requires Initial(s0)
    requires var s := Run(c, s0, events);
      s.phase.Decided? && i < |s.world.accounts|
      && Next(c, s, Step).world.accounts[i] != s.world.accounts[i]
    ensures var s := Run(c, s0, events);
      var a := s.world.accounts[i];
      && a.active && !a.admin && Next(c, s, Step).world.accounts[i] == a.(active := false)
      && a.email in s.world.baseline && a.email !in Emails(s.phase.included)
      && a.email !in c.pinned && !CoveredByDomain(s.phase.included, s.phase.excluded, a.email)
      && a.email in s.outside + s.dropped
      && (!s.cutShort ==> a.email in s.outside)
  {
    RunKeeps(c, s0, events);
    var s := Run(c, s0, events);
    assert s.world.accounts[i].email in s.phase.removed;
  }

  // In any history: whom a domain rule of the fetched policy admits, and no
  // exclusion in it names, the run does not disable.
  lemma AdmittedIsNotDisabled(c: Config, s0: State, events: seq<Event>, i: nat, local: string, d: string)
    requires Initial(s0) && Run(c, s0, events).phase.Decided? && i < |Run(c, s0, events).world.accounts|
    requires Run(c, s0, events).world.accounts[i].email == local + "@" + d && '@' !in d
    requires exists r :: r in Run(c, s0, events).phase.included && r.DomainRule? && r.domain == d
    requires forall r :: r in Run(c, s0, events).phase.excluded ==>
      !(r.DomainRule? && r.domain == d) && !(r.EmailRule? && r.email == local + "@" + d)
    ensures Next(c, Run(c, s0, events), Step).world.accounts[i] == Run(c, s0, events).world.accounts[i]
  {
    var s := Run(c, s0, events);
    CoveredIff(s.phase.included, s.phase.excluded, local, d);
    if Next(c, s, Step).world.accounts[i] != s.world.accounts[i] {
      DisabledOnlyAfterRemoval(c, s0, events, i);
    }
  }

  // Only the disable step of a run disables anyone: every other step of a run
  // leaves the accounts as they are.
  lemma OnlyDisableTouchesAccounts(c: Config, s: State)
    requires !s.phase.Decided?
    ensures StepRun(c, s).world.accounts == s.world.accounts
  {}

  // At every quiet moment a synced email is still in the policy, was removed by
  // an outside edit, or was written out by a run cut short.
  lemma BaselineIsExplained(c: Config, s0: State, events: seq<Event>)
    requires Initial(s0) && Run(c, s0, events).phase.Idle?
    ensures var s := Run(c, s0, events);
      && ToSet(s.world.baseline) <= PolicyEmails(s.world) + s.outside + s.dropped
      && (!s.cutShort ==> ToSet(s.world.baseline) <= PolicyEmails(s.world) + s.outside)
  {
    RunKeeps(c, s0, events);
  }

  // The exception above is real, in every settled world. An administrator
  // disables a user, the run drops the user's rule and stops before storing its
  // baseline, the administrator reinstates the user, and the next run disables
  // the account although nobody outside touched the policy.

  ghost predicate Reinstatable(c: Config, w: World, i: nat) {
    && Settled(c, w) && i < |w.accounts|
    && w.accounts[i].active && !w.accounts[i].admin
    && w.accounts[i].email !in c.pinned
    && DomainOf(w.accounts[i].email) !in Domains(w.included)
    && DomainOf(w.accounts[i].email) !in w.desiredDomains
    && exists e :: e in w.baseline && e != w.accounts[i].email
  }

  function CutShort(email: string): seq<Event> {
    [SetActive(email, false), Step, Step, Step, Step, Step, Stop, SetActive(email, true), Step, Step]
  }

  lemma ActiveWithout(accounts: seq<Account>, email: string, active: bool)
    ensures forall e :: e in ActiveEmails(SetActiveIn(accounts, email, active)) <==>
              if e == email then active && (exists a :: a in accounts && a.email == email)
              else e in ActiveEmails(accounts)
  {
    var after := SetActiveIn(accounts, email, active);
    forall e
      ensures e in ActiveEmails(after) <==>
                if e == email then active && (exists a :: a in accounts && a.email == email)
                else e in ActiveEmails(accounts)
    {
      if e in ActiveEmails(after) {
        var a :| a in after && a.active && a.email == e;
        var i :| 0 <= i < |after| && after[i] == a;
        assert accounts[i] in accounts;
      }
      if exists a :: a in accounts && a.email == e && (if e == email then active else a.active) {
        var a :| a in accounts && a.email == e && (if e == email then active else a.active);
        var i :| 0 <= i < |accounts| && accounts[i] == a;
        assert after[i] in after;
      }
    }
  }

  lemma DesiredMembers(c: Config, accounts: seq<Account>)
    ensures forall e :: e in Desired(c, accounts) <==> e in ActiveEmails(accounts) || e in c.pinned
  {}

  lemma DesiredWithout(c: Config, w: World, i: nat)
    requires Reinstatable(c, w, i)
    ensures var b := w.accounts[i].email;
      var desired := Desired(c, SetActiveIn(w.accounts, b, false));
      && b !in desired && desired != [] && b in w.baseline && b in Emails(w.included)
      && forall e :: e in w.baseline && e != b ==> e in desired
  {
    var b := w.accounts[i].email;
    ActiveWithout(w.accounts, b, false);
    DesiredMembers(c, w.accounts);
    DesiredMembers(c, SetActiveIn(w.accounts, b, false));
    assert w.accounts[i] in w.accounts;
    assert b in ToSet(w.baseline);
    var other :| other in w.baseline && other != b;
    assert other in Desired(c, SetActiveIn(w.accounts, b, false));
  }

  lemma PlanDrops(w: World, b: string, desired: seq<string>)
    requires b !in desired && desired != [] && b in w.baseline && b in Emails(w.included)
    requires DomainOf(b) !in Domains(w.included) && DomainOf(b) !in w.desiredDomains
    ensures var plan := PlanWrite(w.included, w.baseline, w.baselineDomains, desired, w.desiredDomains);
      && !plan.inSync && b !in Emails(plan.next) && Emails(plan.next) != []
      && (forall e :: e in desired ==> e in Emails(plan.next))
      && DomainOf(b) !in Domains(plan.next)
  {
    NextEmails(w.included, w.baseline, w.baselineDomains, desired, w.desiredDomains);
    NextDomains(w.included, w.baseline, w.baselineDomains, desired, w.desiredDomains);
    assert desired[0] in desired;
    assert b in ToSet(Emails(w.included))
        && b !in ToSet(Emails(Select(w.included, ForeignEmail(w.baseline, desired)))) + ToSet(desired);
  }

  // The first half: the run reaches its write, and the user's rule is gone.
  lemma RunDropsDisabledUser(c: Config, w: World, i: nat) returns (plan: Plan)
    requires Reinstatable(c, w, i)
    ensures var b := w.accounts[i].email;
      var off := w.(accounts := SetActiveIn(w.accounts, b, false));
      && Fetch(off) == Progress(off, Fetched(w.included, w.excluded), Option.None)
      && Decide(c, off, w.included, w.excluded) ==
           Progress(off, Decided(w.included, w.excluded, w.baseline, []), Option.None)
      && Disable(off, w.included, w.excluded, w.baseline, []) ==
           Progress(off, Disabled(w.included, w.excluded, w.baseline), Option.None)
      && MakePlan(c, off, w.included, w.excluded, w.baseline) ==
           Progress(off, Planned(w.excluded, plan), Option.None)
      && !plan.inSync && b !in Emails(plan.next) && Emails(plan.next) != []
      && (forall e :: e in w.baseline && e != b ==> e in Emails(plan.next))
      && DomainOf(b) !in Domains(plan.next)
  {
    var b := w.accounts[i].email;
    var off := w.(accounts := SetActiveIn(w.accounts, b, false));
    SettledHasNoCandidates(c, off);
    assert Deactivate(off.accounts, []) == off.accounts;
    DesiredWithout(c, w, i);
    var desired := Desired(c, off.accounts);
    PlanDrops(w, b, desired);
    plan := PlanWrite(w.included, w.baseline, w.baselineDomains, desired, w.desiredDomains);
  }

  lemma {:induction false} OneCandidate(c: Config, included: seq<Rule>, excluded: seq<Rule>, active: seq<string>,
                                        emails: seq<string>, b: string)
    requires forall j, k :: 0 <= j < k < |emails| ==> emails[j] != emails[k]
    requires forall e :: e in emails && Candidate(c, included, excluded, active, e) ==> e == b
    ensures |Candidates(c, included, excluded, active, emails)| <= 1
    decreases |emails|
  {
    if emails != [] {
      assert emails == [emails[0]] + emails[1..];
      OneCandidate(c, included, excluded, active, emails[1..], b);
      if Candidate(c, included, excluded, active, emails[0]) {
        assert forall e :: e !in Candidates(c, included, excluded, active, emails[1..]);
        NonemptyHasMember(Candidates(c, included, excluded, active, emails[1..]));
      }
    }
  }

  // The second half: the reinstated user is the one candidate of the next run.
  lemma NextRunPicksReinstated(c: Config, w: World, i: nat, next: seq<Rule>)
    requires Reinstatable(c, w, i)
    requires var b := w.accounts[i].email;
      && b !in Emails(next) && Emails(next) != [] && DomainOf(b) !in Domains(next)
      && forall e :: e in w.baseline && e != b ==> e in Emails(next)
    ensures var b := w.accounts[i].email;
      var on := w.(included := next, accounts := SetActiveIn(SetActiveIn(w.accounts, b, false), b, true));
      var p := Decide(c, on, next, w.excluded);
      && p.phase.Decided? && b in p.phase.removed && p.world == on
      && on.accounts[i] == w.accounts[i]
  {
    var b := w.accounts[i].email;
    var off := SetActiveIn(w.accounts, b, false);
    var on := w.(included := next, accounts := SetActiveIn(off, b, true));
    var active := ActiveEmails(on.accounts);
    assert on.accounts[i] == w.accounts[i];
    assert on.accounts[i] in on.accounts && b in active;
    assert w.accounts[i] in w.accounts && b in w.baseline;
    assert Candidate(c, next, w.excluded, active, b);
    OneCandidate(c, next, w.excluded, active, w.baseline, b);
    assert b in ToSet(active);
    assert |ToSet(active)| >= 1;
  }

  lemma CutShortRunDisablesReinstated(c: Config, w: World, i: nat)
    requires Reinstatable(c, w, i)
    ensures var s0 := State(w, Idle, {}, {}, {}, false);
      var s := Run(c, s0, CutShort(w.accounts[i].email));
      && Initial(s0) && s.outside == {} && s.cutShort && s.phase.Decided?
      && |s.world.accounts| == |w.accounts| && s.world.accounts[i].active
      && !Next(c, s, Step).world.accounts[i].active
  {
    var b := w.accounts[i].email;
    var s0 := State(w, Idle, {}, {}, {}, false);
    var plan := RunDropsDisabledUser(c, w, i);
    NextRunPicksReinstated(c, w, i, plan.next);
    RunOfTen(c, s0, CutShort(b));
    var s6 := FirstSix(c, s0, b, plan);
    LastFour(c, s6, b, w, i, plan);
  }

  lemma FirstSix(c: Config, s0: State, b: string, plan: Plan) returns (s6: State)
    requires s0 == State(s0.world, Idle, {}, {}, {}, false)
    requires var off := s0.world.(accounts := SetActiveIn(s0.world.accounts, b, false));
      && Fetch(off) == Progress(off, Fetched(off.included, off.excluded), Option.None)
      && Decide(c, off, off.included, off.excluded) ==
           Progress(off, Decided(off.included, off.excluded, off.baseline, []), Option.None)
      && Disable(off, off.included, off.excluded, off.baseline, []) ==
           Progress(off, Disabled(off.included, off.excluded, off.baseline), Option.None)
      && MakePlan(c, off, off.included, off.excluded, off.baseline) ==
           Progress(off, Planned(off.excluded, plan), Option.None)
      && !plan.inSync
    ensures s6 == Next(c, Next(c, Next(c, Next(c, Next(c, Next(c, s0, SetActive(b, false)), Step), Step), Step), Step), Step)
    ensures s6.world == s0.world.(accounts := SetActiveIn(s0.world.accounts, b, false), included := plan.next)
    ensures s6.phase == Written(plan) && s6.outside == {} && !s6.cutShort
  {
    var off := s0.world.(accounts := SetActiveIn(s0.world.accounts, b, false));
    var s1 := Next(c, s0, SetActive(b, false));
    var s2 := Next(c, s1, Step);
    assert s2 == State(off, Fetched(off.included, off.excluded), {}, {}, {}, false);
    var s3 := Next(c, s2, Step);
    var s4 := Next(c, s3, Step);
    assert s4 == State(off, Disabled(off.included, off.excluded, off.baseline), {}, {}, {}, false);
    var s5 := Next(c, s4, Step);
    assert s5 == State(off, Planned(off.excluded, plan), {}, {}, {}, false);
    s6 := Next(c, s5, Step);
  }

  lemma LastFour(c: Config, s6: State, b: string, w: World, i: nat, plan: Plan)
    requires s6.phase == Written(plan) && s6.outside == {} && w.configured && i < |w.accounts|
    requires s6.world == w.(accounts := SetActiveIn(w.accounts, b, false), included := plan.next)
    requires var on := w.(included := plan.next, accounts := SetActiveIn(SetActiveIn(w.accounts, b, false), b, true));
      var p := Decide(c, on, plan.next, w.excluded);
      && p.phase.Decided? && b in p.phase.removed && p.world == on
      && on.accounts[i] == w.accounts[i] && w.accounts[i].active && !w.accounts[i].admin && w.accounts[i].email == b
    ensures var s := Next(c, Next(c, Next(c, Next(c, s6, Stop), SetActive(b, true)), Step), Step);
      && s.outside == {} && s.cutShort && s.phase.Decided?
      && |s.world.accounts| == |w.accounts| && s.world.accounts[i].active
      && !Next(c, s, Step).world.accounts[i].active
  {
    var on := w.(included := plan.next, accounts := SetActiveIn(SetActiveIn(w.accounts, b, false), b, true));
    var s8 := Next(c, Next(c, s6, Stop), SetActive(b, true));
    assert s8.world == on && s8.phase.Idle? && s8.outside == {} && s8.cutShort;
    var s9 := Next(c, s8, Step);
    assert s9.world == on && s9.phase == Fetched(plan.next, w.excluded);
    var s := Next(c, s9, Step);
    assert s.world == on && b in s.phase.removed;
  }

  lemma RunOfTen(c: Config, s0: State, events: seq<Event>)
    requires |events| == 10
    ensures Run(c, s0, events) ==
      Next(c, Next(c, Next(c, Next(c, Next(c, Next(c, Next(c, Next(c, Next(c, Next(c, s0,
        events[0]), events[1]), events[2]), events[3]), events[4]), events[5]), events[6]), events[7]), events[8]), events[9])
  {
    forall n | 0 <= n < 10 ensures Run(c, s0, events[..n + 1]) == Next(c, Run(c, s0, events[..n]), events[n]) {
      assert events[..n + 1][..n] == events[..n];
    }
    assert events[..10] == events && events[..0] == [];
  }
}
