// One run of the sync inside a history: what its write keeps and overwrites, how
// many accounts its disable step takes, and exactly when it disables an account
// that nobody outside removed.
module AccessRuns {
  import opened Options
  import opened AccessSync
  import opened AccessHistory

  // ---- The same run, from its fetch to its write -------------------------------------

  predicate Underway(phase: Phase) {
    phase.Fetched? || phase.Decided? || phase.Disabled? || phase.Planned?
  }

  // Throughout the events the run in progress neither ends nor stops.
  predicate SameRun(c: Config, s: State, events: seq<Event>)
    decreases |events|
  {
    Underway(Run(c, s, events).phase) && (events == [] || SameRun(c, s, events[..|events| - 1]))
  }

  // What a run carries from the policy it fetched to the plan it writes.
  ghost predicate FromFetch(s0: State, s: State)
    requires s0.phase.Fetched?
  {
    && s.world.baseline == s0.world.baseline && s.world.baselineDomains == s0.world.baselineDomains
    && match s.phase
       case Fetched(included, excluded) => s.phase == s0.phase
       case Decided(included, excluded, owned, _) =>
         Fetched(included, excluded) == s0.phase && owned == s.world.baseline
       case Disabled(included, excluded, owned) =>
         Fetched(included, excluded) == s0.phase && owned == s.world.baseline
       case Planned(excluded, plan) =>
         && excluded == s0.phase.excluded
         && plan == PlanWrite(s0.phase.included, s.world.baseline, s.world.baselineDomains,
                              plan.desired, plan.desiredDomains)
       case _ => true
  }

  lemma {:induction false} SameRunFromFetch(c: Config, s0: State, events: seq<Event>)
    requires s0.phase.Fetched? && SameRun(c, s0, events)
    ensures FromFetch(s0, Run(c, s0, events))
    decreases |events|
  {
    if events != [] {
      SameRunFromFetch(c, s0, events[..|events| - 1]);
      StepFromFetch(c, s0, Run(c, s0, events[..|events| - 1]), events[|events| - 1]);
    }
  }

  lemma StepFromFetch(c: Config, s0: State, s: State, ev: Event)
    requires s0.phase.Fetched? && FromFetch(s0, s) && Underway(s.phase) && Underway(Next(c, s, ev).phase)
    ensures FromFetch(s0, Next(c, s, ev))
  {}

  // A rule the panel neither wrote nor wants, at the moment of the write.
  predicate Foreign(s: State, r: Rule)
    requires s.phase.Planned?
  {
    || r.OtherRule?
    || Keeps(ForeignEmail(s.world.baseline, s.phase.plan.desired), r)
    || Keeps(ForeignDomain(s.world.baselineDomains, s.phase.plan.desiredDomains), r)
  }

  // In any history: a foreign rule that is in the policy when a run writes
  // survives the write exactly if nothing needed writing or the rule was in the
  // policy this run fetched.
  lemma ForeignRuleSurvivesIffFetched(c: Config, s0: State, events: seq<Event>, r: Rule)
    requires s0.phase.Fetched? && SameRun(c, s0, events)
    requires var s := Run(c, s0, events); s.phase.Planned? && r in s.world.included && Foreign(s, r)
    ensures var s := Run(c, s0, events);
      r in Next(c, s, Step).world.included <==> s.phase.plan.inSync || r in s0.phase.included
  {
    var s := Run(c, s0, events);
    SameRunFromFetch(c, s0, events);
    var desired, domains := s.phase.plan.desired, s.phase.plan.desiredDomains;
    assert r.EmailRule? ==> r !in EmailRules(desired);
    assert r.DomainRule? ==> r !in DomainRules(domains);
    NextMembers(s0.phase.included, s.world.baseline, s.world.baselineDomains, desired, domains, r);
  }

  lemma NextMembers(included: seq<Rule>, owned: seq<string>, ownedDomains: seq<string>,
                    desired: seq<string>, domains: seq<string>, r: Rule)
    ensures r in PlanWrite(included, owned, ownedDomains, desired, domains).next <==>
              || (r in included && (r.OtherRule? || Keeps(ForeignEmail(owned, desired), r)
                                    || Keeps(ForeignDomain(ownedDomains, domains), r)))
              || r in DomainRules(domains) || r in EmailRules(desired)
  {
    var a := Select(included, AnyOther) + Select(included, ForeignDomain(ownedDomains, domains));
    var b := Select(included, ForeignEmail(owned, desired)) + EmailRules(desired);
    assert PlanWrite(included, owned, ownedDomains, desired, domains).next == a + DomainRules(domains) + b;
  }

  // The run that has just fetched goes through to a write.
  ghost predicate WillWrite(c: Config, s: State) {
    && s.phase.Fetched?
    && var w, included := s.world, s.phase.included;
       var active := ActiveEmails(w.accounts);
       var removed := RemovedInPolicy(c, included, s.phase.excluded, active, w.baseline);
       var desired := Desired(c, Deactivate(w.accounts, removed));
       && !OverCap(c, removed, active) && desired != []
       && !PlanWrite(included, w.baseline, w.baselineDomains, desired, w.desiredDomains).inSync
  }

  // An outsider adds a rule after the fetch of such a run, which goes on to plan.
  lemma PlansAfterEdit(c: Config, s0: State, r: Rule)
    requires WillWrite(c, s0)
    ensures var s1 := Next(c, s0, EditPolicy(s0.world.included + [r], s0.world.excluded));
      var s2 := Next(c, s1, Step);
      var s3 := Next(c, s2, Step);
      var s4 := Next(c, s3, Step);
      && s1.phase.Fetched? && s2.phase.Decided? && s3.phase.Disabled? && s4.phase.Planned?
      && s4.world.included == s0.world.included + [r] && !s4.phase.plan.inSync
  {
    var s1 := Next(c, s0, EditPolicy(s0.world.included + [r], s0.world.excluded));
    assert s1.phase == s0.phase && s1.world == s0.world.(included := s0.world.included + [r]);
    var s2 := Next(c, s1, Step);
    assert s2.phase.Decided? && s2.world.included == s1.world.included;
  }

  // The edit that is lost: the write takes the rule out again.
  lemma OutsideEditLost(c: Config, s0: State, r: Rule)
    requires WillWrite(c, s0) && r.OtherRule? && r !in s0.phase.included
    ensures var s := Run(c, s0, [EditPolicy(s0.world.included + [r], s0.world.excluded), Step, Step, Step]);
      r in s.world.included && r !in Next(c, s, Step).world.included
  {
    var events := [EditPolicy(s0.world.included + [r], s0.world.excluded), Step, Step, Step];
    PlansAfterEdit(c, s0, r);
    SameRunOfFour(c, s0, events);
    ForeignRuleSurvivesIffFetched(c, s0, events, r);
  }

  lemma SameRunOfFour(c: Config, s: State, events: seq<Event>)
    requires |events| == 4 && Underway(s.phase)
    requires var s1 := Next(c, s, events[0]);
      var s2 := Next(c, s1, events[1]);
      var s3 := Next(c, s2, events[2]);
      Underway(s1.phase) && Underway(s2.phase) && Underway(s3.phase) && Underway(Next(c, s3, events[3]).phase)
    ensures SameRun(c, s, events)
    ensures Run(c, s, events) == Next(c, Next(c, Next(c, Next(c, s, events[0]), events[1]), events[2]), events[3])
  {
    RunOfFour(c, s, events);
    assert events[..3][..2] == events[..2] && events[..2][..1] == events[..1] && events[..1][..0] == [];
    assert SameRun(c, s, []) && SameRun(c, s, events[..1]) && SameRun(c, s, events[..2]) && SameRun(c, s, events[..3]);
  }

  lemma RunOfFour(c: Config, s: State, events: seq<Event>)
    requires |events| == 4
    ensures Run(c, s, events[..1]) == Next(c, s, events[0])
    ensures Run(c, s, events[..2]) == Next(c, Next(c, s, events[0]), events[1])
    ensures Run(c, s, events[..3]) == Next(c, Next(c, Next(c, s, events[0]), events[1]), events[2])
    ensures Run(c, s, events) == Next(c, Next(c, Next(c, Next(c, s, events[0]), events[1]), events[2]), events[3])
  {
    forall n | 0 <= n < 4 ensures Run(c, s, events[..n + 1]) == Next(c, Run(c, s, events[..n]), events[n]) {
      assert events[..n + 1][..n] == events[..n];
    }
    assert events[..4] == events && events[..0] == [];
  }

  // ---- How many accounts a disable step takes ------------------------------------------

  lemma DecidesFromFetch(c: Config, s: State, ev: Event)
    requires Next(c, s, ev).phase.Decided?
    ensures if ev.Step? then s.phase.Fetched? && Next(c, s, ev) == StepRun(c, s) else s.phase == Next(c, s, ev).phase
  {}

  // The moment the run in progress decided.
  lemma {:induction false} DecidedEarlier(c: Config, s0: State, events: seq<Event>) returns (n: nat)
    requires Initial(s0) && Run(c, s0, events).phase.Decided?
    ensures n < |events| && Run(c, s0, events[..n]).phase.Fetched?
    ensures StepRun(c, Run(c, s0, events[..n])).phase == Run(c, s0, events).phase
    decreases |events|
  {
    assert events != [];
    var before, ev := events[..|events| - 1], events[|events| - 1];
    DecidesFromFetch(c, Run(c, s0, before), ev);
    if ev.Step? {
      n := |events| - 1;
    } else {
      n := DecidedEarlier(c, s0, before);
      assert before[..n] == events[..n];
    }
  }

  // In any history, with a nonzero cap, a disable step takes at most the cap, and
  // at most half of the users, rounded up, who were active when the run decided.
  lemma DisablesWithinCapInHistory(c: Config, s0: State, events: seq<Event>) returns (n: nat)
    requires Initial(s0) && Run(c, s0, events).phase.Decided? && c.maxDisables > 0
    ensures n < |events| && Run(c, s0, events[..n]).phase.Fetched?
    ensures StepRun(c, Run(c, s0, events[..n])).phase == Run(c, s0, events).phase
    ensures var s := Run(c, s0, events);
      var gone := DisabledBy(s.world.accounts, Next(c, s, Step).world.accounts);
      && |gone| <= c.maxDisables
      && 2 * |gone| <= |set a | a in Run(c, s0, events[..n]).world.accounts && a.active :: a.email| + 1
  {
    n := DecidedEarlier(c, s0, events);
    DisabledAreListed(Run(c, s0, events).world.accounts, Run(c, s0, events).phase.removed);
    var earlier := Run(c, s0, events[..n]).world.accounts;
    assert ToSet(ActiveEmails(earlier)) == set a | a in earlier && a.active :: a.email;
  }

  // ---- When a run disables somebody nobody outside removed ---------------------------------

  // The disable half of a run nothing happens to.
  lemma UndisturbedDisable(c: Config, s: State)
    requires s.phase.Idle?
    ensures var w := s.world;
      var removed := RemovedInPolicy(c, w.included, w.excluded, ActiveEmails(w.accounts), w.baseline);
      Next(c, Next(c, Next(c, s, Step), Step), Step).world.accounts ==
        if w.configured && !OverCap(c, removed, ActiveEmails(w.accounts)) then Deactivate(w.accounts, removed)
        else w.accounts
  {
    var fetched := Next(c, s, Step);
    if s.world.configured {
      assert fetched.world == s.world && fetched.phase == Fetched(s.world.included, s.world.excluded);
      var decided := Next(c, fetched, Step);
      assert decided.world.accounts == s.world.accounts;
    }
  }

  // The account was synced, some run cut short wrote its rule out of the policy,
  // and nobody outside removed it since.
  ghost predicate WrittenOut(s: State, email: string) {
    email in s.world.baseline && email in s.dropped && email !in s.outside && email !in PolicyEmails(s.world)
  }

  // At any quiet moment of any history: the run that starts now, undisturbed,
  // disables an account whose rule no outside edit removed exactly if the sync is
  // configured, the run is under its cap, the policy names somebody, and the
  // account is an active member, written out by a run cut short, neither pinned
  // nor admitted by a domain rule.
  lemma DisablesWithoutRemovalIff(c: Config, s0: State, events: seq<Event>, i: nat)
    requires Initial(s0) && Run(c, s0, events).phase.Idle? && i < |Run(c, s0, events).world.accounts|
    ensures var s := Run(c, s0, events);
      var w, a := s.world, s.world.accounts[i];
      var after := Next(c, Next(c, Next(c, s, Step), Step), Step).world.accounts;
      && |after| == |w.accounts|
      && (after[i] != a && a.email !in s.outside <==>
            && w.configured && Emails(w.included) != []
            && !OverCap(c, RemovedInPolicy(c, w.included, w.excluded, ActiveEmails(w.accounts), w.baseline),
                        ActiveEmails(w.accounts))
            && a.active && !a.admin && WrittenOut(s, a.email)
            && a.email !in c.pinned && !CoveredByDomain(w.included, w.excluded, a.email))
      && (WrittenOut(s, a.email) ==> s.cutShort)
  {
    var s := Run(c, s0, events);
    var w, a := s.world, s.world.accounts[i];
    RunKeeps(c, s0, events);
    UndisturbedDisable(c, s);
    assert a in w.accounts;
    assert a.email in w.baseline ==> a.email in ToSet(w.baseline);
    assert a.email in PolicyEmails(w) <==> a.email in Emails(w.included);
  }
}
