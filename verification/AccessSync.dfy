// The two-way Access sync: one run reconciles the panel's active users with the
// email and domain rules of an external policy, using the stored baseline to
// tell "added in the panel" from "removed in the policy". Emails and domains
// are taken as already normalised.
module AccessSync {
  import opened Options

  // A policy rule. `extra` stands for every field the panel does not model; a
  // rule the panel writes itself has none.
  datatype Rule =
    | EmailRule(email: string, extra: int)
    | DomainRule(domain: string, extra: int)
    | OtherRule(extra: int)

  const BARE := 0

  datatype Account = Account(email: string, active: bool, admin: bool)

  datatype AuditRow = AuditRow(candidates: seq<string>, limit: nat, activeCount: nat,
                               overAbsoluteCap: bool, overMajority: bool)

  // Everything a run reads or writes: the panel's tables, the external policy,
  // and the candidates of the last recorded abort (a sorted list is compared,
  // so a multiset is kept).
  datatype World = World(
    configured: bool,
    accounts: seq<Account>,
    included: seq<Rule>,
    excluded: seq<Rule>,
    baseline: seq<string>,
    baselineDomains: seq<string>,
    desiredDomains: seq<string>,
    lastAborted: Option<multiset<string>>,
    audit: seq<AuditRow>)

  datatype Config = Config(pinned: seq<string>, maxDisables: nat)

  datatype Outcome = NotConfigured | NoActiveUsers | Aborted | Synced | Unchanged

  // ---- Filters over rules and accounts ------------------------------------------

  function Emails(rules: seq<Rule>): (out: seq<string>)
    ensures forall e :: e in out <==> exists r :: r in rules && r.EmailRule? && r.email == e
  {
    if rules == [] then []
    else
      assert rules == [rules[0]] + rules[1..];
      (if rules[0].EmailRule? then [rules[0].email] else []) + Emails(rules[1..])
  }

  function Domains(rules: seq<Rule>): (out: seq<string>)
    ensures forall d :: d in out <==> exists r :: r in rules && r.DomainRule? && r.domain == d
  {
    if rules == [] then []
    else
      assert rules == [rules[0]] + rules[1..];
      (if rules[0].DomainRule? then [rules[0].domain] else []) + Domains(rules[1..])
  }

  // The filters a run applies to a rule list.
  datatype Kind =
    | AnyEmail
    | AnyDomain
    | AnyOther
    | ForeignEmail(owned: seq<string>, wanted: seq<string>)
    | ForeignDomain(owned: seq<string>, wanted: seq<string>)

  // Foreign: neither owned by the panel nor wanted by it.
  predicate Keeps(k: Kind, r: Rule) {
    match k
    case AnyEmail => r.EmailRule?
    case AnyDomain => r.DomainRule?
    case AnyOther => r.OtherRule?
    case ForeignEmail(owned, wanted) => r.EmailRule? && r.email !in owned && r.email !in wanted
    case ForeignDomain(owned, wanted) => r.DomainRule? && r.domain !in owned && r.domain !in wanted
  }

  function Select(rules: seq<Rule>, k: Kind): (out: seq<Rule>)
    ensures forall r :: r in out <==> r in rules && Keeps(k, r)
  {
    if rules == [] then []
    else
      assert rules == [rules[0]] + rules[1..];
      (if Keeps(k, rules[0]) then [rules[0]] else []) + Select(rules[1..], k)
  }

  // Insertion order, each value once.
  function Dedupe(xs: seq<string>): (out: seq<string>)
    ensures forall x :: x in out <==> x in xs
    ensures forall i, j :: 0 <= i < j < |out| ==> out[i] != out[j]
  {
    if xs == [] then []
    else
      var init, last := xs[..|xs| - 1], xs[|xs| - 1];
      assert xs == init + [last];
      Dedupe(init) + if last in init then [] else [last]
  }

  function ToSet<T>(xs: seq<T>): set<T> {
    set x | x in xs
  }

  function ActiveEmails(accounts: seq<Account>): (out: seq<string>)
    ensures forall e :: e in out <==> exists a :: a in accounts && a.active && a.email == e
  {
    if accounts == [] then []
    else
      assert accounts == [accounts[0]] + accounts[1..];
      (if accounts[0].active then [accounts[0].email] else []) + ActiveEmails(accounts[1..])
  }

  // Everything after the last "@", or nothing.
  function DomainOf(email: string): string {
    if '@' !in email then ""
    else if email[|email| - 1] == '@' then ""
    else DomainOf(email[..|email| - 1]) + [email[|email| - 1]]
  }

  // ---- The decisions of one run ----------------------------------------------------

  // Still admitted by a domain rule and not carved back out by an exclusion.
  predicate CoveredByDomain(included: seq<Rule>, excluded: seq<Rule>, email: string) {
    && DomainOf(email) in Domains(included)
    && email !in Emails(excluded)
    && DomainOf(email) !in Domains(excluded)
  }

  // Synced before, still active, and gone from the policy.
  predicate Candidate(c: Config, included: seq<Rule>, excluded: seq<Rule>, active: seq<string>, email: string) {
    && email in active
    && email !in Emails(included)
    && email !in c.pinned
    && !CoveredByDomain(included, excluded, email)
  }

  function RemovedInPolicy(c: Config, included: seq<Rule>, excluded: seq<Rule>,
                           active: seq<string>, baseline: seq<string>): seq<string> {
    if Emails(included) == [] then []
    else Candidates(c, included, excluded, active, baseline)
  }

  function Candidates(c: Config, included: seq<Rule>, excluded: seq<Rule>,
                      active: seq<string>, emails: seq<string>): (out: seq<string>)
    ensures forall e :: e in out <==> e in emails && Candidate(c, included, excluded, active, e)
  {
    if emails == [] then []
    else
      assert emails == [emails[0]] + emails[1..];
      (if Candidate(c, included, excluded, active, emails[0]) then [emails[0]] else [])
      + Candidates(c, included, excluded, active, emails[1..])
  }

  function CeilHalf(n: nat): nat {
    (n + 1) / 2
  }

  predicate OverCap(c: Config, removed: seq<string>, active: seq<string>) {
    && c.maxDisables > 0
    && (|removed| > c.maxDisables || |removed| > CeilHalf(|ToSet(active)|))
  }

  // `deactivateByEmail`: the listed active accounts, except administrators.
  function Deactivate(accounts: seq<Account>, emails: seq<string>): (out: seq<Account>)
    ensures |out| == |accounts|
    ensures forall i :: 0 <= i < |out| ==>
              out[i] == if accounts[i].active && accounts[i].email in emails && !accounts[i].admin
                        then accounts[i].(active := false) else accounts[i]
  {
    seq(|accounts|, i requires 0 <= i < |accounts| =>
      if accounts[i].active && accounts[i].email in emails && !accounts[i].admin
      then accounts[i].(active := false) else accounts[i])
  }

  function Desired(c: Config, accounts: seq<Account>): seq<string> {
    Dedupe(ActiveEmails(accounts) + c.pinned)
  }

  function EmailRules(emails: seq<string>): (rules: seq<Rule>)
    ensures |rules| == |emails|
    ensures forall i :: 0 <= i < |emails| ==> rules[i] == EmailRule(emails[i], BARE)
  {
    seq(|emails|, i requires 0 <= i < |emails| => EmailRule(emails[i], BARE))
  }

  function DomainRules(domains: seq<string>): (rules: seq<Rule>)
    ensures |rules| == |domains|
    ensures forall i :: 0 <= i < |domains| ==> rules[i] == DomainRule(domains[i], BARE)
  {
    seq(|domains|, i requires 0 <= i < |domains| => DomainRule(domains[i], BARE))
  }

  datatype Plan = Plan(next: seq<Rule>, desired: seq<string>, desiredDomains: seq<string>, inSync: bool)

  function PlanWrite(included: seq<Rule>, owned: seq<string>, ownedDomains: seq<string>,
                     desired: seq<string>, desiredDomains: seq<string>): Plan {
    var others := Select(included, AnyOther);
    var foreignDomains := Select(included, ForeignDomain(ownedDomains, desiredDomains));
    var foreignEmails := Select(included, ForeignEmail(owned, desired));
    var nextDomains := ToSet(Domains(foreignDomains)) + ToSet(desiredDomains);
    var nextEmails := ToSet(Emails(foreignEmails)) + ToSet(desired);
    Plan(others + foreignDomains + DomainRules(desiredDomains) + foreignEmails + EmailRules(desired),
         desired, desiredDomains,
         nextDomains == ToSet(Domains(included)) && nextEmails == ToSet(Emails(included)))
  }

  // ---- A run, effect by effect --------------------------------------------------------

  datatype Phase =
    | Idle
    | Fetched(included: seq<Rule>, excluded: seq<Rule>)
    | Decided(included: seq<Rule>, excluded: seq<Rule>, owned: seq<string>, removed: seq<string>)
    | Disabled(included: seq<Rule>, excluded: seq<Rule>, owned: seq<string>)
    | Planned(excluded: seq<Rule>, plan: Plan)
    | Written(plan: Plan)

  datatype Progress = Progress(world: World, phase: Phase, outcome: Option<Outcome>)

  function Fetch(w: World): Progress {
    if !w.configured then Progress(w.(lastAborted := None), Idle, Some(NotConfigured))
    else Progress(w, Fetched(w.included, w.excluded), None)
  }

  function Decide(c: Config, w: World, included: seq<Rule>, excluded: seq<Rule>): Progress {
    var active := ActiveEmails(w.accounts);
    var removed := RemovedInPolicy(c, included, excluded, active, w.baseline);
    if OverCap(c, removed, active) then
      var row := AuditRow(removed, c.maxDisables, |ToSet(active)|, |removed| > c.maxDisables,
                          |removed| > CeilHalf(|ToSet(active)|));
      var audit := if w.lastAborted == Some(multiset(removed)) then w.audit else w.audit + [row];
      Progress(w.(audit := audit, lastAborted := Some(multiset(removed))), Idle, Some(Aborted))
    else
      Progress(w.(lastAborted := None), Decided(included, excluded, w.baseline, removed), None)
  }

  function Disable(w: World, included: seq<Rule>, excluded: seq<Rule>, owned: seq<string>, removed: seq<string>): Progress {
    Progress(w.(accounts := Deactivate(w.accounts, removed)), Disabled(included, excluded, owned), None)
  }

  function MakePlan(c: Config, w: World, included: seq<Rule>, excluded: seq<Rule>, owned: seq<string>): Progress {
    var desired := Desired(c, w.accounts);
    if desired == [] then Progress(w, Idle, Some(NoActiveUsers))
    else
      Progress(w, Planned(excluded, PlanWrite(included, owned, w.baselineDomains, desired, w.desiredDomains)), None)
  }

  // One PUT of the whole policy as it was fetched, with the new include list.
  function Write(w: World, excluded: seq<Rule>, plan: Plan): Progress {
    Progress(if plan.inSync then w else w.(included := plan.next, excluded := excluded), Written(plan), None)
  }

  function Store(w: World, plan: Plan): Progress {
    Progress(w.(baseline := plan.desired, baselineDomains := plan.desiredDomains), Idle,
             Some(if plan.inSync then Unchanged else Synced))
  }

  function Advance(c: Config, w: World, phase: Phase): Progress {
    match phase
    case Idle => Fetch(w)
    case Fetched(included, excluded) => Decide(c, w, included, excluded)
    case Decided(included, excluded, owned, removed) => Disable(w, included, excluded, owned, removed)
    case Disabled(included, excluded, owned) => MakePlan(c, w, included, excluded, owned)
    case Planned(excluded, plan) => Write(w, excluded, plan)
    case Written(plan) => Store(w, plan)
  }

  // The panel-to-policy half of a run.
  function WriteBack(c: Config, w: World, included: seq<Rule>, excluded: seq<Rule>, owned: seq<string>): Progress {
    var planned := MakePlan(c, w, included, excluded, owned);
    if planned.phase.Idle? then planned
    else Store(Write(w, excluded, planned.phase.plan).world, planned.phase.plan)
  }

  // A whole run with nothing happening in between.
  function RunOnce(c: Config, w: World): Progress {
    var fetched := Fetch(w);
    if fetched.phase.Idle? then fetched
    else
      var decided := Decide(c, fetched.world, w.included, w.excluded);
      if decided.phase.Idle? then decided
      else
        var disabled := Disable(decided.world, w.included, w.excluded, w.baseline, decided.phase.removed);
        WriteBack(c, disabled.world, w.included, w.excluded, w.baseline)
  }

  // ---- What one run guarantees ---------------------------------------------------------

  // A capped run changes neither accounts, policy nor baselines.
  lemma CappedRunChangesNothing(c: Config, w: World)
    requires RunOnce(c, w).outcome == Some(Aborted)
    ensures RunOnce(c, w).world == w.(audit := RunOnce(c, w).world.audit, lastAborted := RunOnce(c, w).world.lastAborted)
    ensures |RunOnce(c, w).world.audit| - |w.audit| ==
              if w.lastAborted == RunOnce(c, w).world.lastAborted then 0 else 1
  {}

  // The accounts a run disables.
  ghost function DisabledBy(before: seq<Account>, after: seq<Account>): set<string>
    requires |before| == |after|
  {
    set i | 0 <= i < |before| && before[i].active && !after[i].active :: before[i].email
  }

  lemma {:induction false} SetOfSelected(xs: seq<string>)
    ensures |ToSet(xs)| <= |xs|
  {
    if xs != [] {
      SetOfSelected(xs[1..]);
      assert xs == [xs[0]] + xs[1..];
      assert ToSet(xs) == {xs[0]} + ToSet(xs[1..]);
    }
  }

  lemma SubsetSize<T>(a: set<T>, b: set<T>)
    requires a <= b
    ensures |a| <= |b|
  {
    assert b == a + (b - a);
  }

  lemma WriteBackLeavesAccounts(c: Config, w: World, included: seq<Rule>, excluded: seq<Rule>, owned: seq<string>)
    ensures WriteBack(c, w, included, excluded, owned).world.accounts == w.accounts
  {}

  // The only change a run makes to accounts is the disable step, below the cap.
  lemma RunAccounts(c: Config, w: World)
    ensures var removed := RemovedInPolicy(c, w.included, w.excluded, ActiveEmails(w.accounts), w.baseline);
      var after := RunOnce(c, w).world.accounts;
      || after == w.accounts
      || (after == Deactivate(w.accounts, removed) && !OverCap(c, removed, ActiveEmails(w.accounts)))
  {
    var fetched := Fetch(w);
    if !fetched.phase.Idle? {
      var decided := Decide(c, fetched.world, w.included, w.excluded);
      if !decided.phase.Idle? {
        var disabled := Disable(decided.world, w.included, w.excluded, w.baseline, decided.phase.removed);
        WriteBackLeavesAccounts(c, disabled.world, w.included, w.excluded, w.baseline);
      }
    }
  }

  lemma DisabledAreListed(accounts: seq<Account>, emails: seq<string>)
    ensures |DisabledBy(accounts, Deactivate(accounts, emails))| <= |emails|
  {
    var gone := DisabledBy(accounts, Deactivate(accounts, emails));
    forall e | e in gone ensures e in ToSet(emails) {
      var i :| 0 <= i < |accounts| && accounts[i].active && !Deactivate(accounts, emails)[i].active && e == accounts[i].email;
    }
    SubsetSize(gone, ToSet(emails));
    SetOfSelected(emails);
  }

  // Who a run may disable: only accounts of the stored baseline that are gone
  // from the policy's emails, not pinned, not administrators and not covered
  // by a domain rule. Nobody is ever re-activated.
  lemma DisablesOnlyRemoved(c: Config, w: World, i: nat)
    requires i < |w.accounts|
    ensures |RunOnce(c, w).world.accounts| == |w.accounts|
    ensures var before, after := w.accounts[i], RunOnce(c, w).world.accounts[i];
      after != before ==>
        && before.active && after == before.(active := false)
        && before.email in w.baseline && before.email !in Emails(w.included)
        && before.email !in c.pinned && !before.admin
        && !CoveredByDomain(w.included, w.excluded, before.email)
  {
    RunAccounts(c, w);
  }

  // With a cap set, a run disables at most the cap and at most half of the
  // active users, rounded up.
  lemma DisablesWithinCap(c: Config, w: World)
    requires c.maxDisables > 0
    ensures |RunOnce(c, w).world.accounts| == |w.accounts|
    ensures var gone := DisabledBy(w.accounts, RunOnce(c, w).world.accounts);
      |gone| <= c.maxDisables && 2 * |gone| <= |set a | a in w.accounts && a.active :: a.email| + 1
  {
    RunAccounts(c, w);
    assert ToSet(ActiveEmails(w.accounts)) == set a | a in w.accounts && a.active :: a.email;
    if RunOnce(c, w).world.accounts == w.accounts {
      assert DisabledBy(w.accounts, w.accounts) == {};
    } else {
      DisabledAreListed(w.accounts, RemovedInPolicy(c, w.included, w.excluded, ActiveEmails(w.accounts), w.baseline));
    }
  }

  // And conversely: in a run that is not capped, exactly the non-administrators
  // among those candidates lose their account.
  lemma DisablesEveryRemoved(c: Config, w: World, i: nat)
    requires i < |w.accounts| && w.configured && RunOnce(c, w).outcome != Some(Aborted)
    requires Emails(w.included) != []
    requires w.accounts[i].active && !w.accounts[i].admin && w.accounts[i].email in w.baseline
    requires w.accounts[i].email !in Emails(w.included) && w.accounts[i].email !in c.pinned
    requires !CoveredByDomain(w.included, w.excluded, w.accounts[i].email)
    ensures !RunOnce(c, w).world.accounts[i].active
  {
    var active := ActiveEmails(w.accounts);
    assert w.accounts[i] in w.accounts;
    assert w.accounts[i].email in active;
  }

  // ---- Who a domain rule admits -------------------------------------------------------------

  // The domain is what follows the last "@".
  lemma {:induction false} DomainAfterLastAt(local: string, d: string)
    requires '@' !in d
    ensures DomainOf(local + "@" + d) == d
    decreases |d|
  {
    var email := local + "@" + d;
    assert email[|local|] == '@';
    if d != "" {
      var init, last := d[..|d| - 1], d[|d| - 1];
      assert email[..|email| - 1] == local + "@" + init && email[|email| - 1] == last;
      assert last in d && forall c :: c in init ==> c in d;
      DomainAfterLastAt(local, init);
      assert d == init + [last];
    }
  }

  lemma NoAtNoDomain(email: string)
    requires '@' !in email
    ensures DomainOf(email) == ""
  {}

  // A rule names the email or its domain.
  ghost predicate NamesDomain(rules: seq<Rule>, d: string) {
    exists r :: r in rules && r.DomainRule? && r.domain == d
  }

  ghost predicate NamesEmail(rules: seq<Rule>, email: string) {
    exists r :: r in rules && r.EmailRule? && r.email == email
  }

  lemma CoveredIff(included: seq<Rule>, excluded: seq<Rule>, local: string, d: string)
    requires '@' !in d
    ensures CoveredByDomain(included, excluded, local + "@" + d) <==>
      NamesDomain(included, d) && !NamesDomain(excluded, d) && !NamesEmail(excluded, local + "@" + d)
  {
    DomainAfterLastAt(local, d);
  }

  // Removed in the policy, on the rules themselves.
  ghost predicate GoneFromPolicy(c: Config, w: World, email: string, d: string) {
    && email in w.baseline && email !in c.pinned
    && (exists r :: r in w.included && r.EmailRule?) && !NamesEmail(w.included, email)
    && !(NamesDomain(w.included, d) && !NamesDomain(w.excluded, d) && !NamesEmail(w.excluded, email))
  }

  lemma RemovedIff(c: Config, w: World, active: seq<string>, local: string, d: string)
    requires '@' !in d && local + "@" + d in active
    ensures local + "@" + d in RemovedInPolicy(c, w.included, w.excluded, active, w.baseline) <==>
      GoneFromPolicy(c, w, local + "@" + d, d)
  {
    CoveredIff(w.included, w.excluded, local, d);
    SomeEmailRule(w.included);
  }

  lemma SomeEmailRule(rules: seq<Rule>)
    ensures Emails(rules) != [] <==> exists r :: r in rules && r.EmailRule?
  {
    if Emails(rules) != [] {
      assert Emails(rules)[0] in Emails(rules);
    }
    if r :| r in rules && r.EmailRule? {
      assert r.email in Emails(rules);
    }
  }

  lemma RunDisables(c: Config, w: World)
    requires w.configured && RunOnce(c, w).outcome != Some(Aborted)
    ensures RunOnce(c, w).world.accounts ==
      Deactivate(w.accounts, RemovedInPolicy(c, w.included, w.excluded, ActiveEmails(w.accounts), w.baseline))
  {
    var decided := Decide(c, w, w.included, w.excluded);
    var disabled := Disable(decided.world, w.included, w.excluded, w.baseline, decided.phase.removed);
    WriteBackLeavesAccounts(c, disabled.world, w.included, w.excluded, w.baseline);
  }

  // Who a run disables, on the rules themselves: in a run that is not capped, an
  // account loses its access exactly if it is an active member of the baseline,
  // no administrator and not pinned, some email rule is left but none names it,
  // and no domain rule admits it, or an exclusion of its email or domain carves
  // it out again.
  lemma DisabledIff(c: Config, w: World, i: nat, local: string, d: string)
    requires i < |w.accounts| && w.accounts[i].email == local + "@" + d && '@' !in d
    requires w.configured && RunOnce(c, w).outcome != Some(Aborted)
    ensures |RunOnce(c, w).world.accounts| == |w.accounts|
    ensures var a := w.accounts[i];
      RunOnce(c, w).world.accounts[i] ==
        if a.active && !a.admin && GoneFromPolicy(c, w, a.email, d) then a.(active := false) else a
  {
    var a := w.accounts[i];
    RunDisables(c, w);
    assert a in w.accounts;
    if a.active {
      RemovedIff(c, w, ActiveEmails(w.accounts), local, d);
    }
  }

  // When a run is capped.
  lemma AbortedIff(c: Config, w: World)
    ensures var n := |RemovedInPolicy(c, w.included, w.excluded, ActiveEmails(w.accounts), w.baseline)|;
      RunOnce(c, w).outcome == Some(Aborted) <==>
        w.configured && c.maxDisables > 0
        && (n > c.maxDisables || 2 * n > |set e | e in ActiveEmails(w.accounts)| + 1)
  {
    assert ToSet(ActiveEmails(w.accounts)) == set e | e in ActiveEmails(w.accounts);
  }

  // What a capped run records: a row with the candidates, the numbers and the
  // reasons, unless the same candidates were the last recorded.
  lemma AuditSays(c: Config, w: World)
    requires RunOnce(c, w).outcome == Some(Aborted)
    ensures var removed := RemovedInPolicy(c, w.included, w.excluded, ActiveEmails(w.accounts), w.baseline);
      var active := |set a | a in w.accounts && a.active :: a.email|;
      var after := RunOnce(c, w).world;
      && after.lastAborted == Some(multiset(removed))
      && if w.lastAborted == Some(multiset(removed)) then after.audit == w.audit
         else after.audit == w.audit +
                [AuditRow(removed, c.maxDisables, active, |removed| > c.maxDisables, 2 * |removed| > active + 1)]
  {
    assert ToSet(ActiveEmails(w.accounts)) == set a | a in w.accounts && a.active :: a.email;
  }

  // What each outcome says.
  lemma OutcomeSays(c: Config, w: World)
    ensures var after := RunOnce(c, w);
      && after.outcome.Some? && (after.outcome == Some(NotConfigured) <==> !w.configured)
      && (after.outcome == Some(NotConfigured) ==> after.world == w.(lastAborted := None))
      && (after.outcome == Some(NoActiveUsers) ==>
            && (forall a :: a in after.world.accounts ==> !a.active) && c.pinned == []
            && after.world.included == w.included && after.world.baseline == w.baseline)
      && (after.outcome == Some(Unchanged) ==> after.world.included == w.included && after.world.excluded == w.excluded)
      && (after.outcome in {Some(Synced), Some(Unchanged)} ==>
            (exists a :: a in after.world.accounts && a.active) || c.pinned != [])
      && (after.outcome != Some(Aborted) ==> after.world.lastAborted == None && after.world.audit == w.audit)
  {
    if w.configured && RunOnce(c, w).outcome != Some(Aborted) {
      RunDisables(c, w);
      DesiredIsEmptyIff(c, RunOnce(c, w).world.accounts);
    }
  }

  lemma DesiredIsEmptyIff(c: Config, accounts: seq<Account>)
    ensures Desired(c, accounts) == [] <==> (forall a :: a in accounts ==> !a.active) && c.pinned == []
  {
    var all := ActiveEmails(accounts) + c.pinned;
    if Desired(c, accounts) != [] {
      assert Desired(c, accounts)[0] in all;
      if c.pinned == [] {
        assert Desired(c, accounts)[0] in ActiveEmails(accounts);
      }
    }
    if a :| a in accounts && a.active {
      assert a.email in all && a.email in Desired(c, accounts);
    }
    if c.pinned != [] {
      assert c.pinned[0] in all && c.pinned[0] in Desired(c, accounts);
    }
  }

  // Whom a domain rule admits and no exclusion names, no run disables.
  lemma AdmittedStays(c: Config, w: World, i: nat, local: string, d: string)
    requires i < |w.accounts| && w.accounts[i].email == local + "@" + d && '@' !in d
    requires exists r :: r in w.included && r.DomainRule? && r.domain == d
    requires forall r :: r in w.excluded ==>
      !(r.DomainRule? && r.domain == d) && !(r.EmailRule? && r.email == local + "@" + d)
    ensures |RunOnce(c, w).world.accounts| == |w.accounts| && RunOnce(c, w).world.accounts[i] == w.accounts[i]
  {
    CoveredIff(w.included, w.excluded, local, d);
    DisablesOnlyRemoved(c, w, i);
  }

  // ---- What a written policy keeps --------------------------------------------------------

  lemma {:induction false} SelectAppend(xs: seq<Rule>, ys: seq<Rule>, k: Kind)
    ensures Select(xs + ys, k) == Select(xs, k) + Select(ys, k)
    decreases |xs|
  {
    if xs == [] {
      assert xs + ys == ys;
    } else {
      assert (xs + ys)[1..] == xs[1..] + ys;
      SelectAppend(xs[1..], ys, k);
    }
  }

  lemma {:induction false} SelectAllOrNone(xs: seq<Rule>, k: Kind)
    ensures (forall x :: x in xs ==> Keeps(k, x)) ==> Select(xs, k) == xs
    ensures (forall x :: x in xs ==> !Keeps(k, x)) ==> Select(xs, k) == []
    decreases |xs|
  {
    if xs != [] {
      assert xs == [xs[0]] + xs[1..];
      SelectAllOrNone(xs[1..], k);
    }
  }

  // A list made of other rules, then domain rules, then email rules.
  lemma SelectParts(others: seq<Rule>, domains: seq<Rule>, emails: seq<Rule>, k: Kind)
    requires forall r :: r in others ==> r.OtherRule?
    requires forall r :: r in domains ==> r.DomainRule?
    requires forall r :: r in emails ==> r.EmailRule?
    requires k in {AnyOther, AnyDomain, AnyEmail}
    ensures Select(others, k) == if k.AnyOther? then others else []
    ensures Select(domains, k) == if k.AnyDomain? then domains else []
    ensures Select(emails, k) == if k.AnyEmail? then emails else []
  {
    SelectAllOrNone(others, k);
    SelectAllOrNone(domains, k);
    SelectAllOrNone(emails, k);
  }

  lemma SelectOneKind(others: seq<Rule>, domains: seq<Rule>, emails: seq<Rule>, k: Kind)
    requires forall r :: r in others ==> r.OtherRule?
    requires forall r :: r in domains ==> r.DomainRule?
    requires forall r :: r in emails ==> r.EmailRule?
    requires k in {AnyOther, AnyDomain, AnyEmail}
    ensures Select(others + domains + emails, k) ==
      if k.AnyOther? then others else if k.AnyDomain? then domains else emails
  {
    SelectAppend(others, domains, k);
    SelectAppend(others + domains, emails, k);
    SelectParts(others, domains, emails, k);
  }

  // The rules of the written policy of each kind, in order and unchanged: every
  // other rule, every foreign rule, and nothing else but one bare rule for each
  // desired email and each desired domain.
  lemma WriteKeepsForeignRules(included: seq<Rule>, owned: seq<string>, ownedDomains: seq<string>,
                               desired: seq<string>, desiredDomains: seq<string>)
    ensures var next := PlanWrite(included, owned, ownedDomains, desired, desiredDomains).next;
      && Select(next, AnyOther) == Select(included, AnyOther)
      && Select(next, AnyDomain) ==
           Select(included, ForeignDomain(ownedDomains, desiredDomains)) + DomainRules(desiredDomains)
      && Select(next, AnyEmail) == Select(included, ForeignEmail(owned, desired)) + EmailRules(desired)
  {
    var others := Select(included, AnyOther);
    var foreignDomains := Select(included, ForeignDomain(ownedDomains, desiredDomains));
    var foreignEmails := Select(included, ForeignEmail(owned, desired));
    var domains := foreignDomains + DomainRules(desiredDomains);
    var emails := foreignEmails + EmailRules(desired);
    assert others + foreignDomains + DomainRules(desiredDomains) + foreignEmails + EmailRules(desired)
        == others + domains + emails;
    SelectOneKind(others, domains, emails, AnyOther);
    SelectOneKind(others, domains, emails, AnyDomain);
    SelectOneKind(others, domains, emails, AnyEmail);
  }

  function CountEmail(rules: seq<Rule>, email: string): nat {
    if rules == [] then 0
    else (if rules[0].EmailRule? && rules[0].email == email then 1 else 0) + CountEmail(rules[1..], email)
  }

  lemma {:induction false} CountAppend(xs: seq<Rule>, ys: seq<Rule>, email: string)
    ensures CountEmail(xs + ys, email) == CountEmail(xs, email) + CountEmail(ys, email)
    decreases |xs|
  {
    if xs == [] {
      assert xs + ys == ys;
    } else {
      assert (xs + ys)[1..] == xs[1..] + ys;
      CountAppend(xs[1..], ys, email);
    }
  }

  lemma {:induction false} CountAbsent(rules: seq<Rule>, email: string)
    requires forall r :: r in rules ==> !(r.EmailRule? && r.email == email)
    ensures CountEmail(rules, email) == 0
    decreases |rules|
  {
    if rules != [] {
      CountAbsent(rules[1..], email);
    }
  }

  lemma {:induction false} CountDistinct(emails: seq<string>, email: string)
    requires forall i, j :: 0 <= i < j < |emails| ==> emails[i] != emails[j]
    ensures CountEmail(EmailRules(emails), email) == if email in emails then 1 else 0
    decreases |emails|
  {
    if emails != [] {
      CountDistinct(emails[1..], email);
      assert EmailRules(emails)[1..] == EmailRules(emails[1..]);
      assert emails == [emails[0]] + emails[1..];
    }
  }

  // The written policy names every active and every pinned email exactly once.
  lemma EachDesiredOnce(c: Config, accounts: seq<Account>, included: seq<Rule>, owned: seq<string>,
                        ownedDomains: seq<string>, desiredDomains: seq<string>, email: string)
    requires email in ActiveEmails(accounts) || email in c.pinned
    ensures CountEmail(PlanWrite(included, owned, ownedDomains, Desired(c, accounts), desiredDomains).next, email) == 1
  {
    var desired := Desired(c, accounts);
    assert email in desired;
    var others := Select(included, AnyOther);
    var foreignDomains := Select(included, ForeignDomain(ownedDomains, desiredDomains));
    var foreignEmails := Select(included, ForeignEmail(owned, desired));
    var before := others + foreignDomains + DomainRules(desiredDomains) + foreignEmails;
    CountAppend(before, EmailRules(desired), email);
    CountAbsent(before, email);
    CountDistinct(desired, email);
  }

  // After a plan is carried out the policy admits exactly the foreign emails
  // and the desired ones, and likewise for domains, whether or not a write
  // was needed.
  function Reflected(included: seq<Rule>, plan: Plan): seq<Rule> {
    if plan.inSync then included else plan.next
  }

  lemma PlanReflects(included: seq<Rule>, owned: seq<string>, ownedDomains: seq<string>,
                     desired: seq<string>, desiredDomains: seq<string>)
    ensures var plan := PlanWrite(included, owned, ownedDomains, desired, desiredDomains);
      var after := Reflected(included, plan);
      && ToSet(Emails(after)) == ToSet(Emails(Select(included, ForeignEmail(owned, desired)))) + ToSet(desired)
      && ToSet(Domains(after)) ==
           ToSet(Domains(Select(included, ForeignDomain(ownedDomains, desiredDomains)))) + ToSet(desiredDomains)
  {
    var plan := PlanWrite(included, owned, ownedDomains, desired, desiredDomains);
    if !plan.inSync {
      NextEmails(included, owned, ownedDomains, desired, desiredDomains);
      NextDomains(included, owned, ownedDomains, desired, desiredDomains);
    }
  }

  lemma EmailsAppend(xs: seq<Rule>, ys: seq<Rule>)
    ensures forall e :: e in Emails(xs + ys) <==> e in Emails(xs) || e in Emails(ys)
  {
    forall e ensures e in Emails(xs + ys) <==> e in Emails(xs) || e in Emails(ys) {
      if e in Emails(xs) || e in Emails(ys) {
        var r :| (r in xs || r in ys) && r.EmailRule? && r.email == e;
        assert r in xs + ys;
      }
    }
  }

  lemma DomainsAppend(xs: seq<Rule>, ys: seq<Rule>)
    ensures forall d :: d in Domains(xs + ys) <==> d in Domains(xs) || d in Domains(ys)
  {
    forall d ensures d in Domains(xs + ys) <==> d in Domains(xs) || d in Domains(ys) {
      if d in Domains(xs) || d in Domains(ys) {
        var r :| (r in xs || r in ys) && r.DomainRule? && r.domain == d;
        assert r in xs + ys;
      }
    }
  }

  lemma AddedEmails(emails: seq<string>)
    ensures forall e :: e in Emails(EmailRules(emails)) <==> e in emails
    ensures forall d :: d !in Domains(EmailRules(emails))
  {
    forall e | e in emails ensures e in Emails(EmailRules(emails)) {
      var i :| 0 <= i < |emails| && emails[i] == e;
      assert EmailRules(emails)[i] in EmailRules(emails);
    }
  }

  lemma AddedDomains(domains: seq<string>)
    ensures forall d :: d in Domains(DomainRules(domains)) <==> d in domains
    ensures forall e :: e !in Emails(DomainRules(domains))
  {
    forall d | d in domains ensures d in Domains(DomainRules(domains)) {
      var i :| 0 <= i < |domains| && domains[i] == d;
      assert DomainRules(domains)[i] in DomainRules(domains);
    }
  }

  lemma NextEmails(included: seq<Rule>, owned: seq<string>, ownedDomains: seq<string>,
                   desired: seq<string>, desiredDomains: seq<string>)
    ensures var next := PlanWrite(included, owned, ownedDomains, desired, desiredDomains).next;
      forall e :: e in Emails(next) <==> e in Emails(Select(included, ForeignEmail(owned, desired))) || e in desired
  {
    var others, fd := Select(included, AnyOther), Select(included, ForeignDomain(ownedDomains, desiredDomains));
    var fe := Select(included, ForeignEmail(owned, desired));
    EmailsAppend(others, fd);
    EmailsAppend(others + fd, DomainRules(desiredDomains));
    EmailsAppend(others + fd + DomainRules(desiredDomains), fe);
    EmailsAppend(others + fd + DomainRules(desiredDomains) + fe, EmailRules(desired));
    AddedEmails(desired);
    AddedDomains(desiredDomains);
  }

  lemma NextDomains(included: seq<Rule>, owned: seq<string>, ownedDomains: seq<string>,
                    desired: seq<string>, desiredDomains: seq<string>)
    ensures var next := PlanWrite(included, owned, ownedDomains, desired, desiredDomains).next;
      forall d :: d in Domains(next) <==>
        d in Domains(Select(included, ForeignDomain(ownedDomains, desiredDomains))) || d in desiredDomains
  {
    var others, fd := Select(included, AnyOther), Select(included, ForeignDomain(ownedDomains, desiredDomains));
    var fe := Select(included, ForeignEmail(owned, desired));
    DomainsAppend(others, fd);
    DomainsAppend(others + fd, DomainRules(desiredDomains));
    DomainsAppend(others + fd + DomainRules(desiredDomains), fe);
    DomainsAppend(others + fd + DomainRules(desiredDomains) + fe, EmailRules(desired));
    AddedEmails(desired);
    AddedDomains(desiredDomains);
  }

  // Once the policy names everything desired and the baseline owns exactly
  // that, planning again finds nothing to write.
  lemma InSyncAgain(included: seq<Rule>, desired: seq<string>, desiredDomains: seq<string>)
    requires ToSet(desired) <= ToSet(Emails(included)) && ToSet(desiredDomains) <= ToSet(Domains(included))
    ensures PlanWrite(included, desired, desiredDomains, desired, desiredDomains).inSync
  {
    var fe := Select(included, ForeignEmail(desired, desired));
    var fd := Select(included, ForeignDomain(desiredDomains, desiredDomains));
    forall e ensures e in Emails(included) <==> e in Emails(fe) || e in desired {
      assert e in desired ==> e in ToSet(desired);
      if e in Emails(included) && e !in desired {
        var r :| r in included && r.EmailRule? && r.email == e;
        assert r in fe;
      }
    }
    forall d ensures d in Domains(included) <==> d in Domains(fd) || d in desiredDomains {
      assert d in desiredDomains ==> d in ToSet(desiredDomains);
      if d in Domains(included) && d !in desiredDomains {
        var r :| r in included && r.DomainRule? && r.domain == d;
        assert r in fd;
      }
    }
  }

  // The world right after a run that stored its baseline.
  ghost predicate Settled(c: Config, w: World) {
    && w.configured && w.lastAborted == None
    && w.baseline == Desired(c, w.accounts) && w.baseline != []
    && w.baselineDomains == w.desiredDomains
    && ToSet(w.baseline) <= ToSet(Emails(w.included))
    && ToSet(w.baselineDomains) <= ToSet(Domains(w.included))
  }

  lemma CompletedRunSettles(c: Config, w: World)
    requires RunOnce(c, w).outcome in {Some(Synced), Some(Unchanged)}
    ensures Settled(c, RunOnce(c, w).world)
  {
    var decided := Decide(c, Fetch(w).world, w.included, w.excluded);
    var disabled := Disable(decided.world, w.included, w.excluded, w.baseline, decided.phase.removed);
    PlanReflects(w.included, w.baseline, w.baselineDomains, Desired(c, disabled.world.accounts), w.desiredDomains);
  }

  lemma SettledHasNoCandidates(c: Config, w: World)
    requires ToSet(w.baseline) <= ToSet(Emails(w.included))
    ensures RemovedInPolicy(c, w.included, w.excluded, ActiveEmails(w.accounts), w.baseline) == []
  {
    var removed := RemovedInPolicy(c, w.included, w.excluded, ActiveEmails(w.accounts), w.baseline);
    forall e | e in w.baseline ensures e in Emails(w.included) {
      assert e in ToSet(w.baseline);
    }
    assert forall e :: e !in removed;
    NonemptyHasMember(removed);
  }

  lemma NonemptyHasMember(xs: seq<string>)
    ensures xs != [] ==> exists x :: x in xs
  {
    if xs != [] {
      assert xs[0] in xs;
    }
  }

  lemma SettledRunChangesNothing(c: Config, w: World)
    requires Settled(c, w)
    ensures RunOnce(c, w) == Progress(w, Idle, Some(Unchanged))
  {
    SettledHasNoCandidates(c, w);
    assert Decide(c, w, w.included, w.excluded) == Progress(w, Decided(w.included, w.excluded, w.baseline, []), None);
    assert Deactivate(w.accounts, []) == w.accounts;
    InSyncAgain(w.included, w.baseline, w.baselineDomains);
    var plan := PlanWrite(w.included, w.baseline, w.baselineDomains, w.baseline, w.baselineDomains);
    assert MakePlan(c, w, w.included, w.excluded, w.baseline) == Progress(w, Planned(w.excluded, plan), None);
    assert Store(w, plan) == Progress(w, Idle, Some(Unchanged));
  }

  // A second run with no change in between reports `unchanged`, writes nothing
  // and disables nobody.
  lemma SecondRunUnchanged(c: Config, w: World)
    requires RunOnce(c, w).outcome in {Some(Synced), Some(Unchanged)}
    ensures RunOnce(c, RunOnce(c, w).world) == Progress(RunOnce(c, w).world, Idle, Some(Unchanged))
  {
    CompletedRunSettles(c, w);
    SettledRunChangesNothing(c, RunOnce(c, w).world);
  }
}
