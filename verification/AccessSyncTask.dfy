// The sync task as it runs: ordered effects on the policy, the accounts, the
// audit log and the stored baseline, and the remembered candidates of the last
// abort. Each run does what the specification `RunOnce` says.
module AccessSyncTask {
  import opened Options
  import opened AccessSync

  class SyncTask {
    const config: Config
    var configured: bool
    var accounts: seq<Account>
    var included: seq<Rule>
    var excluded: seq<Rule>
    var baseline: seq<string>
    var baselineDomains: seq<string>
    var desiredDomains: seq<string>
    var lastAborted: Option<multiset<string>>
    var audit: seq<AuditRow>

    constructor (config: Config, accounts: seq<Account>, included: seq<Rule>, excluded: seq<Rule>)
      ensures this.config == config
      ensures Snapshot() == World(true, accounts, included, excluded, [], [], [], None, [])
    {
      this.config := config;
      this.configured := true;
      this.accounts, this.included, this.excluded := accounts, included, excluded;
      baseline, baselineDomains, desiredDomains := [], [], [];
      lastAborted, audit := None, [];
    }

    ghost function Snapshot(): World
      reads this
    {
      World(configured, accounts, included, excluded, baseline, baselineDomains, desiredDomains, lastAborted, audit)
    }

    // `deactivateByEmail`.
    method DeactivateByEmail(emails: seq<string>)
      modifies this`accounts
      ensures accounts == Deactivate(old(accounts), emails)
    {
      var rows := accounts;
      for i := 0 to |rows|
        invariant |accounts| == |rows|
        invariant forall j :: 0 <= j < |rows| ==>
                    accounts[j] == if j < i then Deactivate(rows, emails)[j] else rows[j]
      {
        if !rows[i].active || rows[i].email !in emails || rows[i].admin {
          continue;
        }
        accounts := accounts[i := rows[i].(active := false)];
      }
    }

    method RecordAborted(removed: seq<string>, active: seq<string>)
      modifies this`audit
      ensures audit == old(audit) + [AuditRow(removed, config.maxDisables, |ToSet(active)|,
                                              |removed| > config.maxDisables, |removed| > CeilHalf(|ToSet(active)|))]
    {
      var activeCount := |ToSet(active)|;
      audit := audit + [AuditRow(removed, config.maxDisables, activeCount,
                                 |removed| > config.maxDisables, |removed| > CeilHalf(activeCount))];
    }

    // Push the desired emails and domains, then record them as the baseline.
    method PushToPolicy(fetched: seq<Rule>, fetchedExcluded: seq<Rule>, owned: seq<string>) returns (outcome: Outcome)
      modifies this`included, this`excluded, this`baseline, this`baselineDomains
      ensures Snapshot() == WriteBack(config, old(Snapshot()), fetched, fetchedExcluded, owned).world
      ensures WriteBack(config, old(Snapshot()), fetched, fetchedExcluded, owned).outcome == Some(outcome)
    {
      var desired := Desired(config, accounts);
      if desired == [] {
        return NoActiveUsers;
      }
      var plan := PlanWrite(fetched, owned, baselineDomains, desired, desiredDomains);
      if !plan.inSync {
        included, excluded := plan.next, fetchedExcluded;
      }
      baseline, baselineDomains := plan.desired, plan.desiredDomains;
      outcome := if plan.inSync then Unchanged else Synced;
    }

    // The policy-to-panel half: disable who was removed, or abort over the cap.
    method DisableRemoved(fetched: seq<Rule>, fetchedExcluded: seq<Rule>) returns (aborted: bool)
      modifies this`accounts, this`lastAborted, this`audit
      ensures var decided := Decide(config, old(Snapshot()), fetched, fetchedExcluded);
        && aborted == decided.phase.Idle?
        && Snapshot() == if aborted then decided.world
                         else Disable(decided.world, fetched, fetchedExcluded, old(baseline), decided.phase.removed).world
    {
      var active := ActiveEmails(accounts);
      var removed := RemovedInPolicy(config, fetched, fetchedExcluded, active, baseline);
      if OverCap(config, removed, active) {
        if lastAborted != Some(multiset(removed)) {
          RecordAborted(removed, active);
        }
        lastAborted := Some(multiset(removed));
        return true;
      }
      lastAborted := None;
      if |removed| > 0 {
        DeactivateByEmail(removed);
      } else {
        assert removed == [] && accounts == Deactivate(accounts, []);
      }
      return false;
    }

    // One run of the task; the old and new worlds are those of `RunOnce`.
    method Run() returns (outcome: Outcome)
      modifies this
      ensures Snapshot() == RunOnce(config, old(Snapshot())).world
      ensures RunOnce(config, old(Snapshot())).outcome == Some(outcome)
    {
      if !configured {
        lastAborted := None;
        return NotConfigured;
      }
      var fetched, fetchedExcluded, owned := included, excluded, baseline;
      var aborted := DisableRemoved(fetched, fetchedExcluded);
      if aborted {
        return Aborted;
      }
      outcome := PushToPolicy(fetched, fetchedExcluded, owned);
    }
  }
}
