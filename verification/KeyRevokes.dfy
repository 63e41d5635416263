// How an accepted revoke can be overwritten, when a key being revoked can come
// back, and how the revoke is then lost for good.
module KeyRevokes {
  import opened Options
  import opened KeyLifecycle
  import opened KeySafety
  import opened KeyRecovery

  // ---- A revoke request overwritten ---------------------------------------------------------

  // A revoke accepted while a disable job is between its node call and its write
  // is overwritten: the write sets the key back to `disabled`. The revoke job is
  // still queued then.
  lemma RevokeRequestOverwritten(s: State, k: KeyId, disable: JobId, revoke: JobId)
    requires Inv(s) && s.phase.Idle? && InState(s, k, {Active})
    requires disable !in s.usedJobs && revoke !in s.usedJobs && disable != revoke
    requires s.rows[k].publicKey.Some? && OnNode(s, s.rows[k].slot.node, s.rows[k].publicKey.value)
    ensures var t := Next(Next(Next(Next(s, AdminDisable(k, disable)), ClaimJob(disable)), Work(Done, 0)), Work(Done, 0));
      var u := Next(t, AskRevoke(k, revoke));
      && InState(u, k, {Revoking}) && InState(Next(u, Work(Done, 0)), k, {Disabled})
  {
    RequestClaimedAndLoaded(s, k, {Active}, Disabled, disable, Disable);
    var s3 := Next(Next(Next(s, AdminDisable(k, disable)), ClaimJob(disable)), Work(Done, 0));
    var c, ctx := Claim(disable, Disable, k, 1), Context(s.rows[k].slot, s.rows[k].publicKey);
    assert s3.phase == Busy(c, Switching(ctx));
    assert OnNode(s3, ctx.slot.node, ctx.publicKey.value) by {
      var p :| p in s.peers && p.slot.node == ctx.slot.node && p.id == ctx.publicKey.value;
      assert p in s3.peers;
    }
    assert Next(s3, Work(Done, 0)) == On(s3, c, Switched(ctx));
    OverwrittenByCompletion(On(s3, c, Switched(ctx)), c, ctx, k, revoke);
  }

  lemma OverwrittenByCompletion(t: State, c: Claim, ctx: Context, k: KeyId, revoke: JobId)
    requires t.phase == Busy(c, Switched(ctx)) && c.kind.Disable? && c.key == k
    requires InState(t, k, {Disabled}) && revoke !in t.usedJobs
    ensures var u := Next(t, AskRevoke(k, revoke));
      && InState(u, k, {Revoking}) && InState(Next(u, Work(Done, 0)), k, {Disabled})
  {
    var u := Next(t, AskRevoke(k, revoke));
    assert u.phase == t.phase && InState(u, k, {Revoking});
  }

  // A disable or enable of the key is queued or under way.
  ghost predicate SwitchOutstanding(s: State, k: KeyId) {
    || (exists j :: j in s.jobs && Switches(s.jobs[j].kind) && s.jobs[j].key == k && Live(s.jobs[j]))
    || (s.phase.Busy? && Switches(s.phase.claim.kind) && s.phase.claim.key == k)
  }

  // The key is being revoked, or is revoked, and nothing will switch it.
  ghost predicate Unswitched(s: State, k: KeyId) {
    && k in s.usedKeys && !SwitchOutstanding(s, k)
    && (k in s.rows ==> s.rows[k].state in {Revoking, Revoked})
  }

  lemma WorkKeepsUnswitched(s: State, reply: Reply, pick: PeerId, k: KeyId)
    requires Inv(s) && JobsOk(s) && Unswitched(s, k) && s.phase.Busy?
    ensures Unswitched(WorkerStep(s, reply, pick), k)
  {
    WorkMovesRows(s, reply, pick);
    WorkJobs(s, reply, pick);
    LiveStays(s, WorkerStep(s, reply, pick), k);
  }

  // With the claim in progress not a switch of the key, the status of its job
  // does not matter.
  lemma LiveStays(s: State, t: State, k: KeyId)
    requires JobsOk(s) && s.phase.Busy? && !SwitchOutstanding(s, k) && SameJobsBut(s, t, s.phase.claim.job)
    requires t.phase.Busy? ==> t.phase.claim == s.phase.claim
    ensures !SwitchOutstanding(t, k)
  {}

  lemma StepKeepsUnswitched(s: State, ev: Event, k: KeyId)
    requires Inv(s) && JobsOk(s) && Unswitched(s, k)
    ensures Unswitched(Next(s, ev), k)
  {
    match ev
    case Work(reply, pick) => if s.phase.Busy? { WorkKeepsUnswitched(s, reply, pick, k); }
    case ClaimJob(j) =>
    case StopWorker =>
    case _ => ApiKeepsUnswitched(s, ev, k);
  }

  lemma ApiKeepsUnswitched(s: State, ev: Event, k: KeyId)
    requires Inv(s) && JobsOk(s) && Unswitched(s, k)
    ensures Unswitched(Api(s, ev), k)
  {
    ApiMovesRows(s, ev);
    ApiJobs(s, ev);
    ApiLeavesNode(s, ev);
  }

  lemma {:induction false} RunKeepsUnswitched(s: State, events: seq<Event>, k: KeyId)
    requires Inv(s) && JobsOk(s) && Unswitched(s, k)
    ensures Unswitched(Run(s, events), k)
    decreases |events|
  {
    if events != [] {
      RunKeepsUnswitched(s, events[..|events| - 1], k);
      RunKeepsJobs(s, events[..|events| - 1]);
      StepKeepsUnswitched(Run(s, events[..|events| - 1]), events[|events| - 1], k);
    }
  }

  ghost predicate PeerGone(s: State, id: Option<PeerId>) {
    id.Some? ==> id.value in s.madeFor && forall p :: p in s.peers ==> p.id != id.value
  }

  // The key is being revoked, or is revoked, and its recorded peer is not there to
  // be switched.
  ghost predicate Unswitchable(s: State, k: KeyId, id: Option<PeerId>) {
    && k in s.usedKeys && PeerGone(s, id)
    && (k in s.rows ==> s.rows[k].publicKey == id && s.rows[k].state in {Revoking, Revoked})
    && (s.phase.Busy? && s.phase.claim.key == k ==>
          && !s.phase.call.Switched?
          && (s.phase.call.Switching? ==> s.phase.call.ctx.publicKey == id))
  }

  lemma WorkKeepsUnswitchable(s: State, reply: Reply, pick: PeerId, k: KeyId, id: Option<PeerId>)
    requires Inv(s) && s.phase.Busy? && Unswitchable(s, k, id)
    ensures Unswitchable(WorkerStep(s, reply, pick), k, id)
  {
    WorkMovesRows(s, reply, pick);
    WorkLeavesPublicKey(s, reply, pick, k);
    if id.Some? {
      WorkAddsOnlyFreshPeers(s, reply, pick, id.value);
    }
    if s.phase.claim.key == k {
      WorkReachesNoSwitch(s, reply, pick, k, id);
    }
  }

  // Only storing a provisioned peer writes a public key.
  lemma WorkLeavesPublicKey(s: State, reply: Reply, pick: PeerId, k: KeyId)
    requires s.phase.Busy? && (k in s.rows ==> !s.rows[k].state.Provisioning?)
    ensures k in s.rows ==> k in WorkerStep(s, reply, pick).rows
    ensures k in s.rows ==> WorkerStep(s, reply, pick).rows[k].publicKey == s.rows[k].publicKey
    ensures WorkerStep(s, reply, pick).phase.Busy? ==> WorkerStep(s, reply, pick).phase.claim == s.phase.claim
  {
    if !WritesDatabase(s.phase.call) {
      OtherCallsAreNodeOnly(s, reply, pick);
    }
  }

  lemma WorkReachesNoSwitch(s: State, reply: Reply, pick: PeerId, k: KeyId, id: Option<PeerId>)
    requires s.phase.Busy? && s.phase.claim.key == k && Unswitchable(s, k, id)
    ensures var t := WorkerStep(s, reply, pick);
      t.phase.Busy? ==> !t.phase.call.Switched? && (t.phase.call.Switching? ==> t.phase.call.ctx.publicKey == id)
  {
    assert id.Some? ==> !OnNode(s, 0, id.value);
  }

  lemma StepKeepsUnswitchable(s: State, ev: Event, k: KeyId, id: Option<PeerId>)
    requires Inv(s) && Unswitchable(s, k, id)
    ensures Unswitchable(Next(s, ev), k, id)
  {
    match ev
    case Work(reply, pick) => if s.phase.Busy? { WorkKeepsUnswitchable(s, reply, pick, k, id); }
    case ClaimJob(j) =>
    case StopWorker =>
    case _ => ApiKeepsUnswitchable(s, ev, k, id);
  }

  lemma ApiKeepsUnswitchable(s: State, ev: Event, k: KeyId, id: Option<PeerId>)
    requires Inv(s) && Unswitchable(s, k, id)
    ensures Unswitchable(Api(s, ev), k, id)
  {
    ApiMovesRows(s, ev);
    ApiLeavesNode(s, ev);
  }

  lemma {:induction false} RunKeepsUnswitchable(s: State, events: seq<Event>, k: KeyId, id: Option<PeerId>)
    requires Inv(s) && Unswitchable(s, k, id)
    ensures Unswitchable(Run(s, events), k, id)
    decreases |events|
  {
    if events != [] {
      RunKeepsUnswitchable(s, events[..|events| - 1], k, id);
      RunKeeps(s, events[..|events| - 1]);
      StepKeepsUnswitchable(Run(s, events[..|events| - 1]), events[|events| - 1], k, id);
    }
  }

  // A queued switch overwrites `revoking`, whatever has been accepted since.
  lemma QueuedSwitchOverwrites(s: State, k: KeyId, j: JobId)
    requires s.phase.Idle? && InState(s, k, {Revoking}) && PeerInPlace(s, k)
    requires j in s.jobs && Switches(s.jobs[j].kind) && s.jobs[j].key == k && Live(s.jobs[j])
    ensures InState(Run(s, [ClaimJob(j), Work(Done, 0), Work(Done, 0), Work(Done, 0)]), k, {Active, Disabled})
  {
    RunOfFour(s, ClaimJob(j), Work(Done, 0), Work(Done, 0), Work(Done, 0));
    SwitchReachesWrite(s, k, j);
    SwitchWrites(Next(Next(Next(s, ClaimJob(j)), Work(Done, 0)), Work(Done, 0)), k);
  }

  // Of a key being revoked, with the worker between jobs: some run brings it back
  // to active or disabled exactly if its peer is in place and a disable or enable
  // of it, accepted before the revoke, is still queued.
  lemma RevokingReturnsIff(s: State, k: KeyId)
    requires Inv(s) && JobsOk(s) && s.phase.Idle? && InState(s, k, {Revoking})
    ensures CanReach(s, k, {Active, Disabled}) <==> SwitchOutstanding(s, k) && PeerInPlace(s, k)
  {
    if SwitchOutstanding(s, k) && PeerInPlace(s, k) {
      var j :| j in s.jobs && Switches(s.jobs[j].kind) && s.jobs[j].key == k && Live(s.jobs[j]);
      QueuedSwitchOverwrites(s, k, j);
      var events := [ClaimJob(j), Work(Done, 0), Work(Done, 0), Work(Done, 0)];
      Reaches(s, events, k, {Active, Disabled});
    } else if SwitchOutstanding(s, k) {
      var id := s.rows[k].publicKey;
      assert PeerGone(s, id) by {
        forall p | p in s.peers && id.Some? ensures p.id != id.value {
          assert s.madeFor[p.id] == p.slot && s.madeFor[id.value] == s.rows[k].slot;
        }
      }
      forall events: seq<Event> ensures !InState(Run(s, events), k, {Active, Disabled}) {
        RunKeepsUnswitchable(s, events, k, id);
      }
    } else {
      forall events: seq<Event> ensures !InState(Run(s, events), k, {Active, Disabled}) {
        RunKeepsUnswitched(s, events, k);
      }
    }
  }

  // ---- A revoke lost for good ------------------------------------------------------------------

  lemma {:induction false} RunConcat(s: State, a: seq<Event>, b: seq<Event>)
    ensures Run(s, a + b) == Run(Run(s, a), b)
    decreases |b|
  {
    if b == [] {
      assert a + b == a;
    } else {
      assert (a + b)[..|a + b| - 1] == a + b[..|b| - 1];
      RunConcat(s, a, b[..|b| - 1]);
    }
  }

  // A provision or a revoke whose handler starts by listing the node's clients.
  predicate ListsFirst(s: State, j: JobId) {
    && j in s.jobs && Live(s.jobs[j]) && s.jobs[j].key in s.rows
    && (s.jobs[j].kind.Revoke? || (s.jobs[j].kind.Provision? && s.rows[s.jobs[j].key].state.Provisioning?))
  }

  // What giving a job up does to its key.
  function Settled(row: Row): Row {
    if row.state.Provisioning? then row.(state := Failed) else row
  }

  function Unreachable(j: JobId): seq<Event> {
    [ClaimJob(j), Work(Done, 0), Work(Refused, 0), Work(Done, 0)]
  }

  // One attempt against a node that does not answer.
  lemma AttemptFails(s: State, j: JobId)
    requires s.phase.Idle? && ListsFirst(s, j)
    ensures var job := s.jobs[j].(attempts := s.jobs[j].attempts + 1);
      Run(s, Unreachable(j)) ==
        if job.attempts < MAX_ATTEMPTS then s.(jobs := s.jobs[j := job.(status := Pending)])
        else s.(jobs := s.jobs[j := job.(status := GaveUp)], rows := s.rows[job.key := Settled(s.rows[job.key])])
  {
    var job := s.jobs[j].(status := Processing, attempts := s.jobs[j].attempts + 1);
    var c := Claim(j, job.kind, job.key, job.attempts);
    var claimed := s.(jobs := s.jobs[j := job]);
    RunOfFour(s, ClaimJob(j), Work(Done, 0), Work(Refused, 0), Work(Done, 0));
    assert Next(s, ClaimJob(j)) == On(claimed, c, Loading);
    var loaded := Next(On(claimed, c, Loading), Work(Done, 0));
    assert loaded == On(claimed, c, FirstCall(job.kind, s.rows[job.key]));
    assert Next(loaded, Work(Refused, 0)) == On(claimed, c, Throwing);
    ThrownOnce(claimed, c);
    assert s.rows[job.key := s.rows[job.key]] == s.rows;
  }

  lemma ThrownOnce(s: State, c: Claim)
    requires c.job in s.jobs && c.key in s.rows && s.phase.Idle?
    ensures Next(On(s, c, Throwing), Work(Done, 0)) ==
      if c.attempts < MAX_ATTEMPTS then s.(jobs := s.jobs[c.job := s.jobs[c.job].(status := Pending)])
      else s.(jobs := s.jobs[c.job := s.jobs[c.job].(status := GaveUp)], rows := s.rows[c.key := Settled(s.rows[c.key])])
  {
    assert s.rows[c.key := s.rows[c.key]] == s.rows;
  }

  // A node that stays silent makes the job give up.
  lemma {:induction false} GivesUp(s: State, j: JobId) returns (events: seq<Event>, attempts: nat)
    requires s.phase.Idle? && ListsFirst(s, j)
    ensures Run(s, events) ==
      s.(jobs := s.jobs[j := s.jobs[j].(status := GaveUp, attempts := attempts)],
         rows := s.rows[s.jobs[j].key := Settled(s.rows[s.jobs[j].key])])
    decreases MAX_ATTEMPTS - s.jobs[j].attempts
  {
    AttemptFails(s, j);
    if s.jobs[j].attempts + 1 >= MAX_ATTEMPTS {
      events, attempts := Unreachable(j), s.jobs[j].attempts + 1;
    } else {
      var next := Run(s, Unreachable(j));
      var more: seq<Event>;
      more, attempts := GivesUp(next, j);
      RunConcat(s, Unreachable(j), more);
      events := Unreachable(j) + more;
      assert next.jobs[j := next.jobs[j].(status := GaveUp, attempts := attempts)]
          == s.jobs[j := s.jobs[j].(status := GaveUp, attempts := attempts)];
    }
  }

  // A disable up to the write that completes it.
  lemma DisableUnderWay(s: State, k: KeyId, disable: JobId) returns (t: State)
    requires s.phase.Idle? && InState(s, k, {Active}) && PeerInPlace(s, k) && disable !in s.usedJobs
    ensures t == Run(s, [AdminDisable(k, disable), ClaimJob(disable), Work(Done, 0), Work(Done, 0)])
    ensures t == State(s.rows[k := s.rows[k].(state := Disabled)], s.jobs[disable := Job(Disable, k, Processing, 1)],
                       s.peers, Busy(Claim(disable, Disable, k, 1), Switched(Context(s.rows[k].slot, s.rows[k].publicKey))),
                       s.usedKeys, s.usedJobs + {disable}, s.madeFor)
  {
    RunOfFour(s, AdminDisable(k, disable), ClaimJob(disable), Work(Done, 0), Work(Done, 0));
    RequestClaimedAndLoaded(s, k, {Active}, Disabled, disable, Disable);
    var s3 := Next(Next(Next(s, AdminDisable(k, disable)), ClaimJob(disable)), Work(Done, 0));
    assert OnNode(s3, s.rows[k].slot.node, s.rows[k].publicKey.value);
    t := Next(s3, Work(Done, 0));
  }

  // A revoke accepted at that point, and the write.
  lemma RevokeOverwritten(t: State, k: KeyId, disable: JobId, revoke: JobId, ctx: Context) returns (u: State)
    requires t.phase == Busy(Claim(disable, Disable, k, 1), Switched(ctx)) && InState(t, k, {Disabled})
    requires disable in t.jobs && revoke !in t.usedJobs && revoke != disable
    ensures u == Run(t, [AskRevoke(k, revoke), Work(Done, 0)])
    ensures u.phase.Idle? && u.peers == t.peers && u.rows == t.rows
    ensures u.jobs == t.jobs[revoke := Job(Revoke, k, Pending, 0)][disable := t.jobs[disable].(status := Completed)]
  {
    var events := [AskRevoke(k, revoke), Work(Done, 0)];
    assert events[..1] == [AskRevoke(k, revoke)] && events[..1][..0] == [];
    var asked := Next(t, AskRevoke(k, revoke));
    assert Run(t, events[..1]) == asked;
    assert asked.phase == t.phase && asked.rows == t.rows[k := t.rows[k].(state := Revoking)];
    u := Next(asked, Work(Done, 0));
    assert u.rows == asked.rows[k := asked.rows[k].(state := Disabled)];
  }

  ghost predicate NoRevokeLive(s: State, k: KeyId) {
    forall j :: j in s.jobs && s.jobs[j].key == k && s.jobs[j].kind.Revoke? ==> !Live(s.jobs[j])
  }

  // For every active key: a revoke is accepted, a disable that was in flight
  // overwrites it, and the revoke job gives up on a node that does not answer.
  // The key then stands disabled with its peer in place, no revoke of it is left
  // to run, and re-arming stuck revokes passes it by.
  lemma RevokeLostForGood(s: State, k: KeyId, disable: JobId, revoke: JobId) returns (events: seq<Event>)
    requires Inv(s) && JobsOk(s) && s.phase.Idle? && InState(s, k, {Active}) && PeerInPlace(s, k) && NoRevokeLive(s, k)
    requires disable !in s.usedJobs && revoke !in s.usedJobs && disable != revoke
    ensures AskRevoke(k, revoke) in events
    ensures var t := Run(s, events);
      && t.phase.Idle? && InState(t, k, {Disabled}) && PeerInPlace(t, k) && NoRevokeLive(t, k)
      && revoke in t.jobs && t.jobs[revoke].status.GaveUp?
      && forall j :: Next(t, Rearm(k, j)) == t
  {
    var first := [AdminDisable(k, disable), ClaimJob(disable), Work(Done, 0), Work(Done, 0)];
    var second := [AskRevoke(k, revoke), Work(Done, 0)];
    var t := DisableUnderWay(s, k, disable);
    var u := RevokeOverwritten(t, k, disable, revoke, t.phase.call.ctx);
    var last, attempts := GivesUp(u, revoke);
    RunConcat(s, first, second);
    RunConcat(s, first + second, last);
    events := first + second + last;
    assert second[0] in events;
    StandsDisabled(s, u, k, revoke, attempts);
  }

  lemma StandsDisabled(s: State, u: State, k: KeyId, revoke: JobId, attempts: nat)
    requires k in s.rows && PeerInPlace(s, k) && NoRevokeLive(s, k)
    requires u.phase.Idle? && u.peers == s.peers && u.rows == s.rows[k := s.rows[k].(state := Disabled)]
    requires revoke in u.jobs && u.jobs[revoke].key == k
    requires forall j :: j in u.jobs && j != revoke && u.jobs[j].kind.Revoke? ==> j in s.jobs && s.jobs[j] == u.jobs[j]
    ensures var t := u.(jobs := u.jobs[revoke := u.jobs[revoke].(status := GaveUp, attempts := attempts)],
                        rows := u.rows[k := Settled(u.rows[k])]);
      && InState(t, k, {Disabled}) && PeerInPlace(t, k) && NoRevokeLive(t, k)
      && forall j :: Next(t, Rearm(k, j)) == t
  {}
}
