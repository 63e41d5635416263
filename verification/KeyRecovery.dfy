// When a key that an administrator disabled can come back, and when a rotation
// can still succeed.
module KeyRecovery {
  import opened Options
  import opened KeyLifecycle
  import opened KeySafety

  predicate Switches(kind: JobKind) {
    kind.Disable? || kind.Enable?
  }

  // Only a disable or an enable switches a peer.
  ghost predicate KindOk(s: State) {
    s.phase.Busy? && (s.phase.call.Switching? || s.phase.call.Switched?) ==> Switches(s.phase.claim.kind)
  }

  // Every job id is used once and the claim in progress describes its job.
  ghost predicate JobsOk(s: State) {
    && KindOk(s)
    && (forall j :: j in s.jobs ==> j in s.usedJobs && s.jobs[j].key in s.usedKeys)
    && (s.phase.Busy? ==>
          && s.phase.claim.job in s.usedJobs && s.phase.claim.key in s.usedKeys
          && (s.phase.claim.job in s.jobs ==>
                && s.jobs[s.phase.claim.job].kind == s.phase.claim.kind
                && s.jobs[s.phase.claim.job].key == s.phase.claim.key))
  }

  lemma ApiKeepsJobs(s: State, ev: Event)
    requires JobsOk(s) && RowsOk(s)
    ensures JobsOk(Api(s, ev))
  {}

  // What an API transaction may do to the queue.
  lemma ApiJobs(s: State, ev: Event)
    requires JobsOk(s) && RowsOk(s)
    ensures JobsOk(Api(s, ev))
    ensures forall j :: j in Api(s, ev).jobs && j in s.jobs ==> Api(s, ev).jobs[j] == s.jobs[j]
    ensures forall j :: j in Api(s, ev).jobs && j !in s.jobs ==> NewJobOk(s, ev, Api(s, ev).jobs[j])
  {
    ApiKeepsJobs(s, ev);
  }

  // A job an API transaction queues: switches only for keys they apply to,
  // provisions only for new keys.
  predicate NewJobOk(s: State, ev: Event, job: Job) {
    && job.status.Pending?
    && (job.kind.Enable? ==> ev.AdminEnable? && ev.key == job.key)
    && (Switches(job.kind) ==> InState(s, job.key, {Active, Disabled}))
    && (job.kind.Provision? ==> job.key !in s.usedKeys)
  }

  // The queue is as before but for the status of one job.
  ghost predicate SameJobsBut(s: State, t: State, j: JobId) {
    && t.jobs.Keys == s.jobs.Keys && t.usedJobs == s.usedJobs && t.usedKeys == s.usedKeys
    && forall i :: i in s.jobs ==>
         if i == j then t.jobs[i] == s.jobs[i].(status := t.jobs[i].status) else t.jobs[i] == s.jobs[i]
  }

  lemma WorkKeepsKind(s: State, reply: Reply, pick: PeerId)
    requires KindOk(s) && s.phase.Busy?
    ensures KindOk(WorkerStep(s, reply, pick))
  {
    if s.phase.call.Loading? {
      assert s.phase.claim.key in s.rows ==>
        (FirstCall(s.phase.claim.kind, s.rows[s.phase.claim.key]).Switching? ==> Switches(s.phase.claim.kind));
    }
  }

  lemma WorkQueue(s: State, reply: Reply, pick: PeerId)
    requires s.phase.Busy?
    ensures var t := WorkerStep(s, reply, pick);
      SameJobsBut(s, t, s.phase.claim.job) && (t.phase.Busy? ==> t.phase.claim == s.phase.claim)
  {
    if !WritesDatabase(s.phase.call) {
      OtherCallsAreNodeOnly(s, reply, pick);
    }
  }

  // A worker call changes no more of the queue than the status of its own job.
  lemma WorkJobs(s: State, reply: Reply, pick: PeerId)
    requires JobsOk(s) && s.phase.Busy?
    ensures var t := WorkerStep(s, reply, pick);
      && SameJobsBut(s, t, s.phase.claim.job) && JobsOk(t)
      && (t.phase.Busy? ==> t.phase.claim == s.phase.claim)
  {
    WorkKeepsKind(s, reply, pick);
    WorkQueue(s, reply, pick);
    SameJobsAreOk(s, WorkerStep(s, reply, pick));
  }

  lemma SameJobsAreOk(s: State, t: State)
    requires JobsOk(s) && s.phase.Busy? && SameJobsBut(s, t, s.phase.claim.job) && KindOk(t)
    requires t.phase.Busy? ==> t.phase.claim == s.phase.claim
    ensures JobsOk(t)
  {}

  lemma NextKeepsJobs(s: State, ev: Event)
    requires Inv(s) && JobsOk(s)
    ensures JobsOk(Next(s, ev))
  {
    match ev
    case Work(reply, pick) => if s.phase.Busy? { WorkJobs(s, reply, pick); }
    case ClaimJob(j) =>
    case StopWorker =>
    case _ => ApiJobs(s, ev);
  }

  lemma {:induction false} RunKeepsJobs(s: State, events: seq<Event>)
    requires Inv(s) && JobsOk(s)
    ensures Inv(Run(s, events)) && JobsOk(Run(s, events))
    decreases |events|
  {
    if events != [] {
      RunKeepsJobs(s, events[..|events| - 1]);
      NextKeeps(Run(s, events[..|events| - 1]), events[|events| - 1]);
      NextKeepsJobs(Run(s, events[..|events| - 1]), events[|events| - 1]);
    }
  }

  // A request on an idle worker, claimed and loaded at once.
  lemma RequestClaimedAndLoaded(s: State, k: KeyId, from: set<KeyState>, to: KeyState, job: JobId, kind: JobKind)
    requires s.phase.Idle? && InState(s, k, from) && job !in s.usedJobs
    ensures var t := Next(Next(MoveAndQueue(s, k, from, to, job, kind), ClaimJob(job)), Work(Done, 0));
      t == State(s.rows[k := s.rows[k].(state := to)], s.jobs[job := Job(kind, k, Processing, 1)], s.peers,
                 Busy(Claim(job, kind, k, 1), FirstCall(kind, s.rows[k].(state := to))),
                 s.usedKeys, s.usedJobs + {job}, s.madeFor)
  {}

  // ---- Disabled stays disabled ---------------------------------------------------------

  predicate Live(job: Job) {
    job.status in {Pending, Processing}
  }

  ghost predicate EnableOutstanding(s: State, k: KeyId) {
    || (exists j :: j in s.jobs && s.jobs[j].kind.Enable? && s.jobs[j].key == k && Live(s.jobs[j]))
    || (s.phase.Busy? && s.phase.claim.kind.Enable? && s.phase.claim.key == k)
  }

  ghost predicate Locked(s: State, k: KeyId) {
    && k in s.usedKeys && !EnableOutstanding(s, k)
    && (k in s.rows ==> s.rows[k].state in {Disabled, Revoking, Revoked})
  }

  predicate EnablesKey(ev: Event, k: KeyId) {
    ev.AdminEnable? && ev.key == k
  }

  lemma NoEnableAppears(s: State, ev: Event, k: KeyId)
    requires Inv(s) && JobsOk(s) && k in s.usedKeys && !EnableOutstanding(s, k) && !EnablesKey(ev, k)
    ensures !EnableOutstanding(Next(s, ev), k)
  {
    match ev
    case Work(reply, pick) => if s.phase.Busy? { WorkJobs(s, reply, pick); }
    case ClaimJob(j) =>
    case StopWorker =>
    case _ => ApiJobs(s, ev);
  }

  lemma StepKeepsLocked(s: State, ev: Event, k: KeyId)
    requires Inv(s) && JobsOk(s) && Locked(s, k) && !EnablesKey(ev, k)
    ensures Locked(Next(s, ev), k)
  {
    NoEnableAppears(s, ev, k);
    match ev
    case Work(reply, pick) => WorkMovesRows(s, reply, pick);
    case ClaimJob(j) =>
    case StopWorker =>
    case _ => ApiMovesRows(s, ev);
  }

  lemma {:induction false} RunKeepsLocked(s: State, events: seq<Event>, k: KeyId)
    requires Inv(s) && JobsOk(s) && Locked(s, k)
    requires forall i :: 0 <= i < |events| ==> !EnablesKey(events[i], k)
    ensures Locked(Run(s, events), k)
    decreases |events|
  {
    if events != [] {
      RunKeepsLocked(s, events[..|events| - 1], k);
      RunKeepsJobs(s, events[..|events| - 1]);
      StepKeepsLocked(Run(s, events[..|events| - 1]), events[|events| - 1], k);
    }
  }

  lemma RunOfFour(s: State, a: Event, b: Event, c: Event, d: Event)
    ensures Run(s, [a, b, c, d]) == Next(Next(Next(Next(s, a), b), c), d)
  {
    var events := [a, b, c, d];
    assert events[..3] == [a, b, c] && [a, b, c][..2] == [a, b] && [a, b][..1] == [a] && [a][..0] == [];
    assert Run(s, [a]) == Next(s, a);
    assert Run(s, [a, b]) == Next(Run(s, [a]), b);
    assert Run(s, [a, b, c]) == Next(Run(s, [a, b]), c);
  }

  // For a disabled key whose peer is on its node, with the worker between jobs:
  // some run without a new enable request makes it active again if and only if
  // an enable job is still outstanding. No owner action, retry, node failure or
  // worker stop can do it otherwise.
  lemma DisabledReturnsIffEnableOutstanding(s: State, k: KeyId)
    requires Inv(s) && JobsOk(s) && s.phase.Idle? && InState(s, k, {Disabled})
    requires s.rows[k].publicKey.Some? && OnNode(s, s.rows[k].slot.node, s.rows[k].publicKey.value)
    ensures (exists events :: (forall i :: 0 <= i < |events| ==> !EnablesKey(events[i], k))
                              && InState(Run(s, events), k, {Active}))
            <==> EnableOutstanding(s, k)
  {
    if EnableOutstanding(s, k) {
      var j :| j in s.jobs && s.jobs[j].kind.Enable? && s.jobs[j].key == k && Live(s.jobs[j]);
      var events := [ClaimJob(j), Work(Done, 0), Work(Done, 0), Work(Done, 0)];
      RunOfFour(s, events[0], events[1], events[2], events[3]);
      StaleEnableActivates(s, k, j);
      assert forall i :: 0 <= i < |events| ==> !EnablesKey(events[i], k);
    } else {
      forall events | forall i :: 0 <= i < |events| ==> !EnablesKey(events[i], k)
        ensures !InState(Run(s, events), k, {Active})
      {
        RunKeepsLocked(s, events, k);
      }
    }
  }

  predicate PeerInPlace(s: State, k: KeyId)
    requires k in s.rows
  {
    s.rows[k].publicKey.Some? && OnNode(s, s.rows[k].slot.node, s.rows[k].publicKey.value)
  }

  // A queued switch of a key whose peer is in place reaches its write, whatever
  // the row's state.
  lemma SwitchReachesWrite(s: State, k: KeyId, j: JobId)
    requires s.phase.Idle? && k in s.rows && PeerInPlace(s, k)
    requires j in s.jobs && Switches(s.jobs[j].kind) && s.jobs[j].key == k && Live(s.jobs[j])
    ensures var t := Next(Next(Next(s, ClaimJob(j)), Work(Done, 0)), Work(Done, 0));
      && t.rows == s.rows && t.phase.Busy? && t.phase.call.Switched?
      && t.phase.claim.kind == s.jobs[j].kind && t.phase.claim.key == k
  {
    var ctx := Context(s.rows[k].slot, s.rows[k].publicKey);
    var s2 := Next(Next(s, ClaimJob(j)), Work(Done, 0));
    assert s2.phase.Busy? && s2.phase.call == Switching(ctx) && s2.peers == s.peers && s2.rows == s.rows;
    assert OnNode(s2, ctx.slot.node, ctx.publicKey.value);
  }

  lemma SwitchWrites(t: State, k: KeyId)
    requires k in t.rows && t.phase.Busy? && t.phase.call.Switched? && t.phase.claim.key == k
    ensures InState(Next(t, Work(Done, 0)), k, {if t.phase.claim.kind.Enable? then Active else Disabled})
  {}

  lemma StaleEnableActivates(s: State, k: KeyId, j: JobId)
    requires s.phase.Idle? && InState(s, k, {Disabled})
    requires s.rows[k].publicKey.Some? && OnNode(s, s.rows[k].slot.node, s.rows[k].publicKey.value)
    requires j in s.jobs && s.jobs[j].kind.Enable? && s.jobs[j].key == k && Live(s.jobs[j])
    ensures InState(Next(Next(Next(Next(s, ClaimJob(j)), Work(Done, 0)), Work(Done, 0)), Work(Done, 0)), k, {Active})
  {
    SwitchReachesWrite(s, k, j);
    SwitchWrites(Next(Next(Next(s, ClaimJob(j)), Work(Done, 0)), Work(Done, 0)), k);
  }

  // ---- An interrupted rotation ------------------------------------------------------------

  // The worker, if it is on this key, is not past the point of replacing the peer.
  ghost predicate CallAvoids(claim: Claim, call: Call, id: PeerId) {
    && !claim.kind.Provision?
    && match call
       case CheckingOrphan(_) => false
       case Creating(_) => false
       case Storing(_, _) => false
       case FindingOld(_) => false
       case Switched(_) => false
       case DroppingOld(_, target) => target == id
       case Switching(ctx) => ctx.publicKey == Some(id)
       case _ => true
  }

  ghost predicate RowWaits(s: State, k: KeyId, id: PeerId) {
    k in s.rows ==> s.rows[k].publicKey == Some(id) && s.rows[k].state in {Provisioning, Failed, Revoking, Revoked}
  }

  // The key's recorded peer is gone and no provision of it is outstanding.
  ghost predicate OldPeerGone(s: State, k: KeyId, id: PeerId) {
    && k in s.usedKeys && id in s.madeFor
    && (forall p :: p in s.peers ==> p.id != id)
    && RowWaits(s, k, id)
    && (forall j :: j in s.jobs && s.jobs[j].key == k && s.jobs[j].kind.Provision? ==> !Live(s.jobs[j]))
    && (s.phase.Busy? && s.phase.claim.key == k ==> CallAvoids(s.phase.claim, s.phase.call, id))
  }

  lemma WorkAddsOnlyFreshPeers(s: State, reply: Reply, pick: PeerId, id: PeerId)
    requires id in s.madeFor && forall p :: p in s.peers ==> p.id != id
    ensures var t := WorkerStep(s, reply, pick);
      id in t.madeFor && forall p :: p in t.peers ==> p.id != id
  {
    match s.phase
    case Idle =>
    case Busy(c, call) =>
      if WritesDatabase(call) || call.Loading? {
        DatabaseCallsLeavePeers(s, reply, pick);
      }
  }

  lemma DatabaseCallsLeavePeers(s: State, reply: Reply, pick: PeerId)
    requires s.phase.Busy? && (WritesDatabase(s.phase.call) || s.phase.call.Loading?)
    ensures WorkerStep(s, reply, pick).peers == s.peers && WorkerStep(s, reply, pick).madeFor == s.madeFor
  {}

  lemma WorkKeepsAvoiding(s: State, reply: Reply, pick: PeerId, k: KeyId, id: PeerId)
    requires OldPeerGone(s, k, id) && s.phase.Busy? && s.phase.claim.key == k
    ensures var t := WorkerStep(s, reply, pick);
      t.phase.Busy? && t.phase.claim == s.phase.claim ==> CallAvoids(t.phase.claim, t.phase.call, id)
  {
    assert !OnNode(s, 0, id);
  }

  lemma WorkKeepsRowWaiting(s: State, reply: Reply, pick: PeerId, k: KeyId, id: PeerId)
    requires OldPeerGone(s, k, id) && s.phase.Busy?
    ensures RowWaits(WorkerStep(s, reply, pick), k, id)
  {
    if !WritesDatabase(s.phase.call) {
      OtherCallsAreNodeOnly(s, reply, pick);
    }
  }

  lemma WorkKeepsOldPeerGone(s: State, reply: Reply, pick: PeerId, k: KeyId, id: PeerId)
    requires Inv(s) && JobsOk(s) && OldPeerGone(s, k, id)
    ensures OldPeerGone(WorkerStep(s, reply, pick), k, id)
  {
    if s.phase.Busy? {
      WorkAddsOnlyFreshPeers(s, reply, pick, id);
      WorkKeepsRowWaiting(s, reply, pick, k, id);
      WorkJobs(s, reply, pick);
      if s.phase.claim.key == k {
        WorkKeepsAvoiding(s, reply, pick, k, id);
      }
    }
  }

  lemma StepKeepsOldPeerGone(s: State, ev: Event, k: KeyId, id: PeerId)
    requires Inv(s) && JobsOk(s) && OldPeerGone(s, k, id)
    ensures OldPeerGone(Next(s, ev), k, id)
  {
    match ev
    case Work(reply, pick) => WorkKeepsOldPeerGone(s, reply, pick, k, id);
    case ClaimJob(j) =>
    case StopWorker =>
    case _ => ApiKeepsOldPeerGone(s, ev, k, id);
  }

  lemma ApiKeepsOldPeerGone(s: State, ev: Event, k: KeyId, id: PeerId)
    requires Inv(s) && JobsOk(s) && OldPeerGone(s, k, id)
    ensures OldPeerGone(Api(s, ev), k, id)
  {
    ApiMovesRows(s, ev);
    ApiJobs(s, ev);
    ApiLeavesNode(s, ev);
  }

  lemma ApiLeavesNode(s: State, ev: Event)
    ensures Api(s, ev).peers <= s.peers && Api(s, ev).phase == s.phase && Api(s, ev).madeFor == s.madeFor
  {}

  // Once a rotation has deleted the old peer without replacing it, no run ever
  // makes the key active again: every retry starts by deleting the peer that
  // is already gone, and fails. Only a revoke moves the key on.
  lemma {:induction false} InterruptedRotateNeverRecovers(s: State, events: seq<Event>, k: KeyId, id: PeerId)
    requires Inv(s) && JobsOk(s) && OldPeerGone(s, k, id)
    ensures OldPeerGone(Run(s, events), k, id)
    ensures !InState(Run(s, events), k, {Active, Disabled})
    decreases |events|
  {
    if events != [] {
      InterruptedRotateNeverRecovers(s, events[..|events| - 1], k, id);
      RunKeepsJobs(s, events[..|events| - 1]);
      StepKeepsOldPeerGone(Run(s, events[..|events| - 1]), events[|events| - 1], k, id);
    }
  }

  lemma PeerGoneAfterDelete(s: State, node: nat, id: PeerId)
    requires PeersOk(s) && OnNode(s, node, id)
    ensures forall p :: p in DropPeer(s, node, id).peers ==> p.id != id
  {
    var q :| q in s.peers && q.slot.node == node && q.id == id;
    forall p | p in s.peers && p.id == id ensures p == q {
      assert s.madeFor[p.id] == p.slot && s.madeFor[q.id] == q.slot;
    }
  }

  // And every active key gets there when its rotation's create call fails.
  lemma RefusedCreateLosesKey(s: State, k: KeyId, job: JobId, id: PeerId)
    requires Inv(s) && JobsOk(s) && s.phase.Idle? && InState(s, k, {Active}) && job !in s.usedJobs
    requires s.rows[k].publicKey == Some(id) && OnNode(s, s.rows[k].slot.node, id)
    requires forall j :: j in s.jobs && s.jobs[j].key == k && s.jobs[j].kind.Provision? ==> !Live(s.jobs[j])
    ensures var t := Next(Next(Next(Next(Next(s, OwnRotate(k, job)), ClaimJob(job)), Work(Done, 0)), Work(Done, 0)), Work(Refused, 0));
      OldPeerGone(t, k, id)
  {
    RequestClaimedAndLoaded(s, k, {Active, Failed}, Provisioning, job, Rotate);
    var s3 := Next(Next(Next(s, OwnRotate(k, job)), ClaimJob(job)), Work(Done, 0));
    var ctx := Context(s.rows[k].slot, Some(id));
    assert s3.phase == Busy(Claim(job, Rotate, k, 1), DroppingOld(ctx, id));
    var node := s.rows[k].slot.node;
    assert OnNode(s3, node, id) by {
      var p :| p in s.peers && p.slot.node == node && p.id == id;
      assert p in s3.peers;
    }
    PeerGoneAfterDelete(s3, node, id);
    DroppedThenRefused(s3, s3.phase.claim, ctx, id);
  }

  lemma DroppedThenRefused(s: State, c: Claim, ctx: Context, id: PeerId)
    requires s.phase == Busy(c, DroppingOld(ctx, id)) && OnNode(s, ctx.slot.node, id) && !c.kind.Provision?
    ensures Next(Next(s, Work(Done, 0)), Work(Refused, 0)) == On(DropPeer(s, ctx.slot.node, id), c, Throwing)
  {
    assert Next(s, Work(Done, 0)) == On(DropPeer(s, ctx.slot.node, id), c, Creating(ctx));
  }

  // ---- When a rotation can still succeed ----------------------------------------------------

  lemma {:induction false} AboveAll(ids: set<PeerId>) returns (n: nat)
    ensures forall i :: i in ids ==> i < n
    decreases |ids|
  {
    if ids == {} {
      n := 0;
    } else {
      var i :| i in ids;
      var m := AboveAll(ids - {i});
      n := if m <= i then i + 1 else m;
      assert forall l :: l in ids ==> l == i || l in ids - {i};
    }
  }

  // Some run, of whatever events, brings the key into one of the states.
  ghost predicate CanReach(s: State, k: KeyId, states: set<KeyState>) {
    exists events :: InState(Run(s, events), k, states)
  }

  lemma Reaches(s: State, events: seq<Event>, k: KeyId, states: set<KeyState>)
    requires InState(Run(s, events), k, states)
    ensures CanReach(s, k, states)
  {}

  // A retry that finds the old peer: it goes, a fresh one comes, the key is active.
  lemma RotationCompletes(s: State, k: KeyId, j: JobId, id: PeerId, made: PeerId)
    requires s.phase.Idle? && InState(s, k, {Provisioning}) && s.rows[k].publicKey == Some(id)
    requires j in s.jobs && s.jobs[j].kind.Rotate? && s.jobs[j].key == k && Live(s.jobs[j])
    requires OnNode(s, s.rows[k].slot.node, id) && made !in s.madeFor
    ensures InState(Run(s, [ClaimJob(j), Work(Done, 0), Work(Done, 0), Work(Done, made)] + [Work(Done, 0)]), k, {Active})
  {
    var events := [ClaimJob(j), Work(Done, 0), Work(Done, 0), Work(Done, made)];
    RunOfFour(s, ClaimJob(j), Work(Done, 0), Work(Done, 0), Work(Done, made));
    OldPeerDropped(s, k, j, id);
    FreshPeerStored(Next(Next(Next(s, ClaimJob(j)), Work(Done, 0)), Work(Done, 0)), k, made);
    assert (events + [Work(Done, 0)])[..4] == events;
  }

  lemma OldPeerDropped(s: State, k: KeyId, j: JobId, id: PeerId)
    requires s.phase.Idle? && InState(s, k, {Provisioning}) && s.rows[k].publicKey == Some(id)
    requires j in s.jobs && s.jobs[j].kind.Rotate? && s.jobs[j].key == k && Live(s.jobs[j])
    requires OnNode(s, s.rows[k].slot.node, id)
    ensures var t := Next(Next(Next(s, ClaimJob(j)), Work(Done, 0)), Work(Done, 0));
      && t.rows == s.rows && t.madeFor == s.madeFor
      && t.phase.Busy? && t.phase.claim.key == k && t.phase.call.Creating?
  {
    var ctx := Context(s.rows[k].slot, Some(id));
    var s2 := Next(Next(s, ClaimJob(j)), Work(Done, 0));
    assert s2.phase.Busy? && s2.phase.call == DroppingOld(ctx, id) && s2.peers == s.peers && s2.rows == s.rows;
    assert OnNode(s2, ctx.slot.node, id);
  }

  lemma FreshPeerStored(t: State, k: KeyId, made: PeerId)
    requires t.phase.Busy? && t.phase.claim.key == k && t.phase.call.Creating?
    requires InState(t, k, {Provisioning}) && made !in t.madeFor
    ensures InState(Next(Next(t, Work(Done, made)), Work(Done, 0)), k, {Active})
  {
    var u := Next(t, Work(Done, made));
    assert u.phase == Busy(t.phase.claim, Storing(t.phase.call.ctx, made)) && u.rows == t.rows;
  }

  // A key waiting for its rotation, with the worker between jobs, can become
  // active in some run exactly if its recorded peer is still on its node.
  lemma RotationSucceedsIff(s: State, k: KeyId, j: JobId, id: PeerId)
    requires Inv(s) && JobsOk(s) && s.phase.Idle? && InState(s, k, {Provisioning}) && s.rows[k].publicKey == Some(id)
    requires j in s.jobs && s.jobs[j].kind.Rotate? && s.jobs[j].key == k && Live(s.jobs[j])
    requires forall i :: i in s.jobs && s.jobs[i].key == k && s.jobs[i].kind.Provision? ==> !Live(s.jobs[i])
    ensures CanReach(s, k, {Active}) <==> OnNode(s, s.rows[k].slot.node, id)
  {
    if OnNode(s, s.rows[k].slot.node, id) {
      var made := AboveAll(s.madeFor.Keys);
      RotationCompletes(s, k, j, id, made);
      var events := [ClaimJob(j), Work(Done, 0), Work(Done, 0), Work(Done, made)] + [Work(Done, 0)];
      Reaches(s, events, k, {Active});
    } else {
      assert OldPeerGone(s, k, id) by {
        forall p | p in s.peers ensures p.id != id {
          assert s.madeFor[p.id] == p.slot && s.madeFor[id] == s.rows[k].slot;
        }
      }
      forall events: seq<Event> ensures !InState(Run(s, events), k, {Active}) {
        InterruptedRotateNeverRecovers(s, events, k, id);
      }
    }
  }
}
