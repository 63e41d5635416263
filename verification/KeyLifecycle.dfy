// The life of VPN keys. API transactions change a row and queue a job; one
// sequential worker runs the jobs against nodes whose every call may fail, and
// the worker may stop between a node call and its database write. A slot is a
// node together with a peer label; the database keeps slots unique among rows.
module KeyLifecycle {
  import opened Options

  type KeyId = nat
  type JobId = nat
  type PeerId = nat

  datatype Slot = Slot(node: nat, peerLabel: string)
  datatype KeyState = Provisioning | Active | Disabled | Revoking | Revoked | Failed
  datatype Row = Row(slot: Slot, state: KeyState, publicKey: Option<PeerId>)
  datatype JobKind = Provision | Rotate | Revoke | Disable | Enable
  datatype JobStatus = Pending | Processing | Completed | GaveUp
  datatype Job = Job(kind: JobKind, key: KeyId, status: JobStatus, attempts: nat)
  datatype Peer = Peer(slot: Slot, id: PeerId)

  // The job as it was claimed, and the key row as the handler loaded it.
  datatype Claim = Claim(job: JobId, kind: JobKind, key: KeyId, attempts: nat)
  datatype Context = Context(slot: Slot, publicKey: Option<PeerId>)

  // The call the worker is about to make.
  datatype Call =
    | Loading                                  // loadKeyContext
    | Finishing                                // completeJob
    | Throwing                                 // retryJob or failJob
    | CheckingOrphan(ctx: Context)             // listClients before a provision
    | CatchingOrphan(ctx: Context)             // listClients after a failed provision
    | DroppingOrphan(ctx: Context, id: PeerId) // deleteClient, then throw
    | FindingOld(ctx: Context)                 // listClients before a rotate
    | DroppingOld(ctx: Context, id: PeerId)    // deleteClient of the old peer
    | Creating(ctx: Context)                   // createClient
    | Storing(ctx: Context, id: PeerId)        // completeProvision
    | FindingPeers(ctx: Context)               // listClients before a revoke
    | DroppingPeers(ctx: Context, ids: set<PeerId>) // deleteClient, one by one
    | Closing(ctx: Context)                    // completeLifecycle revoked
    | Switching(ctx: Context)                  // setClientStatus
    | Switched(ctx: Context)                   // completeLifecycle active or disabled

  // Idle: about to claim a job.
  datatype Phase = Idle | Busy(claim: Claim, call: Call)

  // `usedKeys`, `usedJobs` and `madeFor` are history: every key and job id ever
  // issued, and the slot every peer id was created for.
  datatype State = State(rows: map<KeyId, Row>, jobs: map<JobId, Job>, peers: set<Peer>, phase: Phase,
                         usedKeys: set<KeyId>, usedJobs: set<JobId>, madeFor: map<PeerId, Slot>)

  // How a call ends: done, done although the caller sees an error, or refused.
  datatype Reply = Done | Lost | Refused

  datatype Event =
    | CreateKey(key: KeyId, slot: Slot, job: JobId)
    | OwnRotate(key: KeyId, job: JobId)
    | AskRevoke(key: KeyId, job: JobId)
    | AdminDisable(key: KeyId, job: JobId)
    | AdminEnable(key: KeyId, job: JobId)
    | Purge(key: KeyId)
    | DeleteWithOwner(key: KeyId)
    | Rearm(key: KeyId, job: JobId)
    | PruneJob(job: JobId)
    | PeerVanishes(peer: Peer)
    | StopWorker
    | ClaimJob(job: JobId)
    | Work(reply: Reply, pick: PeerId)

  const MAX_ATTEMPTS := 10

  // ---- API transactions ------------------------------------------------------------

  predicate InState(s: State, k: KeyId, states: set<KeyState>) {
    k in s.rows && s.rows[k].state in states
  }

  // Move the row and queue the job, in one transaction.
  function MoveAndQueue(s: State, k: KeyId, from: set<KeyState>, to: KeyState, job: JobId, kind: JobKind): State {
    if InState(s, k, from) && job !in s.usedJobs then
      s.(rows := s.rows[k := s.rows[k].(state := to)],
         jobs := s.jobs[job := Job(kind, k, Pending, 0)], usedJobs := s.usedJobs + {job})
    else s
  }

  function Api(s: State, ev: Event): State {
    match ev
    case CreateKey(k, slot, job) =>
      if k !in s.usedKeys && job !in s.usedJobs && (forall l :: l in s.rows ==> s.rows[l].slot != slot) then
        s.(rows := s.rows[k := Row(slot, Provisioning, None)], usedKeys := s.usedKeys + {k},
           jobs := s.jobs[job := Job(Provision, k, Pending, 0)], usedJobs := s.usedJobs + {job})
      else s
    case OwnRotate(k, job) => MoveAndQueue(s, k, {Active, Failed}, Provisioning, job, Rotate)
    case AskRevoke(k, job) =>
      MoveAndQueue(s, k, {Provisioning, Active, Disabled, Revoking, Failed}, Revoking, job, Revoke)
    case AdminDisable(k, job) => MoveAndQueue(s, k, {Active}, Disabled, job, Disable)
    case AdminEnable(k, job) => MoveAndQueue(s, k, {Disabled}, Active, job, Enable)
    case Rearm(k, job) => MoveAndQueue(s, k, {Revoking}, Revoking, job, Revoke)
    case Purge(k) =>
      if InState(s, k, {Revoked}) then
        s.(rows := s.rows - {k}, jobs := map j | j in s.jobs && s.jobs[j].key != k :: s.jobs[j])
      else s
    case DeleteWithOwner(k) => if InState(s, k, {Revoked}) then s.(rows := s.rows - {k}) else s
    case PruneJob(j) => if j in s.jobs && s.jobs[j].status.Completed? then s.(jobs := s.jobs - {j}) else s
    case PeerVanishes(p) => s.(peers := s.peers - {p})
    case _ => s
  }

  // ---- The worker ----------------------------------------------------------------------

  function SetJob(jobs: map<JobId, Job>, j: JobId, status: JobStatus): map<JobId, Job> {
    if j in jobs then jobs[j := jobs[j].(status := status)] else jobs
  }

  function At(s: State, phase: Phase): State {
    s.(phase := phase)
  }

  function Take(s: State, j: JobId): State {
    if s.phase.Idle? && j in s.jobs && s.jobs[j].status in {Pending, Processing} then
      var job := s.jobs[j].(status := Processing, attempts := s.jobs[j].attempts + 1);
      s.(jobs := s.jobs[j := job], phase := Busy(Claim(j, job.kind, job.key, job.attempts), Loading))
    else s
  }

  function Load(s: State, c: Claim): State {
    On(s, c, if c.key in s.rows then FirstCall(c.kind, s.rows[c.key]) else Finishing)
  }

  // Where each handler starts, by job type and row.
  function FirstCall(kind: JobKind, row: Row): Call {
    var ctx := Context(row.slot, row.publicKey);
    match kind
    case Provision => if row.state.Provisioning? then CheckingOrphan(ctx) else Finishing
    case Rotate =>
      if !row.state.Provisioning? then Finishing
      else if row.publicKey.Some? then DroppingOld(ctx, row.publicKey.value)
      else FindingOld(ctx)
    case Revoke => FindingPeers(ctx)
    case _ => if row.publicKey.None? then Throwing else Switching(ctx)
  }

  function PeersUnder(s: State, slot: Slot): set<Peer> {
    set p | p in s.peers && p.slot == slot
  }

  predicate OnNode(s: State, node: nat, id: PeerId) {
    exists p :: p in s.peers && p.slot.node == node && p.id == id
  }

  function DropPeer(s: State, node: nat, id: PeerId): State {
    s.(peers := set p | p in s.peers && !(p.slot.node == node && p.id == id))
  }

  // The peers a revoke deletes: those of the client that carries the key's
  // public key if the node lists it, else those under the key's own label.
  function RevokeTargets(s: State, ctx: Context): set<PeerId> {
    if ctx.publicKey.Some? && OnNode(s, ctx.slot.node, ctx.publicKey.value) then
      set q | q in s.peers
              && (exists p :: p in s.peers && p.slot == q.slot && p.slot.node == ctx.slot.node && p.id == ctx.publicKey.value)
        :: q.id
    else set q | q in s.peers && q.slot == ctx.slot :: q.id
  }

  function On(s: State, c: Claim, call: Call): State {
    s.(phase := Busy(c, call))
  }

  // Past its first database read a provision fails through its catch block; a
  // rotate just throws.
  function FailCreating(s: State, c: Claim, ctx: Context): State {
    On(s, c, if c.kind.Provision? then CatchingOrphan(ctx) else Throwing)
  }

  // listClients, then either the first peer under the label or none; `pick` is
  // the one the node lists first.
  function Find(s: State, reply: Reply, pick: PeerId, c: Claim, slot: Slot, found: Call, absent: Call): State {
    if !reply.Done? then On(s, c, Throwing)
    else if PeersUnder(s, slot) == {} then On(s, c, absent)
    else if Peer(slot, pick) in s.peers then On(s, c, found)
    else s
  }

  // deleteClient: an absent peer is an error like any other.
  function Delete(s: State, reply: Reply, c: Claim, node: nat, id: PeerId, next: Call): State {
    On(if reply.Refused? then s else DropPeer(s, node, id), c,
       if reply.Done? && OnNode(s, node, id) then next else Throwing)
  }

  // createClient: `pick` is the fresh id of the new peer.
  function Create(s: State, reply: Reply, pick: PeerId, c: Claim, ctx: Context): State {
    if reply.Refused? then FailCreating(s, c, ctx)
    else if pick in s.madeFor then s
    else
      var made := s.(peers := s.peers + {Peer(ctx.slot, pick)}, madeFor := s.madeFor[pick := ctx.slot]);
      if reply.Done? then On(made, c, Storing(ctx, pick)) else FailCreating(made, c, ctx)
  }

  // completeProvision: only a row still in provisioning is activated.
  function Store(s: State, reply: Reply, c: Claim, ctx: Context, id: PeerId): State {
    if reply.Refused? || !InState(s, c.key, {Provisioning}) then FailCreating(s, c, ctx)
    else
      var stored := s.(rows := s.rows[c.key := s.rows[c.key].(state := Active, publicKey := Some(id))],
                       jobs := SetJob(s.jobs, c.job, Completed));
      if reply.Done? then At(stored, Idle) else FailCreating(stored, c, ctx)
  }

  // completeLifecycle: sets the state whatever it was.
  function Complete(s: State, reply: Reply, c: Claim, to: KeyState): State {
    var rows := if c.key in s.rows then s.rows[c.key := s.rows[c.key].(state := to)] else s.rows;
    var done := s.(rows := rows, jobs := SetJob(s.jobs, c.job, Completed));
    match reply
    case Done => At(done, Idle)
    case Lost => On(done, c, Throwing)
    case Refused => On(s, c, Throwing)
  }

  // The runner's catch: retry, or after ten attempts fail the job and, if the
  // key never came into existence, the key.
  function RetryOrFail(s: State, reply: Reply, c: Claim): State {
    if reply.Refused? || c.job !in s.jobs then At(s, Idle)
    else if c.attempts < MAX_ATTEMPTS then At(s.(jobs := SetJob(s.jobs, c.job, Pending)), Idle)
    else
      var rows := if InState(s, c.key, {Provisioning}) then s.rows[c.key := s.rows[c.key].(state := Failed)] else s.rows;
      At(s.(rows := rows, jobs := SetJob(s.jobs, c.job, GaveUp)), Idle)
  }

  function Finish(s: State, reply: Reply, c: Claim): State {
    var after := if reply.Refused? then s else s.(jobs := SetJob(s.jobs, c.job, Completed));
    if reply.Done? then At(after, Idle) else On(after, c, Throwing)
  }

  function WorkerStep(s: State, reply: Reply, pick: PeerId): State {
    match s.phase
    case Idle => s
    case Busy(c, call) =>
      match call
      case Loading => if reply.Done? then Load(s, c) else On(s, c, Throwing)
      case Finishing => Finish(s, reply, c)
      case Throwing => RetryOrFail(s, reply, c)
      case CheckingOrphan(ctx) => Find(s, reply, pick, c, ctx.slot, DroppingOrphan(ctx, pick), Creating(ctx))
      case CatchingOrphan(ctx) => Find(s, reply, pick, c, ctx.slot, DroppingOrphan(ctx, pick), Throwing)
      case DroppingOrphan(ctx, id) => Delete(s, reply, c, ctx.slot.node, id, Throwing)
      case FindingOld(ctx) => Find(s, reply, pick, c, ctx.slot, DroppingOld(ctx, pick), Creating(ctx))
      case DroppingOld(ctx, id) => Delete(s, reply, c, ctx.slot.node, id, Creating(ctx))
      case Creating(ctx) => Create(s, reply, pick, c, ctx)
      case Storing(ctx, id) => Store(s, reply, c, ctx, id)
      case FindingPeers(ctx) => On(s, c, if reply.Done? then DroppingPeers(ctx, RevokeTargets(s, ctx)) else Throwing)
      case DroppingPeers(ctx, ids) =>
        if ids == {} then On(s, c, Closing(ctx))
        else if pick !in ids then s
        else Delete(s, reply, c, ctx.slot.node, pick, DroppingPeers(ctx, ids - {pick}))
      case Closing(ctx) => Complete(s, reply, c, Revoked)
      case Switching(ctx) =>
        On(s, c, if reply.Done? && ctx.publicKey.Some? && OnNode(s, ctx.slot.node, ctx.publicKey.value)
                 then Switched(ctx) else Throwing)
      case Switched(ctx) => Complete(s, reply, c, if c.kind.Enable? then Active else Disabled)
  }

  function Next(s: State, ev: Event): State {
    match ev
    case Work(reply, pick) => WorkerStep(s, reply, pick)
    case ClaimJob(j) => Take(s, j)
    case StopWorker => At(s, Idle)
    case _ => Api(s, ev)
  }

  function Run(s: State, events: seq<Event>): State
    decreases |events|
  {
    if events == [] then s else Next(Run(s, events[..|events| - 1]), events[|events| - 1])
  }

  const EMPTY := State(map[], map[], {}, Idle, {}, {}, map[])

  // ---- The invariant ----------------------------------------------------------------------

  ghost predicate OwnsSlot(s: State, k: KeyId, slot: Slot) {
    k in s.rows && s.rows[k].slot == slot && !s.rows[k].state.Revoked?
  }

  // Every peer on a node belongs to a row that is not revoked.
  ghost predicate NoStrandedPeer(s: State) {
    forall p :: p in s.peers ==> exists k :: OwnsSlot(s, k, p.slot)
  }

  ghost predicate Recorded(s: State, id: Option<PeerId>, slot: Slot) {
    id.Some? ==> id.value in s.madeFor && s.madeFor[id.value] == slot
  }

  ghost predicate RowsOk(s: State) {
    && (forall k :: k in s.rows ==> k in s.usedKeys && Recorded(s, s.rows[k].publicKey, s.rows[k].slot))
    && (forall k, l :: k in s.rows && l in s.rows && k != l ==> s.rows[k].slot != s.rows[l].slot)
  }

  ghost predicate PeersOk(s: State) {
    forall p :: p in s.peers ==> p.id in s.madeFor && s.madeFor[p.id] == p.slot
  }

  ghost predicate CtxOk(s: State, c: Claim, ctx: Context) {
    && c.key in s.usedKeys
    && Recorded(s, ctx.publicKey, ctx.slot)
    && (c.key in s.rows ==> s.rows[c.key].slot == ctx.slot)
  }

  ghost predicate CallOk(s: State, c: Claim, call: Call) {
    match call
    case Loading => true
    case Finishing => true
    case Throwing => true
    case CheckingOrphan(ctx) => CtxOk(s, c, ctx) && OwnsSlot(s, c.key, ctx.slot)
    case CatchingOrphan(ctx) => CtxOk(s, c, ctx)
    case DroppingOrphan(ctx, _) => CtxOk(s, c, ctx)
    case FindingOld(ctx) => CtxOk(s, c, ctx) && OwnsSlot(s, c.key, ctx.slot)
    case DroppingOld(ctx, _) => CtxOk(s, c, ctx) && OwnsSlot(s, c.key, ctx.slot)
    case Creating(ctx) => CtxOk(s, c, ctx) && OwnsSlot(s, c.key, ctx.slot)
    case Storing(ctx, id) => CtxOk(s, c, ctx) && OwnsSlot(s, c.key, ctx.slot) && Recorded(s, Some(id), ctx.slot)
    case FindingPeers(ctx) => CtxOk(s, c, ctx)
    case DroppingPeers(ctx, ids) => CtxOk(s, c, ctx) && forall p :: p in PeersUnder(s, ctx.slot) ==> p.id in ids
    case Closing(ctx) => CtxOk(s, c, ctx) && PeersUnder(s, ctx.slot) == {}
    case Switching(ctx) => CtxOk(s, c, ctx) && (c.key in s.rows || PeersUnder(s, ctx.slot) == {})
    case Switched(ctx) => CtxOk(s, c, ctx) && OwnsSlot(s, c.key, ctx.slot)
  }

  ghost predicate PhaseOk(s: State) {
    s.phase.Busy? ==> CallOk(s, s.phase.claim, s.phase.call)
  }

  ghost predicate Inv(s: State) {
    RowsOk(s) && PeersOk(s) && NoStrandedPeer(s) && PhaseOk(s)
  }
}
