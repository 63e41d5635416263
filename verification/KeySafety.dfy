// What every interleaving of API transactions, worker calls, node failures and
// worker stops keeps.
module KeySafety {
  import opened Options
  import opened KeyLifecycle

  // A change that keeps every live row in its slot, adds no peer and leaves the
  // worker where it is.
  ghost predicate Gentle(s: State, t: State) {
    && (forall k :: k in s.rows && !s.rows[k].state.Revoked? ==>
          k in t.rows && t.rows[k].slot == s.rows[k].slot && !t.rows[k].state.Revoked?)
    && (forall k :: k in t.rows ==>
          if k in s.rows then t.rows[k].slot == s.rows[k].slot else k !in s.usedKeys)
    && t.peers <= s.peers && s.usedKeys <= t.usedKeys && t.madeFor == s.madeFor && t.phase == s.phase
  }

  lemma RevokedSlotIsEmpty(s: State, k: KeyId)
    requires RowsOk(s) && NoStrandedPeer(s) && k in s.rows && s.rows[k].state.Revoked?
    ensures PeersUnder(s, s.rows[k].slot) == {}
  {
    forall p | p in s.peers ensures p.slot != s.rows[k].slot {
      var l :| OwnsSlot(s, l, p.slot);
    }
  }

  lemma GentlePhase(s: State, t: State)
    requires Inv(s) && Gentle(s, t)
    ensures PhaseOk(t)
  {
    if s.phase.Busy? && s.phase.call.Switching? && s.phase.claim.key in s.rows && s.phase.claim.key !in t.rows {
      RevokedSlotIsEmpty(s, s.phase.claim.key);
      assert PeersUnder(t, s.phase.call.ctx.slot) <= PeersUnder(s, s.phase.call.ctx.slot);
    }
  }

  lemma GentleKeeps(s: State, t: State)
    requires Inv(s) && Gentle(s, t) && RowsOk(t)
    ensures Inv(t)
  {
    GentlePhase(s, t);
    forall p | p in t.peers ensures exists k :: OwnsSlot(t, k, p.slot) {
      var k :| OwnsSlot(s, k, p.slot);
      assert OwnsSlot(t, k, p.slot);
    }
  }

  lemma MoveAndQueueKeeps(s: State, k: KeyId, from: set<KeyState>, to: KeyState, job: JobId, kind: JobKind)
    requires Inv(s) && !to.Revoked?
    ensures Inv(MoveAndQueue(s, k, from, to, job, kind))
  {
    GentleKeeps(s, MoveAndQueue(s, k, from, to, job, kind));
  }

  lemma CreateAndRemoveKeep(s: State, ev: Event)
    requires Inv(s) && !(ev.OwnRotate? || ev.AskRevoke? || ev.AdminDisable? || ev.AdminEnable? || ev.Rearm?)
    ensures Inv(Api(s, ev))
  {
    GentleKeeps(s, Api(s, ev));
  }

  lemma ApiKeeps(s: State, ev: Event)
    requires Inv(s)
    ensures Inv(Api(s, ev))
  {
    match ev
    case OwnRotate(k, job) => MoveAndQueueKeeps(s, k, {Active, Failed}, Provisioning, job, Rotate);
    case AskRevoke(k, job) =>
      MoveAndQueueKeeps(s, k, {Provisioning, Active, Disabled, Revoking, Failed}, Revoking, job, Revoke);
    case AdminDisable(k, job) => MoveAndQueueKeeps(s, k, {Active}, Disabled, job, Disable);
    case AdminEnable(k, job) => MoveAndQueueKeeps(s, k, {Disabled}, Active, job, Enable);
    case Rearm(k, job) => MoveAndQueueKeeps(s, k, {Revoking}, Revoking, job, Revoke);
    case _ => CreateAndRemoveKeep(s, ev);
  }

  // Moving the worker on needs only the new call to be in order.
  lemma MoveWorker(s: State, t: State)
    requires Inv(s) && t == At(s, t.phase) && PhaseOk(t)
    ensures Inv(t)
  {
    forall p | p in t.peers ensures exists k :: OwnsSlot(t, k, p.slot) {
      var k :| OwnsSlot(s, k, p.slot);
      assert OwnsSlot(t, k, p.slot);
    }
  }

  lemma FindKeeps(s: State, reply: Reply, pick: PeerId, c: Claim, slot: Slot, found: Call, absent: Call)
    requires Inv(s) && CallOk(s, c, found)
    requires PeersUnder(s, slot) == {} ==> CallOk(s, c, absent)
    ensures Inv(Find(s, reply, pick, c, slot, found, absent))
  {
    MoveWorker(s, Find(s, reply, pick, c, slot, found, absent));
  }

  lemma DeleteKeeps(s: State, reply: Reply, c: Claim, node: nat, id: PeerId, next: Call)
    requires Inv(s) && CallOk(DropPeer(s, node, id), c, next)
    ensures Inv(Delete(s, reply, c, node, id, next))
  {
    var after := if reply.Refused? then s else DropPeer(s, node, id);
    GentleKeeps(s, after);
    MoveWorker(after, Delete(s, reply, c, node, id, next));
  }

  lemma CreateKeeps(s: State, reply: Reply, pick: PeerId, c: Claim, ctx: Context)
    requires Inv(s) && s.phase == Busy(c, Creating(ctx))
    ensures Inv(Create(s, reply, pick, c, ctx))
  {
    var made := s.(peers := s.peers + {Peer(ctx.slot, pick)}, madeFor := s.madeFor[pick := ctx.slot]);
    if !reply.Refused? && pick !in s.madeFor {
      forall p | p in made.peers ensures exists k :: OwnsSlot(made, k, p.slot) {
        if p in s.peers {
          var k :| OwnsSlot(s, k, p.slot);
          assert OwnsSlot(made, k, p.slot);
        } else {
          assert OwnsSlot(made, c.key, p.slot);
        }
      }
      assert Inv(made);
      MoveWorker(made, Create(s, reply, pick, c, ctx));
    } else {
      MoveWorker(s, Create(s, reply, pick, c, ctx));
    }
  }

  lemma StoreKeeps(s: State, reply: Reply, c: Claim, ctx: Context, id: PeerId)
    requires Inv(s) && s.phase == Busy(c, Storing(ctx, id))
    ensures Inv(Store(s, reply, c, ctx, id))
  {
    if reply.Refused? || !InState(s, c.key, {Provisioning}) {
      MoveWorker(s, Store(s, reply, c, ctx, id));
    } else {
      var stored := s.(rows := s.rows[c.key := s.rows[c.key].(state := Active, publicKey := Some(id))],
                       jobs := SetJob(s.jobs, c.job, Completed));
      GentleKeeps(s, stored);
      MoveWorker(stored, Store(s, reply, c, ctx, id));
    }
  }

  lemma CompleteKeeps(s: State, reply: Reply, c: Claim, ctx: Context, to: KeyState)
    requires Inv(s) && CtxOk(s, c, ctx) && (to.Revoked? ==> PeersUnder(s, ctx.slot) == {})
    ensures Inv(Complete(s, reply, c, to))
  {
    var t := Complete(s, reply, c, to);
    forall p | p in t.peers ensures exists k :: OwnsSlot(t, k, p.slot) {
      var k :| OwnsSlot(s, k, p.slot);
      assert p.slot == ctx.slot ==> p in PeersUnder(s, ctx.slot);
      assert OwnsSlot(t, k, p.slot);
    }
  }

  lemma RetryOrFailKeeps(s: State, reply: Reply, c: Claim)
    requires Inv(s)
    ensures Inv(RetryOrFail(s, reply, c))
  {
    var t := RetryOrFail(s, reply, c);
    if reply.Refused? || c.job !in s.jobs {
      MoveWorker(s, t);
    } else if c.attempts < MAX_ATTEMPTS {
      GentleKeeps(s, s.(jobs := SetJob(s.jobs, c.job, Pending)));
      MoveWorker(s.(jobs := SetJob(s.jobs, c.job, Pending)), t);
    } else {
      GentleKeeps(s, At(t, s.phase));
      MoveWorker(At(t, s.phase), t);
    }
  }

  lemma FinishKeeps(s: State, reply: Reply, c: Claim)
    requires Inv(s)
    ensures Inv(Finish(s, reply, c))
  {
    var t := Finish(s, reply, c);
    GentleKeeps(s, At(t, s.phase));
    MoveWorker(At(t, s.phase), t);
  }

  // The peer that carries the public key is under the key's own label, so a
  // revoke deletes every peer of the slot.
  lemma TargetsCoverSlot(s: State, c: Claim, ctx: Context)
    requires Inv(s) && CtxOk(s, c, ctx)
    ensures forall p :: p in PeersUnder(s, ctx.slot) ==> p.id in RevokeTargets(s, ctx)
  {
    if ctx.publicKey.Some? && OnNode(s, ctx.slot.node, ctx.publicKey.value) {
      var p :| p in s.peers && p.slot.node == ctx.slot.node && p.id == ctx.publicKey.value;
      assert p.slot == ctx.slot;
    }
  }

  // setClientStatus succeeds only on a peer that is there, so its row is live.
  lemma SwitchedOwns(s: State, c: Claim, ctx: Context)
    requires Inv(s) && s.phase == Busy(c, Switching(ctx))
    ensures ctx.publicKey.Some? && OnNode(s, ctx.slot.node, ctx.publicKey.value) ==> OwnsSlot(s, c.key, ctx.slot)
  {
    if ctx.publicKey.Some? && OnNode(s, ctx.slot.node, ctx.publicKey.value) {
      var p :| p in s.peers && p.slot.node == ctx.slot.node && p.id == ctx.publicKey.value;
      assert p in PeersUnder(s, ctx.slot);
      var k :| OwnsSlot(s, k, p.slot);
    }
  }

  lemma RevokeStepKeeps(s: State, reply: Reply, pick: PeerId, c: Claim, ctx: Context)
    requires Inv(s) && (s.phase == Busy(c, FindingPeers(ctx)) || exists ids :: s.phase == Busy(c, DroppingPeers(ctx, ids)))
    ensures Inv(WorkerStep(s, reply, pick))
  {
    if s.phase.call.FindingPeers? {
      TargetsCoverSlot(s, c, ctx);
      MoveWorker(s, WorkerStep(s, reply, pick));
    } else {
      var ids := s.phase.call.ids;
      if ids == {} {
        assert PeersUnder(s, ctx.slot) == {};
        MoveWorker(s, WorkerStep(s, reply, pick));
      } else if pick in ids {
        DeleteKeeps(s, reply, c, ctx.slot.node, pick, DroppingPeers(ctx, ids - {pick}));
      }
    }
  }

  predicate WritesDatabase(call: Call) {
    call.Finishing? || call.Throwing? || call.Storing? || call.Closing? || call.Switched?
  }

  lemma DatabaseCallKeeps(s: State, reply: Reply, pick: PeerId)
    requires Inv(s) && s.phase.Busy? && (WritesDatabase(s.phase.call) || s.phase.call.Loading?)
    ensures Inv(WorkerStep(s, reply, pick))
  {
    var c := s.phase.claim;
    match s.phase.call
    case Loading => MoveWorker(s, WorkerStep(s, reply, pick));
    case Finishing => FinishKeeps(s, reply, c);
    case Throwing => RetryOrFailKeeps(s, reply, c);
    case Storing(ctx, id) => StoreKeeps(s, reply, c, ctx, id);
    case Closing(ctx) => CompleteKeeps(s, reply, c, ctx, Revoked);
    case Switched(ctx) => CompleteKeeps(s, reply, c, ctx, if c.kind.Enable? then Active else Disabled);
  }

  lemma WorkKeeps(s: State, reply: Reply, pick: PeerId)
    requires Inv(s)
    ensures Inv(WorkerStep(s, reply, pick))
  {
    match s.phase
    case Idle =>
    case Busy(c, call) =>
      match call
      case CheckingOrphan(ctx) => FindKeeps(s, reply, pick, c, ctx.slot, DroppingOrphan(ctx, pick), Creating(ctx));
      case CatchingOrphan(ctx) => FindKeeps(s, reply, pick, c, ctx.slot, DroppingOrphan(ctx, pick), Throwing);
      case DroppingOrphan(ctx, id) => DeleteKeeps(s, reply, c, ctx.slot.node, id, Throwing);
      case FindingOld(ctx) => FindKeeps(s, reply, pick, c, ctx.slot, DroppingOld(ctx, pick), Creating(ctx));
      case DroppingOld(ctx, id) => DeleteKeeps(s, reply, c, ctx.slot.node, id, Creating(ctx));
      case Creating(ctx) => CreateKeeps(s, reply, pick, c, ctx);
      case FindingPeers(ctx) => RevokeStepKeeps(s, reply, pick, c, ctx);
      case DroppingPeers(ctx, _) => RevokeStepKeeps(s, reply, pick, c, ctx);
      case Switching(ctx) =>
        SwitchedOwns(s, c, ctx);
        MoveWorker(s, WorkerStep(s, reply, pick));
      case _ => DatabaseCallKeeps(s, reply, pick);
  }

  lemma NextKeeps(s: State, ev: Event)
    requires Inv(s)
    ensures Inv(Next(s, ev))
  {
    match ev
    case Work(reply, pick) => WorkKeeps(s, reply, pick);
    case ClaimJob(j) =>
      var t := Next(s, ev);
      GentleKeeps(s, t.(phase := s.phase));
      MoveWorker(t.(phase := s.phase), t);
    case StopWorker => MoveWorker(s, Next(s, ev));
    case _ => ApiKeeps(s, ev);
  }

  lemma {:induction false} RunKeeps(s: State, events: seq<Event>)
    requires Inv(s)
    ensures Inv(Run(s, events))
    decreases |events|
  {
    if events != [] {
      RunKeeps(s, events[..|events| - 1]);
      NextKeeps(Run(s, events[..|events| - 1]), events[|events| - 1]);
    }
  }

  // ---- Main results -----------------------------------------------------------------

  // In every reachable state a revoked key has no peer under its label, and
  // every peer on a node still has a live row: no purge has stranded one.
  lemma RevokedHasNoPeer(events: seq<Event>)
    ensures var s := Run(EMPTY, events);
      && (forall k :: k in s.rows && s.rows[k].state.Revoked? ==> PeersUnder(s, s.rows[k].slot) == {})
      && (forall p :: p in s.peers ==>
            exists k :: k in s.rows && s.rows[k].slot == p.slot && !s.rows[k].state.Revoked?)
  {
    RunKeeps(EMPTY, events);
    var s := Run(EMPTY, events);
    forall k | k in s.rows && s.rows[k].state.Revoked? ensures PeersUnder(s, s.rows[k].slot) == {} {
      RevokedSlotIsEmpty(s, k);
    }
    forall p | p in s.peers ensures exists k :: k in s.rows && s.rows[k].slot == p.slot && !s.rows[k].state.Revoked? {
      var k :| OwnsSlot(s, k, p.slot);
    }
  }

  // The state a worker call leaves a row in: only four database writes move it.
  function StateAfterWork(s: State, reply: Reply, k: KeyId): KeyState
    requires k in s.rows
  {
    var state := s.rows[k].state;
    if reply.Refused? || s.phase.Idle? || s.phase.claim.key != k then state
    else
      var c := s.phase.claim;
      match s.phase.call
      case Storing(_, _) => if state.Provisioning? then Active else state
      case Closing(_) => Revoked
      case Switched(_) => if c.kind.Enable? then Active else Disabled
      case Throwing =>
        if state.Provisioning? && c.attempts >= MAX_ATTEMPTS && c.job in s.jobs then Failed else state
      case _ => state
  }

  // The database is as before and the worker is on the same job.
  ghost predicate NodeOnly(s: State, t: State) {
    && t.rows == s.rows && t.jobs == s.jobs && t.usedKeys == s.usedKeys && t.usedJobs == s.usedJobs
    && t.phase.Busy? && s.phase.Busy? && t.phase.claim == s.phase.claim
  }

  // Every other call only talks to a node or reads.
  lemma OtherCallsAreNodeOnly(s: State, reply: Reply, pick: PeerId)
    requires s.phase.Busy? && !WritesDatabase(s.phase.call)
    ensures NodeOnly(s, WorkerStep(s, reply, pick))
  {}

  lemma WorkMovesRows(s: State, reply: Reply, pick: PeerId)
    ensures var t := WorkerStep(s, reply, pick);
      && t.rows.Keys == s.rows.Keys && t.usedKeys == s.usedKeys
      && forall k :: k in s.rows ==> t.rows[k].state == StateAfterWork(s, reply, k)
  {
    match s.phase
    case Idle =>
    case Busy(c, call) =>
      if !WritesDatabase(call) {
        OtherCallsAreNodeOnly(s, reply, pick);
      }
  }

  // The state an API transaction leaves a row in.
  predicate Moves(s: State, ev: Event, k: KeyId, to: KeyState) {
    match ev
    case OwnRotate(l, _) => l == k && to.Provisioning? && InState(s, k, {Active, Failed})
    case AskRevoke(l, _) => l == k && to.Revoking? && k in s.rows && !s.rows[k].state.Revoked?
    case AdminDisable(l, _) => l == k && to.Disabled? && InState(s, k, {Active})
    case AdminEnable(l, _) => l == k && to.Active? && InState(s, k, {Disabled})
    case _ => false
  }

  lemma ApiMovesRows(s: State, ev: Event)
    requires RowsOk(s)
    ensures var t := Api(s, ev);
      && s.usedKeys <= t.usedKeys
      && (forall k :: k in t.rows && k !in s.rows ==> k !in s.usedKeys)
      && (forall k :: k in s.rows && k !in t.rows ==> s.rows[k].state.Revoked?)
      && (forall k :: k in s.rows && k in t.rows ==>
            t.rows[k].state == s.rows[k].state || Moves(s, ev, k, t.rows[k].state))
  {}

  lemma StepKeepsRevoked(s: State, ev: Event, k: KeyId)
    requires Inv(s) && k in s.usedKeys && (k in s.rows ==> s.rows[k].state.Revoked?)
    ensures k in Next(s, ev).usedKeys
    ensures k in Next(s, ev).rows ==> Next(s, ev).rows[k].state.Revoked?
  {
    match ev
    case Work(reply, pick) =>
      WorkMovesRows(s, reply, pick);
      assert s.phase.Busy? && s.phase.call.Switched? ==> OwnsSlot(s, s.phase.claim.key, s.phase.call.ctx.slot);
    case ClaimJob(j) =>
    case StopWorker =>
    case _ => ApiMovesRows(s, ev);
  }

  // Once revoked, a key stays revoked until its row is purged, and a purged key
  // never comes back: none of its peers can ever reappear.
  lemma {:induction false} RevokedIsFinal(before: seq<Event>, after: seq<Event>, k: KeyId)
    requires InState(Run(EMPTY, before), k, {Revoked})
    ensures var t := Run(EMPTY, before + after);
      && (k in t.rows ==> t.rows[k].state.Revoked?)
      && (k in t.rows ==> PeersUnder(t, t.rows[k].slot) == {})
      && k in t.usedKeys
    decreases |after|
  {
    RunKeeps(EMPTY, before);
    RunKeeps(EMPTY, before + after);
    var t := Run(EMPTY, before + after);
    if after == [] {
      assert before + after == before;
    } else {
      var init, last := after[..|after| - 1], after[|after| - 1];
      RevokedIsFinal(before, init, k);
      RunKeeps(EMPTY, before + init);
      assert (before + after)[..|before + after| - 1] == before + init;
      StepKeepsRevoked(Run(EMPTY, before + init), last, k);
    }
    if k in t.rows {
      RevokedSlotIsEmpty(t, k);
    }
  }

  // A row leaves `revoking` for anything but `revoked` exactly when a disable
  // or enable job that was already past its node call completes: that write
  // does not look at the state it overwrites.
  lemma RevokingLeavesIff(s: State, ev: Event, k: KeyId)
    requires Inv(s) && InState(s, k, {Revoking})
    ensures k in Next(s, ev).rows
    ensures Next(s, ev).rows[k].state !in {Revoking, Revoked} <==>
              ev.Work? && !ev.reply.Refused? && s.phase.Busy? && s.phase.call.Switched? && s.phase.claim.key == k
    ensures Next(s, ev).rows[k].state.Revoked? <==>
              ev.Work? && !ev.reply.Refused? && s.phase.Busy? && s.phase.call.Closing? && s.phase.claim.key == k
  {
    match ev
    case Work(reply, pick) => WorkMovesRows(s, reply, pick);
    case ClaimJob(j) =>
    case StopWorker =>
    case _ => ApiMovesRows(s, ev);
  }
}
