// What the worker's handlers do when every call answers, from the request to
// the completed job, and that a job completes only with its work done.
module KeyHandlers {
  import opened Options
  import opened KeyLifecycle
  import opened KeySafety
  import opened KeyRecovery
  import opened KeyRevokes

  // The worker picks a job or calls with success.
  predicate Answered(ev: Event) {
    ev.ClaimJob? || (ev.Work? && ev.reply.Done?)
  }

  ghost predicate AllAnswered(events: seq<Event>) {
    forall ev :: ev in events ==> Answered(ev)
  }

  ghost predicate Runnable(s: State, j: JobId) {
    s.phase.Idle? && j in s.jobs && Live(s.jobs[j]) && s.jobs[j].key in s.rows
  }

  // The queue once the job has been taken and has ended so.
  function Queue(s: State, j: JobId, status: JobStatus): map<JobId, Job>
    requires j in s.jobs
  {
    s.jobs[j := s.jobs[j].(status := status, attempts := s.jobs[j].attempts + 1)]
  }

  lemma TwoSteps(s: State, a: Event, b: Event)
    ensures Run(s, [a, b]) == Next(Next(s, a), b)
  {
    assert [a, b][..1] == [a] && [a][..0] == [];
    assert Run(s, [a]) == Next(s, a);
  }

  lemma TakenThenLoaded(s: State, j: JobId)
    requires Runnable(s, j)
    ensures var job := s.jobs[j];
      Next(Next(s, ClaimJob(j)), Work(Done, 0)) ==
        State(s.rows, Queue(s, j, Processing), s.peers,
              Busy(Claim(j, job.kind, job.key, job.attempts + 1), FirstCall(job.kind, s.rows[job.key])),
              s.usedKeys, s.usedJobs, s.madeFor)
  {
    var job := s.jobs[j];
    assert Next(s, ClaimJob(j)) ==
      State(s.rows, Queue(s, j, Processing), s.peers, Busy(Claim(j, job.kind, job.key, job.attempts + 1), Loading),
            s.usedKeys, s.usedJobs, s.madeFor);
  }

  lemma Claimed(s: State, j: JobId)
    requires Runnable(s, j)
    ensures var job := s.jobs[j];
      Run(s, [ClaimJob(j), Work(Done, 0)]) ==
        State(s.rows, Queue(s, j, Processing), s.peers,
              Busy(Claim(j, job.kind, job.key, job.attempts + 1), FirstCall(job.kind, s.rows[job.key])),
              s.usedKeys, s.usedJobs, s.madeFor)
  {
    TwoSteps(s, ClaimJob(j), Work(Done, 0));
    TakenThenLoaded(s, j);
  }

  // ---- Revoke ----------------------------------------------------------------------------

  ghost function Without(peers: set<Peer>, node: nat, ids: set<PeerId>): set<Peer> {
    set p | p in peers && !(p.slot.node == node && p.id in ids)
  }

  // The deletions, one by one.
  lemma {:induction false} DropAll(s: State, c: Claim, ctx: Context, ids: set<PeerId>) returns (events: seq<Event>)
    requires s.phase == Busy(c, DroppingPeers(ctx, ids))
    requires forall id :: id in ids ==> OnNode(s, ctx.slot.node, id)
    ensures AllAnswered(events)
    ensures Run(s, events) ==
      s.(peers := Without(s.peers, ctx.slot.node, ids), phase := Busy(c, DroppingPeers(ctx, {})))
    decreases |ids|
  {
    if ids == {} {
      events := [];
      assert Without(s.peers, ctx.slot.node, ids) == s.peers;
    } else {
      var id :| id in ids;
      var t := Next(s, Work(Done, id));
      assert t == On(DropPeer(s, ctx.slot.node, id), c, DroppingPeers(ctx, ids - {id}));
      OthersStay(s, ctx.slot.node, id, ids);
      var rest := DropAll(t, c, ctx, ids - {id});
      events := [Work(Done, id)] + rest;
      assert [Work(Done, id)][..0] == [];
      assert Run(s, [Work(Done, id)]) == t;
      RunConcat(s, [Work(Done, id)], rest);
      assert Without(t.peers, ctx.slot.node, ids - {id}) == Without(s.peers, ctx.slot.node, ids);
    }
  }

  lemma OthersStay(s: State, node: nat, id: PeerId, ids: set<PeerId>)
    requires forall i :: i in ids ==> OnNode(s, node, i)
    ensures forall i :: i in ids - {id} ==> OnNode(DropPeer(s, node, id), node, i)
  {
    forall i | i in ids - {id} ensures OnNode(DropPeer(s, node, id), node, i) {
      var p :| p in s.peers && p.slot.node == node && p.id == i;
      assert p in DropPeer(s, node, id).peers;
    }
  }

  lemma FindsTargets(s: State, c: Claim, ctx: Context)
    requires s.phase == Busy(c, FindingPeers(ctx))
    ensures Run(s, [Work(Done, 0)]) == On(s, c, DroppingPeers(ctx, RevokeTargets(s, ctx)))
  {
    assert [Work(Done, 0)][..0] == [];
    assert Run(s, [Work(Done, 0)]) == Next(s, Work(Done, 0));
  }

  // From the listing of the node's clients to the end of the job.
  lemma RevokeHandler(s: State, c: Claim, ctx: Context) returns (events: seq<Event>)
    requires s.phase == Busy(c, FindingPeers(ctx)) && c.key in s.rows && c.job in s.jobs
    ensures AllAnswered(events)
    ensures Run(s, events) ==
      State(s.rows[c.key := s.rows[c.key].(state := Revoked)],
            s.jobs[c.job := s.jobs[c.job].(status := Completed)],
            Without(s.peers, ctx.slot.node, RevokeTargets(s, ctx)), Idle, s.usedKeys, s.usedJobs, s.madeFor)
  {
    var ids := RevokeTargets(s, ctx);
    var listed := On(s, c, DroppingPeers(ctx, ids));
    FindsTargets(s, c, ctx);
    TargetsAreOnNode(s, listed, ctx);
    var drops := DropAll(listed, c, ctx, ids);
    var done := [Work(Done, 0), Work(Done, 0)];
    var dropped := Run(listed, drops);
    TwoSteps(dropped, Work(Done, 0), Work(Done, 0));
    RevokeCloses(dropped, c, ctx);
    RunConcat(listed, drops, done);
    RunConcat(s, [Work(Done, 0)], drops + done);
    events := [Work(Done, 0)] + (drops + done);
  }

  // A revoke whose calls answer: the row ends revoked and the job completed, no
  // peer is left under the key's slot, and no other key loses one.
  lemma RevokeRuns(s: State, j: JobId) returns (events: seq<Event>)
    requires Inv(s) && Runnable(s, j) && s.jobs[j].kind.Revoke?
    ensures AllAnswered(events)
    ensures var k := s.jobs[j].key;
      var t := Run(s, events);
      && t.phase.Idle? && t.rows == s.rows[k := s.rows[k].(state := Revoked)]
      && t.jobs == Queue(s, j, Completed)
      && t.peers == s.peers - PeersUnder(s, s.rows[k].slot)
      && PeersUnder(t, s.rows[k].slot) == {}
  {
    var first := [ClaimJob(j), Work(Done, 0)];
    Claimed(s, j);
    var loaded := Run(s, first);
    var k, ctx := s.jobs[j].key, Context(s.rows[s.jobs[j].key].slot, s.rows[s.jobs[j].key].publicKey);
    assert loaded.phase == Busy(loaded.phase.claim, FindingPeers(ctx));
    var rest := RevokeHandler(loaded, loaded.phase.claim, ctx);
    RunConcat(s, first, rest);
    events := first + rest;
    OnlyTheSlot(s, ctx, k);
    SameTargets(s, loaded, ctx);
  }

  lemma SameTargets(s: State, t: State, ctx: Context)
    requires t.peers == s.peers
    ensures RevokeTargets(t, ctx) == RevokeTargets(s, ctx)
  {
    assert OnNode(t, ctx.slot.node, if ctx.publicKey.Some? then ctx.publicKey.value else 0) <==>
           OnNode(s, ctx.slot.node, if ctx.publicKey.Some? then ctx.publicKey.value else 0);
  }

  lemma TargetsAreOnNode(s: State, listed: State, ctx: Context)
    requires listed.peers == s.peers
    ensures forall id :: id in RevokeTargets(s, ctx) ==> OnNode(listed, ctx.slot.node, id)
  {
    forall id | id in RevokeTargets(s, ctx) ensures OnNode(listed, ctx.slot.node, id) {
      var q :| q in s.peers && q.id == id && q.slot.node == ctx.slot.node;
      assert q in listed.peers;
    }
  }

  lemma RevokeCloses(t: State, c: Claim, ctx: Context)
    requires t.phase == Busy(c, DroppingPeers(ctx, {})) && c.key in t.rows && c.job in t.jobs
    ensures Next(Next(t, Work(Done, 0)), Work(Done, 0)) ==
      t.(rows := t.rows[c.key := t.rows[c.key].(state := Revoked)],
         jobs := t.jobs[c.job := t.jobs[c.job].(status := Completed)], phase := Idle)
  {
    assert Next(t, Work(Done, 0)) == On(t, c, Closing(ctx));
  }

  // A peer id was made for one slot, so the ids deleted are those of the slot.
  lemma OnlyTheSlot(s: State, ctx: Context, k: KeyId)
    requires Inv(s) && k in s.rows && ctx == Context(s.rows[k].slot, s.rows[k].publicKey)
    ensures Without(s.peers, ctx.slot.node, RevokeTargets(s, ctx)) == s.peers - PeersUnder(s, ctx.slot)
  {
    forall p | p in s.peers
      ensures p.slot.node == ctx.slot.node && p.id in RevokeTargets(s, ctx) <==> p.slot == ctx.slot
    {
      TargetsCoverSlot(s, Claim(0, Revoke, k, 0), ctx);
      if p.id in RevokeTargets(s, ctx) {
        var q :| q in s.peers && q.id == p.id && q.slot == ctx.slot;
        assert s.madeFor[p.id] == p.slot && s.madeFor[q.id] == q.slot;
      }
    }
  }

  // ---- Provision and rotate ------------------------------------------------------------------

  // The state after a key has been given a peer of its own.
  function Provisioned(s: State, c: Claim, slot: Slot, made: PeerId): State
    requires c.key in s.rows && c.job in s.jobs
  {
    State(s.rows[c.key := s.rows[c.key].(state := Active, publicKey := Some(made))],
          s.jobs[c.job := s.jobs[c.job].(status := Completed)],
          s.peers + {Peer(slot, made)}, Idle, s.usedKeys, s.usedJobs, s.madeFor[made := slot])
  }

  lemma CreatesAndStores(s: State, c: Claim, ctx: Context, made: PeerId)
    requires s.phase == Busy(c, Creating(ctx)) && made !in s.madeFor
    requires InState(s, c.key, {Provisioning}) && c.job in s.jobs
    ensures Run(s, [Work(Done, made), Work(Done, 0)]) == Provisioned(s, c, ctx.slot, made)
  {
    TwoSteps(s, Work(Done, made), Work(Done, 0));
    assert Next(s, Work(Done, made)) ==
      State(s.rows, s.jobs, s.peers + {Peer(ctx.slot, made)}, Busy(c, Storing(ctx, made)), s.usedKeys, s.usedJobs,
            s.madeFor[made := ctx.slot]);
  }

  // A provision whose calls answer, with no peer left over under the key's slot:
  // the key is active with the one fresh peer as its own.
  lemma ProvisionRuns(s: State, j: JobId, made: PeerId) returns (events: seq<Event>)
    requires Runnable(s, j) && s.jobs[j].kind.Provision? && made !in s.madeFor
    requires s.rows[s.jobs[j].key].state.Provisioning? && PeersUnder(s, s.rows[s.jobs[j].key].slot) == {}
    ensures AllAnswered(events)
    ensures var k := s.jobs[j].key;
      Run(s, events) ==
        State(s.rows[k := s.rows[k].(state := Active, publicKey := Some(made))], Queue(s, j, Completed),
              s.peers + {Peer(s.rows[k].slot, made)}, Idle, s.usedKeys, s.usedJobs, s.madeFor[made := s.rows[k].slot])
  {
    var first, last := [ClaimJob(j), Work(Done, 0)], [Work(Done, made), Work(Done, 0)];
    Claimed(s, j);
    var loaded := Run(s, first);
    var c, ctx := loaded.phase.claim, Context(s.rows[s.jobs[j].key].slot, s.rows[s.jobs[j].key].publicKey);
    assert loaded.phase == Busy(c, CheckingOrphan(ctx));
    assert PeersUnder(loaded, ctx.slot) == PeersUnder(s, ctx.slot);
    assert [Work(Done, 0)][..0] == [];
    assert Run(loaded, [Work(Done, 0)]) == On(loaded, c, Creating(ctx));
    CreatesAndStores(On(loaded, c, Creating(ctx)), c, ctx, made);
    RunConcat(loaded, [Work(Done, 0)], last);
    RunConcat(s, first, [Work(Done, 0)] + last);
    events := first + ([Work(Done, 0)] + last);
  }

  // The old peer of a rotation: the recorded one, else the first under the label.
  lemma DropsOld(s: State, c: Claim, ctx: Context) returns (events: seq<Event>, gone: set<PeerId>)
    requires s.phase == Busy(c, if ctx.publicKey.Some? then DroppingOld(ctx, ctx.publicKey.value) else FindingOld(ctx))
    requires ctx.publicKey.Some? ==> OnNode(s, ctx.slot.node, ctx.publicKey.value)
    ensures AllAnswered(events)
    ensures Run(s, events) == On(s.(peers := Without(s.peers, ctx.slot.node, gone)), c, Creating(ctx))
    ensures if ctx.publicKey.Some? then gone == {ctx.publicKey.value}
            else if PeersUnder(s, ctx.slot) == {} then gone == {}
            else exists id :: gone == {id} && Peer(ctx.slot, id) in s.peers
  {
    if ctx.publicKey.Some? {
      events, gone := DropsPeer(s, c, ctx, ctx.publicKey.value);
    } else {
      assert [Work(Done, 0)][..0] == [];
      if PeersUnder(s, ctx.slot) == {} {
        events, gone := [Work(Done, 0)], {};
        assert Without(s.peers, ctx.slot.node, {}) == s.peers;
        assert Run(s, events) == Next(s, Work(Done, 0));
      } else {
        var p :| p in PeersUnder(s, ctx.slot);
        assert p == Peer(ctx.slot, p.id);
        var found := [Work(Done, p.id)];
        assert found[..0] == [] && Run(s, found) == Next(s, Work(Done, p.id));
        assert Run(s, found) == On(s, c, DroppingOld(ctx, p.id));
        var drop: seq<Event>;
        drop, gone := DropsPeer(On(s, c, DroppingOld(ctx, p.id)), c, ctx, p.id);
        RunConcat(s, found, drop);
        events := found + drop;
      }
    }
  }

  lemma DropsPeer(s: State, c: Claim, ctx: Context, id: PeerId) returns (events: seq<Event>, gone: set<PeerId>)
    requires s.phase == Busy(c, DroppingOld(ctx, id))
    requires exists p :: p in s.peers && p.slot.node == ctx.slot.node && p.id == id
    ensures AllAnswered(events) && gone == {id}
    ensures Run(s, events) == On(s.(peers := Without(s.peers, ctx.slot.node, gone)), c, Creating(ctx))
  {
    events, gone := [Work(Done, 0)], {id};
    assert events[..0] == [] && Run(s, events) == Next(s, Work(Done, 0));
    assert DropPeer(s, ctx.slot.node, id).peers == Without(s.peers, ctx.slot.node, {id});
  }

  // A rotation whose calls answer: the old peer is gone, a fresh one is recorded,
  // the key is active again.
  lemma RotateRuns(s: State, j: JobId, made: PeerId) returns (events: seq<Event>, gone: set<PeerId>)
    requires Runnable(s, j) && s.jobs[j].kind.Rotate? && made !in s.madeFor
    requires var row := s.rows[s.jobs[j].key];
      row.state.Provisioning? && (row.publicKey.Some? ==> OnNode(s, row.slot.node, row.publicKey.value))
    ensures AllAnswered(events)
    ensures var row := s.rows[s.jobs[j].key];
      if row.publicKey.Some? then gone == {row.publicKey.value}
      else if PeersUnder(s, row.slot) == {} then gone == {}
      else exists id :: gone == {id} && Peer(row.slot, id) in s.peers
    ensures var k := s.jobs[j].key;
      Run(s, events) ==
        State(s.rows[k := s.rows[k].(state := Active, publicKey := Some(made))], Queue(s, j, Completed),
              Without(s.peers, s.rows[k].slot.node, gone) + {Peer(s.rows[k].slot, made)}, Idle, s.usedKeys, s.usedJobs,
              s.madeFor[made := s.rows[k].slot])
  {
    var first, last := [ClaimJob(j), Work(Done, 0)], [Work(Done, made), Work(Done, 0)];
    Claimed(s, j);
    var loaded := Run(s, first);
    var c, ctx := loaded.phase.claim, Context(s.rows[s.jobs[j].key].slot, s.rows[s.jobs[j].key].publicKey);
    SamePeersSameNode(s, loaded, ctx);
    var drop: seq<Event>;
    drop, gone := DropsOld(loaded, c, ctx);
    var cleared := On(loaded.(peers := Without(s.peers, ctx.slot.node, gone)), c, Creating(ctx));
    CreatesAndStores(cleared, c, ctx, made);
    RunConcat(loaded, drop, last);
    RunConcat(s, first, drop + last);
    events := first + (drop + last);
  }

  lemma SamePeersSameNode(s: State, t: State, ctx: Context)
    requires t.peers == s.peers
    ensures PeersUnder(t, ctx.slot) == PeersUnder(s, ctx.slot)
    ensures ctx.publicKey.Some? ==>
      (OnNode(t, ctx.slot.node, ctx.publicKey.value) <==> OnNode(s, ctx.slot.node, ctx.publicKey.value))
  {}

  // ---- Disable and enable ----------------------------------------------------------------------

  // A switch whose calls answer leaves the key in the state it asked for and
  // every peer where it was.
  lemma SwitchRuns(s: State, j: JobId) returns (events: seq<Event>)
    requires Runnable(s, j) && Switches(s.jobs[j].kind) && PeerInPlace(s, s.jobs[j].key)
    ensures AllAnswered(events)
    ensures var k := s.jobs[j].key;
      Run(s, events) ==
        State(s.rows[k := s.rows[k].(state := if s.jobs[j].kind.Enable? then Active else Disabled)],
              Queue(s, j, Completed), s.peers, Idle, s.usedKeys, s.usedJobs, s.madeFor)
  {
    var first, last := [ClaimJob(j), Work(Done, 0)], [Work(Done, 0), Work(Done, 0)];
    Claimed(s, j);
    var loaded := Run(s, first);
    var c, ctx := loaded.phase.claim, Context(s.rows[s.jobs[j].key].slot, s.rows[s.jobs[j].key].publicKey);
    SamePeersSameNode(s, loaded, ctx);
    SwitchHandler(loaded, c, ctx);
    RunConcat(s, first, last);
    events := first + last;
  }

  lemma SwitchHandler(s: State, c: Claim, ctx: Context)
    requires s.phase == Busy(c, Switching(ctx)) && c.key in s.rows && c.job in s.jobs
    requires ctx.publicKey.Some? && OnNode(s, ctx.slot.node, ctx.publicKey.value)
    ensures Run(s, [Work(Done, 0), Work(Done, 0)]) ==
      State(s.rows[c.key := s.rows[c.key].(state := if c.kind.Enable? then Active else Disabled)],
            s.jobs[c.job := s.jobs[c.job].(status := Completed)], s.peers, Idle, s.usedKeys, s.usedJobs, s.madeFor)
  {
    TwoSteps(s, Work(Done, 0), Work(Done, 0));
    assert Next(s, Work(Done, 0)) == On(s, c, Switched(ctx));
  }

  // ---- Nothing to do ------------------------------------------------------------------------------

  // A job whose key is gone, and a provision or rotation that finds its key in
  // another state, completes and changes nothing.
  lemma NothingToDo(s: State, j: JobId) returns (events: seq<Event>)
    requires s.phase.Idle? && j in s.jobs && Live(s.jobs[j])
    requires var job := s.jobs[j];
      job.key in s.rows ==> (job.kind.Provision? || job.kind.Rotate?) && !s.rows[job.key].state.Provisioning?
    ensures AllAnswered(events) && Run(s, events) == s.(jobs := Queue(s, j, Completed))
  {
    var job := s.jobs[j];
    var c := Claim(j, job.kind, job.key, job.attempts + 1);
    var first, last := [ClaimJob(j), Work(Done, 0)], [Work(Done, 0)];
    var taken := s.(jobs := Queue(s, j, Processing), phase := Busy(c, Finishing));
    TwoSteps(s, ClaimJob(j), Work(Done, 0));
    assert Next(s, ClaimJob(j)) == s.(jobs := Queue(s, j, Processing), phase := Busy(c, Loading));
    assert Run(s, first) == taken;
    assert last[..0] == [] && Run(taken, last) == Next(taken, Work(Done, 0));
    RunConcat(s, first, last);
    events := first + last;
  }

  // ---- Requests -----------------------------------------------------------------------------------

  // When a request is accepted, and what it does: the row moves and one pending
  // job of its kind is queued. A refused request changes nothing.
  lemma RequestAccepted(s: State, k: KeyId, j: JobId)
    requires j !in s.usedJobs
    ensures Next(s, OwnRotate(k, j)) ==
      if InState(s, k, {Active, Failed}) then Requested(s, k, j, Rotate, Provisioning) else s
    ensures Next(s, AskRevoke(k, j)) ==
      if k in s.rows && s.rows[k].state != Revoked then Requested(s, k, j, Revoke, Revoking) else s
    ensures Next(s, AdminDisable(k, j)) == if InState(s, k, {Active}) then Requested(s, k, j, Disable, Disabled) else s
    ensures Next(s, AdminEnable(k, j)) == if InState(s, k, {Disabled}) then Requested(s, k, j, Enable, Active) else s
    ensures Next(s, Rearm(k, j)) == if InState(s, k, {Revoking}) then Requested(s, k, j, Revoke, Revoking) else s
  {}

  // What clean-up takes away: a purge or a deleted owner the revoked row alone, a
  // purge also its jobs, pruning one completed job, a node one peer.
  lemma CleanUpTakes(s: State, k: KeyId, j: JobId, p: Peer)
    ensures var t := Next(s, Purge(k));
      if InState(s, k, {Revoked}) then
        && t == s.(rows := s.rows - {k}, jobs := t.jobs)
        && forall i :: (i in t.jobs <==> i in s.jobs && s.jobs[i].key != k) && (i in t.jobs ==> t.jobs[i] == s.jobs[i])
      else t == s
    ensures Next(s, DeleteWithOwner(k)) == if InState(s, k, {Revoked}) then s.(rows := s.rows - {k}) else s
    ensures Next(s, PruneJob(j)) ==
      if j in s.jobs && s.jobs[j].status == Completed then s.(jobs := s.jobs - {j}) else s
    ensures Next(s, PeerVanishes(p)) == s.(peers := s.peers - {p})
  {}

  function Requested(s: State, k: KeyId, j: JobId, kind: JobKind, to: KeyState): State
    requires k in s.rows
  {
    State(s.rows[k := s.rows[k].(state := to)], s.jobs[j := Job(kind, k, Pending, 0)], s.peers, s.phase,
          s.usedKeys, s.usedJobs + {j}, s.madeFor)
  }

  // A revoke request on an idle worker whose calls answer is carried out, whatever
  // state the key was in.
  lemma RevokeCarriedOut(s: State, k: KeyId, j: JobId) returns (events: seq<Event>)
    requires Inv(s) && s.phase.Idle? && k in s.rows && s.rows[k].state != Revoked && j !in s.usedJobs
    ensures AllAnswered(events)
    ensures var t := Run(Next(s, AskRevoke(k, j)), events);
      && t.phase.Idle? && t.rows == s.rows[k := s.rows[k].(state := Revoked)]
      && t.peers == s.peers - PeersUnder(s, s.rows[k].slot)
      && t.jobs == s.jobs[j := Job(Revoke, k, Completed, 1)]
  {
    RevokeAsked(s, k, j);
    events := RevokeRuns(Requested(s, k, j, Revoke, Revoking), j);
  }

  lemma RevokeAsked(s: State, k: KeyId, j: JobId)
    requires Inv(s) && s.phase.Idle? && k in s.rows && s.rows[k].state != Revoked && j !in s.usedJobs
    ensures var asked := Requested(s, k, j, Revoke, Revoking);
      && Next(s, AskRevoke(k, j)) == asked && Inv(asked) && Runnable(asked, j)
      && PeersUnder(asked, s.rows[k].slot) == PeersUnder(s, s.rows[k].slot)
  {
    RequestAccepted(s, k, j);
    ApiKeeps(s, AskRevoke(k, j));
  }

  // A new key on an idle worker whose calls answer becomes active with one peer
  // of its own.
  lemma CreationCarriedOut(s: State, k: KeyId, slot: Slot, j: JobId, made: PeerId) returns (events: seq<Event>)
    requires Inv(s) && s.phase.Idle? && k !in s.usedKeys && j !in s.usedJobs && made !in s.madeFor
    requires forall l :: l in s.rows ==> s.rows[l].slot != slot
    ensures AllAnswered(events)
    ensures var t := Run(Next(s, CreateKey(k, slot, j)), events);
      && t.phase.Idle? && t.rows == s.rows[k := Row(slot, Active, Some(made))]
      && t.peers == s.peers + {Peer(slot, made)} && PeersUnder(t, slot) == {Peer(slot, made)}
      && t.jobs == s.jobs[j := Job(Provision, k, Completed, 1)]
  {
    var created := Next(s, CreateKey(k, slot, j));
    forall p | p in s.peers ensures p.slot != slot {
      var l :| OwnsSlot(s, l, p.slot);
    }
    assert created.peers == s.peers && created.rows == s.rows[k := Row(slot, Provisioning, None)];
    assert created.jobs == s.jobs[j := Job(Provision, k, Pending, 0)] && created.phase == s.phase;
    events := ProvisionRuns(created, j, made);
  }

  // A rotation, a disable and an enable of a key whose peer is in place are
  // carried out likewise.
  lemma RotationCarriedOut(s: State, k: KeyId, j: JobId, made: PeerId) returns (events: seq<Event>)
    requires s.phase.Idle? && InState(s, k, {Active, Failed}) && PeerInPlace(s, k) && j !in s.usedJobs && made !in s.madeFor
    ensures AllAnswered(events)
    ensures var t := Run(Next(s, OwnRotate(k, j)), events);
      var row := s.rows[k];
      && t.phase.Idle? && t.rows == s.rows[k := Row(row.slot, Active, Some(made))]
      && t.peers == Without(s.peers, row.slot.node, {row.publicKey.value}) + {Peer(row.slot, made)}
      && t.jobs == s.jobs[j := Job(Rotate, k, Completed, 1)]
  {
    RequestAccepted(s, k, j);
    var asked := Next(s, OwnRotate(k, j));
    SamePeersSameNode(s, asked, Context(s.rows[k].slot, s.rows[k].publicKey));
    var gone: set<PeerId>;
    events, gone := RotateRuns(asked, j, made);
  }

  lemma SwitchCarriedOut(s: State, k: KeyId, j: JobId, on: bool) returns (events: seq<Event>)
    requires s.phase.Idle? && InState(s, k, {if on then Disabled else Active}) && PeerInPlace(s, k) && j !in s.usedJobs
    ensures AllAnswered(events)
    ensures var t := Run(Next(s, if on then AdminEnable(k, j) else AdminDisable(k, j)), events);
      && t.phase.Idle? && t.rows == s.rows[k := s.rows[k].(state := if on then Active else Disabled)]
      && t.peers == s.peers && t.jobs == s.jobs[j := Job(if on then Enable else Disable, k, Completed, 1)]
  {
    RequestAccepted(s, k, j);
    var asked := Next(s, if on then AdminEnable(k, j) else AdminDisable(k, j));
    SamePeersSameNode(s, asked, Context(s.rows[k].slot, s.rows[k].publicKey));
    events := SwitchRuns(asked, j);
  }

  // ---- A job completes only with its work done -------------------------------------------------------

  // The calls of each handler.
  predicate OfKind(call: Call, kind: JobKind) {
    match call
    case Loading => true
    case Finishing => true
    case Throwing => true
    case CheckingOrphan(_) => kind.Provision?
    case CatchingOrphan(_) => kind.Provision?
    case DroppingOrphan(_, _) => kind.Provision?
    case FindingOld(_) => kind.Rotate?
    case DroppingOld(_, _) => kind.Rotate?
    case Creating(_) => kind.Provision? || kind.Rotate?
    case Storing(_, _) => kind.Provision? || kind.Rotate?
    case FindingPeers(_) => kind.Revoke?
    case DroppingPeers(_, _) => kind.Revoke?
    case Closing(_) => kind.Revoke?
    case Switching(_) => Switches(kind)
    case Switched(_) => Switches(kind)
  }

  // The worker is in the handler of its job, and ends a revoke or a switch without
  // doing it only if the key is gone.
  ghost predicate HandlerOk(s: State) {
    s.phase.Busy? ==>
      var c := s.phase.claim;
      && OfKind(s.phase.call, c.kind)
      && (s.phase.call.Finishing? && (c.kind.Revoke? || Switches(c.kind)) ==> c.key !in s.rows)
      && (c.job in s.jobs ==> s.jobs[c.job].attempts == c.attempts)
  }

  lemma WorkKeepsHandler(s: State, reply: Reply, pick: PeerId)
    requires JobsOk(s) && HandlerOk(s) && s.phase.Busy?
    ensures HandlerOk(WorkerStep(s, reply, pick))
  {
    WorkQueue(s, reply, pick);
    WorkMovesRows(s, reply, pick);
    StaysInHandler(s, reply, pick);
  }

  lemma StaysInHandler(s: State, reply: Reply, pick: PeerId)
    requires HandlerOk(s) && s.phase.Busy?
    ensures var t := WorkerStep(s, reply, pick);
      t.phase.Busy? ==>
        && OfKind(t.phase.call, s.phase.claim.kind)
        && (t.phase.call.Finishing? && (s.phase.claim.kind.Revoke? || Switches(s.phase.claim.kind)) ==>
              s.phase.claim.key !in s.rows)
  {
    if s.phase.call.Loading? {
      assert s.phase.claim.key in s.rows ==> s.phase.claim.kind.Revoke? ==>
        FirstCall(s.phase.claim.kind, s.rows[s.phase.claim.key]).FindingPeers?;
    }
  }

  lemma ApiKeepsHandler(s: State, ev: Event)
    requires Inv(s) && JobsOk(s) && HandlerOk(s)
    ensures HandlerOk(Api(s, ev))
  {
    ApiMovesRows(s, ev);
    ApiJobs(s, ev);
    ApiLeavesNode(s, ev);
  }

  lemma NextKeepsHandler(s: State, ev: Event)
    requires Inv(s) && JobsOk(s) && HandlerOk(s)
    ensures HandlerOk(Next(s, ev))
  {
    match ev
    case Work(reply, pick) => if s.phase.Busy? { WorkKeepsHandler(s, reply, pick); }
    case ClaimJob(j) =>
    case StopWorker =>
    case _ => ApiKeepsHandler(s, ev);
  }

  lemma {:induction false} RunKeepsHandler(events: seq<Event>)
    ensures Inv(Run(EMPTY, events)) && JobsOk(Run(EMPTY, events)) && HandlerOk(Run(EMPTY, events))
    decreases |events|
  {
    if events != [] {
      RunKeepsHandler(events[..|events| - 1]);
      RunKeepsJobs(EMPTY, events);
      NextKeepsHandler(Run(EMPTY, events[..|events| - 1]), events[|events| - 1]);
    }
  }

  ghost predicate Ends(s: State, ev: Event, j: JobId, status: JobStatus) {
    j in s.jobs && s.jobs[j].status != status && j in Next(s, ev).jobs && Next(s, ev).jobs[j].status == status
  }

  // Only a worker call ends a job, and only the one it is on.
  lemma OnlyWorkEnds(s: State, ev: Event, j: JobId, status: JobStatus)
    requires Inv(s) && JobsOk(s) && status in {Completed, GaveUp} && Ends(s, ev, j, status)
    ensures ev.Work? && s.phase.Busy? && s.phase.claim.job == j && !ev.reply.Refused?
    ensures status == GaveUp ==> s.phase.call.Throwing? && s.phase.claim.attempts >= MAX_ATTEMPTS
    ensures status == Completed ==>
      s.phase.call.Finishing? || s.phase.call.Storing? || s.phase.call.Closing? || s.phase.call.Switched?
  {
    match ev
    case Work(reply, pick) => if s.phase.Busy? { WorkQueue(s, reply, pick); WorkEnds(s, reply, pick, status); }
    case ClaimJob(i) =>
    case StopWorker =>
    case _ => ApiJobs(s, ev);
  }

  lemma WorkEnds(s: State, reply: Reply, pick: PeerId, status: JobStatus)
    requires s.phase.Busy? && status in {Completed, GaveUp} && Ends(s, Work(reply, pick), s.phase.claim.job, status)
    ensures !reply.Refused?
    ensures status == GaveUp ==> s.phase.call.Throwing? && s.phase.claim.attempts >= MAX_ATTEMPTS
    ensures status == Completed ==>
      s.phase.call.Finishing? || s.phase.call.Storing? || s.phase.call.Closing? || s.phase.call.Switched?
  {
    if !WritesDatabase(s.phase.call) {
      OtherCallsAreNodeOnly(s, reply, pick);
    }
  }

  // In every history: a revoke job completes only in a step that leaves its row
  // revoked or finds it gone, and a disable or enable only in one that leaves the
  // row in the state it asked for, or finds it gone.
  lemma CompletesOnlyDone(events: seq<Event>, ev: Event, j: JobId)
    requires var s := Run(EMPTY, events); Ends(s, ev, j, Completed)
    ensures var s, t := Run(EMPTY, events), Next(Run(EMPTY, events), ev);
      var k := s.jobs[j].key;
      k in t.rows ==>
        && (s.jobs[j].kind.Revoke? ==> t.rows[k].state == Revoked)
        && (s.jobs[j].kind.Disable? ==> t.rows[k].state == Disabled)
        && (s.jobs[j].kind.Enable? ==> t.rows[k].state == Active)
  {
    var s := Run(EMPTY, events);
    RunKeepsHandler(events);
    OnlyWorkEnds(s, ev, j, Completed);
    WorkMovesRows(s, ev.reply, ev.pick);
  }

  // In every history: no job is given up before its tenth attempt.
  lemma GivesUpOnlyAfterTen(events: seq<Event>, ev: Event, j: JobId)
    requires var s := Run(EMPTY, events); Ends(s, ev, j, GaveUp)
    ensures Run(EMPTY, events).jobs[j].attempts >= 10
  {
    RunKeepsHandler(events);
    OnlyWorkEnds(Run(EMPTY, events), ev, j, GaveUp);
  }
}
