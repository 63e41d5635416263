// Quotas over the life of keys: which real steps bring an uncounted key back
// into the count, that nothing else breaks a limit, and a history that does.
module KeyRevival {
  import opened Options
  import opened KeyLifecycle
  import opened KeySafety
  import opened KeyRevokes
  import NodeOrder
  import NodePick

  // ---- The key rows as the quota sees them -----------------------------------------------

  type Owners = KeyId -> NodePick.OwnerId

  function Held(rows: map<KeyId, Row>, ownerOf: Owners): map<KeyId, NodePick.Key> {
    map k | k in rows :: NodePick.Key(ownerOf(k), rows[k].slot.node, rows[k].state)
  }

  // The world of a lifecycle state; nodes, order and policies are those of `w`.
  function WorldOf(w: NodePick.World, s: State, ownerOf: Owners): NodePick.World {
    w.(keys := Held(s.rows, ownerOf))
  }

  // ---- Which steps revive ----------------------------------------------------------------

  predicate Revived(s: State, t: State, k: KeyId) {
    && k in s.rows && !NodePick.Counted(s.rows[k].state)
    && k in t.rows && NodePick.Counted(t.rows[k].state)
  }

  // A rotation of a failed key, or the completion of a disable or enable that
  // finds its key failed or being revoked.
  predicate RevivingStep(s: State, ev: Event, k: KeyId) {
    match ev
    case OwnRotate(l, job) => l == k && InState(s, k, {Failed}) && job !in s.usedJobs
    case Work(reply, _) =>
      && !reply.Refused? && s.phase.Busy? && s.phase.call.Switched? && s.phase.claim.key == k
      && InState(s, k, {Failed, Revoking})
    case _ => false
  }

  lemma WorkRevivesIff(s: State, reply: Reply, pick: PeerId, k: KeyId)
    requires Inv(s)
    ensures Revived(s, WorkerStep(s, reply, pick), k) <==> RevivingStep(s, Work(reply, pick), k)
  {
    WorkMovesRows(s, reply, pick);
    if s.phase.Busy? && s.phase.call.Switched? {
      assert OwnsSlot(s, s.phase.claim.key, s.phase.call.ctx.slot);
    }
  }

  lemma ApiRevivesIff(s: State, ev: Event, k: KeyId)
    requires Inv(s) && !ev.Work?
    ensures Revived(s, Api(s, ev), k) <==> RevivingStep(s, ev, k)
  {
    ApiMovesRows(s, ev);
  }

  // A key comes back into the count by these two steps and by no other.
  lemma RevivesIff(s: State, ev: Event, k: KeyId)
    requires Inv(s)
    ensures Revived(s, Next(s, ev), k) <==> RevivingStep(s, ev, k)
  {
    match ev
    case Work(reply, pick) => WorkRevivesIff(s, reply, pick, k);
    case ClaimJob(j) =>
    case StopWorker =>
    case _ => ApiRevivesIff(s, ev, k);
  }

  // ---- What every other step keeps ---------------------------------------------------------

  ghost predicate SlotsStay(s: State, t: State) {
    forall k :: k in s.rows && k in t.rows ==> t.rows[k].slot == s.rows[k].slot
  }

  lemma WorkLeavesSlots(s: State, reply: Reply, pick: PeerId)
    ensures SlotsStay(s, WorkerStep(s, reply, pick))
  {
    if s.phase.Busy? && !WritesDatabase(s.phase.call) {
      OtherCallsAreNodeOnly(s, reply, pick);
    }
  }

  lemma StepLeavesSlots(s: State, ev: Event)
    requires Inv(s)
    ensures SlotsStay(s, Next(s, ev))
    ensures !ev.CreateKey? ==> Next(s, ev).rows.Keys <= s.rows.Keys
  {
    match ev
    case Work(reply, pick) =>
      WorkLeavesSlots(s, reply, pick);
      WorkMovesRows(s, reply, pick);
    case ClaimJob(j) =>
    case StopWorker =>
    case _ =>
  }

  lemma UsageOnlyFalls(s: State, ev: Event, ownerOf: Owners, scope: NodePick.Scope)
    requires Inv(s) && !ev.CreateKey? && forall k :: !RevivingStep(s, ev, k)
    ensures NodePick.Usage(Held(Next(s, ev).rows, ownerOf), scope) <= NodePick.Usage(Held(s.rows, ownerOf), scope)
  {
    var before := NodePick.KeysIn(Held(s.rows, ownerOf), scope);
    var after := NodePick.KeysIn(Held(Next(s, ev).rows, ownerOf), scope);
    StepLeavesSlots(s, ev);
    forall k | k in after ensures k in before {
      RevivesIff(s, ev, k);
    }
    assert before == after + (before - after);
  }

  // ---- Limits over whole histories ------------------------------------------------------------

  // The key goes where the search puts it.
  ghost predicate PlacedBySearch(w: NodePick.World, s: State, ownerOf: Owners, ev: Event) {
    ev.CreateKey? && Next(s, ev) != s ==>
      && ownerOf(ev.key) in w.policies
      && exists r :: NodePick.Pick(WorldOf(w, s, ownerOf), ownerOf(ev.key), w.policies[ownerOf(ev.key)], r)
                     == NodePick.Chosen(ev.slot.node)
  }

  // Every key created is placed by the search, and no step revives one.
  ghost predicate Orderly(w: NodePick.World, s: State, ownerOf: Owners, events: seq<Event>)
    decreases |events|
  {
    events == [] ||
    var before, ev := events[..|events| - 1], events[|events| - 1];
    && Orderly(w, s, ownerOf, before)
    && PlacedBySearch(w, Run(s, before), ownerOf, ev)
    && forall k :: !RevivingStep(Run(s, before), ev, k)
  }

  lemma QuietStepKeepsWithin(w: NodePick.World, s: State, ownerOf: Owners, ev: Event)
    requires Inv(s) && NodePick.Within(WorldOf(w, s, ownerOf))
    requires !ev.CreateKey? && forall k :: !RevivingStep(s, ev, k)
    ensures NodePick.Within(WorldOf(w, Next(s, ev), ownerOf))
  {
    var v, after := WorldOf(w, s, ownerOf), WorldOf(w, Next(s, ev), ownerOf);
    forall scope ensures NodePick.Usage(after.keys, scope) <= NodePick.Usage(v.keys, scope) {
      UsageOnlyFalls(s, ev, ownerOf, scope);
    }
    NodePick.ShrinkingKeepsWithin(v, after);
  }

  lemma HeldPut(rows: map<KeyId, Row>, ownerOf: Owners, k: KeyId, row: Row)
    ensures Held(rows[k := row], ownerOf) == Held(rows, ownerOf)[k := NodePick.Key(ownerOf(k), row.slot.node, row.state)]
  {}

  // A creation the database accepts.
  lemma CreationAccepted(s: State, ev: Event)
    requires ev.CreateKey? && RowsOk(s) && Next(s, ev) != s
    ensures ev.key !in s.rows && Next(s, ev).rows == s.rows[ev.key := Row(ev.slot, Provisioning, None)]
  {}

  lemma StepKeepsWithin(w: NodePick.World, s: State, ownerOf: Owners, ev: Event)
    requires NodePick.DistinctNodes(w.nodes) && Inv(s) && NodePick.Within(WorldOf(w, s, ownerOf))
    requires PlacedBySearch(w, s, ownerOf, ev) && forall k :: !RevivingStep(s, ev, k)
    ensures NodePick.Within(WorldOf(w, Next(s, ev), ownerOf))
  {
    var t := Next(s, ev);
    if !ev.CreateKey? {
      QuietStepKeepsWithin(w, s, ownerOf, ev);
    } else if t != s {
      var v, owner := WorldOf(w, s, ownerOf), ownerOf(ev.key);
      var r :| NodePick.Pick(v, owner, w.policies[owner], r) == NodePick.Chosen(ev.slot.node);
      CreationAccepted(s, ev);
      HeldPut(s.rows, ownerOf, ev.key, Row(ev.slot, Provisioning, None));
      NodePick.CreateKeepsWithin(v, owner, ev.key, r);
      assert WorldOf(w, t, ownerOf) == NodePick.Next(v, NodePick.Create(owner, ev.key, r));
    }
  }

  // Over every history of API transactions, node failures and worker stops in
  // which the search places each new key and no key is revived, no owner passes
  // a limit and no node its capacity.
  lemma {:induction false} LifecycleKeepsWithin(w: NodePick.World, s: State, ownerOf: Owners, events: seq<Event>)
    requires NodePick.DistinctNodes(w.nodes) && Inv(s) && NodePick.Within(WorldOf(w, s, ownerOf))
    requires Orderly(w, s, ownerOf, events)
    ensures NodePick.Within(WorldOf(w, Run(s, events), ownerOf))
    decreases |events|
  {
    if events != [] {
      var before, ev := events[..|events| - 1], events[|events| - 1];
      LifecycleKeepsWithin(w, s, ownerOf, before);
      RunKeeps(s, before);
      StepKeepsWithin(w, Run(s, before), ownerOf, ev);
    }
  }

  lemma RevivingStepRows(s: State, ev: Event, k: KeyId)
    requires RevivingStep(s, ev, k)
    ensures k in Next(s, ev).rows
    ensures Next(s, ev).rows == s.rows[k := s.rows[k].(state := Next(s, ev).rows[k].state)]
  {}

  // A step that revives a key breaks a limit exactly if its owner or its node
  // was already at one.
  lemma RevivingStepExceedsIff(w: NodePick.World, s: State, ownerOf: Owners, ev: Event, k: KeyId)
    requires Inv(s) && NodePick.Within(WorldOf(w, s, ownerOf)) && RevivingStep(s, ev, k)
    ensures var v, key := WorldOf(w, s, ownerOf), NodePick.Key(ownerOf(k), s.rows[k].slot.node, s.rows[k].state);
      !NodePick.Within(WorldOf(w, Next(s, ev), ownerOf)) <==> NodePick.OwnerAtLimit(v, key) || NodePick.NodeAtLimit(v, key)
  {
    var v, to := WorldOf(w, s, ownerOf), Next(s, ev).rows[k].state;
    RevivesIff(s, ev, k);
    RevivingStepRows(s, ev, k);
    HeldPut(s.rows, ownerOf, k, s.rows[k].(state := to));
    assert WorldOf(w, Next(s, ev), ownerOf) == NodePick.Next(v, NodePick.SetState(k, to));
    NodePick.RevivalExceedsIff(v, NodePick.SetState(k, to));
  }

  // ---- A history past a limit ---------------------------------------------------------------------

  // Only usage matters to the search.
  lemma {:induction false} SameUsageSameFirst(v: NodePick.World, w: NodePick.World, owner: NodePick.OwnerId,
                                             p: NodePick.Policy, r: NodePick.Request, rows: seq<NodeOrder.Row>)
    requires v.(keys := w.keys) == w
    requires forall scope :: NodePick.Usage(v.keys, scope) == NodePick.Usage(w.keys, scope)
    ensures NodePick.FirstPassing(v, owner, p, r, rows) == NodePick.FirstPassing(w, owner, p, r, rows)
  {
    if rows != [] {
      SameUsageSameFirst(v, w, owner, p, r, rows[1..]);
    }
  }

  // The one place left: a second key of the owner would not fit on the node.
  ghost predicate LastPlace(w: NodePick.World, owner: NodePick.OwnerId, p: NodePick.Policy, n: NodePick.Node) {
    || !NodePick.BelowLimit(p, n.row.id, NodePick.Usage(w.keys, NodePick.Scope(Some(owner), Some(n.row.id))) + 1,
                            NodePick.Usage(w.keys, NodePick.Scope(Some(owner), None)) + 1)
    || NodePick.Usage(w.keys, NodePick.Scope(None, Some(n.row.id))) + 1 >= n.maxPeers
  }

  // Two more keys of one owner on the chosen node are one too many exactly if
  // one place was left.
  lemma SecondKeyExceedsIff(w: NodePick.World, owner: NodePick.OwnerId, r: NodePick.Request, n: NodePick.Node,
                            a: KeyId, b: KeyId)
    requires NodePick.DistinctNodes(w.nodes) && NodePick.Within(w) && owner in w.policies
    requires n in w.nodes && NodePick.Pick(w, owner, w.policies[owner], r) == NodePick.Chosen(n.row.id)
    requires a !in w.keys && b !in w.keys && a != b
    ensures var key := NodePick.Key(owner, n.row.id, Provisioning);
      !NodePick.Within(w.(keys := w.keys[a := key][b := key])) <==> LastPlace(w, owner, w.policies[owner], n)
  {
    var key := NodePick.Key(owner, n.row.id, Provisioning);
    var one, two := w.(keys := w.keys[a := key]), w.(keys := w.keys[a := key][b := key]);
    NodePick.CreateKeepsWithin(w, owner, a, r);
    assert one == NodePick.Next(w, NodePick.Create(owner, a, r));
    forall scope
      ensures NodePick.Usage(one.keys, scope) == NodePick.Usage(w.keys, scope) + NodePick.One(NodePick.InScope(key, scope))
      ensures NodePick.Usage(two.keys, scope) == NodePick.Usage(one.keys, scope) + NodePick.One(NodePick.InScope(key, scope))
    {
      NodePick.UsageAfterPut(w.keys, a, key, scope);
      NodePick.UsageAfterPut(one.keys, b, key, scope);
    }
    NodePick.WithinAfterOneMore(one, two, key);
    OneNodeAtLimit(one, n, key);
  }

  lemma OneNodeAtLimit(w: NodePick.World, n: NodePick.Node, key: NodePick.Key)
    requires NodePick.DistinctNodes(w.nodes) && n in w.nodes && key.node == n.row.id
    ensures NodePick.NodeAtLimit(w, key) <==> NodePick.Usage(w.keys, NodePick.Scope(None, Some(key.node))) >= n.maxPeers
  {
    forall m | m in w.nodes && m.row.id == n.row.id ensures m == n {
      NodePick.FoundByRow(w.nodes, n);
      NodePick.FoundByRow(w.nodes, m);
    }
  }

  // A failed key in a slot of its own leaves the search where it was.
  lemma FailedKeySamePick(w: NodePick.World, owner: NodePick.OwnerId, p: NodePick.Policy, r: NodePick.Request,
                          a: KeyId, key: NodePick.Key)
    requires NodePick.Pick(w, owner, p, r).Chosen? && a !in w.keys && key.state.Failed?
    ensures NodePick.Pick(w.(keys := w.keys[a := key]), owner, p, r) == NodePick.Pick(w, owner, p, r)
  {
    var v := w.(keys := w.keys[a := key]);
    forall scope ensures NodePick.Usage(v.keys, scope) == NodePick.Usage(w.keys, scope) {
      NodePick.UsageAfterPut(w.keys, a, key, scope);
    }
    SameUsageSameFirst(v, w, owner, p, r, NodePick.Ordered(w, p, r));
    assert NodePick.Ordered(v, p, r) == NodePick.Ordered(w, p, r);
  }

  // A key created on a node that does not answer, until its job gives up.
  lemma CreatedInVain(s: State, a: KeyId, slot: Slot, job: JobId) returns (events: seq<Event>)
    requires s.phase.Idle? && a !in s.usedKeys && job !in s.usedJobs
    requires forall l :: l in s.rows ==> s.rows[l].slot != slot
    ensures |events| > 0 && events[0] == CreateKey(a, slot, job)
    ensures var t := Run(s, events);
      && t.rows == s.rows[a := Row(slot, Failed, None)] && t.phase.Idle?
      && t.usedKeys == s.usedKeys + {a} && t.usedJobs == s.usedJobs + {job}
  {
    var created := Next(s, CreateKey(a, slot, job));
    var first := [CreateKey(a, slot, job)];
    assert first[..0] == [] && Run(s, first) == created;
    var rest, _ := GivesUp(created, job);
    RunConcat(s, first, rest);
    events := first + rest;
    assert Run(s, events).rows == s.rows[a := Row(slot, Failed, None)];
  }

  // The rest of the history: a second key, and a rotation of the failed one.
  lemma CreatedThenRotated(t: State, a: KeyId, b: KeyId, slot: Slot, job: JobId, rotate: JobId)
    requires InState(t, a, {Failed}) && b !in t.usedKeys && a != b
    requires job !in t.usedJobs && rotate !in t.usedJobs && job != rotate
    requires forall l :: l in t.rows ==> t.rows[l].slot != slot
    ensures Run(t, [CreateKey(b, slot, job), OwnRotate(a, rotate)]).rows ==
      t.rows[b := Row(slot, Provisioning, None)][a := t.rows[a].(state := Provisioning)]
  {
    var events := [CreateKey(b, slot, job), OwnRotate(a, rotate)];
    assert events[..1] == [CreateKey(b, slot, job)] && events[..1][..0] == [];
    assert Run(t, events[..1]) == Next(t, CreateKey(b, slot, job));
  }

  // The keys held after the first creation has failed, and at the end.
  lemma HeldAlongTheWay(rows: map<KeyId, Row>, ownerOf: Owners, a: KeyId, b: KeyId, slotA: Slot, slotB: Slot)
    requires a != b && ownerOf(a) == ownerOf(b) && slotA.node == slotB.node
    ensures var key := NodePick.Key(ownerOf(a), slotA.node, Provisioning);
      var failed := rows[a := Row(slotA, Failed, None)];
      && Held(failed, ownerOf) == Held(rows, ownerOf)[a := key.(state := Failed)]
      && Held(failed[b := Row(slotB, Provisioning, None)][a := Row(slotA, Provisioning, None)], ownerOf)
         == Held(rows, ownerOf)[a := key][b := key]
  {
    var failed := rows[a := Row(slotA, Failed, None)];
    HeldPut(rows, ownerOf, a, Row(slotA, Failed, None));
    HeldPut(failed, ownerOf, b, Row(slotB, Provisioning, None));
    HeldPut(failed[b := Row(slotB, Provisioning, None)], ownerOf, a, Row(slotA, Provisioning, None));
  }

  // Creates a key, lets its job give up, creates another and rotates the first.
  lemma CreatedFailedRotated(s: State, a: KeyId, b: KeyId, slotA: Slot, slotB: Slot, jobs: seq<JobId>)
    returns (events: seq<Event>)
    requires s.phase.Idle? && a !in s.usedKeys && b !in s.usedKeys && a != b && slotA != slotB
    requires forall l :: l in s.rows ==> s.rows[l].slot !in {slotA, slotB}
    requires |jobs| == 3 && jobs[0] != jobs[1] && jobs[1] != jobs[2] && jobs[0] != jobs[2]
    requires forall i :: 0 <= i < 3 ==> jobs[i] !in s.usedJobs
    ensures |events| > 2 && events[0] == CreateKey(a, slotA, jobs[0])
    ensures events[|events| - 2..] == [CreateKey(b, slotB, jobs[1]), OwnRotate(a, jobs[2])]
    ensures var t, u := Run(s, events[..|events| - 2]), Run(s, events);
      && t.rows == s.rows[a := Row(slotA, Failed, None)]
      && u.rows == t.rows[b := Row(slotB, Provisioning, None)][a := t.rows[a].(state := Provisioning)]
  {
    var first := CreatedInVain(s, a, slotA, jobs[0]);
    var last := [CreateKey(b, slotB, jobs[1]), OwnRotate(a, jobs[2])];
    CreatedThenRotated(Run(s, first), a, b, slotB, jobs[1], jobs[2]);
    RunConcat(s, first, last);
    events := first + last;
    assert events[..|events| - 2] == first && events[|events| - 2..] == last;
  }

  // The history past a limit. An owner creates a key where the search puts it,
  // its job gives up on a silent node, the owner creates another, which the search
  // puts on the same node, and rotates the first. From every state within its
  // limits this ends past one exactly if the owner or the node had one place left.
  lemma RotatingFailedExceedsIff(w: NodePick.World, s: State, ownerOf: Owners, r: NodePick.Request, n: NodePick.Node,
                                 a: KeyId, b: KeyId, slotA: Slot, slotB: Slot, jobs: seq<JobId>)
    returns (events: seq<Event>)
    requires NodePick.DistinctNodes(w.nodes) && Inv(s) && s.phase.Idle? && NodePick.Within(WorldOf(w, s, ownerOf))
    requires ownerOf(a) == ownerOf(b) && ownerOf(a) in w.policies && n in w.nodes
    requires NodePick.Pick(WorldOf(w, s, ownerOf), ownerOf(a), w.policies[ownerOf(a)], r) == NodePick.Chosen(n.row.id)
    requires a !in s.usedKeys && b !in s.usedKeys && a != b
    requires slotA.node == slotB.node == n.row.id && slotA != slotB
    requires forall l :: l in s.rows ==> s.rows[l].slot !in {slotA, slotB}
    requires |jobs| == 3 && jobs[0] != jobs[1] && jobs[1] != jobs[2] && jobs[0] != jobs[2]
    requires forall i :: 0 <= i < 3 ==> jobs[i] !in s.usedJobs
    ensures |events| > 2 && events[0] == CreateKey(a, slotA, jobs[0])
    ensures events[|events| - 2..] == [CreateKey(b, slotB, jobs[1]), OwnRotate(a, jobs[2])]
    ensures var t := Run(s, events[..|events| - 2]);
      NodePick.Pick(WorldOf(w, t, ownerOf), ownerOf(b), w.policies[ownerOf(b)], r) == NodePick.Chosen(n.row.id)
    ensures !NodePick.Within(WorldOf(w, Run(s, events), ownerOf)) <==>
      LastPlace(WorldOf(w, s, ownerOf), ownerOf(a), w.policies[ownerOf(a)], n)
  {
    var v, owner := WorldOf(w, s, ownerOf), ownerOf(a);
    events := CreatedFailedRotated(s, a, b, slotA, slotB, jobs);
    HeldAlongTheWay(s.rows, ownerOf, a, b, slotA, slotB);
    var failed := NodePick.Key(owner, n.row.id, Failed);
    FailedKeySamePick(v, owner, w.policies[owner], r, a, failed);
    SecondKeyExceedsIff(v, owner, r, n, a, b);
  }
}
