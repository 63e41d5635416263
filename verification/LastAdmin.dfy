// The last-administrator guard. Transactions that take an account away first
// lock the active administrators, then re-read their target, then write. They
// run concurrently at READ COMMITTED: a lock pass visits the rows of its own
// snapshot one at a time and drops a row that no longer qualifies, reads see
// committed values, and a row is locked from its write to the commit.
module LastAdmin {
  type UserId = nat
  type TxId = nat

  datatype Role = Member | Admin
  datatype Status = Active | Disabled
  datatype Account = Account(role: Role, status: Status)

  // Withdraw is the worker disabling a member whom the Access policy dropped.
  datatype Action = Offboard(actor: UserId) | Demote | Promote | Reinstate | Delete | Withdraw

  // Locking: the rows of the snapshot still to be visited.
  datatype Stage = Locking(pending: set<UserId>) | Checked | Written

  // `scanned`: the rows the lock pass holds.
  datatype Txn = Txn(action: Action, target: UserId, scanned: set<UserId>, stage: Stage)
  datatype State = State(users: map<UserId, Account>, txns: map<TxId, Txn>)

  datatype Event =
    | Insert(user: UserId, role: Role)
    | Begin(tx: TxId, action: Action, target: UserId)
    | BeginLocked(tx: TxId, action: Action, target: UserId) // the whole pass, when no row of it is locked
    | LockRow(tx: TxId, user: UserId)
    | Read(tx: TxId)
    | Write(tx: TxId)
    | Commit(tx: TxId)
    | Abort(tx: TxId)

  predicate ActiveAdmin(users: map<UserId, Account>, u: UserId) {
    u in users && users[u] == Account(Admin, Active)
  }

  function Admins(s: State): set<UserId> {
    set u | u in s.users && ActiveAdmin(s.users, u)
  }

  predicate Guards(a: Action) {
    a.Offboard? || a.Demote?
  }

  // The rows a lock pass visits.
  function Snapshot(s: State, a: Action, target: UserId): set<UserId> {
    if Guards(a) then Admins(s) else if a.Delete? && target in s.users then {target} else {}
  }

  function Holds(t: Txn): set<UserId> {
    if t.stage.Written? then t.scanned + {t.target} else t.scanned
  }

  predicate FreeFor(s: State, tx: TxId, u: UserId) {
    forall other :: other in s.txns && other != tx ==> u !in Holds(s.txns[other])
  }

  // The row still matches the query once its lock is granted.
  predicate Qualifies(s: State, a: Action, u: UserId) {
    if Guards(a) then ActiveAdmin(s.users, u) else u in s.users
  }

  // The checks between the lock pass and the write.
  predicate Passes(s: State, t: Txn) {
    match t.action
    case Offboard(actor) =>
      t.target in s.users && actor != t.target && !(ActiveAdmin(s.users, t.target) && |t.scanned| <= 1)
    case Demote => !(t.target in s.users && s.users[t.target].role.Admin? && |t.scanned| <= 1)
    case Promote => true
    case Reinstate => true
    case Delete => t.target in t.scanned && t.target in s.users && s.users[t.target].status.Disabled?
    case Withdraw => t.target in s.users && s.users[t.target] == Account(Member, Active)
  }

  function Apply(users: map<UserId, Account>, a: Action, u: UserId): map<UserId, Account> {
    if u !in users then users
    else
      match a
      case Offboard(_) => users[u := users[u].(status := Disabled)]
      case Demote => users[u := users[u].(role := Member)]
      case Promote => users[u := users[u].(role := Admin)]
      case Reinstate => users[u := users[u].(status := Active)]
      case Delete => users - {u}
      case Withdraw => users[u := users[u].(status := Disabled)]
  }

  function Put(s: State, tx: TxId, t: Txn): State {
    s.(txns := s.txns[tx := t])
  }

  function Next(s: State, ev: Event): State {
    match ev
    case Insert(u, role) => if u in s.users then s else s.(users := s.users[u := Account(role, Active)])
    case Begin(tx, a, target) =>
      if tx in s.txns then s else Put(s, tx, Txn(a, target, {}, Locking(Snapshot(s, a, target))))
    case BeginLocked(tx, a, target) =>
      if tx in s.txns || exists u :: u in Snapshot(s, a, target) && !FreeFor(s, tx, u) then s
      else Put(s, tx, Txn(a, target, Snapshot(s, a, target), Locking({})))
    case LockRow(tx, u) =>
      if tx in s.txns && s.txns[tx].stage.Locking? && u in s.txns[tx].stage.pending && FreeFor(s, tx, u) then
        var t := s.txns[tx];
        Put(s, tx, t.(scanned := t.scanned + if Qualifies(s, t.action, u) then {u} else {},
                      stage := Locking(t.stage.pending - {u})))
      else s
    case Read(tx) =>
      if tx in s.txns && s.txns[tx].stage == Locking({}) then
        if Passes(s, s.txns[tx]) then Put(s, tx, s.txns[tx].(stage := Checked)) else s.(txns := s.txns - {tx})
      else s
    case Write(tx) =>
      if tx in s.txns && s.txns[tx].stage.Checked? && FreeFor(s, tx, s.txns[tx].target) then
        if s.txns[tx].target in s.users then Put(s, tx, s.txns[tx].(stage := Written))
        else s.(txns := s.txns - {tx})
      else s
    case Commit(tx) =>
      if tx in s.txns && s.txns[tx].stage.Written? then
        State(Apply(s.users, s.txns[tx].action, s.txns[tx].target), s.txns - {tx})
      else s
    case Abort(tx) => s.(txns := s.txns - {tx})
  }

  function Run(s: State, events: seq<Event>): State
    decreases |events|
  {
    if events == [] then s else Next(Run(s, events[..|events| - 1]), events[|events| - 1])
  }

  // ---- The invariant --------------------------------------------------------------

  ghost predicate LocksDisjoint(s: State) {
    forall a, b :: a in s.txns && b in s.txns && a != b ==> Holds(s.txns[a]) !! Holds(s.txns[b])
  }

  // What a lock pass gathered stays true until the transaction ends.
  ghost predicate TxnOk(users: map<UserId, Account>, t: Txn) {
    && (Guards(t.action) ==> forall u :: u in t.scanned ==> ActiveAdmin(users, u))
    && (Guards(t.action) && !t.stage.Locking? && t.target in t.scanned ==> |t.scanned| > 1)
    && (!Guards(t.action) && !t.action.Delete? ==> t.scanned == {} && (t.stage.Locking? ==> t.stage.pending == {}))
    && (t.action.Delete? && !t.stage.Locking? ==>
          t.target in t.scanned && t.target in users && users[t.target].status.Disabled?)
    && (t.stage.Written? ==> t.target in users)
  }

  ghost predicate Inv(s: State) {
    LocksDisjoint(s) && forall tx :: tx in s.txns ==> TxnOk(s.users, s.txns[tx])
  }

  // Recording a transaction keeps the invariant if it is sound itself and holds
  // no row of another.
  lemma PutKeeps(s: State, tx: TxId, t: Txn)
    requires Inv(s) && TxnOk(s.users, t)
    requires forall other :: other in s.txns && other != tx ==> Holds(s.txns[other]) !! Holds(t)
    ensures Inv(Put(s, tx, t))
  {}

  lemma OtherRowsUntouched(users: map<UserId, Account>, a: Action, u: UserId, t: Txn)
    requires TxnOk(users, t) && u !in Holds(t)
    ensures TxnOk(Apply(users, a, u), t)
  {
    var after := Apply(users, a, u);
    assert forall v :: v in users && v != u ==> v in after && after[v] == users[v];
  }

  lemma CommitKeeps(s: State, tx: TxId)
    requires Inv(s)
    ensures Inv(Next(s, Commit(tx)))
  {
    if tx in s.txns && s.txns[tx].stage.Written? {
      var t := s.txns[tx];
      assert t.target in Holds(t);
      forall other | other in s.txns && other != tx ensures TxnOk(Apply(s.users, t.action, t.target), s.txns[other]) {
        assert t.target !in Holds(s.txns[other]);
        OtherRowsUntouched(s.users, t.action, t.target, s.txns[other]);
      }
    }
  }

  lemma BeginLockedKeeps(s: State, tx: TxId, a: Action, u: UserId)
    requires Inv(s)
    ensures Inv(Next(s, BeginLocked(tx, a, u)))
  {
    if tx !in s.txns && forall v :: v in Snapshot(s, a, u) ==> FreeFor(s, tx, v) {
      PutKeeps(s, tx, Txn(a, u, Snapshot(s, a, u), Locking({})));
    }
  }

  lemma LockRowKeeps(s: State, tx: TxId, u: UserId)
    requires Inv(s)
    ensures Inv(Next(s, LockRow(tx, u)))
  {
    if tx in s.txns && s.txns[tx].stage.Locking? && u in s.txns[tx].stage.pending && FreeFor(s, tx, u) {
      var t := s.txns[tx];
      PutKeeps(s, tx, t.(scanned := t.scanned + if Qualifies(s, t.action, u) then {u} else {},
                         stage := Locking(t.stage.pending - {u})));
    }
  }

  lemma ReadAndWriteKeep(s: State, tx: TxId)
    requires Inv(s)
    ensures Inv(Next(s, Read(tx))) && Inv(Next(s, Write(tx)))
  {
    if tx in s.txns {
      var t := s.txns[tx];
      if t.stage == Locking({}) && Passes(s, t) {
        PutKeeps(s, tx, t.(stage := Checked));
      }
      if t.stage.Checked? && FreeFor(s, tx, t.target) && t.target in s.users {
        PutKeeps(s, tx, t.(stage := Written));
      }
    }
  }

  lemma InsertKeeps(s: State, u: UserId, role: Role)
    requires Inv(s)
    ensures Inv(Next(s, Insert(u, role)))
  {
    var after := Next(s, Insert(u, role));
    assert forall v :: v in s.users ==> v in after.users && after.users[v] == s.users[v];
    forall tx | tx in s.txns ensures TxnOk(after.users, s.txns[tx]) {}
  }

  lemma StepKeeps(s: State, ev: Event)
    requires Inv(s)
    ensures Inv(Next(s, ev))
  {
    match ev
    case Insert(u, role) => InsertKeeps(s, u, role);
    case Begin(tx, a, u) =>
      if tx !in s.txns {
        PutKeeps(s, tx, Txn(a, u, {}, Locking(Snapshot(s, a, u))));
      }
    case BeginLocked(tx, a, u) => BeginLockedKeeps(s, tx, a, u);
    case LockRow(tx, u) => LockRowKeeps(s, tx, u);
    case Read(tx) => ReadAndWriteKeep(s, tx);
    case Write(tx) => ReadAndWriteKeep(s, tx);
    case Commit(tx) => CommitKeeps(s, tx);
    case Abort(tx) =>
  }

  // In every interleaving no row is locked twice and what a transaction gathered
  // under its locks stays true until it ends.
  lemma {:induction false} RunKeeps(s: State, events: seq<Event>)
    requires Inv(s)
    ensures LocksDisjoint(Run(s, events))
    ensures forall tx :: tx in Run(s, events).txns ==> TxnOk(Run(s, events).users, Run(s, events).txns[tx])
    decreases |events|
  {
    if events != [] {
      RunKeeps(s, events[..|events| - 1]);
      StepKeeps(Run(s, events[..|events| - 1]), events[|events| - 1]);
    }
  }

  // ---- When the last administrator goes ----------------------------------------------

  // A transaction that takes an account away and holds no administrator's row:
  // its lock pass came back empty, or, in the worker, there was none.
  predicate Unprotected(t: Txn) {
    (Guards(t.action) || t.action.Withdraw?) && t.scanned == {}
  }

  predicate CommitsUnprotected(s: State, ev: Event) {
    ev.Commit? && ev.tx in s.txns && s.txns[ev.tx].stage.Written? && Unprotected(s.txns[ev.tx])
  }

  lemma AnotherMember(held: set<UserId>, u: UserId)
    requires held != {} && (u in held ==> |held| > 1)
    ensures exists v :: v in held && v != u
  {
    if u in held {
      assert |held - {u}| == |held| - 1;
      var v :| v in held - {u};
    } else {
      var v :| v in held;
    }
  }

  lemma UnprotectedTakesTarget(s: State, tx: TxId)
    requires CommitsUnprotected(s, Commit(tx)) && s.txns[tx].target in s.users
    ensures Admins(Next(s, Commit(tx))) == Admins(s) - {s.txns[tx].target}
  {
    var after := Next(s, Commit(tx));
    forall u ensures u in Admins(after) <==> u in Admins(s) && u != s.txns[tx].target {}
  }

  // A guard that holds rows leaves one of them an active administrator.
  lemma GuardLeavesAnother(s: State, tx: TxId)
    requires Inv(s) && tx in s.txns && s.txns[tx].stage.Written?
    requires Guards(s.txns[tx].action) && s.txns[tx].scanned != {}
    ensures Admins(Next(s, Commit(tx))) != {}
  {
    var t := s.txns[tx];
    assert TxnOk(s.users, t);
    AnotherMember(t.scanned, t.target);
    var other :| other in t.scanned && other != t.target;
    assert other in Admins(Next(s, Commit(tx)));
  }

  lemma OtherCommitsKeepAdmin(s: State, tx: TxId, admin: UserId)
    requires Inv(s) && admin in Admins(s) && tx in s.txns && s.txns[tx].stage.Written?
    requires !Guards(s.txns[tx].action) && !s.txns[tx].action.Withdraw?
    ensures admin in Admins(Next(s, Commit(tx)))
  {
    assert TxnOk(s.users, s.txns[tx]);
  }

  // One step takes the last active administrator exactly when it is the commit
  // of an unprotected transaction whose target is that administrator.
  lemma LosesLastAdminIff(s: State, ev: Event)
    requires Inv(s) && Admins(s) != {}
    ensures Admins(Next(s, ev)) == {} <==> CommitsUnprotected(s, ev) && Admins(s) == {s.txns[ev.tx].target}
  {
    var admin :| admin in Admins(s);
    if CommitsUnprotected(s, ev) {
      assert TxnOk(s.users, s.txns[ev.tx]);
      UnprotectedTakesTarget(s, ev.tx);
    } else if ev.Commit? && ev.tx in s.txns && s.txns[ev.tx].stage.Written? {
      if Guards(s.txns[ev.tx].action) {
        GuardLeavesAnother(s, ev.tx);
      } else {
        assert TxnOk(s.users, s.txns[ev.tx]);
        OtherCommitsKeepAdmin(s, ev.tx, admin);
      }
    } else {
      assert admin in Admins(Next(s, ev));
    }
  }

  // No unprotected transaction commits along the run.
  predicate Guarded(s: State, events: seq<Event>)
    decreases |events|
  {
    events == [] ||
    (Guarded(s, events[..|events| - 1]) && !CommitsUnprotected(Run(s, events[..|events| - 1]), events[|events| - 1]))
  }

  // Once there is an active administrator there always is one, under every
  // interleaving in which no unprotected transaction commits.
  lemma {:induction false} RunKeepsAdmin(s: State, events: seq<Event>)
    requires Inv(s) && Admins(s) != {} && Guarded(s, events)
    ensures Admins(Run(s, events)) != {}
    decreases |events|
  {
    if events != [] {
      var before := events[..|events| - 1];
      RunKeepsAdmin(s, before);
      RunKeeps(s, before);
      LosesLastAdminIff(Run(s, before), events[|events| - 1]);
    }
  }

  // ---- Lock passes that never wait ----------------------------------------------------

  // The lock pass of a guard finds every row free, and the worker withdraws nobody.
  predicate Prompt(ev: Event) {
    !(ev.Begin? && Guards(ev.action)) && !((ev.Begin? || ev.BeginLocked?) && ev.action.Withdraw?)
  }

  ghost predicate AllProtected(s: State) {
    forall tx :: tx in s.txns ==> !Unprotected(s.txns[tx])
  }

  // If every lock pass runs without waiting, there is an active administrator
  // whatever the transactions do and however they interleave.
  lemma {:induction false} PromptPassesKeepAdmin(s: State, events: seq<Event>)
    requires Inv(s) && Admins(s) != {} && AllProtected(s)
    requires forall i :: 0 <= i < |events| ==> Prompt(events[i])
    ensures Admins(Run(s, events)) != {} && AllProtected(Run(s, events))
    decreases |events|
  {
    if events != [] {
      var before, ev := events[..|events| - 1], events[|events| - 1];
      PromptPassesKeepAdmin(s, before);
      RunKeeps(s, before);
      assert Prompt(events[|events| - 1]);
      PromptStep(Run(s, before), ev);
    }
  }

  lemma PromptStep(s: State, ev: Event)
    requires Inv(s) && Admins(s) != {} && AllProtected(s) && Prompt(ev)
    ensures Admins(Next(s, ev)) != {} && AllProtected(Next(s, ev))
  {
    LosesLastAdminIff(s, ev);
  }

  lemma PromptAlwaysAnAdmin(users: map<UserId, Account>, events: seq<Event>)
    requires exists u :: ActiveAdmin(users, u)
    requires forall i :: 0 <= i < |events| ==> Prompt(events[i])
    ensures exists u :: ActiveAdmin(Run(State(users, map[]), events).users, u)
  {
    var u :| ActiveAdmin(users, u);
    assert u in Admins(State(users, map[]));
    PromptPassesKeepAdmin(State(users, map[]), events);
    var v :| v in Admins(Run(State(users, map[]), events));
  }

  // ---- Lock passes that wait ------------------------------------------------------------

  // Somebody becomes an active administrator.
  predicate Arrives(s: State, ev: Event) {
    !(Admins(Next(s, ev)) <= Admins(s))
  }

  // ... while a guard that holds no row yet, or a withdrawal, is in flight.
  predicate ArrivesLate(s: State, ev: Event) {
    Arrives(s, ev) && exists tx :: tx in s.txns && Unprotected(s.txns[tx])
  }

  predicate NoneArrivesLate(s: State, events: seq<Event>)
    decreases |events|
  {
    events == [] ||
    (NoneArrivesLate(s, events[..|events| - 1]) && !ArrivesLate(Run(s, events[..|events| - 1]), events[|events| - 1]))
  }

  // A guard without a row has every active administrator still ahead of its lock
  // pass; a withdrawal past its check is not aimed at one.
  ghost predicate Backed(admins: set<UserId>, t: Txn) {
    && (Guards(t.action) && t.scanned == {} ==> t.stage.Locking? && admins <= t.stage.pending)
    && (t.action.Withdraw? && !t.stage.Locking? ==> t.target !in admins)
  }

  ghost predicate AllBacked(s: State) {
    forall tx :: tx in s.txns ==> Backed(Admins(s), s.txns[tx])
  }

  // A step that brings no administrator and changes at most `tx`, to `t`.
  lemma PutBacked(s: State, tx: TxId, t: Txn)
    requires AllBacked(s) && Backed(Admins(s), t)
    ensures AllBacked(Put(s, tx, t))
  {
    assert Admins(Put(s, tx, t)) == Admins(s);
  }

  lemma LockRowBacked(s: State, tx: TxId, u: UserId)
    requires AllBacked(s)
    ensures AllBacked(Next(s, LockRow(tx, u)))
  {
    if tx in s.txns && s.txns[tx].stage.Locking? && u in s.txns[tx].stage.pending && FreeFor(s, tx, u) {
      var t := s.txns[tx];
      var next := t.(scanned := t.scanned + if Qualifies(s, t.action, u) then {u} else {},
                     stage := Locking(t.stage.pending - {u}));
      if Guards(t.action) && next.scanned == {} {
        assert t.scanned == {} && !Qualifies(s, t.action, u);
      }
      PutBacked(s, tx, next);
    }
  }

  lemma ReadBacked(s: State, tx: TxId)
    requires AllBacked(s) && Admins(s) != {}
    ensures AllBacked(Next(s, Read(tx)))
  {
    assert Admins(Next(s, Read(tx))) == Admins(s);
    if tx in s.txns && s.txns[tx].stage == Locking({}) && Passes(s, s.txns[tx]) {
      PutBacked(s, tx, s.txns[tx].(stage := Checked));
    }
  }

  lemma CommitBacked(s: State, ev: Event)
    requires Inv(s) && AllBacked(s) && (ev.Commit? || ev.Insert?) && !ArrivesLate(s, ev)
    ensures AllBacked(Next(s, ev))
  {
    var t := Next(s, ev);
    forall tx | tx in t.txns ensures Backed(Admins(t), t.txns[tx]) {
      assert t.txns[tx] == s.txns[tx];
      if Arrives(s, ev) {
        assert !Unprotected(s.txns[tx]) && TxnOk(s.users, s.txns[tx]);
      }
    }
  }

  lemma StepBacked(s: State, ev: Event)
    requires Inv(s) && AllBacked(s) && Admins(s) != {} && !ArrivesLate(s, ev)
    ensures AllBacked(Next(s, ev))
  {
    match ev
    case Insert(_, _) => CommitBacked(s, ev);
    case Begin(tx, a, u) =>
      if tx !in s.txns {
        PutBacked(s, tx, Txn(a, u, {}, Locking(Snapshot(s, a, u))));
      }
    case BeginLocked(tx, a, u) =>
      if tx !in s.txns && forall v :: v in Snapshot(s, a, u) ==> FreeFor(s, tx, v) {
        PutBacked(s, tx, Txn(a, u, Snapshot(s, a, u), Locking({})));
      }
    case LockRow(tx, u) => LockRowBacked(s, tx, u);
    case Read(tx) => ReadBacked(s, tx);
    case Write(tx) =>
      assert Admins(Next(s, ev)) == Admins(s);
    case Commit(tx) => CommitBacked(s, ev);
    case Abort(tx) =>
      assert Admins(Next(s, ev)) == Admins(s);
  }

  // Lock passes may wait and race as they like: there always is an active
  // administrator unless somebody becomes one while a guard that holds no row
  // yet, or a withdrawal, is in flight.
  lemma {:induction false} NoLateArrivalKeepsAdmin(s: State, events: seq<Event>)
    requires Inv(s) && Admins(s) != {} && AllBacked(s) && NoneArrivesLate(s, events)
    ensures Admins(Run(s, events)) != {} && AllBacked(Run(s, events))
    decreases |events|
  {
    if events != [] {
      var before, ev := events[..|events| - 1], events[|events| - 1];
      NoLateArrivalKeepsAdmin(s, before);
      RunKeeps(s, before);
      StepBacked(Run(s, before), ev);
      BackedLosesNobody(Run(s, before), ev);
    }
  }

  lemma BackedLosesNobody(s: State, ev: Event)
    requires Inv(s) && Admins(s) != {} && AllBacked(s)
    ensures Admins(Next(s, ev)) != {}
  {
    LosesLastAdminIff(s, ev);
    if CommitsUnprotected(s, ev) {
      assert Backed(Admins(s), s.txns[ev.tx]);
    }
  }

  // A request that can make somebody an active administrator.
  predicate BringsAdmin(ev: Event) {
    || (ev.Insert? && ev.role.Admin?)
    || ((ev.Begin? || ev.BeginLocked?) && (ev.action.Promote? || ev.action.Reinstate?))
  }

  ghost predicate NoneBrings(s: State) {
    forall tx :: tx in s.txns ==> !s.txns[tx].action.Promote? && !s.txns[tx].action.Reinstate?
  }

  lemma {:induction false} NothingBroughtArrives(s: State, events: seq<Event>)
    requires NoneBrings(s) && forall i :: 0 <= i < |events| ==> !BringsAdmin(events[i])
    ensures NoneBrings(Run(s, events)) && NoneArrivesLate(s, events)
    decreases |events|
  {
    if events != [] {
      var before, ev := events[..|events| - 1], events[|events| - 1];
      NothingBroughtArrives(s, before);
      assert !BringsAdmin(events[|events| - 1]);
      NoArrival(Run(s, before), ev);
    }
  }

  lemma NoArrival(s: State, ev: Event)
    requires NoneBrings(s) && !BringsAdmin(ev)
    ensures NoneBrings(Next(s, ev)) && !Arrives(s, ev)
  {}

  // From rest: a panel with an active administrator keeps one through every
  // interleaving of offboardings, demotions, deletions and withdrawals, their
  // lock passes waiting on one another or not.
  lemma AlwaysAnAdmin(users: map<UserId, Account>, events: seq<Event>)
    requires exists u :: ActiveAdmin(users, u)
    requires forall i :: 0 <= i < |events| ==> !BringsAdmin(events[i])
    ensures exists u :: ActiveAdmin(Run(State(users, map[]), events).users, u)
  {
    var s := State(users, map[]);
    var u :| ActiveAdmin(users, u);
    assert u in Admins(s);
    NothingBroughtArrives(s, events);
    NoLateArrivalKeepsAdmin(s, events);
    var v :| v in Admins(Run(s, events));
  }

  // ---- An empty lock pass is enough to lose everyone ---------------------------------------

  lemma {:induction false} RunConcat(s: State, a: seq<Event>, b: seq<Event>)
    ensures Run(s, a + b) == Run(Run(s, a), b)
    decreases |b|
  {
    if b == [] {
      assert a + b == a;
    } else {
      assert (a + b)[..|a + b| - 1] == a + b[..|b| - 1];
      RunConcat(s, a, b[..|b| - 1]);
    }
  }

  lemma RunFour(s: State, a: Event, b: Event, c: Event, d: Event)
    ensures Run(s, [a, b, c, d]) == Next(Next(Next(Next(s, a), b), c), d)
  {
    assert [a, b, c, d][..3] == [a, b, c] && [a, b, c][..2] == [a, b] && [a, b][..1] == [a] && [a][..0] == [];
    assert Run(s, [a]) == Next(s, a);
    assert Run(s, [a, b]) == Next(Run(s, [a]), b);
    assert Run(s, [a, b, c]) == Next(Run(s, [a, b]), c);
  }

  function AtOnce(tx: TxId, a: Action, u: UserId): seq<Event> {
    [BeginLocked(tx, a, u), Read(tx), Write(tx), Commit(tx)]
  }

  lemma LockedAndRead(s: State, tx: TxId, t: Txn)
    requires tx !in s.txns && forall other :: other in s.txns ==> Holds(s.txns[other]) == {}
    requires t == Txn(t.action, t.target, Snapshot(s, t.action, t.target), Locking({})) && Passes(s, t)
    ensures Next(Next(s, BeginLocked(tx, t.action, t.target)), Read(tx)) == Put(s, tx, t.(stage := Checked))
  {
    assert Next(s, BeginLocked(tx, t.action, t.target)) == Put(s, tx, t);
    assert Passes(Put(s, tx, t), t);
  }

  lemma WrittenAndCommitted(s: State, tx: TxId, t: Txn)
    requires tx !in s.txns && t.target in s.users && forall other :: other in s.txns ==> Holds(s.txns[other]) == {}
    requires t.stage.Checked?
    ensures Next(Next(Put(s, tx, t), Write(tx)), Commit(tx)) == State(Apply(s.users, t.action, t.target), s.txns)
  {
    assert Next(Put(s, tx, t), Write(tx)) == Put(s, tx, t.(stage := Written));
    assert Put(s, tx, t.(stage := Written)).txns - {tx} == s.txns;
  }

  // A transaction whose checks pass takes effect when it runs from start to end
  // while nobody holds a row.
  lemma UndisturbedRun(s: State, tx: TxId, a: Action, u: UserId)
    requires tx !in s.txns && u in s.users && forall other :: other in s.txns ==> Holds(s.txns[other]) == {}
    requires Passes(s, Txn(a, u, Snapshot(s, a, u), Locking({})))
    ensures Run(s, AtOnce(tx, a, u)) == State(Apply(s.users, a, u), s.txns)
  {
    var t := Txn(a, u, Snapshot(s, a, u), Locking({}));
    RunFour(s, BeginLocked(tx, a, u), Read(tx), Write(tx), Commit(tx));
    LockedAndRead(s, tx, t);
    WrittenAndCommitted(s, tx, t.(stage := Checked));
  }

  lemma RefusedRun(s: State, tx: TxId, a: Action, u: UserId)
    requires tx !in s.txns && forall other :: other in s.txns ==> Holds(s.txns[other]) == {}
    requires !Passes(s, Txn(a, u, Snapshot(s, a, u), Locking({})))
    ensures Run(s, AtOnce(tx, a, u)) == s
  {
    var t := Txn(a, u, Snapshot(s, a, u), Locking({}));
    RunFour(s, BeginLocked(tx, a, u), Read(tx), Write(tx), Commit(tx));
    assert Next(s, BeginLocked(tx, a, u)) == Put(s, tx, t);
    assert Put(s, tx, t).txns - {tx} == s.txns;
    assert Next(Put(s, tx, t), Read(tx)) == s;
  }

  // What each request does when it runs undisturbed, on role and status: whom it
  // refuses, what it leaves of its target, and that it touches nobody else.
  lemma RequestOutcome(s: State, tx: TxId, a: Action, u: UserId)
    requires tx !in s.txns && u in s.users && forall other :: other in s.txns ==> Holds(s.txns[other]) == {}
    ensures var before, after := s.users, Run(s, AtOnce(tx, a, u)).users;
      && Run(s, AtOnce(tx, a, u)).txns == s.txns
      && after - {u} == before - {u}
      && match a
         case Offboard(actor) =>
           if actor == u || (before[u] == Account(Admin, Active) && |Admins(s)| == 1) then after == before
           else u in after && after[u] == Account(before[u].role, Disabled)
         case Demote =>
           if before[u].role == Admin && |Admins(s)| <= 1 then after == before
           else u in after && after[u] == Account(Member, before[u].status)
         case Promote => u in after && after[u] == Account(Admin, before[u].status)
         case Reinstate => u in after && after[u] == Account(before[u].role, Active)
         case Delete => if before[u].status == Disabled then u !in after else after == before
         case Withdraw =>
           if before[u] == Account(Member, Active) then u in after && after[u] == Account(Member, Disabled)
           else after == before
  {
    assert u in Admins(s) ==> |Admins(s)| >= 1 by {
      if u in Admins(s) { assert Admins(s) == {u} + (Admins(s) - {u}); }
    }
    if Passes(s, Txn(a, u, Snapshot(s, a, u), Locking({}))) {
      UndisturbedRun(s, tx, a, u);
    } else {
      RefusedRun(s, tx, a, u);
    }
  }

  // Adding a user, starting and ending a transaction: what each leaves alone.
  lemma OtherEvents(s: State, tx: TxId, a: Action, u: UserId, role: Role)
    ensures var after := Next(s, Insert(u, role));
      && after.txns == s.txns && after.users - {u} == s.users - {u}
      && u in after.users && after.users[u] == if u in s.users then s.users[u] else Account(role, Active)
    ensures tx in s.txns ==> Next(s, Begin(tx, a, u)) == s && Next(s, BeginLocked(tx, a, u)) == s
    ensures Next(s, Abort(tx)) == State(s.users, s.txns - {tx})
    ensures tx in s.txns && s.txns[tx].stage.Checked? && s.txns[tx].target !in s.users && FreeFor(s, tx, s.txns[tx].target) ==>
      Next(s, Write(tx)) == State(s.users, s.txns - {tx})
  {}

  lemma {:induction false} LocksAll(s: State, tx: TxId, t: Txn) returns (events: seq<Event>)
    requires tx in s.txns && s.txns[tx] == t && t.stage.Locking?
    requires forall other :: other in s.txns && other != tx ==> Holds(s.txns[other]) == {}
    requires forall v :: v in t.stage.pending ==> Qualifies(s, t.action, v)
    ensures forall ev :: ev in events ==> ev.LockRow? && ev.tx == tx
    ensures Run(s, events) == Put(s, tx, t.(scanned := t.scanned + t.stage.pending, stage := Locking({})))
    decreases |t.stage.pending|
  {
    if t.stage.pending == {} {
      events := [];
      assert t.scanned + t.stage.pending == t.scanned;
      assert Put(s, tx, t) == s;
    } else {
      var v :| v in t.stage.pending;
      var t' := t.(scanned := t.scanned + {v}, stage := Locking(t.stage.pending - {v}));
      var s' := Next(s, LockRow(tx, v));
      assert s' == Put(s, tx, t');
      var rest := LocksAll(s', tx, t');
      events := [LockRow(tx, v)] + rest;
      assert [LockRow(tx, v)][..0] == [];
      assert Run(s, [LockRow(tx, v)]) == s';
      RunConcat(s, [LockRow(tx, v)], rest);
      assert t.scanned + {v} + (t.stage.pending - {v}) == t.scanned + t.stage.pending;
    }
  }

  // While nobody holds a row, a pass that visits its rows one at a time gathers
  // what one that takes them all at once does.
  lemma RowByRow(s: State, tx: TxId, a: Action, u: UserId) returns (events: seq<Event>)
    requires tx !in s.txns && forall other :: other in s.txns ==> Holds(s.txns[other]) == {}
    ensures forall ev :: ev in events ==> ev.LockRow? && ev.tx == tx
    ensures Run(s, [Begin(tx, a, u)] + events) == Next(s, BeginLocked(tx, a, u))
  {
    var t := Txn(a, u, {}, Locking(Snapshot(s, a, u)));
    var begun := Put(s, tx, t);
    assert [Begin(tx, a, u)][..0] == [];
    assert Run(s, [Begin(tx, a, u)]) == begun;
    events := LocksAll(begun, tx, t);
    RunConcat(s, [Begin(tx, a, u)], events);
    assert {} + Snapshot(s, a, u) == Snapshot(s, a, u);
  }

  // Every administrator but `u` is demoted, one after another.
  lemma {:induction false} DemoteOthers(s: State, tx: TxId, u: UserId) returns (events: seq<Event>)
    requires u in Admins(s) && tx !in s.txns && forall other :: other in s.txns ==> Holds(s.txns[other]) == {}
    ensures Admins(Run(s, events)) == {u} && Run(s, events).txns == s.txns
    ensures Run(s, events).users.Keys == s.users.Keys
    decreases |Admins(s)|
  {
    if Admins(s) == {u} {
      events := [];
    } else {
      var v :| v in Admins(s) && v != u;
      assert {u, v} <= Admins(s);
      TwoMembers(Admins(s), u, v);
      UndisturbedRun(s, tx, Demote, v);
      var next := State(Apply(s.users, Demote, v), s.txns);
      assert Admins(next) == Admins(s) - {v};
      var more := DemoteOthers(next, tx, u);
      events := AtOnce(tx, Demote, v) + more;
      RunConcat(s, AtOnce(tx, Demote, v), more);
    }
  }

  lemma TwoMembers(s: set<UserId>, u: UserId, v: UserId)
    requires u in s && v in s && u != v
    ensures |s| > 1
  {
    assert |s - {u}| > 0 by { assert v in s - {u}; }
  }

  lemma {:induction false} OthersRollBack(s: State, tx: TxId) returns (events: seq<Event>)
    requires tx in s.txns
    ensures Run(s, events) == s.(txns := map[tx := s.txns[tx]])
    decreases |s.txns|
  {
    if other :| other in s.txns && other != tx {
      var next := Next(s, Abort(other));
      assert next.txns.Keys == s.txns.Keys - {other};
      var more := OthersRollBack(next, tx);
      events := [Abort(other)] + more;
      RunConcat(s, [Abort(other)], more);
      assert [Abort(other)][..0] == [];
      assert Run(s, [Abort(other)]) == next;
    } else {
      events := [];
      assert s.txns == map[tx := s.txns[tx]];
    }
  }

  // The condition above is exact: whenever an unprotected transaction has passed
  // its checks, the transactions in flight can roll back, others can promote its
  // target and step down, each legitimately, and then its commit leaves no
  // administrator.
  lemma UnprotectedCanTakeAll(s: State, tx: TxId) returns (events: seq<Event>)
    requires tx in s.txns && s.txns[tx].stage.Checked? && Unprotected(s.txns[tx]) && s.txns[tx].target in s.users
    ensures Admins(Run(s, events)) == {}
  {
    var clear := OthersRollBack(s, tx);
    var rest := UnprotectedAloneTakesAll(Run(s, clear), tx, tx + 1);
    RunConcat(s, clear, rest);
    events := clear + rest;
  }

  lemma UnprotectedAloneTakesAll(s: State, tx: TxId, helper: TxId) returns (events: seq<Event>)
    requires s.txns.Keys == {tx} && helper != tx && s.txns[tx].stage.Checked? && Unprotected(s.txns[tx])
    requires s.txns[tx].target in s.users
    ensures Admins(Run(s, events)) == {}
  {
    var t := s.txns[tx];
    var u := t.target;
    UndisturbedRun(s, helper, Promote, u);
    var promoted := State(Apply(s.users, Promote, u), s.txns);
    UndisturbedRun(promoted, helper, Reinstate, u);
    var ready := State(Apply(promoted.users, Reinstate, u), s.txns);
    assert u in Admins(ready);
    var rest := DemoteOthers(ready, helper, u);
    var alone := Run(ready, rest);
    assert alone.txns == s.txns && u in Admins(alone);
    var last := [Write(tx), Commit(tx)];
    assert last[..1] == [Write(tx)] && last[..1][..0] == [];
    assert Run(alone, last) == Next(Next(alone, Write(tx)), Commit(tx)) by {
      assert Run(alone, [Write(tx)]) == Next(alone, Write(tx));
    }
    var final := Next(Next(alone, Write(tx)), Commit(tx));
    assert final.users == Apply(alone.users, t.action, u);
    assert forall v :: v in Admins(final) ==> v in Admins(alone) && v != u;
    var first := AtOnce(helper, Promote, u) + AtOnce(helper, Reinstate, u);
    RunConcat(s, AtOnce(helper, Promote, u), AtOnce(helper, Reinstate, u));
    RunConcat(s, first, rest);
    RunConcat(s, first + rest, last);
    events := first + rest + last;
  }

  // A lock pass does come back empty when each row of its snapshot stops being
  // an active administrator before the pass reaches it.
  lemma {:induction false} StaleSnapshotComesBackEmpty(s: State, tx: TxId) returns (events: seq<Event>)
    requires tx in s.txns && Guards(s.txns[tx].action) && s.txns[tx].scanned == {} && s.txns[tx].stage.Locking?
    requires forall u :: u in s.txns[tx].stage.pending ==> !ActiveAdmin(s.users, u) && FreeFor(s, tx, u)
    ensures Run(s, events) == Put(s, tx, s.txns[tx].(stage := Locking({})))
    decreases |s.txns[tx].stage.pending|
  {
    var t := s.txns[tx];
    var pending := t.stage.pending;
    if pending == {} {
      events := [];
      assert s.txns[tx := t] == s.txns;
    } else {
      var u :| u in pending;
      var next := Next(s, LockRow(tx, u));
      assert t.scanned + {} == {};
      assert next == Put(s, tx, t.(stage := Locking(pending - {u})));
      forall v | v in pending - {u} ensures FreeFor(next, tx, v) {
        assert FreeFor(s, tx, v);
        assert forall other :: other in next.txns && other != tx ==> next.txns[other] == s.txns[other];
      }
      var more := StaleSnapshotComesBackEmpty(next, tx);
      events := [LockRow(tx, u)] + more;
      RunConcat(s, [LockRow(tx, u)], more);
      assert [LockRow(tx, u)][..0] == [];
      assert Run(s, [LockRow(tx, u)]) == next;
    }
  }

  // The whole race, in every panel with one active administrator and two other
  // active members: an offboarding takes its snapshot, the role moves to somebody
  // else before its lock pass, and its target is promoted after its check.
  lemma RaceTakesAll(users: map<UserId, Account>, a: UserId, b: UserId, u: UserId) returns (events: seq<Event>)
    requires Admins(State(users, map[])) == {a} && b != u
    requires b in users && u in users && users[b] == users[u] == Account(Member, Active)
    ensures Admins(Run(State(users, map[]), events)) == {}
  {
    var s0, t := State(users, map[]), Txn(Offboard(a), u, {}, Locking({a}));
    assert ActiveAdmin(users, a) by { assert a in Admins(s0); }
    var begun := State(users, map[0 := t]);
    var start := [Begin(0, Offboard(a), u)];
    assert start[..0] == [] && Run(s0, start) == begun;
    var moved := RoleMoves(begun, a, b);
    var empty := StaleSnapshotComesBackEmpty(Run(begun, moved), 0);
    var passed := Put(Run(begun, moved), 0, t.(stage := Locking({})));
    var read := [Read(0)];
    assert read[..0] == [] && Run(passed, read) == Next(passed, Read(0));
    var rest := UnprotectedCanTakeAll(Next(passed, Read(0)), 0);
    RunConcat(s0, start, moved);
    RunConcat(s0, start + moved, empty);
    RunConcat(s0, start + moved + empty, read);
    RunConcat(s0, start + moved + empty + read, rest);
    events := start + moved + empty + read + rest;
  }

  // While one transaction that holds no row is in flight, `b` is promoted and `a`
  // demoted.
  lemma RoleMoves(s: State, a: UserId, b: UserId) returns (events: seq<Event>)
    requires Admins(s) == {a} && b in s.users && s.users[b] == Account(Member, Active)
    requires s.txns.Keys == {0} && Holds(s.txns[0]) == {}
    ensures var t := Run(s, events);
      && t.txns == s.txns && !ActiveAdmin(t.users, a) && t.users.Keys == s.users.Keys
      && forall v :: v in s.users && v != a && v != b ==> t.users[v] == s.users[v]
  {
    assert a in Admins(s);
    UndisturbedRun(s, 1, Promote, b);
    var both := State(Apply(s.users, Promote, b), s.txns);
    assert a in Admins(both) && b in Admins(both);
    TwoMembers(Admins(both), a, b);
    UndisturbedRun(both, 1, Demote, a);
    RunConcat(s, AtOnce(1, Promote, b), AtOnce(1, Demote, a));
    events := AtOnce(1, Promote, b) + AtOnce(1, Demote, a);
  }

  // ---- How exact the two checks are -----------------------------------------------------------

  // With every administrator's row held, offboarding somebody else is refused
  // exactly when it would leave no active administrator.
  lemma OffboardRefusalIsExact(s: State, actor: UserId, u: UserId)
    requires u in s.users && actor != u && Admins(s) != {}
    ensures !Passes(s, Txn(Offboard(actor), u, Admins(s), Locking({}))) <==>
      Admins(State(Apply(s.users, Offboard(actor), u), s.txns)) == {}
  {
    TakenAway(s, Offboard(actor), u);
  }

  // Demotion does not look at the status: it is refused exactly when it would
  // leave no active administrator or the target is a disabled administrator and
  // a single active one remains.
  lemma DemotionRefusedIff(s: State, u: UserId)
    requires u in s.users && Admins(s) != {}
    ensures !Passes(s, Txn(Demote, u, Admins(s), Locking({}))) <==>
      (Admins(State(Apply(s.users, Demote, u), s.txns)) == {} ||
       (s.users[u] == Account(Admin, Disabled) && |Admins(s)| == 1))
  {
    TakenAway(s, Demote, u);
    assert |Admins(s)| <= 1 <==> |Admins(s)| == 1;
    assert u in Admins(s) <==> s.users[u] == Account(Admin, Active);
    match s.users[u].status
    case Active =>
    case Disabled =>
  }

  lemma TakenAway(s: State, a: Action, u: UserId)
    requires u in s.users && Guards(a)
    ensures Admins(State(Apply(s.users, a, u), s.txns)) == Admins(s) - {u}
    ensures Admins(s) != {} ==> (Admins(s) - {u} == {} <==> u in Admins(s) && |Admins(s)| == 1)
  {
    var after := State(Apply(s.users, a, u), s.txns);
    forall v ensures v in Admins(after) <==> v in Admins(s) && v != u {}
    if Admins(s) - {u} == {} && Admins(s) != {} {
      assert Admins(s) == {u};
    }
    if u in Admins(s) && |Admins(s)| == 1 {
      assert |Admins(s) - {u}| == 0;
    }
  }
}
