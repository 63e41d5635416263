// Where a new key goes: the first node, in the order users see, that passes
// every constraint; and what that choice keeps over whole histories of keys.
module NodePick {
  import opened Options
  import opened NodeOrder
  import KeyLifecycle

  type OwnerId = nat
  type KeyId = nat
  type KeyState = KeyLifecycle.KeyState

  datatype Protocol = Awg2 | Awg3
  datatype Mode = PerNode | Global

  // `reported`: the protocols in the node's capabilities; `enabledProtocols` is
  // empty when the node restricts nothing.
  datatype Node = Node(row: Row, enabled: bool, primary: Protocol, reported: set<Protocol>,
                       enabledProtocols: set<Protocol>, maxPeers: nat)
  datatype Policy = Policy(choosesNode: bool, allowedNodes: Option<set<NodeId>>, allowedProtocols: set<Protocol>,
                           mode: Mode, defaultLimit: nat, flatLimit: Option<nat>, nodeLimits: map<NodeId, nat>)
  datatype Request = Request(nodeId: NodeId, protocol: Protocol)
  datatype Key = Key(owner: OwnerId, node: NodeId, state: KeyState)
  datatype World = World(nodes: seq<Node>, order: seq<NodeId>, policies: map<OwnerId, Policy>, keys: map<KeyId, Key>)

  datatype Error = QuotaExceeded | NodeAtCapacity | ProtocolNotAllowed | NodeNotAllowed | NodeUnavailable
  datatype Choice = Chosen(node: NodeId) | Refused(error: Error)
  datatype Verdict = Passes | NoRoom | Full | WrongProtocol | NotAvailable

  ghost predicate DistinctNodes(nodes: seq<Node>) {
    forall i, j :: 0 <= i < j < |nodes| ==> nodes[i].row.id != nodes[j].row.id
  }

  // ---- Usage and limits ---------------------------------------------------------------

  predicate Counted(state: KeyState) {
    state.Provisioning? || state.Active? || state.Disabled?
  }

  // Keys counted together: of one owner, on one node, or both.
  datatype Scope = Scope(owner: Option<OwnerId>, node: Option<NodeId>)

  predicate InScope(key: Key, scope: Scope) {
    Counted(key.state) && (scope.owner.Some? ==> key.owner == scope.owner.value)
    && (scope.node.Some? ==> key.node == scope.node.value)
  }

  function KeysIn(keys: map<KeyId, Key>, scope: Scope): set<KeyId> {
    set k | k in keys && InScope(keys[k], scope)
  }

  function Usage(keys: map<KeyId, Key>, scope: Scope): nat {
    |KeysIn(keys, scope)|
  }

  function PoolLimit(p: Policy): nat {
    if p.flatLimit.Some? then p.flatLimit.value else p.defaultLimit
  }

  function NodeLimit(p: Policy, node: NodeId): nat {
    if node in p.nodeLimits then p.nodeLimits[node] else PoolLimit(p)
  }

  predicate HasRoom(p: Policy, node: NodeId, keysOnNode: nat, keysTotal: nat) {
    if p.mode.Global? then keysTotal < PoolLimit(p) else keysOnNode < NodeLimit(p, node)
  }

  // ---- The search -------------------------------------------------------------------------

  function Supported(n: Node): set<Protocol> {
    if n.reported != {} then n.reported else {n.primary}
  }

  function Selectable(n: Node, p: Policy): set<Protocol> {
    (if n.enabledProtocols != {} then Supported(n) * n.enabledProtocols else Supported(n)) * p.allowedProtocols
  }

  predicate Candidate(n: Node, p: Policy, r: Request) {
    n.enabled && (n.primary == r.protocol || r.protocol in n.reported) && (p.choosesNode ==> n.row.id == r.nodeId)
  }

  predicate Available(p: Policy, node: NodeId) {
    p.allowedNodes.Some? ==> node in p.allowedNodes.value
  }

  // The first constraint a candidate fails, in the order they are checked.
  function Judge(w: World, owner: OwnerId, p: Policy, r: Request, n: Node): Verdict {
    if !Available(p, n.row.id) then NotAvailable
    else if r.protocol !in Selectable(n, p) then WrongProtocol
    else if !HasRoom(p, n.row.id, Usage(w.keys, Scope(Some(owner), Some(n.row.id))), Usage(w.keys, Scope(Some(owner), None)))
    then NoRoom
    else if Usage(w.keys, Scope(None, Some(n.row.id))) >= n.maxPeers then Full
    else Passes
  }

  function Candidates(nodes: seq<Node>, p: Policy, r: Request): seq<Node> {
    if nodes == [] then []
    else (if Candidate(nodes[0], p, r) then [nodes[0]] else []) + Candidates(nodes[1..], p, r)
  }

  function RowsOf(nodes: seq<Node>): seq<Row> {
    seq(|nodes|, i requires 0 <= i < |nodes| => nodes[i].row)
  }

  function NodeOf(nodes: seq<Node>, id: NodeId): Option<Node> {
    if nodes == [] then None else if nodes[0].row.id == id then Some(nodes[0]) else NodeOf(nodes[1..], id)
  }

  function VerdictOf(w: World, owner: OwnerId, p: Policy, r: Request, row: Row): Verdict {
    match NodeOf(Candidates(w.nodes, p, r), row.id)
    case None => NotAvailable
    case Some(n) => Judge(w, owner, p, r, n)
  }

  function Ordered(w: World, p: Policy, r: Request): seq<Row> {
    OrderForUsers(RowsOf(Candidates(w.nodes, p, r)), w.order)
  }

  lemma SeenOneMore(w: World, owner: OwnerId, p: Policy, r: Request, rows: seq<Row>, n: nat, v: Verdict)
    requires n < |rows|
    ensures Seen(w, owner, p, r, rows[..n + 1], v) <==>
      Seen(w, owner, p, r, rows[..n], v) || VerdictOf(w, owner, p, r, rows[n]) == v
  {
    assert rows[..n + 1] == rows[..n] + [rows[n]];
    forall row ensures row in rows[..n + 1] <==> row in rows[..n] || row == rows[n] {}
    if Seen(w, owner, p, r, rows[..n], v) {
      var row :| row in rows[..n] && VerdictOf(w, owner, p, r, row) == v;
      assert row in rows[..n + 1];
    }
  }

  // The flags after the first `n` rows.
  ghost predicate Flagged(w: World, owner: OwnerId, p: Policy, r: Request, rows: seq<Row>, n: nat,
                          quota: bool, capacity: bool, protocol: bool, availability: bool)
    requires n <= |rows|
  {
    && quota == Seen(w, owner, p, r, rows[..n], NoRoom)
    && capacity == Seen(w, owner, p, r, rows[..n], Full)
    && protocol == Seen(w, owner, p, r, rows[..n], WrongProtocol)
    && availability == Seen(w, owner, p, r, rows[..n], NotAvailable)
    && (n > 0 ==> quota || capacity || protocol || availability)
  }

  lemma FlaggedOneMore(w: World, owner: OwnerId, p: Policy, r: Request, rows: seq<Row>, n: nat,
                       quota: bool, capacity: bool, protocol: bool, availability: bool)
    requires n < |rows| && Flagged(w, owner, p, r, rows, n, quota, capacity, protocol, availability)
    ensures var v := VerdictOf(w, owner, p, r, rows[n]);
      v != Passes ==>
        Flagged(w, owner, p, r, rows, n + 1, quota || v == NoRoom, capacity || v == Full,
                protocol || v == WrongProtocol, availability || v == NotAvailable)
  {
    SeenOneMore(w, owner, p, r, rows, n, NoRoom);
    SeenOneMore(w, owner, p, r, rows, n, Full);
    SeenOneMore(w, owner, p, r, rows, n, WrongProtocol);
    SeenOneMore(w, owner, p, r, rows, n, NotAvailable);
  }

  method PickNode(w: World, owner: OwnerId, p: Policy, r: Request) returns (choice: Choice)
    ensures choice == Pick(w, owner, p, r)
  {
    var candidates := Candidates(w.nodes, p, r);
    var ordered, _ := OrderNodesForUsers(RowsOf(candidates), w.order);
    choice := Search(w, owner, p, r, ordered);
  }

  method Search(w: World, owner: OwnerId, p: Policy, r: Request, ordered: seq<Row>) returns (choice: Choice)
    ensures choice == PickAmong(w, owner, p, r, ordered)
  {
    var userQuotaBlocked, nodeCapacityBlocked, protocolBlocked, availabilityBlocked := false, false, false, false;
    for n := 0 to |ordered|
      invariant FirstPassing(w, owner, p, r, ordered) == n + FirstPassing(w, owner, p, r, ordered[n..])
      invariant Flagged(w, owner, p, r, ordered, n,
                        userQuotaBlocked, nodeCapacityBlocked, protocolBlocked, availabilityBlocked)
    {
      assert ordered[n..][1..] == ordered[n + 1..];
      FlaggedOneMore(w, owner, p, r, ordered, n,
                     userQuotaBlocked, nodeCapacityBlocked, protocolBlocked, availabilityBlocked);
      match VerdictOf(w, owner, p, r, ordered[n]) {
        case NotAvailable => availabilityBlocked := true;
        case WrongProtocol => protocolBlocked := true;
        case NoRoom => userQuotaBlocked := true;
        case Full => nodeCapacityBlocked := true;
        case Passes => return Chosen(ordered[n].id);
      }
    }
    assert ordered[..|ordered|] == ordered;
    choice := Refused(
      if userQuotaBlocked then QuotaExceeded
      else if nodeCapacityBlocked then NodeAtCapacity
      else if protocolBlocked then ProtocolNotAllowed
      else if availabilityBlocked then NodeNotAllowed
      else NodeUnavailable);
  }

  function FirstPassing(w: World, owner: OwnerId, p: Policy, r: Request, rows: seq<Row>): (i: nat)
    ensures i <= |rows| && (i < |rows| ==> VerdictOf(w, owner, p, r, rows[i]).Passes?)
    ensures forall j :: 0 <= j < i ==> !VerdictOf(w, owner, p, r, rows[j]).Passes?
  {
    if rows == [] || VerdictOf(w, owner, p, r, rows[0]).Passes? then 0
    else 1 + FirstPassing(w, owner, p, r, rows[1..])
  }

  predicate Seen(w: World, owner: OwnerId, p: Policy, r: Request, rows: seq<Row>, v: Verdict) {
    exists row :: row in rows && VerdictOf(w, owner, p, r, row) == v
  }

  function PickAmong(w: World, owner: OwnerId, p: Policy, r: Request, rows: seq<Row>): Choice {
    var i := FirstPassing(w, owner, p, r, rows);
    if i < |rows| then Chosen(rows[i].id)
    else if Seen(w, owner, p, r, rows, NoRoom) then Refused(QuotaExceeded)
    else if Seen(w, owner, p, r, rows, Full) then Refused(NodeAtCapacity)
    else if Seen(w, owner, p, r, rows, WrongProtocol) then Refused(ProtocolNotAllowed)
    else if rows != [] then Refused(NodeNotAllowed)
    else Refused(NodeUnavailable)
  }

  function Pick(w: World, owner: OwnerId, p: Policy, r: Request): Choice {
    PickAmong(w, owner, p, r, Ordered(w, p, r))
  }

  // ---- What the search finds -----------------------------------------------------------------

  lemma {:induction false} CandidateMembers(nodes: seq<Node>, p: Policy, r: Request)
    requires DistinctNodes(nodes)
    ensures forall n :: n in Candidates(nodes, p, r) <==> n in nodes && Candidate(n, p, r)
    ensures DistinctNodes(Candidates(nodes, p, r))
  {
    if nodes != [] {
      CandidateMembers(nodes[1..], p, r);
      assert nodes == [nodes[0]] + nodes[1..];
      var rest := Candidates(nodes[1..], p, r);
      forall i | 0 <= i < |rest| ensures rest[i].row.id != nodes[0].row.id {
        assert rest[i] in nodes[1..];
      }
    }
  }

  lemma {:induction false} FoundByRow(nodes: seq<Node>, n: Node)
    requires DistinctNodes(nodes) && n in nodes
    ensures NodeOf(nodes, n.row.id) == Some(n)
  {
    if nodes[0] != n {
      assert nodes == [nodes[0]] + nodes[1..];
      var i :| 0 <= i < |nodes| && nodes[i] == n;
      FoundByRow(nodes[1..], n);
    }
  }

  // The rows searched are those of the candidates, each with its own verdict.
  lemma OrderedMembers(w: World, owner: OwnerId, p: Policy, r: Request)
    requires DistinctNodes(w.nodes)
    ensures InOrder(Sorting(w.order, true), Ordered(w, p, r))
    ensures forall n :: n in w.nodes && Candidate(n, p, r) ==>
      n.row in Ordered(w, p, r) && VerdictOf(w, owner, p, r, n.row) == Judge(w, owner, p, r, n)
    ensures forall row :: row in Ordered(w, p, r) ==> exists n :: n in w.nodes && Candidate(n, p, r) && n.row == row
  {
    var candidates := Candidates(w.nodes, p, r);
    var rows := RowsOf(candidates);
    CandidateMembers(w.nodes, p, r);
    SortInOrder(Sorting(w.order, true), rows);
    SameMembers(Ordered(w, p, r), rows);
    forall n | n in w.nodes && Candidate(n, p, r)
      ensures n.row in Ordered(w, p, r) && VerdictOf(w, owner, p, r, n.row) == Judge(w, owner, p, r, n)
    {
      FoundByRow(candidates, n);
      var i :| 0 <= i < |candidates| && candidates[i] == n;
      assert rows[i] == n.row;
    }
    forall row | row in Ordered(w, p, r) ensures exists n :: n in w.nodes && Candidate(n, p, r) && n.row == row {
      var i :| 0 <= i < |rows| && rows[i] == row;
      assert candidates[i] in w.nodes;
    }
  }

  // ---- The constraints on the fields themselves ------------------------------------------------

  predicate InQuotaState(state: KeyState) {
    state in {KeyLifecycle.Provisioning, KeyLifecycle.Active, KeyLifecycle.Disabled}
  }

  // The keys that count against a limit: of one owner on a node, of one owner
  // anywhere, and of everybody on a node.
  lemma UsageCounts(keys: map<KeyId, Key>, owner: OwnerId, node: NodeId)
    ensures Usage(keys, Scope(Some(owner), Some(node))) ==
              |set k | k in keys && keys[k].owner == owner && keys[k].node == node && InQuotaState(keys[k].state)|
    ensures Usage(keys, Scope(Some(owner), None)) ==
              |set k | k in keys && keys[k].owner == owner && InQuotaState(keys[k].state)|
    ensures Usage(keys, Scope(None, Some(node))) ==
              |set k | k in keys && keys[k].node == node && InQuotaState(keys[k].state)|
  {
    assert KeysIn(keys, Scope(Some(owner), Some(node))) ==
      set k | k in keys && keys[k].owner == owner && keys[k].node == node && InQuotaState(keys[k].state);
    assert KeysIn(keys, Scope(Some(owner), None)) ==
      set k | k in keys && keys[k].owner == owner && InQuotaState(keys[k].state);
    assert KeysIn(keys, Scope(None, Some(node))) ==
      set k | k in keys && keys[k].node == node && InQuotaState(keys[k].state);
  }

  // Per node: below the node's own entry, 0 included; without one below the flat
  // limit; without that below the default. Global: the entries play no part.
  ghost predicate BelowLimit(p: Policy, node: NodeId, keysOnNode: nat, keysTotal: nat) {
    match p.mode
    case PerNode =>
      && (node in p.nodeLimits ==> keysOnNode < p.nodeLimits[node])
      && (node !in p.nodeLimits && p.flatLimit.Some? ==> keysOnNode < p.flatLimit.value)
      && (node !in p.nodeLimits && p.flatLimit.None? ==> keysOnNode < p.defaultLimit)
    case Global =>
      && (p.flatLimit.Some? ==> keysTotal < p.flatLimit.value)
      && (p.flatLimit.None? ==> keysTotal < p.defaultLimit)
  }

  lemma HasRoomIff(p: Policy, node: NodeId, keysOnNode: nat, keysTotal: nat)
    ensures HasRoom(p, node, keysOnNode, keysTotal) <==> BelowLimit(p, node, keysOnNode, keysTotal)
  {}

  // The node is up, reports or defaults to the protocol, and is the one asked
  // for if the owner may ask.
  ghost predicate Considered(p: Policy, r: Request, n: Node) {
    && n.enabled && (p.choosesNode ==> r.nodeId == n.row.id)
    && (n.reported == {} ==> r.protocol == n.primary)
    && (n.reported != {} ==> r.protocol in n.reported + {n.primary})
  }

  // The protocol is one the node reports (or its primary, if it reports none),
  // none of its restrictions bars it, and the policy allows it.
  ghost predicate Usable(p: Policy, r: Request, n: Node) {
    && r.protocol in p.allowedProtocols
    && (n.enabledProtocols == {} || r.protocol in n.enabledProtocols)
    && (if n.reported == {} then r.protocol == n.primary else r.protocol in n.reported)
  }

  ghost predicate OnOffer(p: Policy, n: Node) {
    p.allowedNodes == None || n.row.id in p.allowedNodes.value
  }

  ghost predicate OwnerBelow(w: World, owner: OwnerId, p: Policy, n: Node) {
    BelowLimit(p, n.row.id, Usage(w.keys, Scope(Some(owner), Some(n.row.id))), Usage(w.keys, Scope(Some(owner), None)))
  }

  ghost predicate NodeBelow(w: World, n: Node) {
    Usage(w.keys, Scope(None, Some(n.row.id))) < n.maxPeers
  }

  // Every constraint, on the fields.
  ghost predicate Suits(w: World, owner: OwnerId, p: Policy, r: Request, n: Node) {
    Considered(p, r, n) && OnOffer(p, n) && Usable(p, r, n) && OwnerBelow(w, owner, p, n) && NodeBelow(w, n)
  }

  lemma CandidateIff(n: Node, p: Policy, r: Request)
    ensures Candidate(n, p, r) <==> Considered(p, r, n)
    ensures r.protocol in Selectable(n, p) <==> Usable(p, r, n)
    ensures Available(p, n.row.id) <==> OnOffer(p, n)
  {}

  // What each verdict says of a candidate: the first constraint it fails.
  lemma JudgeIs(w: World, owner: OwnerId, p: Policy, r: Request, n: Node)
    ensures Judge(w, owner, p, r, n) ==
      if !OnOffer(p, n) then NotAvailable
      else if !Usable(p, r, n) then WrongProtocol
      else if !OwnerBelow(w, owner, p, n) then NoRoom
      else if !NodeBelow(w, n) then Full
      else Passes
  {
    CandidateIff(n, p, r);
  }

  ghost predicate FirstEligible(w: World, owner: OwnerId, p: Policy, r: Request, n: Node) {
    && n in w.nodes && Suits(w, owner, p, r, n)
    && forall m :: m in w.nodes && m != n && Suits(w, owner, p, r, m) ==> Before(Sorting(w.order, true), n.row, m.row)
  }

  lemma JudgePassesIff(w: World, owner: OwnerId, p: Policy, r: Request, n: Node)
    ensures Candidate(n, p, r) && Judge(w, owner, p, r, n).Passes? <==> Suits(w, owner, p, r, n)
  {
    CandidateIff(n, p, r);
    JudgeIs(w, owner, p, r, n);
  }

  // No eligible node stands before the first passing row.
  lemma EligibleFromThere(w: World, owner: OwnerId, p: Policy, r: Request, m: Node) returns (j: nat)
    requires DistinctNodes(w.nodes) && m in w.nodes && Suits(w, owner, p, r, m)
    ensures FirstPassing(w, owner, p, r, Ordered(w, p, r)) <= j < |Ordered(w, p, r)| && Ordered(w, p, r)[j] == m.row
  {
    OrderedMembers(w, owner, p, r);
    JudgePassesIff(w, owner, p, r, m);
    j :| 0 <= j < |Ordered(w, p, r)| && Ordered(w, p, r)[j] == m.row;
    assert VerdictOf(w, owner, p, r, Ordered(w, p, r)[j]).Passes?;
  }

  lemma EligibleComesAfter(w: World, owner: OwnerId, p: Policy, r: Request, n: Node, m: Node)
    requires DistinctNodes(w.nodes) && n in w.nodes && m in w.nodes && m != n && Suits(w, owner, p, r, m)
    requires var rows := Ordered(w, p, r);
      var i := FirstPassing(w, owner, p, r, rows);
      i < |rows| && rows[i] == n.row
    ensures Before(Sorting(w.order, true), n.row, m.row)
  {
    var i := FirstPassing(w, owner, p, r, Ordered(w, p, r));
    var j := EligibleFromThere(w, owner, p, r, m);
    FoundByRow(w.nodes, n);
    FoundByRow(w.nodes, m);
    assert i != j;
    OrderedMembers(w, owner, p, r);
  }

  lemma RowOfCandidate(w: World, owner: OwnerId, p: Policy, r: Request, i: nat) returns (n: Node)
    requires DistinctNodes(w.nodes) && i < |Ordered(w, p, r)| && VerdictOf(w, owner, p, r, Ordered(w, p, r)[i]).Passes?
    ensures n in w.nodes && n.row == Ordered(w, p, r)[i] && Suits(w, owner, p, r, n)
  {
    OrderedMembers(w, owner, p, r);
    var row := Ordered(w, p, r)[i];
    assert row in Ordered(w, p, r);
    n :| n in w.nodes && Candidate(n, p, r) && n.row == row;
    JudgePassesIff(w, owner, p, r, n);
  }

  lemma ChosenIsFirst(w: World, owner: OwnerId, p: Policy, r: Request) returns (n: Node)
    requires DistinctNodes(w.nodes) && Pick(w, owner, p, r).Chosen?
    ensures FirstEligible(w, owner, p, r, n) && n.row.id == Pick(w, owner, p, r).node
  {
    n := RowOfCandidate(w, owner, p, r, FirstPassing(w, owner, p, r, Ordered(w, p, r)));
    forall m | m in w.nodes && m != n && Suits(w, owner, p, r, m)
      ensures Before(Sorting(w.order, true), n.row, m.row)
    {
      EligibleComesAfter(w, owner, p, r, n, m);
    }
  }

  // A node is chosen exactly when one passes every constraint, and it is then
  // the first such in the order users see.
  lemma PickIsFirstEligible(w: World, owner: OwnerId, p: Policy, r: Request)
    requires DistinctNodes(w.nodes)
    ensures Pick(w, owner, p, r).Chosen? <==> exists n :: n in w.nodes && Suits(w, owner, p, r, n)
    ensures Pick(w, owner, p, r).Chosen? ==>
      exists n :: FirstEligible(w, owner, p, r, n) && n.row.id == Pick(w, owner, p, r).node
  {
    if Pick(w, owner, p, r).Chosen? {
      var n := ChosenIsFirst(w, owner, p, r);
    }
    forall n | n in w.nodes && Suits(w, owner, p, r, n) ensures Pick(w, owner, p, r).Chosen? {
      var j := EligibleFromThere(w, owner, p, r, n);
    }
  }

  // The quota behind a choice, number by number: in per-node mode the owner's keys
  // on the node are below the node's entry, without one below the flat limit,
  // without that below the default; in global mode the owner's keys anywhere are
  // below the flat limit or default, whatever the entries say.
  lemma ChosenBelowLimit(w: World, owner: OwnerId, p: Policy, r: Request)
    requires DistinctNodes(w.nodes) && Pick(w, owner, p, r).Chosen?
    ensures var node := Pick(w, owner, p, r).node;
      var here := |set k | k in w.keys && w.keys[k].owner == owner && w.keys[k].node == node && InQuotaState(w.keys[k].state)|;
      var total := |set k | k in w.keys && w.keys[k].owner == owner && InQuotaState(w.keys[k].state)|;
      && (p.mode == PerNode && node in p.nodeLimits ==> here < p.nodeLimits[node])
      && (p.mode == PerNode && node !in p.nodeLimits && p.flatLimit.Some? ==> here < p.flatLimit.value)
      && (p.mode == PerNode && node !in p.nodeLimits && p.flatLimit.None? ==> here < p.defaultLimit)
      && (p.mode == Global && p.flatLimit.Some? ==> total < p.flatLimit.value)
      && (p.mode == Global && p.flatLimit.None? ==> total < p.defaultLimit)
  {
    var n := ChosenIsFirst(w, owner, p, r);
    UsageCounts(w.keys, owner, n.row.id);
  }

  lemma {:induction false} SameCandidates(nodes: seq<Node>, p: Policy, q: Policy, r: Request)
    requires q == p.(nodeLimits := q.nodeLimits)
    ensures Candidates(nodes, q, r) == Candidates(nodes, p, r)
  {
    if nodes != [] {
      SameCandidates(nodes[1..], p, q, r);
    }
  }

  lemma {:induction false} SameVerdicts(w: World, owner: OwnerId, p: Policy, q: Policy, r: Request, rows: seq<Row>)
    requires p.mode == Global && q == p.(nodeLimits := q.nodeLimits)
    ensures forall row :: VerdictOf(w, owner, q, r, row) == VerdictOf(w, owner, p, r, row)
    ensures FirstPassing(w, owner, q, r, rows) == FirstPassing(w, owner, p, r, rows)
  {
    SameCandidates(w.nodes, p, q, r);
    if rows != [] {
      SameVerdicts(w, owner, p, q, r, rows[1..]);
    }
  }

  // In global mode the per-node entries make no difference to the search.
  lemma EntriesDormant(w: World, owner: OwnerId, p: Policy, entries: map<NodeId, nat>, r: Request)
    requires p.mode == Global
    ensures Pick(w, owner, p.(nodeLimits := entries), r) == Pick(w, owner, p, r)
  {
    var q := p.(nodeLimits := entries);
    SameCandidates(w.nodes, p, q, r);
    var rows := Ordered(w, p, r);
    SameVerdicts(w, owner, p, q, r, rows);
    assert Ordered(w, q, r) == rows;
    forall v ensures Seen(w, owner, q, r, rows, v) == Seen(w, owner, p, r, rows, v) {}
  }

  ghost predicate SomeCandidate(w: World, owner: OwnerId, p: Policy, r: Request, v: Verdict) {
    exists n :: n in w.nodes && Candidate(n, p, r) && Judge(w, owner, p, r, n) == v
  }

  lemma SeenIffSomeCandidate(w: World, owner: OwnerId, p: Policy, r: Request, v: Verdict)
    requires DistinctNodes(w.nodes)
    ensures Seen(w, owner, p, r, Ordered(w, p, r), v) <==> SomeCandidate(w, owner, p, r, v)
  {
    OrderedMembers(w, owner, p, r);
    if SomeCandidate(w, owner, p, r, v) {
      var n :| n in w.nodes && Candidate(n, p, r) && Judge(w, owner, p, r, n) == v;
      assert n.row in Ordered(w, p, r) && VerdictOf(w, owner, p, r, n.row) == v;
    }
    if Seen(w, owner, p, r, Ordered(w, p, r), v) {
      var row :| row in Ordered(w, p, r) && VerdictOf(w, owner, p, r, row) == v;
      var n :| n in w.nodes && Candidate(n, p, r) && n.row == row;
      assert Judge(w, owner, p, r, n) == v;
    }
  }

  // How a considered node misses out.
  ghost predicate BarredByQuota(w: World, owner: OwnerId, p: Policy, r: Request) {
    exists n :: n in w.nodes && Considered(p, r, n) && OnOffer(p, n) && Usable(p, r, n) && !OwnerBelow(w, owner, p, n)
  }

  ghost predicate BarredByCapacity(w: World, owner: OwnerId, p: Policy, r: Request) {
    exists n :: n in w.nodes && Considered(p, r, n) && OnOffer(p, n) && Usable(p, r, n) && OwnerBelow(w, owner, p, n)
                && !NodeBelow(w, n)
  }

  ghost predicate BarredByProtocol(w: World, p: Policy, r: Request) {
    exists n :: n in w.nodes && Considered(p, r, n) && OnOffer(p, n) && !Usable(p, r, n)
  }

  lemma BarredMeansVerdict(w: World, owner: OwnerId, p: Policy, r: Request)
    ensures BarredByQuota(w, owner, p, r) <==> SomeCandidate(w, owner, p, r, NoRoom)
    ensures BarredByCapacity(w, owner, p, r) <==> SomeCandidate(w, owner, p, r, Full)
    ensures BarredByProtocol(w, p, r) <==> SomeCandidate(w, owner, p, r, WrongProtocol)
  {
    forall n: Node
      ensures Candidate(n, p, r) <==> Considered(p, r, n)
      ensures Judge(w, owner, p, r, n) ==
        if !OnOffer(p, n) then NotAvailable
        else if !Usable(p, r, n) then WrongProtocol
        else if !OwnerBelow(w, owner, p, n) then NoRoom
        else if !NodeBelow(w, n) then Full
        else Passes
    {
      CandidateIff(n, p, r);
      JudgeIs(w, owner, p, r, n);
    }
  }

  // A refusal reports the nearest miss: a node barred by the owner's quota alone
  // outranks one that is full, that one a wrong protocol, that one availability;
  // no node to consider at all reads as unavailable.
  lemma RefusalReason(w: World, owner: OwnerId, p: Policy, r: Request)
    requires DistinctNodes(w.nodes) && Pick(w, owner, p, r).Refused?
    ensures Pick(w, owner, p, r).error ==
      if BarredByQuota(w, owner, p, r) then QuotaExceeded
      else if BarredByCapacity(w, owner, p, r) then NodeAtCapacity
      else if BarredByProtocol(w, p, r) then ProtocolNotAllowed
      else if exists n :: n in w.nodes && Considered(p, r, n) then NodeNotAllowed
      else NodeUnavailable
  {
    BarredMeansVerdict(w, owner, p, r);
    SeenIffSomeCandidate(w, owner, p, r, NoRoom);
    SeenIffSomeCandidate(w, owner, p, r, Full);
    SeenIffSomeCandidate(w, owner, p, r, WrongProtocol);
    RowsIffConsidered(w, owner, p, r);
  }

  lemma RowsIffConsidered(w: World, owner: OwnerId, p: Policy, r: Request)
    requires DistinctNodes(w.nodes)
    ensures Ordered(w, p, r) != [] <==> exists n :: n in w.nodes && Considered(p, r, n)
  {
    OrderedMembers(w, owner, p, r);
    forall n: Node ensures Candidate(n, p, r) <==> Considered(p, r, n) {
      CandidateIff(n, p, r);
    }
    var rows := Ordered(w, p, r);
    if rows != [] {
      assert rows[0] in rows;
    }
  }

  // ---- Histories -------------------------------------------------------------------------------

  // SetState covers every later change of a key, whoever makes it.
  datatype Event =
    | Create(owner: OwnerId, key: KeyId, request: Request)
    | SetState(key: KeyId, to: KeyState)
    | Remove(key: KeyId)

  function Next(w: World, ev: Event): World {
    match ev
    case Create(owner, k, r) =>
      if owner in w.policies && k !in w.keys then
        match Pick(w, owner, w.policies[owner], r)
        case Chosen(node) => w.(keys := w.keys[k := Key(owner, node, KeyLifecycle.Provisioning)])
        case Refused(_) => w
      else w
    case SetState(k, to) => if k in w.keys then w.(keys := w.keys[k := w.keys[k].(state := to)]) else w
    case Remove(k) => w.(keys := w.keys - {k})
  }

  function Run(w: World, events: seq<Event>): World
    decreases |events|
  {
    if events == [] then w else Next(Run(w, events[..|events| - 1]), events[|events| - 1])
  }

  // What each event does to the keys, and to nothing else.
  lemma EventMeans(w: World, ev: Event)
    ensures Next(w, ev).(keys := w.keys) == w && Next(w, ev).keys - {ev.key} == w.keys - {ev.key}
    ensures var keys := Next(w, ev).keys;
      match ev
      case Create(owner, k, r) =>
        if owner !in w.policies || k in w.keys || Pick(w, owner, w.policies[owner], r).Refused? then keys == w.keys
        else k in keys && keys[k] == Key(owner, Pick(w, owner, w.policies[owner], r).node, KeyLifecycle.Provisioning)
      case SetState(k, to) =>
        if k in w.keys then k in keys && keys[k] == Key(w.keys[k].owner, w.keys[k].node, to) else keys == w.keys
      case Remove(k) => k !in keys
  {}

  // A run is one event after another.
  lemma RunStep(w: World, events: seq<Event>, ev: Event)
    ensures Run(w, []) == w && Run(w, events + [ev]) == Next(Run(w, events), ev)
  {
    assert (events + [ev])[..|events|] == events;
  }

  // No more keys than the limit: the node's entry, else the flat limit, else the
  // default; in global mode the latter two over all nodes together.
  ghost predicate OwnerWithin(w: World, owner: OwnerId) {
    owner in w.policies ==>
      var p := w.policies[owner];
      match p.mode
      case PerNode =>
        forall node :: Usage(w.keys, Scope(Some(owner), Some(node))) <=
          if node in p.nodeLimits then p.nodeLimits[node]
          else if p.flatLimit.Some? then p.flatLimit.value else p.defaultLimit
      case Global =>
        Usage(w.keys, Scope(Some(owner), None)) <= if p.flatLimit.Some? then p.flatLimit.value else p.defaultLimit
  }

  // No owner is past a limit and no node past its capacity.
  ghost predicate Within(w: World) {
    && (forall owner :: OwnerWithin(w, owner))
    && (forall n :: n in w.nodes ==> Usage(w.keys, Scope(None, Some(n.row.id))) <= n.maxPeers)
  }

  function One(b: bool): nat {
    if b then 1 else 0
  }

  lemma UsageAfterPut(keys: map<KeyId, Key>, k: KeyId, key: Key, scope: Scope)
    ensures Usage(keys[k := key], scope) ==
      Usage(keys, scope) - One(k in keys && InScope(keys[k], scope)) + One(InScope(key, scope))
  {
    var others := KeysIn(keys, scope) - {k};
    assert KeysIn(keys[k := key], scope) == if InScope(key, scope) then others + {k} else others;
    assert k in KeysIn(keys, scope) <==> k in keys && InScope(keys[k], scope);
  }

  lemma UsageAfterRemove(keys: map<KeyId, Key>, k: KeyId, scope: Scope)
    ensures Usage(keys - {k}, scope) <= Usage(keys, scope)
  {
    assert KeysIn(keys, scope) == KeysIn(keys - {k}, scope) + (KeysIn(keys, scope) - KeysIn(keys - {k}, scope));
  }

  // A key comes back into a counted state: nothing checks the limits then.
  predicate Revives(w: World, ev: Event) {
    ev.SetState? && ev.key in w.keys && !Counted(w.keys[ev.key].state) && Counted(ev.to)
  }

  // One more key in the scopes of `key`, and no other change.
  ghost predicate OneMore(w: World, after: World, key: Key) {
    && after.(keys := w.keys) == w
    && forall scope :: Usage(after.keys, scope) == Usage(w.keys, scope) + One(InScope(key, scope))
  }

  // The owner of a key, or its node, is already at the limit.
  ghost predicate OwnerAtLimit(w: World, key: Key) {
    key.owner in w.policies &&
    !BelowLimit(w.policies[key.owner], key.node, Usage(w.keys, Scope(Some(key.owner), Some(key.node))),
                Usage(w.keys, Scope(Some(key.owner), None)))
  }

  ghost predicate NodeAtLimit(w: World, key: Key) {
    exists n :: n in w.nodes && n.row.id == key.node && Usage(w.keys, Scope(None, Some(key.node))) >= n.maxPeers
  }

  lemma OwnerAfterOneMore(w: World, after: World, key: Key, owner: OwnerId)
    requires OneMore(w, after, key) && Counted(key.state) && OwnerWithin(w, owner)
    ensures OwnerWithin(after, owner) <==> !(owner == key.owner && OwnerAtLimit(w, key))
  {
    if owner in w.policies && w.policies[owner].mode.PerNode? {
      var p := w.policies[owner];
      var here := Scope(Some(key.owner), Some(key.node));
      assert Usage(after.keys, here) == Usage(w.keys, here) + 1;
      if !(owner == key.owner && OwnerAtLimit(w, key)) {
        forall node ensures Usage(after.keys, Scope(Some(owner), Some(node))) <= NodeLimit(p, node) {
          assert Usage(w.keys, Scope(Some(owner), Some(node))) <= NodeLimit(p, node);
        }
      }
    }
  }

  // With one more key the limits still hold exactly when neither was reached.
  lemma WithinAfterOneMore(w: World, after: World, key: Key)
    requires OneMore(w, after, key) && Counted(key.state) && Within(w)
    ensures Within(after) <==> !OwnerAtLimit(w, key) && !NodeAtLimit(w, key)
  {
    forall owner ensures OwnerWithin(after, owner) <==> !(owner == key.owner && OwnerAtLimit(w, key)) {
      assert OwnerWithin(w, owner);
      OwnerAfterOneMore(w, after, key, owner);
    }
    var here := Scope(None, Some(key.node));
    assert Usage(after.keys, here) == Usage(w.keys, here) + 1;
    if NodeAtLimit(w, key) {
      var n :| n in w.nodes && n.row.id == key.node && Usage(w.keys, here) >= n.maxPeers;
      assert n in after.nodes;
    }
    if OwnerAtLimit(w, key) {
      assert !OwnerWithin(after, key.owner);
    }
  }

  lemma CreateKeepsWithin(w: World, owner: OwnerId, k: KeyId, r: Request)
    requires DistinctNodes(w.nodes) && Within(w)
    ensures Within(Next(w, Create(owner, k, r)))
  {
    var after := Next(w, Create(owner, k, r));
    if after != w {
      var p := w.policies[owner];
      var node := Pick(w, owner, p, r).node;
      var key := Key(owner, node, KeyLifecycle.Provisioning);
      var n := ChosenIsFirst(w, owner, p, r);
      forall scope ensures Usage(after.keys, scope) == Usage(w.keys, scope) + One(InScope(key, scope)) {
        UsageAfterPut(w.keys, k, key, scope);
      }
      forall m | m in w.nodes && m.row.id == node ensures m == n {
        FoundByRow(w.nodes, n);
        FoundByRow(w.nodes, m);
      }
      WithinAfterOneMore(w, after, key);
    }
  }

  lemma ShrinkingKeepsWithin(w: World, after: World)
    requires Within(w) && after.(keys := w.keys) == w
    requires forall scope :: Usage(after.keys, scope) <= Usage(w.keys, scope)
    ensures Within(after)
  {
    forall owner ensures OwnerWithin(after, owner) {
      assert OwnerWithin(w, owner);
    }
  }

  lemma NextKeepsWithin(w: World, ev: Event)
    requires DistinctNodes(w.nodes) && Within(w) && !Revives(w, ev)
    ensures Within(Next(w, ev))
  {
    match ev
    case Create(owner, k, r) => CreateKeepsWithin(w, owner, k, r);
    case SetState(k, to) =>
      if k in w.keys {
        forall scope ensures Usage(Next(w, ev).keys, scope) <= Usage(w.keys, scope) {
          UsageAfterPut(w.keys, k, w.keys[k].(state := to), scope);
        }
        ShrinkingKeepsWithin(w, Next(w, ev));
      }
    case Remove(k) =>
      forall scope ensures Usage(Next(w, ev).keys, scope) <= Usage(w.keys, scope) {
        UsageAfterRemove(w.keys, k, scope);
      }
      ShrinkingKeepsWithin(w, Next(w, ev));
  }

  predicate Unrevived(w: World, events: seq<Event>)
    decreases |events|
  {
    events == [] ||
    (Unrevived(w, events[..|events| - 1]) && !Revives(Run(w, events[..|events| - 1]), events[|events| - 1]))
  }

  // Over any history in which no uncounted key is revived, no creation ever
  // takes an owner past the per-node limit or the shared pool, nor a node past
  // its capacity.
  lemma {:induction false} RunKeepsWithin(w: World, events: seq<Event>)
    requires DistinctNodes(w.nodes) && Within(w) && Unrevived(w, events)
    ensures Within(Run(w, events)) && Run(w, events).nodes == w.nodes
    decreases |events|
  {
    if events != [] {
      RunKeepsWithin(w, events[..|events| - 1]);
      NextKeepsWithin(Run(w, events[..|events| - 1]), events[|events| - 1]);
    }
  }

  // Reviving a key, as rotating a failed one does, breaks a limit exactly when
  // its owner or its node is already at one.
  lemma RevivalExceedsIff(w: World, ev: Event)
    requires Within(w) && Revives(w, ev)
    ensures !Within(Next(w, ev)) <==> OwnerAtLimit(w, w.keys[ev.key]) || NodeAtLimit(w, w.keys[ev.key])
  {
    var key := w.keys[ev.key].(state := ev.to);
    var after := Next(w, ev);
    forall scope ensures Usage(after.keys, scope) == Usage(w.keys, scope) + One(InScope(key, scope)) {
      UsageAfterPut(w.keys, ev.key, key, scope);
    }
    WithinAfterOneMore(w, after, key);
  }
}
