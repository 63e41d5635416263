// The stored node lists of the portal policy: a server order, and the
// recommended servers, which must be the first entries of that order.
module NodeLists {
  import opened Options
  import opened NodeOrder

  ghost predicate Distinct(ids: seq<NodeId>) {
    forall i, j :: 0 <= i < j < |ids| ==> ids[i] != ids[j]
  }

  function Elements(ids: seq<NodeId>): set<NodeId> {
    set id | id in ids
  }

  function Dedupe(ids: seq<NodeId>): seq<NodeId>
    decreases |ids|
  {
    if ids == [] then []
    else
      var init, id := ids[..|ids| - 1], ids[|ids| - 1];
      Dedupe(init) + if id in init then [] else [id]
  }

  lemma FirstsOneMore(init: seq<NodeId>, id: NodeId)
    ensures forall a :: a in init ==> FirstIndex(init + [id], a) == FirstIndex(init, a) < |init|
    ensures id !in init ==> FirstIndex(init + [id], id) == |init|
  {
    forall a | a in init ensures FirstIndex(init + [id], a) == FirstIndex(init, a) < |init| {
      FirstIndexOfPrefix(init, [id], a);
    }
    if id !in init {
      assert (init + [id])[..|init|] == init;
      FirstIndexIs(init + [id], |init|);
    }
  }

  // Two lists name the same ids, in the same order of first occurrences.
  ghost predicate SameFirsts(ids: seq<NodeId>, other: seq<NodeId>) {
    && (forall id :: id in other <==> id in ids)
    && forall a, b :: a in ids && b in ids ==>
         (FirstIndex(ids, a) < FirstIndex(ids, b) <==> FirstIndex(other, a) < FirstIndex(other, b))
  }

  lemma OldIdAgain(ids: seq<NodeId>, other: seq<NodeId>, id: NodeId)
    requires SameFirsts(ids, other) && id in ids
    ensures SameFirsts(ids + [id], other)
  {
    FirstsOneMore(ids, id);
    assert forall x :: x in ids + [id] <==> x in ids;
  }

  lemma PairOneMore(ids: seq<NodeId>, other: seq<NodeId>, id: NodeId, a: NodeId, b: NodeId)
    requires id !in ids && id !in other && (a in ids || a == id) && (b in ids || b == id)
    requires (a in ids ==> a in other) && (b in ids ==> b in other)
    requires a in ids && b in ids ==>
      (FirstIndex(ids, a) < FirstIndex(ids, b) <==> FirstIndex(other, a) < FirstIndex(other, b))
    ensures FirstIndex(ids + [id], a) < FirstIndex(ids + [id], b) <==>
            FirstIndex(other + [id], a) < FirstIndex(other + [id], b)
  {
    FirstsOneMore(ids, id);
    FirstsOneMore(other, id);
  }

  lemma NewId(ids: seq<NodeId>, other: seq<NodeId>, id: NodeId)
    requires SameFirsts(ids, other) && id !in ids
    ensures SameFirsts(ids + [id], other + [id])
  {
    forall a, b | a in ids + [id] && b in ids + [id]
      ensures FirstIndex(ids + [id], a) < FirstIndex(ids + [id], b) <==>
              FirstIndex(other + [id], a) < FirstIndex(other + [id], b)
    {
      PairOneMore(ids, other, id, a, b);
    }
  }

  lemma {:induction false} DedupeIsDistinct(ids: seq<NodeId>)
    ensures Distinct(Dedupe(ids)) && forall id :: id in Dedupe(ids) <==> id in ids
    decreases |ids|
  {
    if ids != [] {
      var init, id := ids[..|ids| - 1], ids[|ids| - 1];
      DedupeIsDistinct(init);
      assert init + [id] == ids;
    }
  }

  lemma DedupeAppend(init: seq<NodeId>, id: NodeId)
    ensures Dedupe(init + [id]) == if id in init then Dedupe(init) else Dedupe(init) + [id]
  {
    assert (init + [id])[..|init|] == init;
  }

  lemma SameFirstsAppend(init: seq<NodeId>, id: NodeId)
    requires SameFirsts(init, Dedupe(init))
    ensures SameFirsts(init + [id], Dedupe(init + [id]))
  {
    DedupeAppend(init, id);
    if id in init {
      OldIdAgain(init, Dedupe(init), id);
    } else {
      NewId(init, Dedupe(init), id);
    }
  }

  lemma {:induction false} DedupeSameFirsts(ids: seq<NodeId>)
    ensures SameFirsts(ids, Dedupe(ids))
    decreases |ids|
  {
    if ids != [] {
      var init, id := ids[..|ids| - 1], ids[|ids| - 1];
      DedupeSameFirsts(init);
      SameFirstsAppend(init, id);
      assert init + [id] == ids;
    }
  }

  // Every id once, and ids keep the order of their first occurrences.
  lemma DedupeKeepsFirsts(ids: seq<NodeId>)
    ensures Distinct(Dedupe(ids)) && (forall id :: id in Dedupe(ids) <==> id in ids)
    ensures forall a, b :: a in ids && b in ids ==>
      (FirstIndex(ids, a) < FirstIndex(ids, b) <==> FirstIndex(Dedupe(ids), a) < FirstIndex(Dedupe(ids), b))
  {
    DedupeIsDistinct(ids);
    DedupeSameFirsts(ids);
  }

  lemma FirstIndexOfPrefix(ids: seq<NodeId>, more: seq<NodeId>, id: NodeId)
    requires id in ids
    ensures FirstIndex(ids + more, id) == FirstIndex(ids, id)
  {
    var i := FirstIndex(ids, id);
    assert (ids + more)[..i] == ids[..i];
    FirstIndexIs(ids + more, i);
  }

  // ---- The prefix check --------------------------------------------------------------

  // Behind: positioned, but not in the top; the position counts from one.
  datatype Check = Accepted(canonical: seq<NodeId>) | Behind(node: NodeId, position: nat) | Unpositioned(node: NodeId)

  // How far down the order every entry is wanted and new.
  function Walk(wanted: set<NodeId>, order: seq<NodeId>): (k: nat)
    ensures k <= |order|
  {
    if order == [] || order[0] !in wanted then 0 else 1 + Walk(wanted - {order[0]}, order[1..])
  }

  // The first entry of `ids` in `wanted`, or |ids|.
  function FirstIn(ids: seq<NodeId>, wanted: set<NodeId>): (i: nat)
    ensures i <= |ids| && (i < |ids| ==> ids[i] in wanted) && forall j :: 0 <= j < i ==> ids[j] !in wanted
  {
    if ids == [] || ids[0] in wanted then 0 else 1 + FirstIn(ids[1..], wanted)
  }

  function CheckPrefix(recommended: seq<NodeId>, order: seq<NodeId>): Check {
    var k := Walk(Elements(recommended), order);
    var left := Elements(recommended) - Elements(order[..k]);
    if left == {} then Accepted(order[..k])
    else if FirstIn(order, left) < |order| then Behind(order[FirstIn(order, left)], FirstIn(order, left) + 1)
    else if FirstIn(recommended, left) < |recommended| then Unpositioned(recommended[FirstIn(recommended, left)])
    else Accepted([])
  }

  lemma {:induction false} WalkStops(wanted: set<NodeId>, order: seq<NodeId>)
    ensures var k := Walk(wanted, order);
      && Distinct(order[..k]) && Elements(order[..k]) <= wanted
      && (k < |order| ==> order[k] !in wanted || order[k] in order[..k])
  {
    if order != [] && order[0] in wanted {
      var k := Walk(wanted - {order[0]}, order[1..]);
      WalkStops(wanted - {order[0]}, order[1..]);
      assert order[..k + 1] == [order[0]] + order[1..][..k];
      forall i | 0 <= i < k ensures order[1..][..k][i] != order[0] {
        assert order[1..][..k][i] in Elements(order[1..][..k]);
      }
    }
  }

  lemma DistinctTail(ids: seq<NodeId>)
    requires Distinct(ids) && ids != []
    ensures Distinct(ids[1..])
  {}

  lemma {:induction false} WalkReaches(wanted: set<NodeId>, order: seq<NodeId>, k: nat)
    requires k <= |order| && Distinct(order[..k]) && Elements(order[..k]) == wanted
    ensures Walk(wanted, order) == k
  {
    if k == 0 {
      assert order[..k] == [];
    } else {
      assert order[..k] == [order[0]] + order[1..][..k - 1];
      assert order[0] in Elements(order[..k]);
      assert Elements(order[1..][..k - 1]) == wanted - {order[0]} by {
        forall id ensures id in order[1..][..k - 1] <==> id in wanted && id != order[0] {
          assert id in wanted <==> id == order[0] || id in order[1..][..k - 1];
          if id in order[1..][..k - 1] {
            var i :| 0 <= i < k - 1 && order[1..][..k - 1][i] == id;
            assert order[..k][i + 1] == id;
          }
        }
      }
      DistinctTail(order[..k]);
      assert order[..k][1..] == order[1..][..k - 1];
      WalkReaches(wanted - {order[0]}, order[1..], k - 1);
    }
  }

  // The recommended ids are, as a set, the first entries of the order.
  ghost predicate TopOf(recommended: seq<NodeId>, order: seq<NodeId>, k: nat) {
    k <= |order| && Distinct(order[..k]) && Elements(order[..k]) == Elements(recommended)
  }

  // Accepted exactly when the recommended ids are the top of the order, with
  // that top as the canonical form.
  lemma AcceptedIff(recommended: seq<NodeId>, order: seq<NodeId>)
    ensures CheckPrefix(recommended, order).Accepted? <==> exists k: nat :: TopOf(recommended, order, k)
    ensures forall k: nat :: TopOf(recommended, order, k) ==> CheckPrefix(recommended, order) == Accepted(order[..k])
  {
    var wanted := Elements(recommended);
    WalkStops(wanted, order);
    var left := wanted - Elements(order[..Walk(wanted, order)]);
    if left == {} {
      var top := Elements(order[..Walk(wanted, order)]);
      forall id | id in wanted ensures id in top {
        assert id !in left;
      }
      assert top == wanted;
      assert TopOf(recommended, order, Walk(wanted, order));
    } else {
      var id :| id in left;
      assert id in recommended;
    }
    forall k: nat | TopOf(recommended, order, k) ensures CheckPrefix(recommended, order) == Accepted(order[..k]) {
      WalkReaches(wanted, order, k);
    }
  }

  // A recommended server with one that is not recommended ahead of it, every
  // recommended server before it being ahead of all such.
  ghost predicate TopmostBehind(recommended: seq<NodeId>, order: seq<NodeId>, i: int) {
    && 0 <= i < |order| && order[i] in recommended
    && exists gap :: 0 <= gap < i && order[gap] !in recommended
                     && forall j :: 0 <= j < i ==> (order[j] in recommended <==> j < gap)
  }

  // The first listed server without a place in the order.
  ghost predicate FirstUnpositioned(recommended: seq<NodeId>, order: seq<NodeId>, node: NodeId) {
    && node in recommended && node !in order
    && forall j :: 0 <= j < FirstIndex(recommended, node) ==> recommended[j] in order
  }

  // A refusal names the offender nearest the top.
  lemma RefusalNamesTopmost(recommended: seq<NodeId>, order: seq<NodeId>)
    requires Distinct(order)
    ensures var check := CheckPrefix(recommended, order);
      && (check.Behind? ==> TopmostBehind(recommended, order, check.position - 1) && order[check.position - 1] == check.node)
      && (check.Unpositioned? ==> FirstUnpositioned(recommended, order, check.node))
  {
    var wanted := Elements(recommended);
    var k := Walk(wanted, order);
    var left := wanted - Elements(order[..k]);
    WalkStops(wanted, order);
    match CheckPrefix(recommended, order)
    case Accepted(_) =>
    case Behind(node, position) =>
      forall j | 0 <= j < k ensures order[j] !in left && order[j] in recommended {
        assert order[..k][j] in Elements(order[..k]);
      }
      assert position - 1 >= k;
      TopGap(recommended, order, k, position - 1);
    case Unpositioned(node) =>
      forall j | 0 <= j < |recommended| && recommended[j] !in left ensures recommended[j] in order {
        assert recommended[j] in Elements(order[..k]);
      }
      var first := FirstIn(recommended, left);
      forall j | 0 <= j < first ensures recommended[j] != node {}
      assert node !in recommended[..first];
      FirstIndexIs(recommended, first);
      assert node !in order;
  }

  lemma TopGap(recommended: seq<NodeId>, order: seq<NodeId>, k: nat, i: nat)
    requires Distinct(order) && k == Walk(Elements(recommended), order) && k <= i < |order|
    requires forall j :: 0 <= j < k ==> order[j] in recommended
    requires order[i] in recommended
    requires forall j :: 0 <= j < i ==> order[j] !in Elements(recommended) - Elements(order[..k])
    requires order[i] in Elements(recommended) - Elements(order[..k])
    ensures TopmostBehind(recommended, order, i)
  {
    WalkStops(Elements(recommended), order);
    assert order[k] !in recommended by {
      assert forall j :: 0 <= j < k ==> order[..k][j] != order[k];
    }
    forall j | k <= j < i ensures order[j] !in recommended {
      assert forall m :: 0 <= m < k ==> order[..k][m] != order[j];
      assert order[j] !in Elements(order[..k]);
    }
    assert k < i;
  }

  method CheckRecommendedPrefix(recommended: seq<NodeId>, order: seq<NodeId>) returns (r: Check)
    ensures r == CheckPrefix(recommended, order)
  {
    var wanted := Elements(recommended);
    if wanted == {} {
      assert order[..0] == [];
      return Accepted([]);
    }
    ghost var all := wanted;
    ghost var k := Walk(wanted, order);
    var canonical, n := [], 0;
    while n < |order| && order[n] in wanted
      invariant 0 <= n <= |order| && canonical == order[..n]
      invariant wanted == all - Elements(order[..n])
      invariant n + Walk(wanted, order[n..]) == k
    {
      assert order[n..][1..] == order[n + 1..] && order[..n + 1] == order[..n] + [order[n]];
      canonical := canonical + [order[n]];
      wanted := wanted - {order[n]};
      n := n + 1;
    }
    if wanted == {} {
      return Accepted(canonical);
    }
    var behind := FirstIn(order, wanted);
    if behind < |order| {
      return Behind(order[behind], behind + 1);
    }
    var listed := FirstIn(recommended, wanted);
    var id :| id in wanted;
    assert id in recommended;
    r := Unpositioned(recommended[listed]);
  }

  // ---- The stored lists ------------------------------------------------------------------

  datatype Lists = Lists(recommended: seq<NodeId>, order: seq<NodeId>)

  function Deduped(ids: Option<seq<NodeId>>): Option<seq<NodeId>> {
    if ids.None? then None else Some(Dedupe(ids.value))
  }

  function Or(ids: Option<seq<NodeId>>, stored: seq<NodeId>): seq<NodeId> {
    if ids.None? then stored else ids.value
  }

  predicate AllKnown(ids: Option<seq<NodeId>>, nodes: set<NodeId>) {
    ids.Some? ==> Elements(ids.value) <= nodes
  }

  // A policy update naming either list or both; a refused one changes nothing.
  function Update(l: Lists, nodes: set<NodeId>, recommended: Option<seq<NodeId>>, order: Option<seq<NodeId>>): Lists {
    var wanted, placed := Deduped(recommended), Deduped(order);
    var check := CheckPrefix(Or(wanted, l.recommended), Or(placed, l.order));
    if !AllKnown(wanted, nodes) || !AllKnown(placed, nodes) then l
    else if recommended.None? && order.None? then l
    else if !check.Accepted? then l
    else
      Lists(if recommended.Some? || check.canonical != [] then check.canonical else l.recommended,
            Or(placed, l.order))
  }

  function Without(ids: seq<NodeId>, id: NodeId): seq<NodeId> {
    if ids == [] then []
    else (if ids[0] == id then [] else [ids[0]]) + Without(ids[1..], id)
  }

  datatype Event =
    | AddNode(id: NodeId)
    | DeleteNode(id: NodeId)
    | UpdatePolicy(recommended: Option<seq<NodeId>>, order: Option<seq<NodeId>>)

  datatype State = State(nodes: set<NodeId>, lists: Lists)

  function Next(s: State, ev: Event): State {
    match ev
    case AddNode(id) => s.(nodes := s.nodes + {id})
    case DeleteNode(id) =>
      if id in s.nodes then
        State(s.nodes - {id}, Lists(Without(s.lists.recommended, id), Without(s.lists.order, id)))
      else s
    case UpdatePolicy(recommended, order) => s.(lists := Update(s.lists, s.nodes, recommended, order))
  }

  function Run(s: State, events: seq<Event>): State
    decreases |events|
  {
    if events == [] then s else Next(Run(s, events[..|events| - 1]), events[|events| - 1])
  }

  // Adding a node leaves the lists alone; deleting one takes its id, and nothing
  // else, out of the nodes and of both lists.
  lemma NodeEvents(s: State, id: NodeId)
    ensures Next(s, AddNode(id)) == State(s.nodes + {id}, s.lists)
    ensures id !in s.nodes ==> Next(s, DeleteNode(id)) == s
    ensures id in s.nodes ==>
      var t := Next(s, DeleteNode(id));
      && t.nodes == s.nodes - {id}
      && (forall x :: x in t.lists.order <==> x in s.lists.order && x != id)
      && (forall x :: x in t.lists.recommended <==> x in s.lists.recommended && x != id)
  {
    WithoutMembers(s.lists.order, id);
    WithoutMembers(s.lists.recommended, id);
  }

  // A run is one event after another.
  lemma RunStep(s: State, events: seq<Event>, ev: Event)
    ensures Run(s, []) == s && Run(s, events + [ev]) == Next(Run(s, events), ev)
  {
    assert (events + [ev])[..|events|] == events;
  }

  // The recommended list is exactly a prefix of the order, and the order names
  // existing nodes, each once.
  ghost predicate Inv(s: State) {
    s.lists.recommended <= s.lists.order && Distinct(s.lists.order) && Elements(s.lists.order) <= s.nodes
  }

  lemma {:induction false} WithoutMembers(ids: seq<NodeId>, id: NodeId)
    ensures forall x :: x in Without(ids, id) <==> x in ids && x != id
    ensures Distinct(ids) ==> Distinct(Without(ids, id))
  {
    if ids != [] {
      WithoutMembers(ids[1..], id);
      assert ids == [ids[0]] + ids[1..];
      var rest := Without(ids[1..], id);
      if Distinct(ids) {
        forall i | 0 <= i < |rest| ensures rest[i] != ids[0] {
          assert rest[i] in ids[1..];
        }
      }
    }
  }

  lemma {:induction false} WithoutConcat(xs: seq<NodeId>, ys: seq<NodeId>, id: NodeId)
    ensures Without(xs + ys, id) == Without(xs, id) + Without(ys, id)
  {
    if xs == [] {
      assert xs + ys == ys;
    } else {
      assert (xs + ys)[1..] == xs[1..] + ys;
      WithoutConcat(xs[1..], ys, id);
    }
  }

  // Removing an id from both lists keeps one a prefix of the other.
  lemma WithoutKeepsPrefix(l: Lists, id: NodeId)
    requires l.recommended <= l.order
    ensures Without(l.recommended, id) <= Without(l.order, id)
  {
    var rest := l.order[|l.recommended|..];
    assert l.order == l.recommended + rest;
    WithoutConcat(l.recommended, rest, id);
  }

  lemma DedupedFacts(ids: Option<seq<NodeId>>)
    ensures Deduped(ids).Some? ==> Distinct(Deduped(ids).value)
    ensures Deduped(ids).Some? ==> Elements(Deduped(ids).value) == Elements(ids.value)
  {
    if ids.Some? {
      DedupeKeepsFirsts(ids.value);
    }
  }

  lemma CanonicalIsPrefix(recommended: seq<NodeId>, order: seq<NodeId>)
    requires CheckPrefix(recommended, order).Accepted?
    ensures CheckPrefix(recommended, order).canonical <= order
    ensures Elements(CheckPrefix(recommended, order).canonical) == Elements(recommended)
  {
    AcceptedIff(recommended, order);
    var k: nat :| TopOf(recommended, order, k);
    assert CheckPrefix(recommended, order) == Accepted(order[..k]);
  }

  lemma NextKeeps(s: State, ev: Event)
    requires Inv(s)
    ensures Inv(Next(s, ev))
  {
    match ev
    case AddNode(id) =>
    case DeleteNode(id) =>
      WithoutMembers(s.lists.order, id);
      WithoutKeepsPrefix(s.lists, id);
    case UpdatePolicy(recommended, order) =>
      DedupedFacts(recommended);
      DedupedFacts(order);
      var wanted, placed := Or(Deduped(recommended), s.lists.recommended), Or(Deduped(order), s.lists.order);
      if CheckPrefix(wanted, placed).Accepted? {
        CanonicalIsPrefix(wanted, placed);
        if recommended.None? && CheckPrefix(wanted, placed).canonical == [] {
          NoElements(s.lists.recommended);
        }
      }
  }

  lemma NoElements(ids: seq<NodeId>)
    ensures Elements(ids) == {} <==> ids == []
  {
    if ids != [] {
      assert ids[0] in Elements(ids);
    }
  }

  // In every run of policy updates and node deletions the stored recommended
  // list is exactly a prefix of the stored order.
  lemma {:induction false} RunKeepsPrefix(s: State, events: seq<Event>)
    requires Inv(s)
    ensures Run(s, events).lists.recommended <= Run(s, events).lists.order
    ensures Distinct(Run(s, events).lists.order) && Elements(Run(s, events).lists.order) <= Run(s, events).nodes
    decreases |events|
  {
    if events != [] {
      RunKeepsPrefix(s, events[..|events| - 1]);
      NextKeeps(Run(s, events[..|events| - 1]), events[|events| - 1]);
    }
  }

  // An update of known nodes takes effect exactly when the recommended set it
  // leads to is the top of the order it leads to; then both are stored as asked.
  // A reorder alone never changes which servers are recommended.
  lemma UpdateStoresOrRefuses(s: State, recommended: Option<seq<NodeId>>, order: Option<seq<NodeId>>)
    requires Inv(s) && AllKnown(recommended, s.nodes) && AllKnown(order, s.nodes)
    requires recommended.Some? || order.Some?
    ensures var wanted, placed := Or(recommended, s.lists.recommended), Or(Deduped(order), s.lists.order);
      var after := Update(s.lists, s.nodes, recommended, order);
      if exists k: nat :: TopOf(wanted, placed, k)
      then after.order == placed && Elements(after.recommended) == Elements(wanted)
      else after == s.lists
  {
    DedupedFacts(recommended);
    DedupedFacts(order);
    var wanted, placed := Or(Deduped(recommended), s.lists.recommended), Or(Deduped(order), s.lists.order);
    AcceptedIff(wanted, placed);
    assert Elements(wanted) == Elements(Or(recommended, s.lists.recommended));
    assert forall k: nat :: TopOf(wanted, placed, k) <==> TopOf(Or(recommended, s.lists.recommended), placed, k);
    if CheckPrefix(wanted, placed).Accepted? {
      CanonicalIsPrefix(wanted, placed);
      NoElements(CheckPrefix(wanted, placed).canonical);
      NoElements(s.lists.recommended);
    }
  }

  // ---- The policy row -----------------------------------------------------------------------

  class PolicyRow {
    var recommended: seq<NodeId>
    var order: seq<NodeId>

    constructor ()
      ensures recommended == [] && order == []
    {
      recommended, order := [], [];
    }

    function Contents(): Lists
      reads this
    {
      Lists(recommended, order)
    }

    method Save(nodes: set<NodeId>, newRecommended: Option<seq<NodeId>>, newOrder: Option<seq<NodeId>>)
      modifies this
      ensures Contents() == Update(old(Contents()), nodes, newRecommended, newOrder)
    {
      var wanted, placed := Deduped(newRecommended), Deduped(newOrder);
      if !AllKnown(wanted, nodes) || !AllKnown(placed, nodes) {
        return;
      }
      if newRecommended.Some? || newOrder.Some? {
        var check := CheckRecommendedPrefix(Or(wanted, recommended), Or(placed, order));
        if !check.Accepted? {
          return;
        }
        if newOrder.Some? {
          order := placed.value;
        }
        if newRecommended.Some? || check.canonical != [] {
          recommended := check.canonical;
        }
      }
    }

    method Scrub(node: NodeId)
      modifies this
      ensures Contents() == Lists(Without(old(recommended), node), Without(old(order), node))
    {
      if node in recommended || node in order {
        recommended, order := Without(recommended, node), Without(order, node);
      } else {
        WithoutAbsent(recommended, node);
        WithoutAbsent(order, node);
      }
    }
  }

  lemma {:induction false} WithoutAbsent(ids: seq<NodeId>, id: NodeId)
    requires id !in ids
    ensures Without(ids, id) == ids
  {
    if ids != [] {
      assert ids == [ids[0]] + ids[1..];
      WithoutAbsent(ids[1..], id);
    }
  }
}
