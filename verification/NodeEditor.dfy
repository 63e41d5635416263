// The editor of the server order. Recommending is a count from the top: a tick
// raises a server to the bottom of the recommended block, an untick drops it
// just below the shrunken block.
module NodeEditor {
  import opened Options
  import opened NodeOrder
  import opened NodeLists

  datatype Change = Change(order: seq<NodeId>, recommended: seq<NodeId>)

  function Clamp(low: int, x: int, high: int): int {
    if x < low then low else if high < x then high else x
  }

  // Taken out at `from`, put back at `to`.
  function Moved(ids: seq<NodeId>, from: nat, to: nat): seq<NodeId>
    requires from < |ids| && to < |ids|
  {
    var rest := ids[..from] + ids[from + 1..];
    rest[..to] + [ids[from]] + rest[to..]
  }

  function MoveToIndex(ids: seq<NodeId>, id: NodeId, target: int): seq<NodeId> {
    if id !in ids then ids else Moved(ids, FirstIndex(ids, id), Clamp(0, target, |ids| - 1))
  }

  function MoveInOrder(ids: seq<NodeId>, id: NodeId, delta: int): seq<NodeId> {
    if id in ids && 0 <= FirstIndex(ids, id) + delta < |ids| then
      var from, to := FirstIndex(ids, id), FirstIndex(ids, id) + delta;
      ids[from := ids[to]][to := ids[from]]
    else ids
  }

  function CountFromTop(ids: seq<NodeId>, recommended: seq<NodeId>): (k: nat)
    ensures k <= |ids| && (forall j :: 0 <= j < k ==> ids[j] in recommended)
    ensures k < |ids| ==> ids[k] !in recommended
  {
    if ids == [] || ids[0] !in recommended then 0 else 1 + CountFromTop(ids[1..], recommended)
  }

  function RecommendedPrefix(ids: seq<NodeId>, count: int): seq<NodeId> {
    ids[..Clamp(0, count, |ids|)]
  }

  function Settle(ids: seq<NodeId>, count: int): Change {
    Change(ids, RecommendedPrefix(ids, count))
  }

  function Recommend(ids: seq<NodeId>, count: int, id: NodeId): Change {
    if id !in ids || FirstIndex(ids, id) < count then Settle(ids, count)
    else Settle(MoveToIndex(ids, id, count), count + 1)
  }

  function Unrecommend(ids: seq<NodeId>, count: int, id: NodeId): Change {
    if id !in ids || FirstIndex(ids, id) >= count then Settle(ids, count)
    else Settle(MoveToIndex(ids, id, count - 1), count - 1)
  }

  // ---- The program -----------------------------------------------------------------

  method MoveNodeToIndex(ids: seq<NodeId>, id: NodeId, targetIndex: int) returns (next: seq<NodeId>)
    ensures next == MoveToIndex(ids, id, targetIndex)
  {
    if id !in ids {
      return ids;
    }
    var from := FirstIndex(ids, id);
    var to := Clamp(0, targetIndex, |ids| - 1);
    next := ids;
    if to == from {
      MovedNowhere(ids, from);
      return;
    }
    next := next[..from] + next[from + 1..];
    next := next[..to] + [id] + next[to..];
  }

  lemma MovedNowhere(ids: seq<NodeId>, from: nat)
    requires from < |ids|
    ensures Moved(ids, from, from) == ids
  {
    var rest := ids[..from] + ids[from + 1..];
    assert rest[..from] == ids[..from] && rest[from..] == ids[from + 1..];
  }

  method MoveNodeInOrder(ids: seq<NodeId>, id: NodeId, delta: int) returns (next: seq<NodeId>)
    requires delta == -1 || delta == 1
    ensures next == if id in ids && 0 <= FirstIndex(ids, id) + delta < |ids|
                    then MoveToIndex(ids, id, FirstIndex(ids, id) + delta) else ids
  {
    next := ids;
    if id in ids {
      var from := FirstIndex(ids, id);
      var to := from + delta;
      if 0 <= to < |ids| {
        var moved, displaced := next[from], next[to];
        next := next[from := displaced];
        next := next[to := moved];
        StepIsShortDrag(ids, id, delta);
      }
    }
  }

  // One step up or down is a drag by one.
  lemma StepIsShortDrag(ids: seq<NodeId>, id: NodeId, delta: int)
    requires (delta == -1 || delta == 1) && id in ids && 0 <= FirstIndex(ids, id) + delta < |ids|
    ensures MoveInOrder(ids, id, delta) == MoveToIndex(ids, id, FirstIndex(ids, id) + delta)
  {
    var from, to := FirstIndex(ids, id), FirstIndex(ids, id) + delta;
    var a, b := MoveInOrder(ids, id, delta), Moved(ids, from, to);
    forall k | 0 <= k < |ids| ensures a[k] == b[k] {
      MovedAt(ids, from, to, k);
    }
    assert a == b;
  }

  lemma MovedAt(ids: seq<NodeId>, from: nat, to: nat, k: nat)
    requires from < |ids| && to < |ids| && k < |ids|
    ensures |Moved(ids, from, to)| == |ids|
    ensures Moved(ids, from, to)[k] ==
      if k == to then ids[from]
      else if from <= k < to then ids[k + 1]
      else if to < k <= from then ids[k - 1]
      else ids[k]
  {}

  method RecommendedCountFromIds(ids: seq<NodeId>, recommended: seq<NodeId>) returns (count: nat)
    ensures count == CountFromTop(ids, recommended)
  {
    count := 0;
    while count < |ids| && ids[count] in recommended
      invariant count <= |ids|
      invariant count + CountFromTop(ids[count..], recommended) == CountFromTop(ids, recommended)
    {
      assert ids[count..][1..] == ids[count + 1..];
      count := count + 1;
    }
  }

  // ---- What a move keeps ---------------------------------------------------------------

  ghost predicate Permutes(xs: seq<NodeId>, ys: seq<NodeId>) {
    Distinct(xs) && |xs| == |ys| && Elements(xs) == Elements(ys)
  }

  lemma {:induction false} WithoutAt(ids: seq<NodeId>, i: nat)
    requires Distinct(ids) && i < |ids|
    ensures Without(ids, ids[i]) == ids[..i] + ids[i + 1..]
  {
    var rest := ids[1..];
    if i == 0 {
      assert ids[..0] + ids[1..] == rest;
      assert forall k :: 0 <= k < |rest| ==> rest[k] == ids[k + 1];
      WithoutAbsent(rest, ids[0]);
    } else {
      assert rest[i - 1] == ids[i];
      WithoutAt(rest, i - 1);
      assert ids[..i] + ids[i + 1..] == [ids[0]] + (rest[..i - 1] + rest[i..]);
    }
  }

  lemma MovedElements(ids: seq<NodeId>, from: nat, to: nat)
    requires from < |ids| && to < |ids|
    ensures Elements(Moved(ids, from, to)) == Elements(ids)
  {
    var out, rest := Moved(ids, from, to), ids[..from] + ids[from + 1..];
    assert forall x :: x in ids <==> x == ids[from] || x in rest by {
      assert ids == ids[..from] + [ids[from]] + ids[from + 1..];
    }
    assert rest == rest[..to] + rest[to..];
    forall x ensures x in out <==> x in ids {
      assert x in out <==> x == ids[from] || x in rest[..to] || x in rest[to..];
    }
  }

  lemma TakenOutAgain(rest: seq<NodeId>, id: NodeId, to: nat)
    requires to <= |rest|
    ensures var out := rest[..to] + [id] + rest[to..];
      |out| == |rest| + 1 && out[to] == id && out[..to] + out[to + 1..] == rest
  {}

  lemma MovedWithout(ids: seq<NodeId>, from: nat, to: nat)
    requires Distinct(ids) && from < |ids| && to < |ids|
    ensures Without(Moved(ids, from, to), ids[from]) == Without(ids, ids[from])
  {
    DistinctMoved(ids, from, to);
    WithoutAt(ids, from);
    WithoutAt(Moved(ids, from, to), to);
    TakenOutAgain(ids[..from] + ids[from + 1..], ids[from], to);
  }

  // The moved id lands where asked (clamped), the others keep their sequence.
  lemma MoveExact(ids: seq<NodeId>, id: NodeId, target: int)
    requires Distinct(ids) && id in ids
    ensures var out := MoveToIndex(ids, id, target);
      && Permutes(out, ids) && out[Clamp(0, target, |ids| - 1)] == id && Without(out, id) == Without(ids, id)
  {
    var from, to := FirstIndex(ids, id), Clamp(0, target, |ids| - 1);
    DistinctMoved(ids, from, to);
    MovedElements(ids, from, to);
    MovedWithout(ids, from, to);
  }

  // Where each entry of the moved list comes from.
  function Source(from: nat, to: nat, k: nat): int {
    if k == to then from else if from <= k < to then k + 1 else if to < k <= from then k - 1 else k
  }

  lemma DistinctMoved(ids: seq<NodeId>, from: nat, to: nat)
    requires Distinct(ids) && from < |ids| && to < |ids|
    ensures Distinct(Moved(ids, from, to)) && Moved(ids, from, to)[to] == ids[from]
  {
    var out := Moved(ids, from, to);
    forall i, j | 0 <= i < j < |out| ensures out[i] != out[j] {
      MovedAt(ids, from, to, i);
      MovedAt(ids, from, to, j);
      assert out[i] == ids[Source(from, to, i)] && out[j] == ids[Source(from, to, j)];
    }
  }

  // ---- Ticking and unticking -----------------------------------------------------------------

  // A raised id joins the entries above it.
  lemma RaisedPrefix(ids: seq<NodeId>, from: nat, to: nat)
    requires to <= from < |ids|
    ensures Moved(ids, from, to)[..to] == ids[..to] && Moved(ids, from, to)[..to + 1] == ids[..to] + [ids[from]]
  {}

  lemma DroppedPrefix(ids: seq<NodeId>, from: nat, to: nat)
    requires from <= to < |ids|
    ensures Moved(ids, from, to)[..to] == ids[..from] + ids[from + 1..to + 1]
  {}

  // Ticking emits a permutation and a prefix, recommends the ticked server and
  // changes nothing about the others: neither recommendation nor sequence.
  lemma RecommendExact(ids: seq<NodeId>, count: nat, id: NodeId)
    requires Distinct(ids) && count <= |ids|
    ensures var c := Recommend(ids, count, id);
      && Permutes(c.order, ids) && c.recommended <= c.order && Without(c.order, id) == Without(ids, id)
      && Elements(c.recommended) == Elements(ids[..count]) + if id in ids then {id} else {}
  {
    if id in ids && FirstIndex(ids, id) >= count {
      MoveExact(ids, id, count);
      RaisedPrefix(ids, FirstIndex(ids, id), count);
    } else if id in ids {
      assert ids[FirstIndex(ids, id)] in ids[..count];
    }
  }

  lemma DroppedElements(ids: seq<NodeId>, from: nat, count: nat)
    requires Distinct(ids) && from < count <= |ids|
    ensures Elements(Moved(ids, from, count - 1)[..count - 1]) == Elements(ids[..count]) - {ids[from]}
  {
    DroppedPrefix(ids, from, count - 1);
    var above, below := ids[..from], ids[from + 1..count];
    assert ids[..count] == above + [ids[from]] + below;
    forall x ensures x in above + below <==> x in ids[..count] && x != ids[from] {
      assert x in above + below <==> x in above || x in below;
      assert x in ids[..count] <==> x in above || x == ids[from] || x in below;
    }
  }

  lemma NotInPrefix(ids: seq<NodeId>, count: nat, id: NodeId)
    requires count <= |ids| && (id in ids ==> FirstIndex(ids, id) >= count)
    ensures id !in ids[..count]
  {
    if id in ids {
      assert ids[..count] == ids[..FirstIndex(ids, id)][..count];
    }
  }

  lemma UntickLowers(ids: seq<NodeId>, count: nat, id: NodeId)
    requires Distinct(ids) && count <= |ids| && id in ids && FirstIndex(ids, id) < count
    ensures var order := MoveToIndex(ids, id, count - 1);
      Unrecommend(ids, count, id) == Change(order, order[..count - 1]) && Permutes(order, ids)
      && Without(order, id) == Without(ids, id) && Elements(order[..count - 1]) == Elements(ids[..count]) - {id}
  {
    MoveExact(ids, id, count - 1);
    DroppedElements(ids, FirstIndex(ids, id), count);
  }

  lemma UntickNothing(ids: seq<NodeId>, count: nat, id: NodeId)
    requires count <= |ids| && (id in ids ==> FirstIndex(ids, id) >= count)
    ensures Unrecommend(ids, count, id) == Change(ids, ids[..count]) && Elements(ids[..count]) == Elements(ids[..count]) - {id}
  {
    NotInPrefix(ids, count, id);
  }

  // Unticking likewise withdraws the recommendation of that server only.
  lemma UnrecommendExact(ids: seq<NodeId>, count: nat, id: NodeId)
    requires Distinct(ids) && count <= |ids|
    ensures var c := Unrecommend(ids, count, id);
      && Permutes(c.order, ids) && c.recommended <= c.order && Without(c.order, id) == Without(ids, id)
      && Elements(c.recommended) == Elements(ids[..count]) - {id}
  {
    if id in ids && FirstIndex(ids, id) < count {
      UntickLowers(ids, count, id);
    } else {
      UntickNothing(ids, count, id);
    }
  }

  lemma FoundAt(ids: seq<NodeId>, i: nat)
    requires Distinct(ids) && i < |ids|
    ensures ids[i] in ids && FirstIndex(ids, ids[i]) == i
  {
    assert ids[i] !in ids[..i];
    FirstIndexIs(ids, i);
  }

  lemma TickRaises(ids: seq<NodeId>, count: nat, id: NodeId)
    requires count <= |ids| && id in ids && FirstIndex(ids, id) >= count
    ensures var from := FirstIndex(ids, id);
      Recommend(ids, count, id) == Change(Moved(ids, from, count), ids[..count] + [id])
  {
    RaisedPrefix(ids, FirstIndex(ids, id), count);
  }

  lemma UntickInPlace(ids: seq<NodeId>, i: nat)
    requires Distinct(ids) && i < |ids|
    ensures Unrecommend(ids, i + 1, ids[i]) == Change(ids, ids[..i])
  {
    FoundAt(ids, i);
    MovedNowhere(ids, i);
  }

  lemma TickInPlace(ids: seq<NodeId>, i: nat)
    requires Distinct(ids) && i < |ids|
    ensures Recommend(ids, i, ids[i]) == Change(ids, ids[..i + 1])
  {
    FoundAt(ids, i);
    MovedNowhere(ids, i);
  }

  lemma MovesNowhereIff(ids: seq<NodeId>, from: nat, to: nat)
    requires Distinct(ids) && from < |ids| && to < |ids|
    ensures Moved(ids, from, to) == ids <==> from == to
  {
    DistinctMoved(ids, from, to);
    MovedNowhere(ids, from);
  }

  // Unticking right after ticking restores the recommended list, and the order
  // too exactly when the tick moved nothing.
  lemma UntickAfterTick(ids: seq<NodeId>, count: nat, id: NodeId)
    requires Distinct(ids) && count <= |ids| && id in ids && FirstIndex(ids, id) >= count
    ensures var tick := Recommend(ids, count, id);
      var untick := Unrecommend(tick.order, |tick.recommended|, id);
      && untick.recommended == ids[..count] && untick.order == tick.order
      && (untick.order == ids <==> FirstIndex(ids, id) == count)
  {
    var from := FirstIndex(ids, id);
    var out := Moved(ids, from, count);
    TickRaises(ids, count, id);
    RaisedPrefix(ids, from, count);
    DistinctMoved(ids, from, count);
    UntickInPlace(out, count);
    MovesNowhereIff(ids, from, count);
  }

  lemma UntickDrops(ids: seq<NodeId>, count: nat, id: NodeId)
    requires Distinct(ids) && count <= |ids| && id in ids && FirstIndex(ids, id) < count
    ensures var out := Moved(ids, FirstIndex(ids, id), count - 1);
      Unrecommend(ids, count, id) == Change(out, out[..count - 1]) && Distinct(out) && out[count - 1] == id
  {
    DistinctMoved(ids, FirstIndex(ids, id), count - 1);
  }

  lemma TickBack(ids: seq<NodeId>, from: nat, count: nat)
    requires Distinct(ids) && from < count <= |ids|
    ensures var out := Moved(ids, from, count - 1);
      var tick := Recommend(out, count - 1, ids[from]);
      && Elements(tick.recommended) == Elements(ids[..count])
      && (tick.recommended == ids[..count] <==> from == count - 1)
  {
    var out := Moved(ids, from, count - 1);
    DistinctMoved(ids, from, count - 1);
    TickInPlace(out, count - 1);
    OneMore(out, count - 1);
    DroppedElements(ids, from, count);
    assert ids[..count][from] == ids[from];
    SameTopIff(ids, from, count - 1);
  }

  // Ticking right after unticking restores the recommended set, and the list
  // exactly when the server was the last recommended one.
  lemma TickAfterUntick(ids: seq<NodeId>, count: nat, id: NodeId)
    requires Distinct(ids) && count <= |ids| && id in ids && FirstIndex(ids, id) < count
    ensures var untick := Unrecommend(ids, count, id);
      var tick := Recommend(untick.order, |untick.recommended|, id);
      && Elements(tick.recommended) == Elements(ids[..count])
      && (tick.recommended == ids[..count] <==> FirstIndex(ids, id) == count - 1)
  {
    UntickDrops(ids, count, id);
    TickBack(ids, FirstIndex(ids, id), count);
  }

  lemma OneMore(ids: seq<NodeId>, i: nat)
    requires i < |ids|
    ensures Elements(ids[..i + 1]) == Elements(ids[..i]) + {ids[i]}
  {
    assert ids[..i + 1] == ids[..i] + [ids[i]];
  }

  lemma SameTopIff(ids: seq<NodeId>, from: nat, i: nat)
    requires Distinct(ids) && from <= i < |ids|
    ensures Moved(ids, from, i)[..i + 1] == ids[..i + 1] <==> from == i
  {
    MovedNowhere(ids, i);
    assert Moved(ids, from, i)[..i + 1][i] == ids[from];
    assert ids[..i + 1][i] == ids[i];
  }

  // ---- The editor and the API agree -------------------------------------------------------------

  // A full order and a prefix of it are stored as sent.
  lemma SaveIsStored(l: Lists, nodes: set<NodeId>, c: Change)
    requires Distinct(c.order) && c.recommended <= c.order && Elements(c.order) <= nodes
    ensures Update(l, nodes, Some(c.recommended), Some(c.order)) == Lists(c.recommended, c.order)
  {
    var k := |c.recommended|;
    assert c.order[..k] == c.recommended;
    assert Distinct(c.recommended);
    DedupeOfDistinct(c.order);
    DedupeOfDistinct(c.recommended);
    assert TopOf(c.recommended, c.order, k);
    AcceptedIff(c.recommended, c.order);
    assert forall id :: id in c.recommended ==> id in c.order;
  }

  lemma {:induction false} DedupeOfDistinct(ids: seq<NodeId>)
    requires Distinct(ids)
    ensures Dedupe(ids) == ids
    decreases |ids|
  {
    if ids != [] {
      DedupeOfDistinct(ids[..|ids| - 1]);
      assert ids == ids[..|ids| - 1] + [ids[|ids| - 1]];
    }
  }

  // Stored lists are shown as stored: the count read from them gives the list back.
  lemma StoredCountReadsBack(l: Lists)
    requires l.recommended <= l.order && Distinct(l.order)
    ensures RecommendedPrefix(l.order, CountFromTop(l.order, l.recommended)) == l.recommended
  {
    var k, n := CountFromTop(l.order, l.recommended), |l.recommended|;
    assert l.order[..n] == l.recommended;
    assert forall j :: 0 <= j < n ==> l.order[j] == l.recommended[j] && l.order[j] in l.recommended;
    assert n < |l.order| ==> l.order[n] !in l.recommended;
    assert k == n;
  }

  // The editor opens on every server once, whatever the stored order holds.
  lemma OpensOnEveryServer(rows: seq<Row>, order: seq<NodeId>)
    requires DistinctIds(rows)
    ensures Permutes(Ids(Preview(rows, order)), Ids(rows))
  {
    PreviewIsComplete(rows, order);
    SameMembers(Preview(rows, order), rows);
    forall id ensures id in Ids(Preview(rows, order)) <==> id in Ids(rows) {
      if id in Ids(rows) {
        var i :| 0 <= i < |rows| && rows[i].id == id;
        assert rows[i] in Preview(rows, order);
      }
      if id in Ids(Preview(rows, order)) {
        var i :| 0 <= i < |Preview(rows, order)| && Preview(rows, order)[i].id == id;
        assert Preview(rows, order)[i] in rows;
      }
    }
  }

  lemma {:induction false} PositionedAsListed(rows: seq<Row>, order: seq<NodeId>)
    requires Distinct(order) && forall id :: id in order ==> id in Ids(rows)
    ensures Ids(Positioned(rows, order)) == order
    decreases |order|
  {
    if order != [] {
      var init, id := order[..|order| - 1], order[|order| - 1];
      assert order == init + [id];
      PositionedAsListed(rows, init);
    }
  }

  // An order that lists every server once is shown as it is, so what a gesture
  // emits is what the next gesture starts from.
  lemma FullOrderIsShown(rows: seq<Row>, order: seq<NodeId>)
    requires DistinctIds(rows) && Permutes(order, Ids(rows))
    ensures Ids(Preview(rows, order)) == order
  {
    forall id ensures id in order <==> id in Ids(rows) {
      assert id in Elements(order) <==> id in Elements(Ids(rows));
    }
    PositionedAsListed(rows, order);
    forall r | r in rows ensures r.id in order {
      var i :| 0 <= i < |rows| && rows[i] == r;
      assert Ids(rows)[i] == r.id;
    }
    NothingUnplaced(rows, order);
    assert Sort(Sorting([], false), []) == [];
    assert Preview(rows, order) == Positioned(rows, order) + [];
  }

  lemma {:induction false} NothingUnplaced(rows: seq<Row>, order: seq<NodeId>)
    requires forall r :: r in rows ==> r.id in order
    ensures Unplaced(rows, order) == []
  {
    if rows != [] {
      assert rows[0] in rows;
      assert forall r :: r in rows[1..] ==> r in rows;
      NothingUnplaced(rows[1..], order);
    }
  }

  datatype Gesture = Drag(id: NodeId, target: int) | Step(id: NodeId, delta: int) | Tick(id: NodeId) | Untick(id: NodeId)

  // Every gesture emits the full order and the recommended ids; the next one
  // starts from the count they show.
  function Apply(c: Change, g: Gesture): Change {
    var count := CountFromTop(c.order, c.recommended);
    match g
    case Drag(id, target) => Settle(MoveToIndex(c.order, id, target), count)
    case Step(id, delta) => Settle(MoveInOrder(c.order, id, if delta < 0 then -1 else 1), count)
    case Tick(id) => Recommend(c.order, count, id)
    case Untick(id) => Unrecommend(c.order, count, id)
  }

  function Session(c: Change, gestures: seq<Gesture>): Change
    decreases |gestures|
  {
    if gestures == [] then c else Apply(Session(c, gestures[..|gestures| - 1]), gestures[|gestures| - 1])
  }

  lemma MoveKeeps(c: Change, order: seq<NodeId>)
    requires Distinct(c.order) && c.recommended <= c.order && Permutes(order, c.order)
    ensures var out := Settle(order, CountFromTop(c.order, c.recommended));
      out.order == order && out.recommended <= order && |out.recommended| == |c.recommended|
  {
    StoredCountReadsBack(Lists(c.recommended, c.order));
  }

  lemma GestureKeeps(c: Change, g: Gesture)
    requires Distinct(c.order) && c.recommended <= c.order
    ensures Permutes(Apply(c, g).order, c.order) && Apply(c, g).recommended <= Apply(c, g).order
    ensures g.Drag? || g.Step? ==> |Apply(c, g).recommended| == |c.recommended|
  {
    var count := CountFromTop(c.order, c.recommended);
    match g
    case Drag(id, target) =>
      if id in c.order {
        MoveExact(c.order, id, target);
      }
      MoveKeeps(c, MoveToIndex(c.order, id, target));
    case Step(id, delta) =>
      var shift := if delta < 0 then -1 else 1;
      if id in c.order && 0 <= FirstIndex(c.order, id) + shift < |c.order| {
        StepIsShortDrag(c.order, id, shift);
        MoveExact(c.order, id, FirstIndex(c.order, id) + shift);
      }
      MoveKeeps(c, MoveInOrder(c.order, id, shift));
    case Tick(id) => RecommendExact(c.order, count, id);
    case Untick(id) => UnrecommendExact(c.order, count, id);
  }

  lemma StepMeans(ids: seq<NodeId>, id: NodeId, shift: int)
    requires shift == -1 || shift == 1
    ensures MoveInOrder(ids, id, shift) ==
      if id !in ids then ids
      else if FirstIndex(ids, id) == (if shift < 0 then 0 else |ids| - 1) then ids
      else MoveToIndex(ids, id, FirstIndex(ids, id) + shift)
  {
    if id in ids && 0 <= FirstIndex(ids, id) + shift < |ids| {
      StepIsShortDrag(ids, id, shift);
    }
  }

  lemma CountIs(c: Change)
    requires Distinct(c.order) && c.recommended <= c.order
    ensures CountFromTop(c.order, c.recommended) == |c.recommended|
  {
    StoredCountReadsBack(Lists(c.recommended, c.order));
  }

  // What each gesture is: a move keeps as many recommended as there were, a step
  // is a drag by one and nothing at the edges or for an unknown id, a tick and an
  // untick work on the number recommended.
  lemma GestureMeans(c: Change, g: Gesture)
    requires Distinct(c.order) && c.recommended <= c.order
    ensures var count := |c.recommended|;
      match g
      case Drag(id, target) => Apply(c, g) == Settle(MoveToIndex(c.order, id, target), count)
      case Step(id, delta) =>
        var shift := if delta < 0 then -1 else 1;
        Apply(c, g) ==
          if id !in c.order || FirstIndex(c.order, id) == (if delta < 0 then 0 else |c.order| - 1) then Settle(c.order, count)
          else Settle(MoveToIndex(c.order, id, FirstIndex(c.order, id) + shift), count)
      case Tick(id) => Apply(c, g) == Recommend(c.order, count, id)
      case Untick(id) => Apply(c, g) == Unrecommend(c.order, count, id)
  {
    CountIs(c);
    if g.Step? {
      StepMeans(c.order, g.id, if g.delta < 0 then -1 else 1);
    }
  }

  // Settling an order emits it with its top recommended.
  lemma SettleMeans(order: seq<NodeId>, count: nat)
    requires count <= |order|
    ensures Settle(order, count) == Change(order, order[..count])
  {}

  // A session is one gesture after another.
  lemma SessionStep(c: Change, gestures: seq<Gesture>, g: Gesture)
    ensures Session(c, []) == c && Session(c, gestures + [g]) == Apply(Session(c, gestures), g)
  {
    assert (gestures + [g])[..|gestures|] == gestures;
  }

  // Whatever the administrator drags, steps, ticks and unticks, what the editor
  // would save is a permutation of the servers with a prefix recommended, and
  // the API stores exactly that.
  lemma {:induction false} SessionIsStored(l: Lists, nodes: set<NodeId>, c: Change, gestures: seq<Gesture>)
    requires Distinct(c.order) && c.recommended <= c.order && Elements(c.order) <= nodes
    ensures var out := Session(c, gestures);
      && Permutes(out.order, c.order) && out.recommended <= out.order
      && Update(l, nodes, Some(out.recommended), Some(out.order)) == Lists(out.recommended, out.order)
    decreases |gestures|
  {
    if gestures != [] {
      SessionIsStored(l, nodes, c, gestures[..|gestures| - 1]);
      GestureKeeps(Session(c, gestures[..|gestures| - 1]), gestures[|gestures| - 1]);
    }
    SaveIsStored(l, nodes, Session(c, gestures));
  }
}
